/**
 * The string logic of `parse_bibtex`: the bibliography text is cut at every
 * "\n@", and each record is sliced with `find` into its reference type, its key
 * and its `name = value` lines. Nothing here fails: a missing `{` or `,` makes
 * `find` return -1 and the slices are taken anyway.
 */
module Bibtex {
  import opened PyStr

  /** The fields of one record; `reference_type` is among them. */
  type Entry = map<string, string>

  /** Citation key to record. */
  type Bibliography = map<string, Entry>

  const RECORD_START := "\n@"
  const REFERENCE_TYPE := "reference_type"

  /** One trailing "}," or, failing that, one trailing "}" removed from a field value. */
  function TrimClosingBrace(v: string): (r: string)
    ensures EndsWith(v, "},") ==> r + "}," == v
    ensures !EndsWith(v, "},") && EndsWith(v, "}") ==> r + "}" == v
    ensures !EndsWith(v, "},") && !EndsWith(v, "}") ==> r == v
  {
    if EndsWith(v, "},") then v[..|v| - 2]
    else if EndsWith(v, "}") then v[..|v| - 1]
    else v
  }

  /** A field line: the name is what precedes the first `=`, the value starts three characters after it. */
  function ParseField(line: string): (r: (string, string))
    ensures r.0 == [] || (!IsSpace(r.0[0]) && !IsSpace(r.0[|r.0| - 1]))
  {
    var eq := Find(line, "=");
    (Strip(Slice(line, 0, eq)), TrimClosingBrace(Strip(Slice(line, eq + 3, |line|))))
  }

  /** Dictionary assignments in order: a later pair with the same key replaces an earlier one. */
  function ToMap<V>(pairs: seq<(string, V)>): (r: map<string, V>)
    ensures forall k :: k in r ==> exists i :: 0 <= i < |pairs| && pairs[i] == (k, r[k])
  {
    if pairs == [] then map[]
    else
      var last := pairs[|pairs| - 1];
      ToMap(pairs[..|pairs| - 1])[last.0 := last.1]
  }

  /** `part.splitlines()[1:-1]`: every line but the first and the last. */
  function BodyLines(part: string): (r: seq<string>)
    ensures forall i :: 0 <= i < |r| ==> NoLineBoundary(r[i])
  {
    var lines := SplitLines(part);
    SplitLinesSpec(part);
    if |lines| <= 2 then [] else lines[1..|lines| - 1]
  }

  /** The (name, value) pair of every body line, in order. */
  function FieldPairs(lines: seq<string>): (pairs: seq<(string, string)>)
    ensures |pairs| == |lines|
  {
    seq(|lines|, i requires 0 <= i < |lines| => ParseField(lines[i]))
  }

  /** One record: its key and its fields, with `reference_type` written last so it overrides a field of that name. */
  function ParseRecord(part: string): (r: (string, Entry))
    ensures REFERENCE_TYPE in r.1 && r.1[REFERENCE_TYPE] <= part
  {
    var open := Find(part, "{");
    var comma := Find(part, ",");
    (Slice(part, open + 1, comma), ToMap(FieldPairs(BodyLines(part)))[REFERENCE_TYPE := Slice(part, 0, open)])
  }

  /** The (key, entry) pair of every record text, in order. */
  function RecordPairs(parts: seq<string>): (records: seq<(string, Entry)>)
    ensures |records| == |parts|
  {
    seq(|parts|, i requires 0 <= i < |parts| => ParseRecord(parts[i]))
  }

  /** The pieces of a bibliography text that are records: everything after the first "\n@". */
  function RecordTexts(content: string): (r: seq<string>)
    ensures forall i :: 0 <= i < |r| ==> Find(r[i], RECORD_START) == -1
  {
    SplitSpec(content, RECORD_START);
    Split(content, RECORD_START)[1..]
  }

  /** The bibliography of a whole text. */
  function Parse(content: string): (r: Bibliography)
    ensures forall key :: key in r ==> REFERENCE_TYPE in r[key]
  {
    ToMap(RecordPairs(RecordTexts(content)))
  }

  /** One more dictionary assignment. */
  lemma ToMapSnoc<V>(pairs: seq<(string, V)>, k: nat)
    requires k < |pairs|
    ensures ToMap(pairs[..k + 1]) == ToMap(pairs[..k])[pairs[k].0 := pairs[k].1]
  {
    assert pairs[..k + 1][..k] == pairs[..k];
  }

  /** The inner loop of `parse_bibtex`: the fields of one record, line by line. */
  method ParseFields(entries: seq<string>) returns (attributes: Entry)
    ensures attributes == ToMap(FieldPairs(entries))
  {
    ghost var pairs := FieldPairs(entries);
    attributes := map[];
    for k := 0 to |entries|
      invariant attributes == ToMap(pairs[..k])
    {
      var line := entries[k];
      var eq := Find(line, "=");
      var key := Strip(Slice(line, 0, eq));
      var value := Strip(Slice(line, eq + 3, |line|));
      if EndsWith(value, "},") {
        value := value[..|value| - 2];
      } else if EndsWith(value, "}") {
        value := value[..|value| - 1];
      }
      assert pairs[k] == (key, value);
      ToMapSnoc(pairs, k);
      attributes := attributes[key := value];
    }
    assert pairs[..|entries|] == pairs;
  }

  /** `parse_bibtex` after the file has been read: fills the dictionary record by record. */
  method ParseBibtex(content: string) returns (bibliography: Bibliography)
    ensures bibliography == Parse(content)
  {
    var parts := Split(content, RECORD_START)[1..];
    ghost var records := RecordPairs(parts);
    bibliography := map[];
    for n := 0 to |parts|
      invariant bibliography == ToMap(records[..n])
    {
      var part := parts[n];
      var open := Find(part, "{");
      var comma := Find(part, ",");
      var refType := Slice(part, 0, open);
      var refKey := Slice(part, open + 1, comma);
      var attributes := ParseFields(BodyLines(part));
      attributes := attributes[REFERENCE_TYPE := refType];
      assert records[n] == (refKey, attributes);
      ToMapSnoc(records, n);
      bibliography := bibliography[refKey := attributes];
    }
    assert records[..|parts|] == records;
  }

  /**
   * A well-formed header `type{key,` yields that key, and `reference_type` is
   * the type whatever the record's lines say.
   */
  lemma RecordKeyAndType(refType: string, key: string, rest: string)
    requires forall i :: 0 <= i < |refType| ==> refType[i] != '{' && refType[i] != ','
    requires forall i :: 0 <= i < |key| ==> key[i] != ','
    ensures ParseRecord(refType + "{" + key + "," + rest).0 == key
    ensures ParseRecord(refType + "{" + key + "," + rest).1[REFERENCE_TYPE] == refType
  {
    var part := refType + "{" + key + "," + rest;
    FindChar(part, '{', |refType|);
    FindChar(part, ',', |refType| + 1 + |key|);
    SliceSpec(part, 0, |refType|);
    SliceSpec(part, |refType| + 1, |refType| + 1 + |key|);
    assert part[..|refType|] == refType;
    assert part[|refType| + 1..|refType| + 1 + |key|] == key;
  }

  /** Without a `{`, `find` gives -1 and `part[:-1]` makes the reference type everything but the last character. */
  lemma RecordWithoutBrace(part: string)
    requires |part| >= 1
    requires forall i :: 0 <= i < |part| ==> part[i] != '{'
    ensures ParseRecord(part).1[REFERENCE_TYPE] == part[..|part| - 1]
    ensures ParseRecord(part).0 == Slice(part, 0, Find(part, ","))
  {
    FindCharAbsent(part, '{');
    SliceSpec(part, 0, -1);
  }

  /** A line `lead`, then `=` and two more characters, then a value with visible ends: the name is the stripped lead. */
  lemma FieldLine(lead: string, gap: string, v: string)
    requires forall i :: 0 <= i < |lead| ==> lead[i] != '='
    requires |gap| == 3 && gap[0] == '='
    requires v != [] && !IsSpace(v[0]) && !IsSpace(v[|v| - 1])
    ensures ParseField(lead + gap + v) == (Strip(lead), TrimClosingBrace(v))
  {
    var line := lead + gap + v;
    assert line[..|lead|] == lead;
    assert line[|lead|] == '=';
    assert forall j :: 0 <= j < |lead| ==> line[j] == lead[j];
    FindChar(line, '=', |lead|);
    SliceSpec(line, 0, |lead|);
    SliceSpec(line, |lead| + 3, |line|);
    assert line[|lead| + 3..|line|] == v;
    StripUnchanged(v);
  }

  /** A braced line `name = {value},` gives the stripped name and the value exactly. */
  lemma BracedField(lead: string, value: string)
    requires forall i :: 0 <= i < |lead| ==> lead[i] != '='
    requires value != [] && !IsSpace(value[0])
    ensures ParseField(lead + "= {" + value + "},") == (Strip(lead), value)
  {
    var v := value + "},";
    AppendAssociative(lead + "= {", value, "},");
    FieldLine(lead, "= {", v);
    assert EndsWith(v, "},");
    assert v[..|v| - 2] == value;
  }

  /** A quoted line `name = "value",` keeps its closing quote and comma: only braces are trimmed. */
  lemma QuotedFieldKeepsQuote(lead: string, value: string)
    requires forall i :: 0 <= i < |lead| ==> lead[i] != '='
    requires value != [] && !IsSpace(value[0])
    ensures ParseField(lead + "= \"" + value + "\",") == (Strip(lead), value + "\",")
  {
    var v := value + "\",";
    AppendAssociative(lead + "= \"", value, "\",");
    FieldLine(lead, "= \"", v);
    assert !EndsWith(v, "},") by {
      assert v[|v| - 2] == '"';
    }
    assert !EndsWith(v, "}") by {
      assert v[|v| - 1] == ',';
    }
  }

  /** The value of a key is the one from the last pair that carries that key. */
  lemma {:induction false} LastPairWins<V>(pairs: seq<(string, V)>, i: int)
    requires 0 <= i < |pairs|
    requires forall j :: i < j < |pairs| ==> pairs[j].0 != pairs[i].0
    ensures pairs[i].0 in ToMap(pairs)
    ensures ToMap(pairs)[pairs[i].0] == pairs[i].1
  {
    var n := |pairs|;
    if i < n - 1 {
      var prefix := pairs[..n - 1];
      assert prefix[i] == pairs[i];
      forall j | i < j < |prefix| ensures prefix[j].0 != prefix[i].0 {
        assert prefix[j] == pairs[j];
      }
      LastPairWins(prefix, i);
    }
  }

  /** A key is in the dictionary exactly when some pair carries it. */
  lemma {:induction false} ToMapKeys<V>(pairs: seq<(string, V)>, key: string)
    ensures key in ToMap(pairs) <==> exists j :: 0 <= j < |pairs| && pairs[j].0 == key
  {
    if pairs != [] {
      var n := |pairs|;
      var prefix := pairs[..n - 1];
      ToMapKeys(prefix, key);
      if exists j :: 0 <= j < |prefix| && prefix[j].0 == key {
        var j :| 0 <= j < |prefix| && prefix[j].0 == key;
        assert pairs[j] == prefix[j];
      }
    }
  }

  /** Text before the first "\n@" contributes nothing: the records are the pieces after it. */
  lemma PreambleIgnored(preamble: string, rest: string)
    requires Find(preamble, RECORD_START) == -1
    ensures RecordTexts(preamble + RECORD_START + rest) == Split(rest, RECORD_START)
  {
    var s := preamble + RECORD_START + rest;
    var p := |preamble|;
    FindSpec(preamble, RECORD_START);
    FindSpec(s, RECORD_START);
    assert OccursAt(s, RECORD_START, p) by {
      assert s[p..p + 2] == RECORD_START;
    }
    forall i | 0 <= i < p ensures !OccursAt(s, RECORD_START, i) {
      if i + 2 <= p {
        assert !OccursAt(preamble, RECORD_START, i);
        assert s[i..i + 2] == preamble[i..i + 2];
      } else {
        assert s[i..i + 2][1] == '\n' != RECORD_START[1];
      }
    }
    assert Find(s, RECORD_START) == p;
    assert s[p + 2..] == rest;
  }
}
