/**
 * The citation registry of the parser (`citation_counter`, `citation_map`,
 * `citation_map_reverse`) and the footnote footer written from it.
 *
 * `citation_map` is a Python dictionary that is only assigned to and then
 * iterated, so it is kept as its insertion-ordered list of (id, entry) pairs;
 * `citation_map_reverse` is only looked up, so it is a map.
 */
module Citations {
  import opened Wrappers
  import opened Errors
  import opened PyStr
  import opened Bibtex

  datatype Registry = Registry(counter: int, entries: seq<(int, Entry)>, ids: map<string, int>)

  /** The registry of a fresh parser: nothing cited, the counter at the configured start. */
  function EmptyRegistry(start: int): Registry
  {
    Registry(start, [], map[])
  }

  /** The ids of an insertion-ordered dictionary. */
  function Ids(d: seq<(int, Entry)>): (keys: seq<int>)
    ensures |keys| == |d|
    ensures forall i :: 0 <= i < |d| ==> keys[i] == d[i].0
  {
    seq(|d|, i requires 0 <= i < |d| => d[i].0)
  }

  /** `d[k] = v` on an insertion-ordered dictionary: an existing key keeps its place, a new one goes last. */
  function DictSet(d: seq<(int, Entry)>, k: int, v: Entry): (r: seq<(int, Entry)>)
    ensures Ids(r) == if k in Ids(d) then Ids(d) else Ids(d) + [k]
    ensures (k, v) in r
  {
    if d == [] then [(k, v)]
    else if d[0].0 == k then [(k, v)] + d[1..]
    else [d[0]] + DictSet(d[1..], k, v)
  }

  /** Assigning a key the dictionary does not hold appends it. */
  lemma {:induction false} DictSetFresh(d: seq<(int, Entry)>, k: int, v: Entry)
    requires k !in Ids(d)
    ensures DictSet(d, k, v) == d + [(k, v)]
  {
    if d != [] {
      assert d[0].0 == Ids(d)[0];
      assert k !in Ids(d[1..]) by {
        forall i | 0 <= i < |d| - 1 ensures Ids(d[1..])[i] != k {
          assert Ids(d[1..])[i] == Ids(d)[i + 1];
        }
      }
      DictSetFresh(d[1..], k, v);
      assert [d[0]] + (d[1..] + [(k, v)]) == d + [(k, v)];
    }
  }

  /** The footnote marker `[^id]` of a citation. */
  function Marker(id: int): (r: string)
    ensures |r| >= 4 && r[0] == '[' && r[1] == '^' && r[|r| - 1] == ']'
  {
    "[^" + IntToString(id) + "]"
  }

  /**
   * The citation branch of `evaluate` once the key is known: a key seen before
   * gets its old id back and nothing changes; a new key takes the next id and is
   * recorded in both dictionaries; a new key missing from the bibliography raises
   * (`KeyError`).
   */
  function Cite(r: Registry, bib: Bibliography, key: string): (res: Result<(Registry, int), Error>)
    ensures res.Failure? <==> key !in r.ids && key !in bib
    ensures res.Failure? ==> res.error == UnknownCitation(key)
    ensures res.Success? ==> key in res.value.0.ids && res.value.1 == res.value.0.ids[key]
    ensures res.Success? ==> res.value.0.counter == r.counter + (if key in r.ids then 0 else 1)
  {
    if key in r.ids then Success((r, r.ids[key]))
    else
      var id := r.counter + 1;
      if key !in bib then Failure(UnknownCitation(key))
      else Success((Registry(id, DictSet(r.entries, id, bib[key]), r.ids[key := id]), id))
  }

  /** `keys` with `key` added at the end unless it is already there. */
  function AddKey(keys: seq<string>, key: string): seq<string>
  {
    if key in keys then keys else keys + [key]
  }

  /** The keys of `cited` in order of first citation, each once. */
  function FirstCitations(cited: seq<string>): seq<string>
  {
    if cited == [] then [] else AddKey(FirstCitations(cited[..|cited| - 1]), cited[|cited| - 1])
  }

  /**
   * The registry holds exactly the keys of `keys`, in that order, the i-th with id
   * `start + 1 + i` and the bibliography's entry for it: ids are handed out
   * consecutively from `start + 1` in order of first citation.
   */
  ghost predicate Valid(r: Registry, start: int, bib: Bibliography, keys: seq<string>)
  {
    && r.counter == start + |keys|
    && |r.entries| == |keys|
    && (forall i :: 0 <= i < |keys| ==> keys[i] in bib && r.entries[i] == (start + 1 + i, bib[keys[i]]))
    && (forall i, j :: 0 <= i < j < |keys| ==> keys[i] != keys[j])
    && (forall k :: k in r.ids <==> k in keys)
    && (forall i :: 0 <= i < |keys| ==> r.ids[keys[i]] == start + 1 + i)
  }

  lemma EmptyRegistryValid(start: int, bib: Bibliography)
    ensures Valid(EmptyRegistry(start), start, bib, [])
  {
  }

  /**
   * Citing keeps the registry valid: a known key changes nothing, a new key is
   * added last with id `start + 1 + (number of keys so far)`.
   */
  lemma CiteKeepsValid(r: Registry, start: int, bib: Bibliography, keys: seq<string>, key: string)
    requires Valid(r, start, bib, keys)
    ensures Cite(r, bib, key).Success? <==> key in keys || key in bib
    ensures Cite(r, bib, key).Success? ==>
      var (r', id) := Cite(r, bib, key).value;
      && Valid(r', start, bib, AddKey(keys, key))
      && (key in keys ==> r' == r)
      && (key !in keys ==> id == start + 1 + |keys|)
  {
    if key !in keys && key in bib {
      CiteNewKey(r, start, bib, keys, key);
    }
  }

  lemma CiteNewKey(r: Registry, start: int, bib: Bibliography, keys: seq<string>, key: string)
    requires Valid(r, start, bib, keys)
    requires key !in keys && key in bib
    ensures Cite(r, bib, key).Success?
    ensures Valid(Cite(r, bib, key).value.0, start, bib, keys + [key])
  {
    var id := r.counter + 1;
    assert id !in Ids(r.entries) by {
      forall i | 0 <= i < |r.entries| ensures Ids(r.entries)[i] != id {
        assert r.entries[i].0 == start + 1 + i;
      }
    }
    DictSetFresh(r.entries, id, bib[key]);
    assert Cite(r, bib, key) == Success((Registry(id, r.entries + [(id, bib[key])], r.ids[key := id]), id));
    AppendKeepsValid(r, start, bib, keys, key);
  }

  /** Recording a new key last, under the next id, keeps the registry valid. */
  lemma AppendKeepsValid(r: Registry, start: int, bib: Bibliography, keys: seq<string>, key: string)
    requires Valid(r, start, bib, keys)
    requires key !in keys && key in bib
    ensures var id := r.counter + 1;
      Valid(Registry(id, r.entries + [(id, bib[key])], r.ids[key := id]), start, bib, keys + [key])
  {
    var id := r.counter + 1;
    var r' := Registry(id, r.entries + [(id, bib[key])], r.ids[key := id]);
    var keys' := keys + [key];
    forall i | 0 <= i < |keys'| ensures r'.ids[keys'[i]] == start + 1 + i {
      if i < |keys| {
        assert keys'[i] == keys[i] != key;
      }
    }
    forall i | 0 <= i < |keys'| ensures keys'[i] in bib && r'.entries[i] == (start + 1 + i, bib[keys'[i]]) {
      if i < |keys| {
        var k := keys[i];
        assert keys'[i] == k && r'.entries[i] == r.entries[i];
        assert r.entries[i] == (start + 1 + i, bib[k]);
      } else {
        assert i == |keys| && keys'[i] == key;
        assert r'.entries[i] == (id, bib[key]);
      }
    }
    assert forall i, j :: 0 <= i < j < |keys'| ==> keys'[i] != keys'[j];
    assert forall k :: k in r'.ids <==> k in keys';
  }

  /** Citing the same key twice gives the same id, and the second citation changes nothing. */
  lemma CiteIdempotent(r: Registry, bib: Bibliography, key: string)
    requires Cite(r, bib, key).Success?
    ensures var (r', id) := Cite(r, bib, key).value;
      Cite(r', bib, key) == Success((r', id))
  {
  }

  /** Citing a whole sequence of keys, one after the other. */
  function CiteAll(r: Registry, bib: Bibliography, cited: seq<string>): (res: Result<Registry, Error>)
    ensures res.Failure? ==> res.error.UnknownCitation?
    ensures res.Success? ==> r.counter <= res.value.counter <= r.counter + |cited|
  {
    if cited == [] then Success(r)
    else
      var before :- CiteAll(r, bib, cited[..|cited| - 1]);
      var (after, _) :- Cite(before, bib, cited[|cited| - 1]);
      Success(after)
  }

  /**
   * Starting from `citation_count`, citing keys that are all in the bibliography
   * numbers them `citation_count + 1, + 2, ...` in order of first citation.
   */
  lemma {:induction false} CiteAllNumbering(start: int, bib: Bibliography, cited: seq<string>)
    requires forall i :: 0 <= i < |cited| ==> cited[i] in bib
    ensures CiteAll(EmptyRegistry(start), bib, cited).Success?
    ensures Valid(CiteAll(EmptyRegistry(start), bib, cited).value, start, bib, FirstCitations(cited))
  {
    if cited != [] {
      var prefix := cited[..|cited| - 1];
      CiteAllNumbering(start, bib, prefix);
      var before := CiteAll(EmptyRegistry(start), bib, prefix).value;
      CiteKeepsValid(before, start, bib, FirstCitations(prefix), cited[|cited| - 1]);
    }
  }

  /** `value + ", "` when the entry has the field, nothing otherwise. */
  function Listed(v: Entry, field: string): (r: string)
    ensures r == "" <==> field !in v
  {
    if field in v then v[field] + ", " else ""
  }

  /** The `[host](url)` link of an entry with a url; `url.split('/')[2]` raises when there are fewer than three parts. */
  function UrlLink(url: string): (res: Result<string, Error>)
    ensures res.Failure? <==> |Split(url, "/")| < 3
    ensures res.Failure? ==> res.error == MalformedUrl(url)
  {
    var parts := Split(url, "/");
    if |parts| < 3 then Failure(MalformedUrl(url))
    else Success("[" + parts[2] + "](" + url + ")")
  }

  /** One footnote of the footer: marker, the fields present among author, title and year, the link, a blank line. */
  function FootnoteFor(id: int, v: Entry): (r: Result<string, Error>)
    ensures r.Failure? ==> "url" in v && r.error == MalformedUrl(v["url"])
  {
    var head := Marker(id) + ": " + Listed(v, "author") + Listed(v, "title") + Listed(v, "year");
    if "url" in v then
      var link :- UrlLink(v["url"]);
      Success(head + link + "\n\n")
    else Success(head + "\n\n")
  }

  /** The footnotes of all entries, in the dictionary's order. */
  function Footnotes(entries: seq<(int, Entry)>): (r: Result<string, Error>)
    ensures r.Failure? ==> r.error.MalformedUrl?
  {
    if entries == [] then Success("")
    else
      var before :- Footnotes(entries[..|entries| - 1]);
      var last := entries[|entries| - 1];
      var note :- FootnoteFor(last.0, last.1);
      Success(before + note)
  }

  /** What `write_footer` returns: a newline, the footnotes, a newline. */
  function Footer(r: Registry): (res: Result<string, Error>)
    ensures res.Failure? ==> res.error.MalformedUrl?
  {
    var notes :- Footnotes(r.entries);
    Success("\n" + notes + "\n")
  }

  /** An url `scheme://host` or `scheme://host/...` links with its host as the text. */
  lemma HostOfUrl(scheme: string, host: string, path: string)
    requires forall i :: 0 <= i < |scheme| ==> scheme[i] != '/'
    requires forall i :: 0 <= i < |host| ==> host[i] != '/'
    requires path == [] || path[0] == '/'
    ensures var url := scheme + "//" + host + path;
      UrlLink(url) == Success("[" + host + "](" + url + ")")
  {
    var url := scheme + "//" + host + path;
    var n := |scheme|;
    var rest1 := "/" + host + path;
    var rest2 := host + path;
    FindChar(url, '/', n);
    assert url[..n] == scheme && url[n + 1..] == rest1;
    assert Split(url, "/") == [scheme] + Split(rest1, "/");
    FindChar(rest1, '/', 0);
    assert rest1[..0] == "" && rest1[1..] == rest2;
    assert Split(rest1, "/") == [""] + Split(rest2, "/");
    if path == [] {
      FindCharAbsent(rest2, '/');
      assert Split(rest2, "/") == [rest2];
      assert rest2 == host;
      assert Split(url, "/") == [scheme, "", host];
    } else {
      FindChar(rest2, '/', |host|);
      assert rest2[..|host|] == host;
      assert Split(rest2, "/") == [host] + Split(rest2[|host| + 1..], "/");
    }
  }

  /** A footnote always starts with its marker and ends with a blank line, with no placeholder for missing fields. */
  lemma FootnoteShape(id: int, v: Entry)
    requires FootnoteFor(id, v).Success?
    ensures var note := FootnoteFor(id, v).value;
      var head := Marker(id) + ": ";
      && |note| >= |head| + 2
      && note[..|head|] == head
      && note[|note| - 2..] == "\n\n"
    ensures "author" !in v && "title" !in v && "year" !in v && "url" !in v ==>
      FootnoteFor(id, v).value == Marker(id) + ": \n\n"
  {
  }

  /** Writing the footnotes fails exactly when one of the entries has a malformed url. */
  lemma FootnotesFailOnBadUrl(entries: seq<(int, Entry)>)
    ensures Footnotes(entries).Success? <==> forall i :: 0 <= i < |entries| ==> FootnoteFor(entries[i].0, entries[i].1).Success?
  {
    if forall i :: 0 <= i < |entries| ==> FootnoteFor(entries[i].0, entries[i].1).Success? {
      FootnotesSucceed(entries);
    }
    if Footnotes(entries).Success? {
      forall i | 0 <= i < |entries|
        ensures FootnoteFor(entries[i].0, entries[i].1).Success?
      {
        FootnoteNeeded(entries, i);
      }
    }
  }

  /** When every footnote can be written, the footnotes can. */
  lemma {:induction false} FootnotesSucceed(entries: seq<(int, Entry)>)
    requires forall i :: 0 <= i < |entries| ==> FootnoteFor(entries[i].0, entries[i].1).Success?
    ensures Footnotes(entries).Success?
  {
    if entries != [] {
      var prefix := entries[..|entries| - 1];
      assert forall i :: 0 <= i < |prefix| ==> prefix[i] == entries[i];
      FootnotesSucceed(prefix);
      var last := entries[|entries| - 1];
      assert FootnoteFor(last.0, last.1).Success?;
    }
  }

  /** When the footnotes can be written, so can the footnote of each entry. */
  lemma {:induction false} FootnoteNeeded(entries: seq<(int, Entry)>, i: int)
    requires Footnotes(entries).Success? && 0 <= i < |entries|
    ensures FootnoteFor(entries[i].0, entries[i].1).Success?
  {
    var prefix := entries[..|entries| - 1];
    var last := entries[|entries| - 1];
    assert Footnotes(prefix).Success? && FootnoteFor(last.0, last.1).Success?;
    if i < |prefix| {
      assert prefix[i] == entries[i];
      FootnoteNeeded(prefix, i);
    } else {
      assert entries[i] == last;
    }
  }

  /** Once the footnotes of a prefix fail, the footnotes of the whole sequence fail the same way. */
  lemma {:induction false} FootnotesKeepFailure(entries: seq<(int, Entry)>, n: nat)
    requires n <= |entries| && Footnotes(entries[..n]).Failure?
    ensures Footnotes(entries) == Failure(Footnotes(entries[..n]).error)
  {
    if n < |entries| {
      var prefix := entries[..|entries| - 1];
      assert prefix[..n] == entries[..n];
      FootnotesKeepFailure(prefix, n);
    } else {
      assert entries[..n] == entries;
    }
  }

  /** One more entry: its footnote is appended, or its failure is the failure of the footnotes of every longer sequence. */
  lemma FootnotesStep(entries: seq<(int, Entry)>, n: nat, notes: string)
    requires n < |entries| && Footnotes(entries[..n]) == Success(notes)
    ensures var note := FootnoteFor(entries[n].0, entries[n].1);
      && (note.Success? ==> Footnotes(entries[..n + 1]) == Success(notes + note.value))
      && (note.Failure? ==> Footnotes(entries) == Failure(note.error))
  {
    assert entries[..n + 1][..n] == entries[..n];
    if FootnoteFor(entries[n].0, entries[n].1).Failure? {
      FootnotesKeepFailure(entries, n + 1);
    }
  }
}
