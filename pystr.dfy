/**
 * The Python `str` operations the converter relies on, each with Python's own
 * semantics: `find`, `split`, `splitlines`, `strip`, `endswith`, `removesuffix`,
 * `replace`, `join`, slicing with negative and out-of-range indices, and `str(int)`.
 */
module PyStr {

  /** `c.isspace()`: the characters `str.strip()` removes. */
  predicate IsSpace(c: char) {
    ('\t' <= c <= '\r') || ('\U{1C}' <= c <= ' ') || c == '\U{85}' || c == '\U{A0}'
    || c == '\U{1680}' || ('\U{2000}' <= c <= '\U{200A}') || c == '\U{2028}' || c == '\U{2029}'
    || c == '\U{202F}' || c == '\U{205F}' || c == '\U{3000}'
  }

  predicate AllSpace(s: string) {
    forall i :: 0 <= i < |s| ==> IsSpace(s[i])
  }

  /** The characters at which `str.splitlines()` breaks a line. */
  predicate IsLineBoundary(c: char) {
    ('\n' <= c <= '\r') || ('\U{1C}' <= c <= '\U{1E}') || c == '\U{85}' || c == '\U{2028}' || c == '\U{2029}'
  }

  /** `t` occurs in `s` starting at index `i`. */
  predicate OccursAt(s: string, t: string, i: int) {
    0 <= i && i + |t| <= |s| && s[i..i + |t|] == t
  }

  lemma OccursInPrefix(s: string, t: string, n: nat, i: int)
    requires n <= |s|
    ensures OccursAt(s[..n], t, i) ==> OccursAt(s, t, i)
  {
    if OccursAt(s[..n], t, i) {
      assert s[..n][i..i + |t|] == s[i..i + |t|];
    }
  }

  lemma OccursInSuffix(s: string, t: string, k: nat, i: int)
    requires k <= |s|
    ensures OccursAt(s[k..], t, i) <==> OccursAt(s, t, i + k) && 0 <= i
  {
    if 0 <= i && i + |t| <= |s| - k {
      assert s[k..][i..i + |t|] == s[i + k..i + k + |t|];
    }
  }

  /** `s.find(t)`: the first index at which `t` occurs in `s`, or -1. */
  function Find(s: string, t: string): (r: int)
    ensures r == -1 || 0 <= r <= |s| - |t|
    decreases |s|
  {
    if |s| < |t| then -1
    else if s[..|t|] == t then 0
    else
      var k := Find(s[1..], t);
      if k < 0 then -1 else k + 1
  }

  /** `find` returns the first occurrence, and -1 only when there is none. */
  lemma {:induction false} FindSpec(s: string, t: string)
    ensures var r := Find(s, t);
      && (r == -1 || OccursAt(s, t, r))
      && (r == -1 ==> forall i :: !OccursAt(s, t, i))
      && (forall i :: 0 <= i < r ==> !OccursAt(s, t, i))
    decreases |s|
  {
    if |s| < |t| {
    } else if s[..|t|] == t {
      assert s[0..|t|] == s[..|t|];
    } else {
      FindSpec(s[1..], t);
      assert !OccursAt(s, t, 0) by {
        assert s[0..|t|] == s[..|t|];
      }
      forall j | 1 <= j ensures OccursAt(s, t, j) <==> OccursAt(s[1..], t, j - 1) {
        OccursInSuffix(s, t, 1, j - 1);
      }
    }
  }

  lemma OccursAtChar(s: string, c: char, j: int)
    ensures OccursAt(s, [c], j) <==> 0 <= j < |s| && s[j] == c
  {
    if 0 <= j < |s| {
      assert s[j..j + 1][0] == s[j];
    }
  }

  /** `s.find(c)` for one character is the index of its first occurrence. */
  lemma FindChar(s: string, c: char, i: int)
    requires 0 <= i < |s| && s[i] == c
    requires forall j :: 0 <= j < i ==> s[j] != c
    ensures Find(s, [c]) == i
  {
    FindSpec(s, [c]);
    OccursAtChar(s, c, i);
    OccursAtChar(s, c, Find(s, [c]));
  }

  /** `s.find(c)` is -1 when the character does not occur. */
  lemma FindCharAbsent(s: string, c: char)
    requires forall j :: 0 <= j < |s| ==> s[j] != c
    ensures Find(s, [c]) == -1
  {
    FindSpec(s, [c]);
    OccursAtChar(s, c, Find(s, [c]));
  }

  predicate EndsWith(s: string, suffix: string) {
    |suffix| <= |s| && s[|s| - |suffix|..] == suffix
  }

  /** `s.removesuffix(suffix)`. */
  function RemoveSuffix(s: string, suffix: string): (r: string)
    ensures r <= s
  {
    if EndsWith(s, suffix) then s[..|s| - |suffix|] else s
  }

  /** Concatenation regroups freely (the solver finds this slowly on its own inside a large proof). */
  lemma AppendAssociative<T>(a: seq<T>, b: seq<T>, c: seq<T>)
    ensures (a + b) + c == a + (b + c)
  {
  }

  /** A non-empty sequence is its initial part followed by its last element. */
  lemma InitThenLast<T>(s: seq<T>)
    requires s != []
    ensures s[..|s| - 1] + [s[|s| - 1]] == s
  {
  }

  /** `removesuffix` takes off exactly the suffix when it is there, and changes nothing otherwise. */
  lemma RemoveSuffixSpec(s: string, suffix: string)
    ensures EndsWith(s, suffix) ==> RemoveSuffix(s, suffix) + suffix == s
    ensures !EndsWith(s, suffix) ==> RemoveSuffix(s, suffix) == s
  {
    if EndsWith(s, suffix) {
      assert s[..|s| - |suffix|] + s[|s| - |suffix|..] == s;
    }
  }

  /** Appending a suffix and removing it again gives back the text. */
  lemma RemoveAppendedSuffix(s: string, suffix: string)
    ensures RemoveSuffix(s + suffix, suffix) == s
  {
    var t := s + suffix;
    assert t[|t| - |suffix|..] == suffix;
    assert t[..|t| - |suffix|] == s;
  }

  /** Python's normalisation of a slice bound against a length `n`. */
  function SliceBound(i: int, n: nat): (k: nat)
    ensures k <= n
  {
    if i < 0 then (if i + n < 0 then 0 else i + n)
    else if i > n then n
    else i
  }

  /** `s[lo:hi]`: negative bounds count from the end, bounds are clamped, and an empty range gives "". */
  function Slice(s: string, lo: int, hi: int): (r: string)
    ensures r <= s[SliceBound(lo, |s|)..]
  {
    var a := SliceBound(lo, |s|);
    var b := SliceBound(hi, |s|);
    if a < b then s[a..b] else ""
  }

  /** In-range bounds select `s[lo..hi]`; -1 as the upper bound stops before the last character; a reversed range is empty. */
  lemma SliceSpec(s: string, lo: int, hi: int)
    ensures |Slice(s, lo, hi)| <= |s|
    ensures 0 <= lo <= hi <= |s| ==> Slice(s, lo, hi) == s[lo..hi]
    ensures 0 <= lo < |s| && hi == -1 ==> Slice(s, lo, hi) == s[lo..|s| - 1]
    ensures 0 <= hi <= lo ==> Slice(s, lo, hi) == ""
  {
  }

  /** `sep.join(parts)`; `SplitSpec` proves it undoes `Split`, the contract below only fixes where it starts. */
  function Join(sep: string, parts: seq<string>): (r: string)
    ensures |parts| > 0 ==> parts[0] <= r
  {
    if |parts| == 0 then ""
    else if |parts| == 1 then parts[0]
    else parts[0] + sep + Join(sep, parts[1..])
  }

  /** `s.split(sep)` for a non-empty separator: the pieces between leftmost non-overlapping occurrences. */
  function Split(s: string, sep: string): (r: seq<string>)
    requires |sep| > 0
    ensures |r| >= 1
    decreases |s|
  {
    var i := Find(s, sep);
    if i < 0 then [s] else [s[..i]] + Split(s[i + |sep|..], sep)
  }

  /** `split` always gives at least one piece, no piece contains the separator, and joining the pieces gives `s` back. */
  lemma {:induction false} SplitSpec(s: string, sep: string)
    requires |sep| > 0
    ensures |Split(s, sep)| >= 1
    ensures Join(sep, Split(s, sep)) == s
    ensures forall p :: p in Split(s, sep) ==> Find(p, sep) == -1
    decreases |s|
  {
    FindSpec(s, sep);
    var i := Find(s, sep);
    if i >= 0 {
      var head, rest := s[..i], s[i + |sep|..];
      SplitSpec(rest, sep);
      var tail := Split(rest, sep);
      assert Split(s, sep) == [head] + tail;
      HeadHasNoSeparator(s, sep);
      JoinCons(sep, head, tail);
      SplitAround(s, sep, i);
    }
  }

  lemma SplitAround(s: string, sep: string, i: int)
    requires OccursAt(s, sep, i)
    ensures s[..i] + sep + s[i + |sep|..] == s
  {
    assert s[i..i + |sep|] == sep;
    assert s == s[..i] + s[i..i + |sep|] + s[i + |sep|..];
  }

  /** The text before the first occurrence of `sep` does not contain `sep`. */
  lemma HeadHasNoSeparator(s: string, sep: string)
    requires |sep| > 0 && Find(s, sep) >= 0
    ensures Find(s[..Find(s, sep)], sep) == -1
  {
    var i := Find(s, sep);
    FindSpec(s, sep);
    FindSpec(s[..i], sep);
    var j := Find(s[..i], sep);
    OccursInPrefix(s, sep, i, j);
  }

  lemma JoinCons(sep: string, head: string, tail: seq<string>)
    requires |tail| >= 1
    ensures Join(sep, [head] + tail) == head + sep + Join(sep, tail)
  {
    assert ([head] + tail)[1..] == tail;
  }

  /** The index of the first line boundary in `s`, or `|s|`. */
  function LineEnd(s: string): (i: nat)
    ensures i <= |s|
    ensures i < |s| ==> IsLineBoundary(s[i])
    ensures forall j :: 0 <= j < i ==> !IsLineBoundary(s[j])
  {
    if s == [] || IsLineBoundary(s[0]) then 0 else 1 + LineEnd(s[1..])
  }

  /** `s.splitlines()`: lines without their terminators; "\r\n" is one terminator and a final terminator opens no empty line. */
  function SplitLines(s: string): (r: seq<string>)
    ensures |r| <= |s|
    decreases |s|
  {
    if s == [] then []
    else
      var i := LineEnd(s);
      if i == |s| then [s]
      else
        var width := if s[i] == '\r' && i + 1 < |s| && s[i + 1] == '\n' then 2 else 1;
        [s[..i]] + SplitLines(s[i + width..])
  }

  /** `line` holds no line boundary. */
  predicate NoLineBoundary(line: string)
  {
    forall j :: 0 <= j < |line| ==> !IsLineBoundary(line[j])
  }

  /** No line holds a line boundary, and only the empty text has no lines. */
  lemma {:induction false} SplitLinesSpec(s: string)
    ensures s == "" <==> SplitLines(s) == []
    ensures forall k :: 0 <= k < |SplitLines(s)| ==> NoLineBoundary(SplitLines(s)[k])
    decreases |s|
  {
    if s != [] {
      var lines := SplitLines(s);
      var i := LineEnd(s);
      var first := s[..i];
      assert NoLineBoundary(first) by {
        assert forall j :: 0 <= j < |first| ==> first[j] == s[j];
      }
      if i < |s| {
        var width := if s[i] == '\r' && i + 1 < |s| && s[i + 1] == '\n' then 2 else 1;
        var rest := SplitLines(s[i + width..]);
        SplitLinesSpec(s[i + width..]);
        assert lines == [first] + rest;
        NoLineBoundaryCons(first, rest);
      } else {
        assert first == s && lines == [s];
      }
    }
  }

  /** `s.lstrip()`. */
  function LStrip(s: string): (r: string)
    ensures r == [] || !IsSpace(r[0])
  {
    if s != [] && IsSpace(s[0]) then LStrip(s[1..]) else s
  }

  /** `s.rstrip()`. */
  function RStrip(s: string): (r: string)
    ensures r == [] || !IsSpace(r[|r| - 1])
  {
    if s != [] && IsSpace(s[|s| - 1]) then RStrip(s[..|s| - 1]) else s
  }

  /** `s.strip()`: `s` without its leading and trailing whitespace. */
  function Strip(s: string): (r: string)
    ensures r == [] || (!IsSpace(r[0]) && !IsSpace(r[|r| - 1]))
  {
    var t := LStrip(s);
    RStripSpec(t);
    RStrip(t)
  }

  lemma NoLineBoundaryCons(first: string, rest: seq<string>)
    requires NoLineBoundary(first)
    requires forall k :: 0 <= k < |rest| ==> NoLineBoundary(rest[k])
    ensures forall k :: 0 <= k < |[first] + rest| ==> NoLineBoundary(([first] + rest)[k])
  {
    forall k | 0 <= k < |[first] + rest| ensures NoLineBoundary(([first] + rest)[k]) {
      if k > 0 {
        assert ([first] + rest)[k] == rest[k - 1];
      }
    }
  }

  /** `lstrip` removes a whitespace prefix and stops at the first visible character. */
  lemma {:induction false} LStripSpec(s: string)
    ensures var r := LStrip(s);
      |r| <= |s| && r == s[|s| - |r|..] && AllSpace(s[..|s| - |r|]) && (r == [] || !IsSpace(r[0]))
  {
    if s != [] && IsSpace(s[0]) {
      LStripSpec(s[1..]);
      var r := LStrip(s[1..]);
      assert s[..|s| - |r|] == [s[0]] + s[1..][..|s| - 1 - |r|];
    }
  }

  /** `rstrip` removes a whitespace suffix and stops at the last visible character. */
  lemma {:induction false} RStripSpec(s: string)
    ensures var r := RStrip(s);
      |r| <= |s| && r == s[..|r|] && AllSpace(s[|r|..]) && (r == [] || !IsSpace(r[|r| - 1]))
  {
    if s != [] && IsSpace(s[|s| - 1]) {
      RStripSpec(s[..|s| - 1]);
      var r := RStrip(s[..|s| - 1]);
      assert s[|r|..] == s[..|s| - 1][|r|..] + [s[|s| - 1]];
    }
  }

  /** `strip` leaves no whitespace at either end and only ever removes whitespace. */
  lemma StripSpec(s: string)
    ensures var r := Strip(s);
      && |r| <= |s|
      && (r == [] || (!IsSpace(r[0]) && !IsSpace(r[|r| - 1])))
      && (r == [] <==> AllSpace(s))
  {
    var left := LStrip(s);
    LStripSpec(s);
    RStripSpec(left);
    var r := RStrip(left);
    var p := |s| - |left|;
    if r == [] {
      assert left == [] by {
        assert left[|r|..] == left;
      }
      assert s[..p] == s;
    } else {
      assert s[p] == left[0] == r[0];
    }
  }

  /** Text that already starts and ends with a visible character is not changed by `strip()`. */
  lemma StripUnchanged(s: string)
    requires s != [] && !IsSpace(s[0]) && !IsSpace(s[|s| - 1])
    ensures Strip(s) == s
  {
    assert LStrip(s) == s;
    assert RStrip(s) == s;
  }

  /** `s.replace(pat, rep)` for a non-empty pattern: leftmost, non-overlapping occurrences. */
  function ReplaceAll(s: string, pat: string, rep: string): (r: string)
    requires |pat| > 0
    ensures |rep| <= |pat| ==> |r| <= |s|
    decreases |s|
  {
    if s == [] then []
    else if |pat| <= |s| && s[..|pat|] == pat then rep + ReplaceAll(s[|pat|..], pat, rep)
    else [s[0]] + ReplaceAll(s[1..], pat, rep)
  }

  /** `c` turned into a decimal digit character. */
  function DigitChar(d: nat): (c: char)
    requires d < 10
    ensures '0' <= c <= '9' && c as int - '0' as int == d
  {
    ('0' as int + d) as char
  }

  predicate AllDigits(s: string) {
    forall i :: 0 <= i < |s| ==> '0' <= s[i] <= '9'
  }

  /** The number a string of decimal digits denotes. */
  function DigitsValue(s: string): nat
    requires AllDigits(s)
  {
    if s == [] then 0 else DigitsValue(s[..|s| - 1]) * 10 + (s[|s| - 1] as int - '0' as int)
  }

  /** `str(n)` for a natural number: its decimal digits, without leading zeros. */
  function NatToString(n: nat): (r: string)
    ensures |r| >= 1 && r[|r| - 1] == DigitChar(n % 10)
  {
    if n < 10 then [DigitChar(n)] else NatToString(n / 10) + [DigitChar(n % 10)]
  }

  /** `str(n)` is made of decimal digits and has no leading zero. */
  lemma {:induction false} NatToStringDigits(n: nat)
    ensures AllDigits(NatToString(n))
    ensures |NatToString(n)| > 1 ==> NatToString(n)[0] != '0'
  {
    if n >= 10 {
      NatToStringDigits(n / 10);
    }
  }

  /** `str(n)` (and `f"{n}"`) for any integer. */
  function IntToString(n: int): (r: string)
    ensures |r| >= 1 && '0' <= r[|r| - 1] <= '9'
  {
    if n < 0 then "-" + NatToString(-n) else NatToString(n)
  }

  /** Reading back the digits `str(n)` printed gives `n`. */
  lemma {:induction false} NatToStringRoundTrip(n: nat)
    ensures AllDigits(NatToString(n)) && DigitsValue(NatToString(n)) == n
  {
    var r := NatToString(n);
    NatToStringDigits(n);
    if n >= 10 {
      NatToStringRoundTrip(n / 10);
      assert r[..|r| - 1] == NatToString(n / 10);
    }
  }

  lemma IntToStringSign(n: int)
    ensures IntToString(n)[0] == '-' <==> n < 0
  {
    if n >= 0 {
      NatToStringDigits(n);
    }
  }

  /** Distinct integers print differently, so distinct footnote ids give distinct markers. */
  lemma IntToStringInjective(a: int, b: int)
    requires IntToString(a) == IntToString(b)
    ensures a == b
  {
    IntToStringSign(a);
    IntToStringSign(b);
    if a < 0 {
      assert NatToString(-a) == IntToString(a)[1..];
      assert NatToString(-b) == IntToString(b)[1..];
      NatToStringInjective(-a, -b);
    } else {
      NatToStringInjective(a, b);
    }
  }

  lemma NatToStringInjective(a: nat, b: nat)
    requires NatToString(a) == NatToString(b)
    ensures a == b
  {
    NatToStringRoundTrip(a);
    NatToStringRoundTrip(b);
  }

  /** `s.replace('\r\n', '\n')`, the line-ending fix applied to the document. */
  function NormalizeNewlines(s: string): (r: string)
    ensures |r| <= |s|
  {
    ReplaceAll(s, "\r\n", "\n")
  }

  /** Text without carriage returns is left as it is. */
  lemma {:induction false} NormalizeWithoutCarriageReturn(s: string)
    requires forall i :: 0 <= i < |s| ==> s[i] != '\r'
    ensures NormalizeNewlines(s) == s
  {
    if s != [] {
      assert |s| >= 2 ==> s[..2][0] == s[0];
      NormalizeWithoutCarriageReturn(s[1..]);
    }
  }

  /** `s` without each '\r' that stands right before a '\n'; every other character is kept, in order. */
  function WithoutCrBeforeLf(s: string): string
  {
    if s == [] then []
    else if |s| >= 2 && s[0] == '\r' && s[1] == '\n' then WithoutCrBeforeLf(s[1..])
    else [s[0]] + WithoutCrBeforeLf(s[1..])
  }

  /** The line-ending fix removes exactly the '\r's that stand right before a '\n', and nothing else. */
  lemma {:induction false} NormalizeDropsCrBeforeLf(s: string)
    ensures NormalizeNewlines(s) == WithoutCrBeforeLf(s)
  {
    if |s| >= 2 && s[0] == '\r' && s[1] == '\n' {
      assert s[..2] == "\r\n";
      NormalizeDropsCrBeforeLf(s[2..]);
      assert s[1..][1..] == s[2..];
      assert WithoutCrBeforeLf(s[1..]) == [s[1]] + WithoutCrBeforeLf(s[2..]);
    } else if s != [] {
      NormalizeDropsCrBeforeLf(s[1..]);
      assert !(|s| >= 2 && s[..2] == "\r\n") by {
        if |s| >= 2 {
          assert s[..2][0] == s[0] && s[..2][1] == s[1];
        }
      }
    }
  }

  /** The fix works piece by piece unless a "\r\n" pair straddles the cut. */
  lemma {:induction false} NormalizeConcat(a: string, b: string)
    requires !(a != [] && a[|a| - 1] == '\r' && b != [] && b[0] == '\n')
    ensures NormalizeNewlines(a + b) == NormalizeNewlines(a) + NormalizeNewlines(b)
  {
    if a == [] {
      assert a + b == b;
    } else if |a| >= 2 && a[..2] == "\r\n" {
      assert (a + b)[..2] == "\r\n";
      assert (a + b)[2..] == a[2..] + b;
      NormalizeConcat(a[2..], b);
      assert NormalizeNewlines(a + b) == "\n" + NormalizeNewlines(a[2..] + b);
      assert NormalizeNewlines(a) == "\n" + NormalizeNewlines(a[2..]);
      AppendAssociative("\n", NormalizeNewlines(a[2..]), NormalizeNewlines(b));
    } else {
      assert (a + b)[1..] == a[1..] + b;
      if |a| == 1 {
        assert !(2 <= |a + b| && (a + b)[..2] == "\r\n");
      } else {
        assert (a + b)[..2] == a[..2];
      }
      NormalizeConcat(a[1..], b);
      assert NormalizeNewlines(a + b) == [a[0]] + NormalizeNewlines(a[1..] + b);
      assert NormalizeNewlines(a) == [a[0]] + NormalizeNewlines(a[1..]);
      AppendAssociative([a[0]], NormalizeNewlines(a[1..]), NormalizeNewlines(b));
    }
  }

  /** `s.replace('\n', ' ')`: every newline becomes a space, nothing else changes. */
  lemma {:induction false} NewlinesToSpaces(s: string)
    ensures |ReplaceAll(s, "\n", " ")| == |s|
    ensures forall i :: 0 <= i < |s| ==> ReplaceAll(s, "\n", " ")[i] == (if s[i] == '\n' then ' ' else s[i])
  {
    if s != [] {
      NewlinesToSpaces(s[1..]);
    }
  }
}
