/**
 * The Python `str` operations the scripts rely on, on `seq<char>`:
 * whitespace stripping, substring search, `split`, `join`, `replace`,
 * `startswith`, and the decimal text of an integer (`str(n)`, `int(s)`).
 */
module PyText {
  import opened Optional

  /** Python's `str.isspace` for one character. */
  predicate IsSpace(c: char) {
    c == ' ' || ('\t' <= c <= '\r') || ('\U{1c}' <= c <= '\U{1f}') || c == '\U{85}' || c == '\U{a0}'
    || c == '\U{1680}' || ('\U{2000}' <= c <= '\U{200a}') || c == '\U{2028}' || c == '\U{2029}'
    || c == '\U{202f}' || c == '\U{205f}' || c == '\U{3000}'
  }

  /** `s.lstrip()`: drops the leading whitespace. */
  function LStrip(s: string): (r: string)
    ensures |r| <= |s|
    ensures r == [] || !IsSpace(r[0])
    ensures forall i :: 0 <= i < |s| - |r| ==> IsSpace(s[i])
  {
    if s != [] && IsSpace(s[0]) then LStrip(s[1..]) else s
  }

  /** `s.rstrip()`: drops the trailing whitespace. */
  function RStrip(s: string): (r: string)
    ensures |r| <= |s|
    ensures r == [] || !IsSpace(r[|r| - 1])
    ensures forall i :: |r| <= i < |s| ==> IsSpace(s[i])
  {
    if s != [] && IsSpace(s[|s| - 1]) then RStrip(s[..|s| - 1]) else s
  }

  /** `s.strip()`. */
  function Strip(s: string): string {
    RStrip(LStrip(s))
  }

  /** The leading-whitespace prefix `s[:len(s) - len(s.lstrip())]`. */
  function LeadingSpace(s: string): string {
    s[..|s| - |LStrip(s)|]
  }

  predicate OccursAt(s: string, sub: string, i: int) {
    0 <= i && i + |sub| <= |s| && s[i..i + |sub|] == sub
  }

  /** `s.find(sub, from)`: the first index at or after `from` where `sub` occurs, or -1. */
  function FindFrom(s: string, sub: string, from: nat): (r: int)
    requires from <= |s|
    ensures r == -1 || (from <= r && OccursAt(s, sub, r))
    ensures r == -1 ==> forall i :: from <= i ==> !OccursAt(s, sub, i)
    ensures r >= 0 ==> forall i :: from <= i < r ==> !OccursAt(s, sub, i)
    decreases |s| - from
  {
    if from + |sub| > |s| then -1
    else if s[from..from + |sub|] == sub then from
    else FindFrom(s, sub, from + 1)
  }

  function Find(s: string, sub: string): int {
    FindFrom(s, sub, 0)
  }

  /** Python's `sub in s`. */
  predicate Contains(s: string, sub: string) {
    Find(s, sub) >= 0
  }

  predicate StartsWith(s: string, p: string) {
    |p| <= |s| && s[..|p|] == p
  }

  /** `s.split(sep, 1)`. */
  function SplitFirst(s: string, sep: string): (parts: seq<string>)
    requires |sep| > 0
    ensures |parts| == 1 <==> !Contains(s, sep)
    ensures |parts| == 1 ==> parts[0] == s
    ensures |parts| == 2 ==> s == parts[0] + sep + parts[1] && !Contains(parts[0], sep)
    ensures 1 <= |parts| <= 2
  {
    var i := Find(s, sep);
    if i < 0 then [s]
    else
      assert !Contains(s[..i], sep) by {
        if Contains(s[..i], sep) {
          OccursInPrefix(s, sep, i, Find(s[..i], sep));
        }
      }
      assert s == s[..i] + sep + s[i + |sep|..];
      [s[..i], s[i + |sep|..]]
  }

  /** `s.split(sep)` for a non-empty separator. */
  function Split(s: string, sep: string): (parts: seq<string>)
    requires |sep| > 0
    ensures |parts| >= 1
    decreases |s|
  {
    var i := Find(s, sep);
    if i < 0 then [s] else [s[..i]] + Split(s[i + |sep|..], sep)
  }

  /** `sep.join(parts)`. */
  function Join(sep: string, parts: seq<string>): string {
    if |parts| == 0 then ""
    else if |parts| == 1 then parts[0]
    else parts[0] + sep + Join(sep, parts[1..])
  }

  /** `s.replace(pat, rep)` for a non-empty `pat`. */
  function ReplaceAll(s: string, pat: string, rep: string): string
    requires |pat| > 0
    decreases |s|
  {
    var i := Find(s, pat);
    if i < 0 then s else s[..i] + rep + ReplaceAll(s[i + |pat|..], pat, rep)
  }

  function DigitChar(d: int): char
    requires 0 <= d < 10
  {
    ('0' as int + d) as char
  }

  predicate IsDigit(c: char) {
    '0' <= c <= '9'
  }

  function NatString(n: nat): (r: string)
    ensures |r| >= 1 && forall i :: 0 <= i < |r| ==> IsDigit(r[i])
  {
    if n < 10 then [DigitChar(n)] else NatString(n / 10) + [DigitChar(n % 10)]
  }

  /** `str(n)` for an integer. */
  function DecimalString(n: int): string {
    if n < 0 then "-" + NatString(-n) else NatString(n)
  }

  function DigitsValue(s: string): nat
    requires forall i :: 0 <= i < |s| ==> IsDigit(s[i])
  {
    if s == [] then 0
    else
      assert IsDigit(s[|s| - 1]);
      10 * DigitsValue(s[..|s| - 1]) + (s[|s| - 1] as int - '0' as int)
  }

  predicate AllDigits(s: string) {
    |s| > 0 && forall i :: 0 <= i < |s| ==> IsDigit(s[i])
  }

  /** `int(s)` for a string: surrounding whitespace, an optional sign, then decimal digits. */
  function ParseInt(s: string): Option<int> {
    var t := Strip(s);
    if |t| > 0 && (t[0] == '-' || t[0] == '+') then
      if AllDigits(t[1..]) then
        var v: int := DigitsValue(t[1..]);
        Some(if t[0] == '-' then -v else v)
      else None
    else if AllDigits(t) then Some(DigitsValue(t))
    else None
  }

  // Lemmas about the operations above.

  /** Stripping removes exactly whitespace padding around a core that starts and ends with non-space. */
  lemma {:induction false} LStripPadding(a: string, t: string)
    requires forall i :: 0 <= i < |a| ==> IsSpace(a[i])
    requires t == [] || !IsSpace(t[0])
    ensures LStrip(a + t) == t
    decreases |a|
  {
    if a != [] {
      assert (a + t)[1..] == a[1..] + t;
      LStripPadding(a[1..], t);
    }
  }

  lemma {:induction false} RStripPadding(t: string, b: string)
    requires forall i :: 0 <= i < |b| ==> IsSpace(b[i])
    requires t == [] || !IsSpace(t[|t| - 1])
    ensures RStrip(t + b) == t
    decreases |b|
  {
    if b != [] {
      assert (t + b)[..|t + b| - 1] == t + b[..|b| - 1];
      RStripPadding(t, b[..|b| - 1]);
    }
  }

  /** `s.lstrip()` is a suffix of `s`. */
  lemma {:induction false} LStripSuffix(s: string)
    ensures LStrip(s) == s[|s| - |LStrip(s)|..]
  {
    if s != [] && IsSpace(s[0]) {
      LStripSuffix(s[1..]);
      assert s[1..][|s| - 1 - |LStrip(s)|..] == s[|s| - |LStrip(s)|..];
    }
  }

  /** `s.rstrip()` is a prefix of `s`. */
  lemma {:induction false} RStripPrefix(s: string)
    ensures RStrip(s) == s[..|RStrip(s)|]
  {
    if s != [] && IsSpace(s[|s| - 1]) {
      RStripPrefix(s[..|s| - 1]);
      assert s[..|s| - 1][..|RStrip(s)|] == s[..|RStrip(s)|];
    }
  }

  lemma StripPadding(a: string, t: string, b: string)
    requires forall i :: 0 <= i < |a| ==> IsSpace(a[i])
    requires forall i :: 0 <= i < |b| ==> IsSpace(b[i])
    requires t != [] && !IsSpace(t[0]) && !IsSpace(t[|t| - 1])
    ensures Strip(a + t + b) == t
  {
    assert a + t + b == a + (t + b);
    LStripPadding(a, t + b);
    RStripPadding(t, b);
  }

  /** A string without surrounding whitespace is its own strip. */
  lemma StripOfStripped(t: string)
    requires t == [] || (!IsSpace(t[0]) && !IsSpace(t[|t| - 1]))
    ensures Strip(t) == t
  {
    if t != [] {
      StripPadding([], t, []);
      assert [] + t + [] == t;
    }
  }

  lemma OccursContains(s: string, sub: string, i: int)
    requires OccursAt(s, sub, i)
    ensures Contains(s, sub)
  {
  }

  /** An occurrence in a prefix of `s` is an occurrence in `s` that ends inside the prefix. */
  lemma OccursInPrefix(s: string, sub: string, i: int, j: int)
    requires 0 <= i <= |s| && OccursAt(s[..i], sub, j)
    ensures OccursAt(s, sub, j) && j + |sub| <= i
  {
    forall k | 0 <= k < |sub|
      ensures s[j..j + |sub|][k] == sub[k]
    {
      assert s[j + k] == s[..i][j + k];
    }
    assert s[j..j + |sub|] == sub;
  }

  /** `find` returns `k` exactly when `k` is the first occurrence. */
  lemma FindIs(s: string, sub: string, k: int)
    requires OccursAt(s, sub, k)
    requires forall i :: 0 <= i < k ==> !OccursAt(s, sub, i)
    ensures Find(s, sub) == k
  {
  }

  /** A slice of a string that lacks `sub` lacks it too. */
  lemma {:induction false} NotContainsSlice(s: string, sub: string, lo: int, hi: int)
    requires 0 <= lo <= hi <= |s|
    requires !Contains(s, sub)
    ensures !Contains(s[lo..hi], sub)
  {
    var t := s[lo..hi];
    if Contains(t, sub) {
      var j := Find(t, sub);
      assert OccursAt(t, sub, j);
      assert t[j..j + |sub|] == sub;
      assert s[lo + j..lo + j + |sub|] == t[j..j + |sub|];
      assert OccursAt(s, sub, lo + j);
    }
  }

  /** Splitting and re-joining with the same separator gives back the text. */
  lemma {:induction false} JoinSplit(s: string, sep: string)
    requires |sep| > 0
    ensures Join(sep, Split(s, sep)) == s
    decreases |s|
  {
    var i := Find(s, sep);
    if i >= 0 {
      var rest := s[i + |sep|..];
      var tail := Split(rest, sep);
      assert Split(s, sep) == [s[..i]] + tail;
      JoinSplit(rest, sep);
      assert ([s[..i]] + tail)[1..] == tail;
      assert Join(sep, [s[..i]] + tail) == s[..i] + sep + Join(sep, tail);
      assert s == s[..i] + sep + rest;
    }
  }

  /** Joining pieces that do not contain a one-character separator and splitting again gives the pieces back. */
  lemma {:induction false} SplitJoin(sep: string, parts: seq<string>)
    requires |sep| == 1 && |parts| >= 1
    requires forall k :: 0 <= k < |parts| ==> !Contains(parts[k], sep)
    ensures Split(Join(sep, parts), sep) == parts
    decreases |parts|
  {
    if |parts| > 1 {
      var p0 := parts[0];
      var rest := Join(sep, parts[1..]);
      var s := p0 + sep + rest;
      assert Join(sep, parts) == s;
      assert OccursAt(s, sep, |p0|) by { assert s[|p0|..|p0| + 1] == sep; }
      forall i | 0 <= i < |p0| ensures !OccursAt(s, sep, i) {
        if OccursAt(s, sep, i) {
          assert s[i..i + 1] == p0[i..i + 1];
          OccursContains(p0, sep, i);
        }
      }
      FindIs(s, sep, |p0|);
      assert s[..|p0|] == p0;
      assert s[|p0| + 1..] == rest;
      SplitJoin(sep, parts[1..]);
    }
  }

  /** `s.split(sep, 1)` cuts at the first occurrence of `sep`. */
  lemma FirstOccurrence(pre: string, sep: string, rest: string)
    requires |sep| > 0
    requires forall i :: 0 <= i < |pre| ==> !OccursAt(pre + sep, sep, i)
    ensures SplitFirst(pre + sep + rest, sep) == [pre, rest]
  {
    var s := pre + sep + rest;
    assert s[|pre|..|pre| + |sep|] == sep;
    forall i | 0 <= i < |pre|
      ensures !OccursAt(s, sep, i)
    {
      if OccursAt(s, sep, i) {
        assert s[i..i + |sep|] == (pre + sep)[i..i + |sep|];
        assert OccursAt(pre + sep, sep, i);
      }
    }
    FindIs(s, sep, |pre|);
    assert s[..|pre|] == pre;
    assert s[|pre| + |sep|..] == rest;
  }

  /** Stripping cannot create an occurrence of a substring. */
  lemma StripNoContains(s: string, sub: string)
    requires !Contains(s, sub)
    ensures !Contains(Strip(s), sub)
  {
    var l := LStrip(s);
    LStripSuffix(s);
    NotContainsSlice(s, sub, |s| - |l|, |s|);
    assert s[|s| - |l|..|s|] == l;
    RStripPrefix(l);
    NotContainsSlice(l, sub, 0, |RStrip(l)|);
  }

  /** A stripped string neither starts nor ends with whitespace. */
  lemma StripEnds(s: string)
    ensures Strip(s) == [] || (!IsSpace(Strip(s)[0]) && !IsSpace(Strip(s)[|Strip(s)| - 1]))
  {
    var l := LStrip(s);
    RStripPrefix(l);
  }

  /** A one-character pattern occurs exactly when the character is present. */
  lemma CharContains(s: string, c: char)
    ensures Contains(s, [c]) <==> c in s
  {
    if c in s {
      var j :| 0 <= j < |s| && s[j] == c;
      assert OccursAt(s, [c], j) by { assert s[j..j + 1] == [c]; }
    }
    if Contains(s, [c]) {
      var j := Find(s, [c]);
      assert s[j..j + 1] == [c];
      assert s[j] in s;
    }
  }

  /** Replacing a character by a text without it leaves none of it behind. */
  lemma {:induction false} ReplaceDropsChar(s: string, c: char, rep: string)
    requires c !in rep
    ensures c !in ReplaceAll(s, [c], rep)
    decreases |s|
  {
    var i := Find(s, [c]);
    if i < 0 {
      CharContains(s, c);
    } else {
      forall j | 0 <= j < i
        ensures s[j] != c
      {
        assert !OccursAt(s, [c], j);
        assert s[j..j + 1] == [s[j]];
      }
      assert c !in s[..i];
      ReplaceDropsChar(s[i + 1..], c, rep);
    }
  }

  /** Replacing one character by another rewrites the string position by position. */
  lemma {:induction false} ReplaceCharPointwise(s: string, c: char, d: char)
    ensures |ReplaceAll(s, [c], [d])| == |s|
    ensures forall j :: 0 <= j < |s| ==>
      ReplaceAll(s, [c], [d])[j] == if s[j] == c then d else s[j]
    decreases |s|
  {
    var i := Find(s, [c]);
    if i < 0 {
      CharContains(s, c);
    } else {
      forall j | 0 <= j < i
        ensures s[j] != c
      {
        assert !OccursAt(s, [c], j);
        assert s[j..j + 1] == [s[j]];
      }
      assert s[i..i + 1] == [c];
      var tail := s[i + 1..];
      ReplaceCharPointwise(tail, c, d);
      var r := ReplaceAll(s, [c], [d]);
      assert r == s[..i] + [d] + ReplaceAll(tail, [c], [d]);
      forall j | i < j < |s|
        ensures r[j] == if s[j] == c then d else s[j]
      {
        assert tail[j - i - 1] == s[j];
      }
    }
  }

  /** No piece of a split holds the separator. */
  lemma {:induction false} SplitPartsLackSep(s: string, sep: string)
    requires |sep| > 0
    ensures forall k :: 0 <= k < |Split(s, sep)| ==> !Contains(Split(s, sep)[k], sep)
    decreases |s|
  {
    var i := Find(s, sep);
    if i >= 0 {
      assert !Contains(s[..i], sep) by {
        if Contains(s[..i], sep) {
          OccursInPrefix(s, sep, i, Find(s[..i], sep));
        }
      }
      SplitPartsLackSep(s[i + |sep|..], sep);
    }
  }

  /** The first piece of a split is a prefix of the text. */
  lemma SplitHeadPrefix(s: string, sep: string)
    requires |sep| > 0
    ensures StartsWith(s, Split(s, sep)[0])
  {
  }

  /** Splitting a text without the separator gives the text alone. */
  lemma SplitAbsent(s: string, sep: string)
    requires |sep| > 0
    requires !Contains(s, sep)
    ensures Split(s, sep) == [s]
  {
  }

  lemma {:induction false} DigitsValueOfNat(n: nat)
    ensures DigitsValue(NatString(n)) == n
  {
    var r := NatString(n);
    if n >= 10 {
      DigitsValueOfNat(n / 10);
      assert r[..|r| - 1] == NatString(n / 10);
    }
  }

  /** `int(str(n)) == n`. */
  lemma DecimalRoundTrip(n: int)
    ensures ParseInt(DecimalString(n)) == Some(n)
  {
    var t := DecimalString(n);
    var digits := NatString(if n < 0 then -n else n);
    assert t == if n < 0 then "-" + digits else digits;
    assert !IsSpace(t[0]) && !IsSpace(t[|t| - 1]);
    StripOfStripped(t);
    DigitsValueOfNat(if n < 0 then -n else n);
    if n < 0 {
      assert t[1..] == digits;
      assert AllDigits(t[1..]);
    } else {
      assert t[0] != '-' && t[0] != '+';
      assert AllDigits(t);
    }
  }
}
