/**
 * String operations of Python's `str` that the news reader relies on:
 * whitespace stripping, ASCII lower-casing, substring search from the left
 * and from the right, joining, character replacement, removal of every
 * occurrence of a pattern, and decimal formatting of integers.
 */
module Text {
  import opened Common

  /** Python's `str.isspace()`: the characters `str.strip()` removes and `\s` matches in a str pattern. */
  predicate IsSpace(c: char) {
    ('\t' <= c <= '\r') || ('\U{1C}' <= c <= ' ') || c == '\U{85}' || c == '\U{A0}' || c == '\U{1680}'
    || ('\U{2000}' <= c <= '\U{200A}') || c == '\U{2028}' || c == '\U{2029}' || c == '\U{202F}'
    || c == '\U{205F}' || c == '\U{3000}'
  }

  /** Index of the first non-whitespace character at or after `i` (or `|s|`). */
  function SkipSpaces(s: string, i: nat): (k: nat)
    requires i <= |s|
    ensures i <= k <= |s|
    ensures forall j :: i <= j < k ==> IsSpace(s[j])
    ensures k == |s| || !IsSpace(s[k])
    decreases |s| - i
  {
    if i == |s| || !IsSpace(s[i]) then i else SkipSpaces(s, i + 1)
  }

  /** End of `s[lo..hi]` once its trailing whitespace is dropped. */
  function TrimEnd(s: string, lo: nat, hi: nat): (k: nat)
    requires lo <= hi <= |s|
    ensures lo <= k <= hi
    ensures forall j :: k <= j < hi ==> IsSpace(s[j])
    ensures k == lo || !IsSpace(s[k - 1])
    decreases hi
  {
    if hi == lo || !IsSpace(s[hi - 1]) then hi else TrimEnd(s, lo, hi - 1)
  }

  /** `s[lo..hi]` is what is left of `s` once whitespace is removed from both ends. */
  ghost predicate StripBounds(s: string, lo: int, hi: int) {
    && 0 <= lo <= hi <= |s|
    && (forall j :: 0 <= j < lo ==> IsSpace(s[j]))
    && (forall j :: hi <= j < |s| ==> IsSpace(s[j]))
    && (lo < hi ==> !IsSpace(s[lo]) && !IsSpace(s[hi - 1]))
  }

  /** Python's `s.strip()`. */
  function Strip(s: string): (r: string)
    ensures exists lo, hi :: StripBounds(s, lo, hi) && r == s[lo..hi]
    ensures r == [] || (!IsSpace(r[0]) && !IsSpace(r[|r| - 1]))
    ensures |r| <= |s|
  {
    var lo := SkipSpaces(s, 0);
    var hi := TrimEnd(s, lo, |s|);
    assert StripBounds(s, lo, hi);
    s[lo..hi]
  }

  /** `s[lo..lo + n]` is what is left of `s` once every leading and trailing `c` is removed. */
  ghost predicate StripCharBounds(s: string, c: char, lo: int, n: int) {
    && 0 <= lo && 0 <= n && lo + n <= |s|
    && (forall j :: 0 <= j < lo ==> s[j] == c)
    && (forall j :: lo + n <= j < |s| ==> s[j] == c)
  }

  /** `r` is `s` with leading and trailing `c` removed: a slice of `s` whose outside is all `c`. */
  ghost predicate StrippedOf(s: string, c: char, r: string) {
    exists lo :: StripCharBounds(s, c, lo, |r|) && r == s[lo..lo + |r|]
  }

  /** Python's `s.strip(c)` for a single character `c`. */
  function StripChar(s: string, c: char): (r: string)
    ensures StrippedOf(s, c, r)
    ensures r == [] || (r[0] != c && r[|r| - 1] != c)
    ensures (s == [] || (s[0] != c && s[|s| - 1] != c)) ==> r == s
    decreases |s|
  {
    if s == [] then
      StripCharKeep(s, c);
      []
    else if s[0] == c then
      var r := StripChar(s[1..], c);
      StripCharDropFirst(s, c, r);
      r
    else if s[|s| - 1] == c then
      var r := StripChar(s[..|s| - 1], c);
      StripCharDropLast(s, s[..|s| - 1], c, r);
      r
    else
      StripCharKeep(s, c);
      s
  }

  lemma StripCharKeep(s: string, c: char)
    ensures StrippedOf(s, c, s)
  {
    assert s[0..|s|] == s;
    assert StripCharBounds(s, c, 0, |s|);
  }

  lemma StripCharDropFirst(s: string, c: char, r: string)
    requires s != [] && s[0] == c
    requires StrippedOf(s[1..], c, r)
    ensures StrippedOf(s, c, r)
  {
    var lo :| StripCharBounds(s[1..], c, lo, |r|) && r == s[1..][lo..lo + |r|];
    assert StripCharBounds(s, c, lo + 1, |r|) && r == s[lo + 1..lo + 1 + |r|];
  }

  lemma StripCharDropLast(s: string, init: string, c: char, r: string)
    requires s != [] && s[|s| - 1] == c && init == s[..|s| - 1]
    requires StrippedOf(init, c, r)
    ensures StrippedOf(s, c, r)
  {
    var lo :| StripCharBounds(init, c, lo, |r|) && r == init[lo..lo + |r|];
    assert StripCharBounds(s, c, lo, |r|) && r == s[lo..lo + |r|];
  }

  /** Lower-casing of one character, restricted to ASCII letters. */
  function LowerChar(c: char): char {
    if 'A' <= c <= 'Z' then (c as int + 32) as char else c
  }

  /** `s.lower()` over ASCII letters; every other character is kept. */
  function Lower(s: string): (r: string)
    ensures |r| == |s|
    ensures forall i :: 0 <= i < |s| ==> r[i] == LowerChar(s[i])
  {
    seq(|s|, i requires 0 <= i < |s| => LowerChar(s[i]))
  }

  /** `sub` occurs in `s` starting at index `i`. */
  predicate OccursAt(s: string, sub: string, i: int) {
    0 <= i && i + |sub| <= |s| && s[i..i + |sub|] == sub
  }

  /** `s.find(sub, from)`: the leftmost occurrence of `sub` at or after `from`. */
  function FindFrom(s: string, sub: string, from: nat): (r: Option<nat>)
    ensures r.Some? ==> from <= r.value && OccursAt(s, sub, r.value)
    ensures r.Some? ==> forall j :: from <= j < r.value ==> !OccursAt(s, sub, j)
    ensures r.None? ==> forall j :: from <= j ==> !OccursAt(s, sub, j)
    decreases |s| - from
  {
    if from + |sub| > |s| then None
    else if s[from..from + |sub|] == sub then Some(from)
    else FindFrom(s, sub, from + 1)
  }

  /** Python's `sub in s`. */
  function Contains(s: string, sub: string): (r: bool)
    ensures r <==> exists i :: OccursAt(s, sub, i)
  {
    var f := FindFrom(s, sub, 0);
    assert f.Some? ==> OccursAt(s, sub, f.value);
    f.Some?
  }

  /** Python's `s.startswith(prefix)`. */
  predicate StartsWith(s: string, prefix: string) {
    |prefix| <= |s| && s[..|prefix|] == prefix
  }

  /** An occurrence stays an occurrence when text is added on either side. */
  lemma ContainsExtended(a: string, s: string, b: string, sub: string)
    requires Contains(s, sub)
    ensures Contains(a + s + b, sub)
  {
    var i :| OccursAt(s, sub, i);
    var t := a + s + b;
    assert t[|a| + i..|a| + i + |sub|] == s[i..i + |sub|];
    assert OccursAt(t, sub, |a| + i);
  }

  /** An occurrence of `sub` inside an occurrence of `mid` is an occurrence in `s`. */
  lemma ContainsTransitive(s: string, mid: string, sub: string)
    requires Contains(s, mid) && Contains(mid, sub)
    ensures Contains(s, sub)
  {
    var i :| OccursAt(s, mid, i);
    var j :| OccursAt(mid, sub, j);
    SliceOfSlice(s, i, i + |mid|, j, j + |sub|);
    assert OccursAt(s, sub, i + j);
  }

  /** An occurrence stays an occurrence when text is appended. */
  lemma ContainsAppended(s: string, b: string, sub: string)
    requires Contains(s, sub)
    ensures Contains(s + b, sub)
  {
    var i :| OccursAt(s, sub, i);
    assert (s + b)[i..i + |sub|] == s[i..i + |sub|];
    assert OccursAt(s + b, sub, i);
  }

  lemma SliceOfSlice<T>(s: seq<T>, i: nat, k: nat, j: nat, l: nat)
    requires i <= k <= |s| && j <= l <= k - i
    ensures s[i..k][j..l] == s[i + j..i + l]
  {
    forall m | 0 <= m < l - j
      ensures s[i..k][j..l][m] == s[i + j..i + l][m]
    {
      assert s[i..k][j..l][m] == s[i..k][j + m];
    }
  }

  /** `s.rfind(sub)` restricted to indices below `end`: the rightmost occurrence. */
  function FindLast(s: string, sub: string, end: nat): (r: Option<nat>)
    ensures r.Some? ==> r.value < end && OccursAt(s, sub, r.value)
    ensures r.Some? ==> forall j :: r.value < j < end ==> !OccursAt(s, sub, j)
    ensures r.None? ==> forall j :: j < end ==> !OccursAt(s, sub, j)
    decreases end
  {
    if end == 0 then None
    else if OccursAt(s, sub, end - 1) then Some(end - 1)
    else FindLast(s, sub, end - 1)
  }

  /** Index of the first `c` at or after `from`. */
  function IndexOfChar(s: string, c: char, from: nat): (r: Option<nat>)
    ensures r.Some? ==> from <= r.value < |s| && s[r.value] == c
    ensures r.Some? ==> forall j :: from <= j < r.value ==> s[j] != c
    ensures r.None? ==> forall j :: from <= j < |s| ==> s[j] != c
    decreases |s| - from
  {
    if from >= |s| then None
    else if s[from] == c then Some(from)
    else IndexOfChar(s, c, from + 1)
  }

  /** `s.replace(a, b)` for single characters. */
  function ReplaceChar(s: string, a: char, b: char): (r: string)
    ensures |r| == |s|
    ensures forall i :: 0 <= i < |s| ==> r[i] == (if s[i] == a then b else s[i])
  {
    seq(|s|, i requires 0 <= i < |s| => if s[i] == a then b else s[i])
  }

  /** `s.replace(pat, "")`: every occurrence found scanning left to right, without overlap, is dropped. */
  function RemoveAll(s: string, pat: string): (r: string)
    requires |pat| > 0
    ensures |r| <= |s|
    ensures !Contains(s, pat) ==> r == s
    decreases |s|
  {
    if |s| < |pat| then s
    else if s[..|pat|] == pat then
      assert OccursAt(s, pat, 0);
      RemoveAll(s[|pat|..], pat)
    else
      assert forall i :: OccursAt(s[1..], pat, i) ==> OccursAt(s, pat, i + 1);
      [s[0]] + RemoveAll(s[1..], pat)
  }

  /** An occurrence of the pattern at the front is dropped. */
  lemma RemoveAllLeading(pat: string, s: string)
    requires |pat| > 0
    ensures RemoveAll(pat + s, pat) == RemoveAll(s, pat)
  {
    assert (pat + s)[..|pat|] == pat;
    assert (pat + s)[|pat|..] == s;
  }

  /** Text before which no occurrence can start (it lacks the pattern's first character) is kept. */
  lemma {:induction false} RemoveAllKeepsPrefix(p: string, s: string, pat: string)
    requires |pat| > 0 && pat[0] !in p
    ensures RemoveAll(p + s, pat) == p + RemoveAll(s, pat)
    decreases |p|
  {
    if p == [] {
      assert p + s == s;
    } else {
      assert pat[0] !in p[1..];
      RemoveAllKeepsPrefix(p[1..], s, pat);
      if |p + s| < |pat| {
        RemoveAllShort(p + s, pat);
        RemoveAllShort(s, pat);
      } else {
        RemoveAllFirstKept(p, s, pat);
        ConsConcat(p, RemoveAll(s, pat));
      }
    }
  }

  lemma RemoveAllShort(s: string, pat: string)
    requires 0 < |pat| && |s| < |pat|
    ensures RemoveAll(s, pat) == s
  {
  }

  /** A first character that cannot start the pattern is kept and the scan moves on. */
  lemma RemoveAllFirstKept(p: string, s: string, pat: string)
    requires 0 < |pat| <= |p + s| && p != [] && p[0] != pat[0]
    ensures RemoveAll(p + s, pat) == [p[0]] + RemoveAll(p[1..] + s, pat)
  {
    var t := p + s;
    assert t[1..] == p[1..] + s;
    assert t[..|pat|] != pat by {
      assert t[..|pat|][0] == p[0];
    }
  }

  lemma ConsConcat<T>(p: seq<T>, x: seq<T>)
    requires p != []
    ensures [p[0]] + (p[1..] + x) == p + x
  {
    assert p == [p[0]] + p[1..];
  }

  /** `sep.join(parts)`. */
  function Join(parts: seq<string>, sep: string): string
  {
    if |parts| == 0 then ""
    else if |parts| == 1 then parts[0]
    else Join(parts[..|parts| - 1], sep) + sep + parts[|parts| - 1]
  }

  /** Joining is the same whether read from the front or from the back. */
  lemma {:induction false} JoinCons(a: string, rest: seq<string>, sep: string)
    requires rest != []
    ensures Join([a] + rest, sep) == a + sep + Join(rest, sep)
    decreases |rest|
  {
    var ps := [a] + rest;
    if |rest| == 1 {
      assert ps[..1] == [a];
    } else {
      JoinCons(a, rest[..|rest| - 1], sep);
      assert ps[..|ps| - 1] == [a] + rest[..|rest| - 1];
    }
  }

  /** Every part occurs in the joined string, at a position that depends only on the parts before it. */
  lemma {:induction false} JoinContainsParts(parts: seq<string>, sep: string, k: nat)
    requires k < |parts|
    ensures Contains(Join(parts, sep), parts[k])
  {
    var n := |parts|;
    var j := Join(parts, sep);
    if n == 1 {
      assert OccursAt(j, parts[k], 0);
    } else if k == n - 1 {
      var pre := Join(parts[..n - 1], sep) + sep;
      assert j == pre + parts[k];
      assert j[|pre|..|pre| + |parts[k]|] == parts[k];
      assert OccursAt(j, parts[k], |pre|);
    } else {
      JoinContainsParts(parts[..n - 1], sep, k);
      var pre := Join(parts[..n - 1], sep);
      assert parts[..n - 1][k] == parts[k];
      var i :| OccursAt(pre, parts[k], i);
      assert j == pre + (sep + parts[n - 1]);
      assert j[i..i + |parts[k]|] == pre[i..i + |parts[k]|];
      assert OccursAt(j, parts[k], i);
    }
  }

  predicate IsDigit(c: char) {
    '0' <= c <= '9'
  }

  function DigitChar(d: nat): (c: char)
    requires d < 10
    ensures IsDigit(c) && c as int - '0' as int == d
  {
    ('0' as int + d) as char
  }

  /** Python's `str(n)` for a natural number: decimal digits, most significant first. */
  function NatToString(n: nat): (r: string)
    ensures |r| > 0 && forall i :: 0 <= i < |r| ==> IsDigit(r[i])
    decreases n
  {
    if n < 10 then [DigitChar(n)] else NatToString(n / 10) + [DigitChar(n % 10)]
  }

  /** Python's `str(i)` for any integer. */
  function IntToString(i: int): string {
    if i < 0 then "-" + NatToString(-i) else NatToString(i)
  }

  /** The number a string of decimal digits denotes. */
  function DigitsValue(s: string): nat
    requires forall i :: 0 <= i < |s| ==> IsDigit(s[i])
  {
    if s == [] then 0
    else
      assert IsDigit(s[|s| - 1]);
      DigitsValue(s[..|s| - 1]) * 10 + (s[|s| - 1] as int - '0' as int)
  }

  /** Decimal digits as `str` writes them: at least one, and no leading zero unless the number is zero. */
  predicate CanonicalDigits(s: string) {
    |s| > 0 && (forall i :: 0 <= i < |s| ==> IsDigit(s[i])) && (s[0] == '0' ==> |s| == 1)
  }

  /** Reads back exactly what `IntToString` writes: `0`, or an optional `-` and digits without a leading zero. */
  function ParseInt(s: string): Option<int> {
    if |s| > 0 && s[0] == '-' then
      var d := s[1..];
      if CanonicalDigits(d) && d != "0" then Some(-(DigitsValue(d) as int)) else None
    else if CanonicalDigits(s) then Some(DigitsValue(s))
    else None
  }

  lemma {:induction false} NatToStringValue(n: nat)
    ensures DigitsValue(NatToString(n)) == n
    decreases n
  {
    if n >= 10 {
      NatToStringValue(n / 10);
      var r := NatToString(n);
      assert r[..|r| - 1] == NatToString(n / 10);
    }
  }

  /** Only zero is written with a leading `0`. */
  lemma {:induction false} NatToStringLead(n: nat)
    ensures NatToString(n)[0] == '0' <==> n == 0
    decreases n
  {
    if n >= 10 {
      NatToStringLead(n / 10);
      assert NatToString(n)[0] == NatToString(n / 10)[0];
    }
  }

  lemma NatToStringCanonical(n: nat)
    ensures CanonicalDigits(NatToString(n))
    ensures n > 0 ==> NatToString(n) != "0"
  {
    NatToStringLead(n);
  }

  /** Canonical digits are the decimal form of the number they denote. */
  lemma {:induction false} CanonicalDigitsValue(s: string)
    requires CanonicalDigits(s)
    ensures NatToString(DigitsValue(s)) == s
    decreases |s|
  {
    var c := s[|s| - 1];
    var d := c as int - '0' as int;
    if |s| == 1 {
      assert s[..0] == [];
      assert DigitChar(d) == c;
    } else {
      var p := s[..|s| - 1];
      assert p[0] == s[0];
      CanonicalDigitsValue(p);
      var v := DigitsValue(p);
      NatToStringLead(v);
      var n := DigitsValue(s);
      assert n == v * 10 + d;
      assert n / 10 == v && n % 10 == d;
      assert DigitChar(d) == c;
      assert s == p + [c];
    }
  }

  /** Decimal formatting of an integer can be read back exactly. */
  lemma IntToStringRoundTrip(i: int)
    ensures ParseInt(IntToString(i)) == Some(i)
  {
    if i < 0 {
      NatToStringValue(-i);
      NatToStringCanonical(-i);
      assert ("-" + NatToString(-i))[1..] == NatToString(-i);
    } else {
      NatToStringValue(i);
      NatToStringCanonical(i);
    }
  }

  /** What `ParseInt` accepts is exactly the decimal form of its value, so no other spelling reads back. */
  lemma ParseIntExact(s: string)
    requires ParseInt(s).Some?
    ensures s == IntToString(ParseInt(s).value)
  {
    if |s| > 0 && s[0] == '-' {
      var d := s[1..];
      CanonicalDigitsValue(d);
      NatToStringLead(DigitsValue(d));
      assert s == "-" + d;
    } else {
      CanonicalDigitsValue(s);
    }
  }
}
