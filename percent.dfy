/**
 * Percent-decoding as done by `urllib.parse.unquote` (which `parse_qs` also
 * applies to every name and value), and an encoder used as its inverse.
 */
module Percent {
  import opened Common
  import opened Text

  /** The value of a hexadecimal digit of either case. */
  function HexValue(c: char): (r: Option<nat>)
    ensures r.Some? ==> r.value < 16
  {
    if '0' <= c <= '9' then Some(c as int - '0' as int)
    else if 'a' <= c <= 'f' then Some(c as int - 'a' as int + 10)
    else if 'A' <= c <= 'F' then Some(c as int - 'A' as int + 10)
    else None
  }

  /** An upper-case hexadecimal digit, as `quote` writes it. */
  function HexDigit(v: nat): (c: char)
    requires v < 16
    ensures HexValue(c) == Some(v)
  {
    if v < 10 then ('0' as int + v) as char else ('A' as int + v - 10) as char
  }

  /**
   * `unquote(s)`: every `%` followed by two hexadecimal digits becomes the
   * character with that code; anything else, a stray `%` included, is kept.
   * A string without `%` comes back unchanged, the library's fast path.
   */
  function Unquote(s: string): (r: string)
    ensures |r| <= |s|
    ensures '%' !in s ==> r == s
    decreases |s|
  {
    if |s| == 0 then ""
    else if |s| >= 3 && s[0] == '%' && HexValue(s[1]).Some? && HexValue(s[2]).Some? then
      [(16 * HexValue(s[1]).value + HexValue(s[2]).value) as char] + Unquote(s[3..])
    else
      assert s == [s[0]] + s[1..];
      [s[0]] + Unquote(s[1..])
  }

  /** Characters `quote(s, safe="")` leaves as they are. */
  predicate IsUnreserved(c: char) {
    ('A' <= c <= 'Z') || ('a' <= c <= 'z') || ('0' <= c <= '9') || c == '_' || c == '.' || c == '-' || c == '~'
  }

  predicate IsAscii(s: string) {
    forall i :: 0 <= i < |s| ==> s[i] as int < 128
  }

  function EncodeChar(c: char): string
    requires c as int < 128
  {
    if IsUnreserved(c) then [c] else ['%', HexDigit(c as int / 16), HexDigit(c as int % 16)]
  }

  /**
   * `quote(s, safe="")` over ASCII text: what a redirector writes into its
   * query string. The result holds only unreserved characters and `%`, so
   * no `&`, `=`, `#`, `?`, `+` or whitespace survives into it.
   */
  function PercentEncode(s: string): (r: string)
    requires IsAscii(s)
    ensures |r| >= |s|
    ensures forall i :: 0 <= i < |r| ==> IsUnreserved(r[i]) || r[i] == '%'
  {
    if s == [] then [] else EncodeChar(s[0]) + PercentEncode(s[1..])
  }

  lemma UnquotePlain(c: char, rest: string)
    requires c != '%'
    ensures Unquote([c] + rest) == [c] + Unquote(rest)
  {
    assert ([c] + rest)[1..] == rest;
  }

  lemma UnquoteEscape(c: char, rest: string)
    requires c as int < 128
    ensures Unquote(['%', HexDigit(c as int / 16), HexDigit(c as int % 16)] + rest) == [c] + Unquote(rest)
  {
    var e := ['%', HexDigit(c as int / 16), HexDigit(c as int % 16)];
    assert (e + rest)[3..] == rest;
    assert 16 * (c as int / 16) + c as int % 16 == c as int;
  }

  /** Text without `%` is decoded to itself, whatever follows it. */
  lemma {:induction false} UnquoteLiteralPrefix(p: string, rest: string)
    requires '%' !in p
    ensures Unquote(p + rest) == p + Unquote(rest)
  {
    if p != [] {
      UnquoteLiteralPrefix(p[1..], rest);
      ConsConcat(p, rest);
      UnquotePlain(p[0], p[1..] + rest);
      ConsConcat(p, Unquote(rest));
    } else {
      assert p + rest == rest;
    }
  }

  /** One escape `%XY` with hexadecimal digits X and Y is decoded to the character with code 16X + Y. */
  lemma UnquoteHexEscape(x: char, y: char, rest: string)
    requires HexValue(x).Some? && HexValue(y).Some?
    ensures Unquote(['%', x, y] + rest) == [(16 * HexValue(x).value + HexValue(y).value) as char] + Unquote(rest)
  {
    assert (['%', x, y] + rest)[3..] == rest;
  }

  /** Decoding undoes encoding. */
  lemma {:induction false} UnquoteEncode(s: string)
    requires IsAscii(s)
    ensures Unquote(PercentEncode(s)) == s
  {
    if s != [] {
      UnquoteEncode(s[1..]);
      if IsUnreserved(s[0]) {
        UnquotePlain(s[0], PercentEncode(s[1..]));
      } else {
        UnquoteEscape(s[0], PercentEncode(s[1..]));
      }
      assert s == [s[0]] + s[1..];
    }
  }
}
