/**
 * The parts of `urllib.parse` the redirect unwrapping depends on: the query
 * component `urlsplit` extracts, and `parse_qs` with its default settings
 * (blank values dropped, `&` as the only separator, `+` read as a space,
 * names and values percent-decoded).
 */
module QueryString {
  import opened Common
  import opened Text
  import opened Percent

  predicate IsUnsafeUrlChar(c: char) {
    c == '\t' || c == '\r' || c == '\n'
  }

  predicate NoUnsafeChars(s: string) {
    forall i :: 0 <= i < |s| ==> !IsUnsafeUrlChar(s[i])
  }

  /** `urlsplit` first deletes every tab, carriage return and line feed in the URL. */
  function RemoveUnsafe(s: string): (r: string)
    ensures NoUnsafeChars(r)
    ensures NoUnsafeChars(s) ==> r == s
  {
    if s == [] then []
    else
      assert s == [s[0]] + s[1..];
      (if IsUnsafeUrlChar(s[0]) then [] else [s[0]]) + RemoveUnsafe(s[1..])
  }

  /**
   * The query component of `urlsplit(url)`: the text after the first `?`
   * of the part before the first `#`. Scheme and network location end
   * before either character, so they do not affect it.
   */
  function QueryOf(url: string): (q: string)
    ensures forall i :: 0 <= i < |q| ==> q[i] != '#'
  {
    var u := RemoveUnsafe(url);
    var beforeFragment := match IndexOfChar(u, '#', 0)
      case None => u
      case Some(i) => u[..i];
    match IndexOfChar(beforeFragment, '?', 0)
    case None => ""
    case Some(i) => beforeFragment[i + 1..]
  }

  /** A URL made of a base without `?` or `#`, a `?` and a query without `#`. */
  lemma QueryOfComposed(base: string, query: string)
    requires forall i :: 0 <= i < |base| ==> base[i] != '?' && base[i] != '#'
    requires forall i :: 0 <= i < |query| ==> query[i] != '#'
    requires NoUnsafeChars(base) && NoUnsafeChars(query)
    ensures QueryOf(base + "?" + query) == query
  {
    var url := base + "?" + query;
    assert NoUnsafeChars(url) by {
      forall i | 0 <= i < |url| ensures !IsUnsafeUrlChar(url[i]) {
        if i < |base| { assert url[i] == base[i]; }
        else if i > |base| { assert url[i] == query[i - |base| - 1]; }
      }
    }
    assert forall i :: 0 <= i < |url| ==> url[i] != '#' by {
      forall i | 0 <= i < |url| ensures url[i] != '#' {
        if i < |base| { assert url[i] == base[i]; }
        else if i > |base| { assert url[i] == query[i - |base| - 1]; }
      }
    }
    assert IndexOfChar(url, '?', 0) == Some(|base|) by {
      assert forall j :: 0 <= j < |base| ==> url[j] == base[j];
      assert url[|base|] == '?';
    }
    assert url[|base| + 1..] == query;
  }

  /** `s.split(c)`: the pieces between the occurrences of `c`, which joined by `c` give back `s`. */
  function SplitOn(s: string, c: char): (parts: seq<string>)
    ensures |parts| >= 1
    ensures forall k, i :: 0 <= k < |parts| && 0 <= i < |parts[k]| ==> parts[k][i] != c
    ensures Join(parts, [c]) == s
    decreases |s|
  {
    match IndexOfChar(s, c, 0)
    case None => [s]
    case Some(i) =>
      var rest := SplitOn(s[i + 1..], c);
      JoinCons(s[..i], rest, [c]);
      assert s == s[..i] + [c] + s[i + 1..];
      [s[..i]] + rest
  }

  /** One `name=value` piece as `parse_qsl` reads it: no `=` or an empty value drops the piece. */
  function ParsePair(piece: string): (r: Option<(string, string)>)
    ensures r.Some? ==> r.value.1 != "" || '%' in piece
  {
    match IndexOfChar(piece, '=', 0)
    case None => None
    case Some(i) =>
      if i + 1 == |piece| then None
      else
        var value := ReplaceChar(piece[i + 1..], '+', ' ');
        assert value[0] != '%' ==> Unquote(value) != "";
        Some((Unquote(ReplaceChar(piece[..i], '+', ' ')), Unquote(value)))
  }

  function PairsOf(pieces: seq<string>): (r: seq<(string, string)>)
    ensures |r| <= |pieces|
  {
    if pieces == [] then []
    else
      (match ParsePair(pieces[0]) case None => [] case Some(p) => [p]) + PairsOf(pieces[1..])
  }

  /** `parse_qsl(query)`: the decoded name/value pairs in order. */
  function ParseQsl(query: string): (r: seq<(string, string)>)
    ensures |r| <= |SplitOn(query, '&')|
  {
    PairsOf(SplitOn(query, '&'))
  }

  /** `parse_qs(query)[key][0]`: the value of the first pair named `key`, if any. */
  function LookupFirst(pairs: seq<(string, string)>, key: string): (r: Option<string>)
    ensures r.Some? ==> exists i :: 0 <= i < |pairs| && pairs[i] == (key, r.value) && forall j :: 0 <= j < i ==> pairs[j].0 != key
    ensures r.None? ==> forall i :: 0 <= i < |pairs| ==> pairs[i].0 != key
  {
    if pairs == [] then None
    else if pairs[0].0 == key then
      assert pairs[0] == (key, pairs[0].1);
      Some(pairs[0].1)
    else
      var r := LookupFirst(pairs[1..], key);
      assert forall i :: 1 <= i < |pairs| ==> pairs[i] == pairs[1..][i - 1];
      r
  }

  lemma ParsePairOf(name: string, value: string)
    requires forall i :: 0 <= i < |name| ==> name[i] != '=' && name[i] != '+' && name[i] != '%'
    requires value != ""
    ensures ParsePair(name + "=" + value) == Some((name, Unquote(ReplaceChar(value, '+', ' '))))
  {
    var piece := name + "=" + value;
    assert forall j :: 0 <= j < |name| ==> piece[j] == name[j];
    assert piece[|name|] == '=';
    assert IndexOfChar(piece, '=', 0) == Some(|name|);
    assert piece[..|name|] == name;
    assert piece[|name| + 1..] == value;
    assert ReplaceChar(name, '+', ' ') == name;
  }

  /** A query holding the single parameter `name=value` parses to that one pair. */
  lemma SinglePair(name: string, value: string)
    requires forall i :: 0 <= i < |name| ==> name[i] != '=' && name[i] != '&' && name[i] != '+' && name[i] != '%'
    requires forall i :: 0 <= i < |value| ==> value[i] != '&'
    requires value != ""
    ensures ParseQsl(name + "=" + value) == [(name, Unquote(ReplaceChar(value, '+', ' ')))]
  {
    var piece := name + "=" + value;
    ParsePairOf(name, value);
    assert forall j :: 0 <= j < |piece| ==> piece[j] != '&' by {
      forall j | 0 <= j < |piece| ensures piece[j] != '&' {
        if j < |name| { assert piece[j] == name[j]; }
        else if j > |name| { assert piece[j] == value[j - |name| - 1]; }
      }
    }
    SplitLeading(piece, []);
    assert piece + [] == piece;
    assert SplitOn(piece, '&') == [piece];
    assert [piece][1..] == [];
    assert PairsOf([piece]) == [ParsePair(piece).value] + PairsOf([]);
  }

  lemma SplitLeading(piece: string, rest: string)
    requires forall j :: 0 <= j < |piece| ==> piece[j] != '&'
    requires rest == [] || rest[0] == '&'
    ensures SplitOn(piece + rest, '&') == [piece] + (if rest == [] then [] else SplitOn(rest[1..], '&'))
  {
    var s := piece + rest;
    if rest == [] {
      assert s == piece;
    } else {
      assert forall j :: 0 <= j < |piece| ==> s[j] == piece[j];
      assert s[|piece|] == '&';
      assert IndexOfChar(s, '&', 0) == Some(|piece|);
      assert s[..|piece|] == piece;
      assert s[|piece| + 1..] == rest[1..];
    }
  }

  /** A leading piece that yields no pair named `key` does not affect looking `key` up. */
  lemma SkipPiece(piece: string, rest: string, key: string)
    requires forall j :: 0 <= j < |piece| ==> piece[j] != '&'
    requires ParsePair(piece).None? || ParsePair(piece).value.0 != key
    ensures LookupFirst(ParseQsl(piece + "&" + rest), key) == LookupFirst(ParseQsl(rest), key)
  {
    ParseQslCons(piece, rest);
    assert [piece][1..] == [];
    LookupSkip(PairsOf([piece]), ParseQsl(rest), key);
  }

  /** The pairs of `piece&rest` are those of the piece followed by those of the rest. */
  lemma ParseQslCons(piece: string, rest: string)
    requires forall j :: 0 <= j < |piece| ==> piece[j] != '&'
    ensures ParseQsl(piece + "&" + rest) == PairsOf([piece]) + ParseQsl(rest)
  {
    assert piece + "&" + rest == piece + ("&" + rest);
    SplitLeading(piece, "&" + rest);
    assert ("&" + rest)[1..] == rest;
    PairsOfCons(piece, SplitOn(rest, '&'));
  }

  lemma PairsOfCons(piece: string, tail: seq<string>)
    ensures PairsOf([piece] + tail) == PairsOf([piece]) + PairsOf(tail)
  {
    assert ([piece] + tail)[1..] == tail;
    assert [piece][1..] == [];
  }

  /** Pairs with other names in front do not change the lookup. */
  lemma {:induction false} LookupSkip(head: seq<(string, string)>, rest: seq<(string, string)>, key: string)
    requires forall i :: 0 <= i < |head| ==> head[i].0 != key
    ensures LookupFirst(head + rest, key) == LookupFirst(rest, key)
  {
    if head != [] {
      assert (head + rest)[1..] == head[1..] + rest;
      LookupSkip(head[1..], rest, key);
    } else {
      assert head + rest == rest;
    }
  }

  /**
   * A query that starts with `name=value` (followed by nothing or by `&...`)
   * yields that value, decoded, for `name`.
   */
  lemma LeadingPair(name: string, value: string, rest: string)
    requires forall i :: 0 <= i < |name| ==> name[i] != '=' && name[i] != '&' && name[i] != '+' && name[i] != '%'
    requires forall i :: 0 <= i < |value| ==> value[i] != '&'
    requires value != ""
    requires rest == [] || rest[0] == '&'
    ensures LookupFirst(ParseQsl(name + "=" + value + rest), name) == Some(Unquote(ReplaceChar(value, '+', ' ')))
  {
    var piece := name + "=" + value;
    ParsePairOf(name, value);
    assert forall j :: 0 <= j < |piece| ==> piece[j] != '&' by {
      forall j | 0 <= j < |piece| ensures piece[j] != '&' {
        if j < |name| { assert piece[j] == name[j]; }
        else if j > |name| { assert piece[j] == value[j - |name| - 1]; }
      }
    }
    SplitLeading(piece, rest);
    var tail := if rest == [] then [] else SplitOn(rest[1..], '&');
    assert ([piece] + tail)[1..] == tail;
    assert PairsOf([piece] + tail) == [ParsePair(piece).value] + PairsOf(tail);
  }
}
