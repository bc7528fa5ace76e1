/**
 * The text processing of a news card: HTML tag stripping in three regular
 * expression passes, the split of a "Title - Source" headline at its last
 * separator, the fall-back of the source name to the link's host, and the
 * defaults of missing article fields.
 *
 * `html.unescape` and `urlparse(link).netloc` are library calls and are
 * passed in as functions; the netloc function answers `None` where
 * `urlparse` would raise.
 */
module NewsCard {
  import opened Common
  import opened Text

  // ---------------------------------------------------------------------
  // The three substitution passes

  /** The three patterns `_sanitize_text` removes, in the order it applies them. */
  datatype Pattern =
    | AnchorOpen   // <\s*(a|font)[^>]*>, case-insensitive
    | AnchorClose  // </\s*(a|font)\s*>, case-insensitive
    | AnyTag       // <[^>]+>

  /** Index just past a case-insensitive `a` or `font` starting at `i`, if there is one. */
  function KeywordEnd(s: string, i: nat): (r: Option<nat>)
    ensures r.Some? ==> i < r.value <= |s|
  {
    if i < |s| && LowerChar(s[i]) == 'a' then Some(i + 1)
    else if i + 4 <= |s| && LowerChar(s[i]) == 'f' && LowerChar(s[i + 1]) == 'o'
            && LowerChar(s[i + 2]) == 'n' && LowerChar(s[i + 3]) == 't' then Some(i + 4)
    else None
  }

  /** Length of the match of pattern `p` at the start of `s`, if it matches there. */
  function MatchAt(p: Pattern, s: string): (r: Option<nat>)
    ensures r.Some? ==> 2 <= r.value <= |s| && s[0] == '<' && s[r.value - 1] == '>'
  {
    if |s| == 0 || s[0] != '<' then None
    else match p
      case AnchorOpen =>
        var k := KeywordEnd(s, SkipSpaces(s, 1));
        if k.None? then None
        else (match IndexOfChar(s, '>', k.value)
              case None => None
              case Some(j) => Some(j + 1))
      case AnchorClose =>
        if |s| < 2 || s[1] != '/' then None
        else
          var k := KeywordEnd(s, SkipSpaces(s, 2));
          if k.None? then None
          else
            var m := SkipSpaces(s, k.value);
            if m < |s| && s[m] == '>' then Some(m + 1) else None
      case AnyTag =>
        if |s| < 2 || s[1] == '>' then None
        else (match IndexOfChar(s, '>', 2)
              case None => None
              case Some(j) => Some(j + 1))
  }

  /**
   * `re.sub(p, "", s)`: matches are found left to right without overlap and
   * deleted; text between them is kept. The result is not scanned again.
   */
  function Sub(p: Pattern, s: string): (r: string)
    ensures |r| <= |s|
    ensures '<' !in s ==> r == s
    decreases |s|
  {
    if s == [] then ""
    else match MatchAt(p, s)
      case Some(n) => Sub(p, s[n..])
      case None =>
        assert s == [s[0]] + s[1..];
        [s[0]] + Sub(p, s[1..])
  }

  /** Text without `<` is kept as it is, whatever follows it. */
  lemma {:induction false} SubKeepsPlain(p: Pattern, pre: string, rest: string)
    requires '<' !in pre
    ensures Sub(p, pre + rest) == pre + Sub(p, rest)
    decreases |pre|
  {
    if pre != [] {
      ConsConcat(pre, rest);
      assert (pre + rest)[1..] == pre[1..] + rest;
      SubKeepsPlain(p, pre[1..], rest);
      ConsConcat(pre, Sub(p, rest));
    } else {
      assert pre + rest == rest;
    }
  }

  /** Text without `>` holds no match and is kept as it is. */
  lemma {:induction false} SubKeepsUnclosed(p: Pattern, s: string)
    requires '>' !in s
    ensures Sub(p, s) == s
    decreases |s|
  {
    if s != [] {
      assert '>' !in s[1..];
      SubKeepsUnclosed(p, s[1..]);
      assert s == [s[0]] + s[1..];
    }
  }

  /** A match at the start is deleted and the scan resumes after it. */
  lemma SubDropsMatch(p: Pattern, s: string, n: nat)
    requires MatchAt(p, s) == Some(n)
    ensures Sub(p, s) == Sub(p, s[n..])
  {
  }

  // ---------------------------------------------------------------------
  // What each pattern matches

  /** `s[i]` is `<`, `s[j]` is `>`, and between them there is at least one character and no `>`. */
  predicate TagAt(s: string, i: int, j: int) {
    0 <= i && i + 1 < j < |s| && s[i] == '<' && s[j] == '>' && forall k :: i < k < j ==> s[k] != '>'
  }

  /** No `<`, then one or more characters other than `>`, then `>`, anywhere in `s`. */
  predicate NoTag(s: string) {
    forall i, j :: 0 <= i < j < |s| ==> !TagAt(s, i, j)
  }

  /** The generic pattern matches exactly a tag that starts the string. */
  lemma AnyTagMatches(s: string, n: nat)
    ensures MatchAt(AnyTag, s) == Some(n) <==> n >= 1 && TagAt(s, 0, n - 1)
  {
    if n >= 1 && TagAt(s, 0, n - 1) {
      var f := IndexOfChar(s, '>', 2);
      assert f.Some? && f.value == n - 1 by {
        assert s[n - 1] == '>';
        if f.None? || f.value > n - 1 {
          assert false;
        }
      }
    }
  }

  /** A case-insensitive `a` or `font`. */
  predicate IsKeyword(kw: string) {
    || (|kw| == 1 && LowerChar(kw[0]) == 'a')
    || (|kw| == 4 && LowerChar(kw[0]) == 'f' && LowerChar(kw[1]) == 'o'
        && LowerChar(kw[2]) == 'n' && LowerChar(kw[3]) == 't')
  }

  predicate AllSpaces(ws: string) {
    forall i :: 0 <= i < |ws| ==> IsSpace(ws[i])
  }

  lemma KeywordNotSpace(kw: string)
    requires IsKeyword(kw)
    ensures !IsSpace(kw[0])
  {
  }

  /** Skipping whitespace from `i` over a run of spaces stops at the first non-space. */
  lemma SkipOver(s: string, i: nat, ws: string)
    requires i + |ws| < |s| && s[i..i + |ws|] == ws && AllSpaces(ws) && !IsSpace(s[i + |ws|])
    ensures SkipSpaces(s, i) == i + |ws|
  {
    forall j | i <= j < i + |ws| ensures IsSpace(s[j]) {
      assert s[j] == ws[j - i];
    }
  }

  /** A keyword written at `i` is recognised there. */
  lemma KeywordAt(s: string, i: nat, kw: string)
    requires IsKeyword(kw) && i + |kw| <= |s| && s[i..i + |kw|] == kw
    ensures KeywordEnd(s, i) == Some(i + |kw|)
  {
    assert forall m :: 0 <= m < |kw| ==> s[i + m] == kw[m];
  }

  /** An opening anchor or font tag, attributes and all, is deleted. */
  lemma OpenTagRemoved(ws: string, kw: string, attrs: string, rest: string)
    requires AllSpaces(ws) && IsKeyword(kw) && '>' !in attrs
    ensures Sub(AnchorOpen, "<" + ws + kw + attrs + ">" + rest) == Sub(AnchorOpen, rest)
  {
    var tag := "<" + ws + kw + attrs + ">";
    OpenTagMatches(ws, kw, attrs, rest);
    assert (tag + rest)[|tag|..] == rest;
  }

  lemma OpenTagMatches(ws: string, kw: string, attrs: string, rest: string)
    requires AllSpaces(ws) && IsKeyword(kw) && '>' !in attrs
    ensures var tag := "<" + ws + kw + attrs + ">";
      MatchAt(AnchorOpen, tag + rest) == Some(|tag|)
  {
    var s := "<" + ws + kw + attrs + ">" + rest;
    KeywordNotSpace(kw);
    assert s == "<" + ws + (kw + attrs + ">" + rest);
    SpacesThenStop("<", ws, kw + attrs + ">" + rest);
    assert s == ("<" + ws) + kw + (attrs + ">" + rest);
    KeywordAfter("<" + ws, kw, attrs + ">" + rest);
    FirstCloseAfter("<" + ws + kw, attrs, rest);
    assert s[0] == '<';
  }

  /** Whitespace skipping from the end of `p` stops where the run `ws` ends. */
  lemma SpacesThenStop(p: string, ws: string, t: string)
    requires AllSpaces(ws) && t != [] && !IsSpace(t[0])
    ensures SkipSpaces(p + ws + t, |p|) == |p| + |ws|
  {
    var s := p + ws + t;
    assert s[|p|..|p| + |ws|] == ws;
    assert s[|p| + |ws|] == t[0];
    SkipOver(s, |p|, ws);
  }

  lemma KeywordAfter(p: string, kw: string, t: string)
    requires IsKeyword(kw)
    ensures KeywordEnd(p + kw + t, |p|) == Some(|p| + |kw|)
  {
    var s := p + kw + t;
    assert s[|p|..|p| + |kw|] == kw;
    KeywordAt(s, |p|, kw);
  }

  /** The first `>` from the end of `p` is the one after `x`, when `x` holds none. */
  lemma FirstCloseAfter(p: string, x: string, t: string)
    requires '>' !in x
    ensures IndexOfChar(p + x + ">" + t, '>', |p|) == Some(|p| + |x|)
  {
    var s := p + x + ">" + t;
    assert s[|p| + |x|] == '>';
    assert forall m :: |p| <= m < |p| + |x| ==> s[m] == x[m - |p|];
  }

  /** A closing anchor or font tag is deleted. */
  lemma CloseTagRemoved(ws: string, kw: string, ws2: string, rest: string)
    requires AllSpaces(ws) && IsKeyword(kw) && AllSpaces(ws2)
    ensures Sub(AnchorClose, "</" + ws + kw + ws2 + ">" + rest) == Sub(AnchorClose, rest)
  {
    var tag := "</" + ws + kw + ws2 + ">";
    CloseTagMatches(ws, kw, ws2, rest);
    assert (tag + rest)[|tag|..] == rest;
  }

  lemma CloseTagMatches(ws: string, kw: string, ws2: string, rest: string)
    requires AllSpaces(ws) && IsKeyword(kw) && AllSpaces(ws2)
    ensures var tag := "</" + ws + kw + ws2 + ">";
      MatchAt(AnchorClose, tag + rest) == Some(|tag|)
  {
    var p := "</" + ws;
    var q := p + kw;
    var t := ">" + rest;
    var s := q + ws2 + t;
    assert "</" + ws + kw + ws2 + ">" + rest == s;
    KeywordNotSpace(kw);
    assert s == "</" + ws + (kw + ws2 + t);
    SpacesThenStop("</", ws, kw + ws2 + t);
    assert s == p + kw + (ws2 + t);
    KeywordAfter(p, kw, ws2 + t);
    SpacesThenStop(q, ws2, t);
    CharAfter(q + ws2, '>', rest);
    TagHead("</", ws + kw + ws2 + t);
    CloseShape(s, |q|, |q| + |ws2|);
  }

  lemma CharAfter(p: string, c: char, t: string)
    ensures (p + ([c] + t))[|p|] == c
  {
  }

  lemma TagHead(h: string, t: string)
    requires h == "</"
    ensures |h + t| >= 2 && (h + t)[0] == '<' && (h + t)[1] == '/'
  {
  }

  /** How the closing-tag pattern reads a string, stated on positions. */
  lemma CloseShape(s: string, k: nat, m: nat)
    requires |s| >= 2 && s[0] == '<' && s[1] == '/'
    requires KeywordEnd(s, SkipSpaces(s, 2)) == Some(k)
    requires SkipSpaces(s, k) == m && m < |s| && s[m] == '>'
    ensures MatchAt(AnchorClose, s) == Some(m + 1)
  {
  }

  // ---------------------------------------------------------------------
  // The generic pass leaves no tag behind

  lemma SubCopiesGt(p: Pattern, s: string)
    requires s != [] && s[0] == '>'
    ensures Sub(p, s) == ['>'] + Sub(p, s[1..])
  {
  }

  lemma NoTagCons(c: char, r: string)
    requires NoTag(r)
    requires c == '<' ==> (r != [] && r[0] == '>') || '>' !in r
    ensures NoTag([c] + r)
  {
    var t := [c] + r;
    forall i, j | 1 <= i < j < |t| ensures !TagAt(t, i, j) {
      assert forall k :: i - 1 < k < j - 1 ==> r[k] == t[k + 1];
      assert !TagAt(r, i - 1, j - 1);
    }
    forall j | 0 < j < |t| ensures !TagAt(t, 0, j) {
      assert t[j] == r[j - 1];
      if c == '<' && j >= 2 && r[0] == '>' {
        assert t[1] == '>';
      }
    }
  }

  /** After `re.sub(r"<[^>]+>", "", s)` no tag is left, even where a deletion joins two pieces. */
  lemma {:induction false} AnyTagPassClean(s: string)
    ensures NoTag(Sub(AnyTag, s))
    decreases |s|
  {
    if s != [] {
      match MatchAt(AnyTag, s)
      case Some(n) =>
        AnyTagPassClean(s[n..]);
      case None =>
        var r := Sub(AnyTag, s[1..]);
        AnyTagPassClean(s[1..]);
        if s[0] == '<' && |s| >= 2 {
          if s[1] == '>' {
            SubCopiesGt(AnyTag, s[1..]);
          } else {
            assert '>' !in s[1..] by {
              forall m | 0 <= m < |s[1..]| ensures s[1..][m] != '>' {
                if m >= 1 {
                  assert IndexOfChar(s, '>', 2).None?;
                  assert s[1..][m] == s[m + 1];
                }
              }
            }
            SubKeepsUnclosed(AnyTag, s[1..]);
          }
        }
        NoTagCons(s[0], r);
    }
  }

  /** A piece of tag-free text is tag-free. */
  lemma NoTagSlice(s: string, lo: nat, hi: nat)
    requires lo <= hi <= |s| && NoTag(s)
    ensures NoTag(s[lo..hi])
  {
    var t := s[lo..hi];
    forall i, j ensures !TagAt(t, i, j) {
      if TagAt(t, i, j) {
        assert TagAt(s, lo + i, lo + j);
      }
    }
  }

  lemma StripKeepsNoTag(s: string)
    requires NoTag(s)
    ensures NoTag(Strip(s))
  {
    var r := Strip(s);
    var lo, hi :| StripBounds(s, lo, hi) && r == s[lo..hi];
    NoTagSlice(s, lo, hi);
  }

  /** Text whose ends are not whitespace is its own strip. */
  lemma StripTrimmed(s: string)
    requires s == [] || (!IsSpace(s[0]) && !IsSpace(s[|s| - 1]))
    ensures Strip(s) == s
  {
    if s != [] {
      assert SkipSpaces(s, 0) == 0;
      assert TrimEnd(s, 0, |s|) == |s|;
    }
  }

  // ---------------------------------------------------------------------
  // _sanitize_text

  /**
   * `_sanitize_text`: an empty input gives `""`; otherwise the text is
   * unescaped, anchor and font tags are removed, then any remaining tag,
   * and the result is stripped.
   */
  function Sanitize(html: string, unescape: string -> string): (r: string)
    ensures html == [] ==> r == []
    ensures r == [] || (!IsSpace(r[0]) && !IsSpace(r[|r| - 1]))
  {
    if html == [] then []
    else Strip(Sub(AnyTag, Sub(AnchorClose, Sub(AnchorOpen, unescape(html)))))
  }

  /** The sanitised text holds no tag. */
  lemma SanitizeNoTag(html: string, unescape: string -> string)
    ensures NoTag(Sanitize(html, unescape))
  {
    if html != [] {
      var x := Sub(AnchorClose, Sub(AnchorOpen, unescape(html)));
      AnyTagPassClean(x);
      StripKeepsNoTag(Sub(AnyTag, x));
    }
  }

  /** Plain text, once unescaped, is only stripped. */
  lemma SanitizePlain(html: string, unescape: string -> string)
    requires html != [] && '<' !in unescape(html)
    ensures Sanitize(html, unescape) == Strip(unescape(html))
  {
  }

  /**
   * The order of the passes shows: in `<<a>b>` the anchor pass removes the
   * inner `<a>`, which leaves the tag `<b>` for the generic pass, so the
   * whole text goes; the generic pass alone removes `<<a>` and keeps `b>`.
   */
  lemma PassOrderMatters(s: string, unescape: string -> string)
    requires s == "<" + "<a>" + "b>" && unescape(s) == s
    ensures Sanitize(s, unescape) == ""
    ensures Sub(AnyTag, s) == "b>"
  {
    var afterOpen := "<" + "b>";
    OpenPassOnExample(s);
    ClosePassOnExample(afterOpen);
    AnyTagPassOnExample(afterOpen);
    AnyTagAloneOnExample(s);
  }

  /** The anchor pass deletes the inner `<a>` only: `<<a>b>` becomes `<b>`. */
  lemma OpenPassOnExample(s: string)
    requires s == "<" + "<a>" + "b>"
    ensures Sub(AnchorOpen, s) == "<" + "b>"
  {
    assert MatchAt(AnchorOpen, s).None? by {
      assert SkipSpaces(s, 1) == 1;
    }
    assert s[1..] == "<a>" + "b>";
    OpenTagRemoved("", "a", "", "b>");
    assert "<" + "" + "a" + "" + ">" + "b>" == "<a>" + "b>";
  }

  lemma ClosePassOnExample(t: string)
    requires t == "<" + "b>"
    ensures Sub(AnchorClose, t) == t
  {
    assert MatchAt(AnchorClose, t).None?;
    assert t[1..] == "b>";
    SubKeepsPlain(AnchorClose, "b>", "");
    assert "b>" + "" == "b>";
  }

  lemma AnyTagPassOnExample(t: string)
    requires t == "<" + "b>"
    ensures Sub(AnyTag, t) == ""
  {
    assert TagAt(t, 0, 2);
    AnyTagMatches(t, 3);
    assert t[3..] == "";
  }

  /** Without the anchor pass first, the generic pass takes `<<a>` and leaves `b>`. */
  lemma AnyTagAloneOnExample(s: string)
    requires s == "<" + "<a>" + "b>"
    ensures Sub(AnyTag, s) == "b>"
  {
    assert TagAt(s, 0, 3);
    AnyTagMatches(s, 4);
    assert s[4..] == "b>";
    SubKeepsPlain(AnyTag, "b>", "");
    assert "b>" + "" == "b>";
  }

  // ---------------------------------------------------------------------
  // "Title - Source"

  const Separator := " - "

  /**
   * When the sanitised title contains `" - "`, it is split at the last
   * occurrence and both parts are stripped: `(title, source)`. Otherwise
   * the title is kept and the source is empty.
   */
  function SplitSource(t: string): (r: (string, string))
  {
    match FindLast(t, Separator, |t|)
    case None => (t, "")
    case Some(p) => (Strip(t[..p]), Strip(t[p + |Separator|..]))
  }

  /** A title without the separator has no source part. */
  lemma SplitSourceAbsent(t: string)
    requires !Contains(t, Separator)
    ensures SplitSource(t) == (t, "")
  {
  }

  /** The split is at the last separator, and the source part never contains one. */
  lemma SplitSourceAtLast(t: string, p: nat)
    requires OccursAt(t, Separator, p)
    requires forall q :: p < q ==> !OccursAt(t, Separator, q)
    ensures SplitSource(t) == (Strip(t[..p]), Strip(t[p + |Separator|..]))
    ensures !Contains(t[p + |Separator|..], Separator)
  {
    var f := FindLast(t, Separator, |t|);
    assert f == Some(p) by {
      if f.None? || f.value < p {
        assert false;
      }
    }
    var src := t[p + |Separator|..];
    forall q | OccursAt(src, Separator, q) ensures false {
      assert src[q..q + |Separator|] == t[p + |Separator| + q..p + |Separator| + q + |Separator|];
      assert OccursAt(t, Separator, p + |Separator| + q);
    }
  }

  /**
   * Formatting `title + " - " + source` and splitting again gives back the
   * stripped parts, provided the source cannot be read as holding the
   * separator itself (it neither contains `" - "` nor starts with `"- "`).
   */
  lemma SplitSourceRoundTrip(title: string, source: string)
    requires !Contains(" " + source, Separator)
    ensures SplitSource(title + Separator + source) == (Strip(title), Strip(source))
  {
    var t := title + Separator + source;
    var p := |title|;
    assert t[p..p + 3] == Separator;
    NoLaterSeparator(title, source);
    SplitSourceAtLast(t, p);
    assert t[..p] == title;
    assert t[p + 3..] == source;
  }

  /** The separator written after `title` is the last one when `" " + source` holds none. */
  lemma NoLaterSeparator(title: string, source: string)
    requires !Contains(" " + source, Separator)
    ensures forall q :: |title| < q ==> !OccursAt(title + Separator + source, Separator, q)
  {
    var t := title + Separator + source;
    var p := |title|;
    var u := " " + source;
    assert t[p + 2..] == u;
    forall q | p < q ensures !OccursAt(t, Separator, q) {
      if q == p + 1 {
        assert t[q] == '-';
      } else if OccursAt(t, Separator, q) {
        assert t[q..q + 3] == u[q - p - 2..q - p + 1];
        assert OccursAt(u, Separator, q - p - 2);
      }
    }
  }

  // ---------------------------------------------------------------------
  // The source name

  const WwwPrefix := "www."

  /**
   * The source found in the title, or else the link's netloc with every
   * `"www."` removed; `""` when the link cannot be parsed.
   */
  function SourceName(fromTitle: string, link: string, netloc: string -> Option<string>): (r: string)
    ensures fromTitle != "" ==> r == fromTitle
    ensures fromTitle == "" && netloc(link).None? ==> r == ""
    ensures fromTitle == "" && netloc(link).Some? ==> r == RemoveAll(netloc(link).value, WwwPrefix)
  {
    if fromTitle != "" then fromTitle
    else match netloc(link)
      case None => ""
      case Some(n) => RemoveAll(n, WwwPrefix)
  }

  /** A host written `www.<host>` is shown as `<host>` when the rest has no `www.` of its own. */
  lemma SourceDropsWww(link: string, netloc: string -> Option<string>, host: string)
    requires netloc(link) == Some(WwwPrefix + host) && !Contains(host, WwwPrefix)
    ensures SourceName("", link, netloc) == host
  {
    RemoveAllLeading(WwwPrefix, host);
  }

  /**
   * Every `www.` goes, not only a leading one: a host `<p>www.<rest>`, where
   * `<p>` has no `w`, is shown as `<p>` followed by `<rest>` with its own
   * occurrences removed.
   */
  lemma SourceDropsInnerWww(link: string, netloc: string -> Option<string>, p: string, rest: string)
    requires netloc(link) == Some(p + WwwPrefix + rest) && 'w' !in p
    ensures SourceName("", link, netloc) == p + RemoveAll(rest, WwwPrefix)
  {
    assert p + WwwPrefix + rest == p + (WwwPrefix + rest);
    RemoveAllKeepsPrefix(p, WwwPrefix + rest, WwwPrefix);
    RemoveAllLeading(WwwPrefix, rest);
  }

  // ---------------------------------------------------------------------
  // The card

  /** An article as the card receives it; `None` is a missing key. */
  datatype CardInput = CardInput(
    title: Option<string>,
    link: Option<string>,
    description: Option<string>,
    published: Option<string>,
    tag: Option<string>)

  /** The text a card shows. */
  datatype Card = Card(
    title: string,
    source: string,
    link: string,
    published: string,
    description: string,
    tag: string)

  const NoTitle := "No title"
  const NoLink := "#"

  /** The texts `news_card` places into its markup. */
  function CardOf(article: CardInput, unescape: string -> string, netloc: string -> Option<string>): (c: Card)
    ensures c.link == article.link.GetOr(NoLink)
    ensures c.published == article.published.GetOr("")
    ensures c.tag == article.tag.GetOr("")
    ensures c.description == Sanitize(article.description.GetOr(""), unescape)
    ensures var t := Sanitize(article.title.GetOr(NoTitle), unescape);
      && c.title == SplitSource(t).0
      && c.source == SourceName(SplitSource(t).1, c.link, netloc)
  {
    var link := article.link.GetOr(NoLink);
    var split := SplitSource(Sanitize(article.title.GetOr(NoTitle), unescape));
    Card(split.0, SourceName(split.1, link, netloc), link, article.published.GetOr(""),
         Sanitize(article.description.GetOr(""), unescape), article.tag.GetOr(""))
  }

  /** The shown title and description hold no tag and no surrounding whitespace. */
  lemma CardTextClean(article: CardInput, unescape: string -> string, netloc: string -> Option<string>)
    ensures var c := CardOf(article, unescape, netloc);
      && NoTag(c.title) && NoTag(c.description)
      && (c.title == [] || (!IsSpace(c.title[0]) && !IsSpace(c.title[|c.title| - 1])))
  {
    var c := CardOf(article, unescape, netloc);
    var t := Sanitize(article.title.GetOr(NoTitle), unescape);
    var d := Sanitize(article.description.GetOr(""), unescape);
    SanitizeNoTag(article.title.GetOr(NoTitle), unescape);
    SanitizeNoTag(article.description.GetOr(""), unescape);
    CleanCardText(c, t, d);
  }

  lemma CleanCardText(c: Card, t: string, d: string)
    requires c.title == SplitSource(t).0 && c.description == d
    requires NoTag(t) && (t == [] || (!IsSpace(t[0]) && !IsSpace(t[|t| - 1]))) && NoTag(d)
    ensures NoTag(c.title) && NoTag(c.description)
    ensures c.title == [] || (!IsSpace(c.title[0]) && !IsSpace(c.title[|c.title| - 1]))
  {
    SplitSourceClean(t);
  }

  /** The title part of a split keeps a clean title clean. */
  lemma SplitSourceClean(t: string)
    requires NoTag(t) && (t == [] || (!IsSpace(t[0]) && !IsSpace(t[|t| - 1])))
    ensures var title := SplitSource(t).0;
      NoTag(title) && (title == [] || (!IsSpace(title[0]) && !IsSpace(title[|title| - 1])))
  {
    match FindLast(t, Separator, |t|)
    case None =>
    case Some(p) =>
      NoTagSlice(t, 0, p);
      StripKeepsNoTag(t[..p]);
  }

  /** A missing description gives an empty one. */
  lemma CardDescriptionDefault(article: CardInput, unescape: string -> string, netloc: string -> Option<string>)
    requires article.description.None?
    ensures CardOf(article, unescape, netloc).description == ""
  {
  }

  /** A missing title shows as `No title`, and the source then comes from the link. */
  lemma CardTitleDefault(article: CardInput, unescape: string -> string, netloc: string -> Option<string>)
    requires article.title.None? && unescape(NoTitle) == NoTitle
    ensures CardOf(article, unescape, netloc).title == NoTitle
    ensures CardOf(article, unescape, netloc).source == SourceName("", article.link.GetOr(NoLink), netloc)
  {
    assert '<' !in NoTitle;
    StripTrimmed(NoTitle);
    assert '-' !in NoTitle;
    forall q ensures !OccursAt(NoTitle, Separator, q) {
      if 0 <= q && q + 3 <= |NoTitle| {
        assert NoTitle[q..q + 3][1] == NoTitle[q + 1];
      }
    }
    SplitSourceAbsent(NoTitle);
  }
}
