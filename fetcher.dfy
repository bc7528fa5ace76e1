/**
 * The feed fetcher of src/fetcher.py: the region table, the search URL, the
 * choice of an article link among an entry's links, the unwrapping of a
 * Google News redirect, and the loop that turns feed entries into article
 * records while dropping entries older than the recency window.
 *
 * The HTTP request and the feed parser are outside the model: a request is
 * a function from URL to outcome, and an outcome carries already-parsed
 * entries. Times are whole seconds since the epoch.
 */
module Fetcher {
  import opened Common
  import opened Text
  import opened Percent
  import opened QueryString

  /** The query searched when the caller passes none. */
  const DefaultQuery: string := "Digital wallets" + " OR network tokenisation" + " OR \"Click to Pay\"" + " OR \"Account updater\""
  const SearchBase: string := "https://news.google.com/rss/search"
  /** Substring that marks a link as pointing at the aggregator rather than the publisher. */
  const AggregatorMarker: string := "news.google"
  /** Query keys that may hold the publisher URL in a redirect link, in the order they are tried. */
  const RedirectKeys: seq<string> := ["url", "u", "q"]
  const SecondsPerDay: int := 86400

  /** Language, country and combined edition parameters of a Google News request. */
  datatype Locale = Locale(hl: string, gl: string, ceid: string)

  const RegionTable: map<string, Locale> := map[
    "Global" := Locale("en-US", "US", "US:en"),
    "United States" := Locale("en-US", "US", "US:en"),
    "United Kingdom" := Locale("en-GB", "GB", "GB:en"),
    "Europe" := Locale("en-GB", "DE", "DE:en")
  ]

  /** The locale for a region; a region missing from the table, or none, gets Global's. */
  function RegionLocale(region: Option<string>): (l: Locale)
    ensures region == Some("United Kingdom") ==> l == Locale("en-GB", "GB", "GB:en")
    ensures region == Some("Europe") ==> l == Locale("en-GB", "DE", "DE:en")
    ensures region != Some("United Kingdom") && region != Some("Europe") ==> l == Locale("en-US", "US", "US:en")
    ensures l.ceid == l.gl + ":" + l.hl[..2]
  {
    if region.Some? && region.value in RegionTable then RegionTable[region.value] else RegionTable["Global"]
  }

  /**
   * The request URL: the query (the default when none is given) with every
   * space turned into `+` and nothing else encoded, then the locale.
   */
  function SearchUrl(query: Option<string>, region: Option<string>): (url: string)
    ensures StartsWith(url, SearchBase + "?q=")
    ensures forall i :: 0 <= i < |url| ==> url[i] != ' '
  {
    var q := ReplaceChar(query.GetOr(DefaultQuery), ' ', '+');
    var l := RegionLocale(region);
    var url := SearchBase + "?q=" + q + LocaleParams(l);
    assert url[..|SearchBase + "?q="|] == SearchBase + "?q=";
    LocaleSpaceFree(region);
    SearchSpaceFree(q, LocaleParams(l));
    url
  }

  predicate SpaceFree(s: string) {
    forall i :: 0 <= i < |s| ==> s[i] != ' '
  }

  lemma SearchSpaceFree(q: string, rest: string)
    requires SpaceFree(q) && SpaceFree(rest)
    ensures SpaceFree(SearchBase + "?q=" + q + rest)
  {
    assert SpaceFree(SearchBase + "?q=");
  }

  lemma LocaleSpaceFree(region: Option<string>)
    ensures SpaceFree(LocaleParams(RegionLocale(region)))
  {
    var l := RegionLocale(region);
    assert l == Locale("en-GB", "GB", "GB:en") || l == Locale("en-GB", "DE", "DE:en") || l == Locale("en-US", "US", "US:en");
    LocaleLiteralsSpaceFree();
  }

  lemma LocaleLiteralsSpaceFree()
    ensures SpaceFree(LocaleParams(Locale("en-GB", "GB", "GB:en")))
    ensures SpaceFree(LocaleParams(Locale("en-GB", "DE", "DE:en")))
    ensures SpaceFree(LocaleParams(Locale("en-US", "US", "US:en")))
  {
    SpaceFreeConcat("&hl=", "en-GB", "&gl=", "GB", "&ceid=", "GB:en");
    SpaceFreeConcat("&hl=", "en-GB", "&gl=", "DE", "&ceid=", "DE:en");
    SpaceFreeConcat("&hl=", "en-US", "&gl=", "US", "&ceid=", "US:en");
  }

  lemma SpaceFreeConcat(a: string, b: string, c: string, d: string, e: string, f: string)
    requires SpaceFree(a) && SpaceFree(b) && SpaceFree(c) && SpaceFree(d) && SpaceFree(e) && SpaceFree(f)
    ensures SpaceFree(a + b + c + d + e + f)
  {
  }

  /**
   * What the feed server reads back as `q` is the query itself, the
   * default query when none was given, provided a given query is not empty
   * and holds none of the characters the simple space-to-plus encoding
   * leaves ambiguous (`&`, `#`, `%`, `+`) or that URL splitting deletes
   * (tab, CR, LF).
   */
  lemma SearchUrlReadsBack(query: Option<string>, region: Option<string>)
    requires query.Some? ==> query.value != "" && forall i :: 0 <= i < |query.value| ==> PlainQueryChar(query.value[i])
    ensures LookupFirst(ParseQsl(QueryOf(SearchUrl(query, region))), "q") == Some(query.GetOr(DefaultQuery))
  {
    var raw := query.GetOr(DefaultQuery);
    DefaultQueryPlain();
    assert raw != "" && PlainQuery(raw);
    PlainQueryChars(raw);
    SearchUrlQuery(query, region);
    LocaleParamsSafe(region);
    QReadsBack(raw, LocaleParams(RegionLocale(region)));
  }

  /** The `q` parameter followed by a suffix that starts a new parameter reads back as the query. */
  lemma QReadsBack(raw: string, rest: string)
    requires raw != "" && PlainQuery(raw)
    requires rest != [] && rest[0] == '&'
    ensures LookupFirst(ParseQsl("q=" + ReplaceChar(raw, ' ', '+') + rest), "q") == Some(raw)
  {
    var q := ReplaceChar(raw, ' ', '+');
    PlusEncoding(raw);
    assert |q| == |raw| > 0;
    assert "q=" + q + rest == "q" + "=" + q + rest;
    LeadingPair("q", q, rest);
  }

  /** The default query can be read back: it holds none of the ambiguous characters. */
  lemma DefaultQueryPlain()
    ensures DefaultQuery != "" && PlainQuery(DefaultQuery)
  {
    var a, b, c, d := "Digital wallets", " OR network tokenisation", " OR \"Click to Pay\"", " OR \"Account updater\"";
    assert DefaultQuery == a + b + c + d;
    DefaultPiecesPlain();
    PlainQueryConcat(a, b);
    PlainQueryConcat(a + b, c);
    PlainQueryConcat(a + b + c, d);
  }

  lemma DefaultPiecesPlain()
    ensures PlainQuery("Digital wallets")
    ensures PlainQuery(" OR network tokenisation")
    ensures PlainQuery(" OR \"Click to Pay\"")
    ensures PlainQuery(" OR \"Account updater\"")
  {
  }

  predicate PlainQuery(query: string) {
    forall i :: 0 <= i < |query| ==> PlainQueryChar(query[i])
  }

  lemma PlainQueryConcat(a: string, b: string)
    requires PlainQuery(a) && PlainQuery(b)
    ensures PlainQuery(a + b)
  {
    forall i | 0 <= i < |a + b| ensures PlainQueryChar((a + b)[i]) {
      if i >= |a| { assert (a + b)[i] == b[i - |a|]; }
    }
  }

  /** The query part of the search URL is the `q` parameter followed by the locale parameters. */
  lemma SearchUrlQuery(query: Option<string>, region: Option<string>)
    requires query.Some? ==> QueryChars(query.value)
    ensures QueryOf(SearchUrl(query, region))
            == "q=" + ReplaceChar(query.GetOr(DefaultQuery), ' ', '+') + LocaleParams(RegionLocale(region))
  {
    var raw := query.GetOr(DefaultQuery);
    assert QueryChars(raw) by {
      if query.None? {
        DefaultQueryPlain();
        PlainQueryChars(DefaultQuery);
      }
    }
    LocaleParamsSafe(region);
    PlusEncodedSafe(raw);
    QueryOfSearch(ReplaceChar(raw, ' ', '+'), LocaleParams(RegionLocale(region)));
  }

  lemma PlainQueryChars(query: string)
    requires PlainQuery(query)
    ensures QueryChars(query)
  {
  }

  /** Writing spaces as `+` keeps a query that keeps its parameter whole safe in a URL. */
  lemma PlusEncodedSafe(raw: string)
    requires QueryChars(raw)
    ensures QuerySafe(ReplaceChar(raw, ' ', '+'))
  {
    var q := ReplaceChar(raw, ' ', '+');
    forall i | 0 <= i < |q| ensures q[i] != '#' && !IsUnsafeUrlChar(q[i]) {
      assert q[i] == raw[i] || q[i] == '+';
    }
  }

  /** Splitting the search URL gives back everything after its `?`. */
  lemma QueryOfSearch(q: string, rest: string)
    requires QuerySafe(q) && QuerySafe(rest)
    ensures QueryOf(SearchBase + "?q=" + q + rest) == "q=" + q + rest
  {
    var tail := "q=" + q + rest;
    assert SearchBase + "?q=" + q + rest == SearchBase + "?" + tail;
    QuerySafeConcat("q=", q, rest, "", "", "");
    assert "q=" + q + rest + "" + "" + "" == tail;
    SearchBaseShape();
    QueryOfComposed(SearchBase, tail);
  }

  /** A query that keeps the `q` parameter whole: no `&`, `#`, tab, CR or LF. */
  predicate QueryChars(query: string) {
    forall i :: 0 <= i < |query| ==> query[i] != '&' && query[i] != '#' && !IsUnsafeUrlChar(query[i])
  }

  /**
   * The feed server reads the region's language, country and edition back
   * from the search URL, whatever the query, as long as the query keeps
   * its parameter whole.
   */
  lemma SearchUrlLocale(query: Option<string>, region: Option<string>)
    requires query.Some? ==> QueryChars(query.value)
    ensures var pairs := ParseQsl(QueryOf(SearchUrl(query, region)));
      && LookupFirst(pairs, "hl") == Some(RegionLocale(region).hl)
      && LookupFirst(pairs, "gl") == Some(RegionLocale(region).gl)
      && LookupFirst(pairs, "ceid") == Some(RegionLocale(region).ceid)
  {
    var raw := query.GetOr(DefaultQuery);
    DefaultQueryPlain();
    PlainQueryChars(DefaultQuery);
    SearchUrlQuery(query, region);
    LocalePlain(region);
    LocaleAfterQuery(raw, RegionLocale(region));
  }

  /** Whatever the `q` parameter holds, as long as it has no `&`, the locale parameters after it read back. */
  lemma LocaleAfterQuery(raw: string, l: Locale)
    requires QueryChars(raw)
    requires PlainValue(l.hl) && PlainValue(l.gl) && PlainValue(l.ceid)
    ensures var pairs := ParseQsl("q=" + ReplaceChar(raw, ' ', '+') + LocaleParams(l));
      && LookupFirst(pairs, "hl") == Some(l.hl)
      && LookupFirst(pairs, "gl") == Some(l.gl)
      && LookupFirst(pairs, "ceid") == Some(l.ceid)
  {
    var q := ReplaceChar(raw, ' ', '+');
    var head := "q=" + q;
    var locale := LocaleParams(l)[1..];
    assert LocaleParams(l) == "&" + locale;
    assert "q=" + q + LocaleParams(l) == head + "&" + locale;
    forall j | 0 <= j < |head| ensures head[j] != '&' {
      if j >= 2 { assert head[j] == q[j - 2]; assert q[j - 2] == raw[j - 2] || q[j - 2] == '+'; }
    }
    QueryPieceName(q);
    SkipPiece(head, locale, "hl");
    SkipPiece(head, locale, "gl");
    SkipPiece(head, locale, "ceid");
    LocaleReadsBack(l);
  }

  /** The leading piece of the search query yields nothing, or a pair named `q`. */
  lemma QueryPieceName(q: string)
    ensures ParsePair("q=" + q).None? || ParsePair("q=" + q).value.0 == "q"
  {
    var piece := "q=" + q;
    assert piece[0] == 'q' && piece[1] == '=';
    assert IndexOfChar(piece, '=', 0) == Some(1);
    assert piece[..1] == "q";
    assert ReplaceChar("q", '+', ' ') == "q";
  }

  /** A locale value: not empty, and nothing in it that query parsing would split, decode or cut. */
  predicate PlainValue(s: string) {
    && s != ""
    && forall i :: 0 <= i < |s| ==>
         s[i] != '&' && s[i] != '=' && s[i] != '+' && s[i] != '%' && s[i] != '#' && !IsUnsafeUrlChar(s[i])
  }

  lemma LocalePlain(region: Option<string>)
    ensures var l := RegionLocale(region);
      PlainValue(l.hl) && PlainValue(l.gl) && PlainValue(l.ceid)
  {
    var l := RegionLocale(region);
    assert l == Locale("en-GB", "GB", "GB:en") || l == Locale("en-GB", "DE", "DE:en") || l == Locale("en-US", "US", "US:en");
    LocaleLiteralsPlain();
  }

  lemma LocaleLiteralsPlain()
    ensures PlainValue("en-GB") && PlainValue("en-US")
    ensures PlainValue("GB") && PlainValue("DE") && PlainValue("US")
    ensures PlainValue("GB:en") && PlainValue("DE:en") && PlainValue("US:en")
  {
  }

  /** Query parsing gives a plain value back unchanged. */
  lemma PlainDecodes(s: string)
    requires PlainValue(s)
    ensures Unquote(ReplaceChar(s, '+', ' ')) == s
  {
    assert ReplaceChar(s, '+', ' ') == s;
  }

  /** The locale parameters, without their leading `&`, read back as the locale. */
  lemma LocaleReadsBack(l: Locale)
    requires PlainValue(l.hl) && PlainValue(l.gl) && PlainValue(l.ceid)
    ensures var pairs := ParseQsl(LocaleParams(l)[1..]);
      && LookupFirst(pairs, "hl") == Some(l.hl)
      && LookupFirst(pairs, "gl") == Some(l.gl)
      && LookupFirst(pairs, "ceid") == Some(l.ceid)
  {
    var rest := "gl=" + l.gl + "&ceid=" + l.ceid;
    assert LocaleParams(l)[1..] == "hl=" + l.hl + "&" + rest;
    HlReadsBack(l.hl, rest);
    HlSkipped(l.hl, rest, "gl");
    HlSkipped(l.hl, rest, "ceid");
    GlCeidReadsBack(l.gl, l.ceid);
  }

  /** The `hl` parameter in front does not affect looking up another key. */
  lemma HlSkipped(hl: string, rest: string, key: string)
    requires PlainValue(hl) && key != "hl"
    ensures LookupFirst(ParseQsl("hl=" + hl + "&" + rest), key) == LookupFirst(ParseQsl(rest), key)
  {
    NoAmpersand("hl=", hl);
    ParsePairOf("hl", hl);
    SkipPiece("hl=" + hl, rest, key);
  }

  lemma HlReadsBack(hl: string, rest: string)
    requires PlainValue(hl)
    ensures LookupFirst(ParseQsl("hl=" + hl + "&" + rest), "hl") == Some(hl)
  {
    assert "hl=" + hl + "&" + rest == "hl" + "=" + hl + ("&" + rest);
    PlainDecodes(hl);
    LeadingPair("hl", hl, "&" + rest);
  }

  lemma GlCeidReadsBack(gl: string, ceid: string)
    requires PlainValue(gl) && PlainValue(ceid)
    ensures var pairs := ParseQsl("gl=" + gl + "&ceid=" + ceid);
      LookupFirst(pairs, "gl") == Some(gl) && LookupFirst(pairs, "ceid") == Some(ceid)
  {
    var c := "ceid=" + ceid;
    GlCeidShape(gl, ceid);
    GlReadsBack(gl, c);
    CeidAfterGl(gl, ceid);
  }

  lemma CeidAfterGl(gl: string, ceid: string)
    requires PlainValue(gl) && PlainValue(ceid)
    ensures LookupFirst(ParseQsl(("gl=" + gl) + "&" + ("ceid=" + ceid)), "ceid") == Some(ceid)
  {
    NoAmpersand("gl=", gl);
    ParsePairOf("gl", gl);
    SkipPiece("gl=" + gl, "ceid=" + ceid, "ceid");
    CeidReadsBack(ceid);
  }

  lemma GlCeidShape(gl: string, ceid: string)
    ensures "gl=" + gl + "&ceid=" + ceid == ("gl=" + gl) + "&" + ("ceid=" + ceid)
  {
    assert "&ceid=" == "&" + "ceid=";
  }

  lemma GlReadsBack(gl: string, rest: string)
    requires PlainValue(gl)
    ensures LookupFirst(ParseQsl("gl=" + gl + "&" + rest), "gl") == Some(gl)
  {
    assert "gl=" + gl + "&" + rest == "gl" + "=" + gl + ("&" + rest);
    PlainDecodes(gl);
    LeadingPair("gl", gl, "&" + rest);
  }

  lemma CeidReadsBack(ceid: string)
    requires PlainValue(ceid)
    ensures LookupFirst(ParseQsl("ceid=" + ceid), "ceid") == Some(ceid)
  {
    assert "ceid=" + ceid == "ceid" + "=" + ceid + [];
    PlainDecodes(ceid);
    LeadingPair("ceid", ceid, []);
  }

  lemma NoAmpersand(name: string, v: string)
    requires forall i :: 0 <= i < |name| ==> name[i] != '&'
    requires PlainValue(v)
    ensures forall j :: 0 <= j < |name + v| ==> (name + v)[j] != '&'
  {
    forall j | 0 <= j < |name + v| ensures (name + v)[j] != '&' {
      if j >= |name| { assert (name + v)[j] == v[j - |name|]; }
    }
  }

  /** Characters a query may hold and still be read back from the search URL. */
  predicate PlainQueryChar(c: char) {
    c != '&' && c != '#' && c != '%' && c != '+' && !IsUnsafeUrlChar(c)
  }

  /** Spaces written as `+` are read back as spaces; `%` never occurs, so decoding changes nothing. */
  lemma PlusEncoding(query: string)
    requires forall i :: 0 <= i < |query| ==> PlainQueryChar(query[i])
    ensures var q := ReplaceChar(query, ' ', '+');
      QuerySafe(q) && (forall i :: 0 <= i < |q| ==> q[i] != '&') && Unquote(ReplaceChar(q, '+', ' ')) == query
  {
    var q := ReplaceChar(query, ' ', '+');
    var back := ReplaceChar(q, '+', ' ');
    assert forall i :: 0 <= i < |query| ==> back[i] == query[i];
    assert back == query;
    assert '%' !in query;
  }

  lemma SearchBaseShape()
    ensures forall i :: 0 <= i < |SearchBase| ==> SearchBase[i] != '?' && SearchBase[i] != '#' && !IsUnsafeUrlChar(SearchBase[i])
  {
  }

  /** The locale part of the search URL. */
  function LocaleParams(l: Locale): string {
    "&hl=" + l.hl + "&gl=" + l.gl + "&ceid=" + l.ceid
  }

  /** No `#`, tab, CR or LF in `s`: URL splitting leaves it whole and in the query. */
  predicate QuerySafe(s: string) {
    forall i :: 0 <= i < |s| ==> s[i] != '#' && !IsUnsafeUrlChar(s[i])
  }

  lemma LocaleParamsSafe(region: Option<string>)
    ensures var rest := LocaleParams(RegionLocale(region));
      rest[0] == '&' && QuerySafe(rest)
  {
    var l := RegionLocale(region);
    assert l == Locale("en-GB", "GB", "GB:en") || l == Locale("en-GB", "DE", "DE:en") || l == Locale("en-US", "US", "US:en");
    LocaleLiteralsSafe();
  }

  lemma LocaleLiteralsSafe()
    ensures QuerySafe(LocaleParams(Locale("en-GB", "GB", "GB:en")))
    ensures QuerySafe(LocaleParams(Locale("en-GB", "DE", "DE:en")))
    ensures QuerySafe(LocaleParams(Locale("en-US", "US", "US:en")))
  {
    QuerySafeConcat("&hl=", "en-GB", "&gl=", "GB", "&ceid=", "GB:en");
    QuerySafeConcat("&hl=", "en-GB", "&gl=", "DE", "&ceid=", "DE:en");
    QuerySafeConcat("&hl=", "en-US", "&gl=", "US", "&ceid=", "US:en");
  }

  lemma QuerySafeConcat(a: string, b: string, c: string, d: string, e: string, f: string)
    requires QuerySafe(a) && QuerySafe(b) && QuerySafe(c) && QuerySafe(d) && QuerySafe(e) && QuerySafe(f)
    ensures QuerySafe(a + b + c + d + e + f)
  {
  }

  /** An element of an entry's `links` list: something other than a dict, or a dict with an optional `href`. */
  datatype LinkItem = NonDict | LinkDict(href: Option<string>)

  /** The `href` of a link element, if it is a dict whose `href` starts with `http`. */
  function UsableHref(l: LinkItem): Option<string> {
    if l.LinkDict? && l.href.Some? && StartsWith(l.href.value, "http") then l.href else None
  }

  predicate IsAggregator(link: string) {
    Contains(link, AggregatorMarker)
  }

  /** The usable hrefs, in list order. */
  function Candidates(links: seq<LinkItem>): seq<string> {
    if links == [] then []
    else
      var last := UsableHref(links[|links| - 1]);
      Candidates(links[..|links| - 1]) + (if last.Some? then [last.value] else [])
  }

  /** The links among `cs` that point at a publisher, in order. */
  function DirectOnes(cs: seq<string>): (r: seq<string>)
    ensures forall k :: 0 <= k < |r| ==> !IsAggregator(r[k]) && r[k] in cs
  {
    if cs == [] then []
    else DirectOnes(cs[..|cs| - 1]) + (if IsAggregator(cs[|cs| - 1]) then [] else [cs[|cs| - 1]])
  }

  lemma {:induction false} CandidatesConcat(a: seq<LinkItem>, b: seq<LinkItem>)
    ensures Candidates(a + b) == Candidates(a) + Candidates(b)
    decreases |b|
  {
    if b == [] {
      assert a + b == a;
    } else {
      CandidatesConcat(a, b[..|b| - 1]);
      assert (a + b)[..|a + b| - 1] == a + b[..|b| - 1];
    }
  }

  lemma {:induction false} DirectOnesConcat(a: seq<string>, b: seq<string>)
    ensures DirectOnes(a + b) == DirectOnes(a) + DirectOnes(b)
    decreases |b|
  {
    if b == [] {
      assert a + b == a;
    } else {
      DirectOnesConcat(a, b[..|b| - 1]);
      assert (a + b)[..|a + b| - 1] == a + b[..|b| - 1];
    }
  }

  /**
   * The link an entry ends up with before unwrapping: the first usable href
   * that is not the aggregator's; failing that, the last usable href; failing
   * that, the entry's own `link`.
   */
  function SelectLink(raw: string, links: seq<LinkItem>): (r: string)
    ensures r == raw || r in Candidates(links)
    ensures DirectOnes(Candidates(links)) != [] ==> !IsAggregator(r)
  {
    var cs := Candidates(links);
    var ds := DirectOnes(cs);
    if ds != [] then ds[0] else if cs != [] then cs[|cs| - 1] else raw
  }

  /** The scan of an entry's links, stopping at the first publisher link. */
  method ScanLinks(raw: string, links: seq<LinkItem>) returns (link: string)
    ensures link == SelectLink(raw, links)
  {
    link := raw;
    var i := 0;
    assert links[..0] == [];
    while i < |links|
      invariant 0 <= i <= |links|
      invariant ScannedUpTo(raw, links, i, link)
    {
      var href := UsableHref(links[i]);
      if href.Some? {
        if !IsAggregator(href.value) {
          link := href.value;
          StopAtDirect(raw, links, i);
          return;
        }
        ScanAggregator(raw, links, i, link);
        link := href.value;
      } else {
        ScanUnusable(raw, links, i, link);
      }
      i := i + 1;
    }
    assert links[..i] == links;
  }

  /**
   * After scanning `links[..i]` without meeting a publisher href, the link
   * is the last usable href seen, or the raw link when there was none.
   */
  predicate ScannedUpTo(raw: string, links: seq<LinkItem>, i: nat, link: string)
    requires i <= |links|
  {
    var seen := Candidates(links[..i]);
    DirectOnes(seen) == [] && link == if seen == [] then raw else seen[|seen| - 1]
  }

  lemma ScanAggregator(raw: string, links: seq<LinkItem>, i: nat, link: string)
    requires i < |links| && ScannedUpTo(raw, links, i, link)
    requires UsableHref(links[i]).Some? && IsAggregator(UsableHref(links[i]).value)
    ensures ScannedUpTo(raw, links, i + 1, UsableHref(links[i]).value)
  {
    ScanStep(links, i);
  }

  lemma ScanUnusable(raw: string, links: seq<LinkItem>, i: nat, link: string)
    requires i < |links| && ScannedUpTo(raw, links, i, link)
    requires UsableHref(links[i]).None?
    ensures ScannedUpTo(raw, links, i + 1, link)
  {
    ScanStep(links, i);
  }

  /**
   * One more element scanned: a usable href joins the candidates, and the
   * publisher links among them grow only by a usable non-aggregator href.
   */
  lemma ScanStep(links: seq<LinkItem>, i: nat)
    requires i < |links|
    ensures UsableHref(links[i]).None? ==> Candidates(links[..i + 1]) == Candidates(links[..i])
    ensures UsableHref(links[i]).Some? ==>
      Candidates(links[..i + 1]) == Candidates(links[..i]) + [UsableHref(links[i]).value]
    ensures UsableHref(links[i]).Some? && IsAggregator(UsableHref(links[i]).value) ==>
      DirectOnes(Candidates(links[..i + 1])) == DirectOnes(Candidates(links[..i]))
  {
    assert links[..i + 1] == links[..i] + [links[i]];
    CandidatesConcat(links[..i], [links[i]]);
    assert [links[i]][..0] == [];
    var h := UsableHref(links[i]);
    if h.Some? {
      DirectOnesConcat(Candidates(links[..i]), [h.value]);
      assert [h.value][..0] == [];
    }
  }

  /** The scan stops at a publisher href when none came before it: that href is the selection. */
  lemma StopAtDirect(raw: string, links: seq<LinkItem>, i: nat)
    requires i < |links| && DirectOnes(Candidates(links[..i])) == []
    requires UsableHref(links[i]).Some? && !IsAggregator(UsableHref(links[i]).value)
    ensures SelectLink(raw, links) == UsableHref(links[i]).value
  {
    ScanStep(links, i);
    var h := UsableHref(links[i]).value;
    var pre := Candidates(links[..i + 1]);
    DirectOnesConcat(Candidates(links[..i]), [h]);
    assert DirectOnes([h]) == DirectOnes([]) + [h];
    SplitAt(links, i + 1);
    CandidatesConcat(links[..i + 1], links[i + 1..]);
    DirectOnesConcat(pre, Candidates(links[i + 1..]));
  }

  lemma SplitAt<T>(s: seq<T>, i: nat)
    requires i <= |s|
    ensures s == s[..i] + s[i..]
  {
  }

  lemma {:induction false} NoCandidates(links: seq<LinkItem>)
    requires forall j :: 0 <= j < |links| ==> UsableHref(links[j]).None?
    ensures Candidates(links) == []
  {
    if links != [] {
      NoCandidates(links[..|links| - 1]);
    }
  }

  lemma {:induction false} NoDirectCandidates(links: seq<LinkItem>)
    requires forall j :: 0 <= j < |links| && UsableHref(links[j]).Some? ==> IsAggregator(UsableHref(links[j]).value)
    ensures DirectOnes(Candidates(links)) == []
  {
    if links != [] {
      var init := links[..|links| - 1];
      NoDirectCandidates(init);
      var last := UsableHref(links[|links| - 1]);
      DirectOnesConcat(Candidates(init), if last.Some? then [last.value] else []);
      if last.Some? {
        assert DirectOnes([last.value]) == DirectOnes([]) + [];
      }
    }
  }

  /** Splitting the links at `i`: the candidates are those before, the one at `i` (if usable), and those after. */
  lemma CandidatesAround(links: seq<LinkItem>, i: nat)
    requires i < |links|
    ensures Candidates(links) == Candidates(links[..i]) + Candidates([links[i]]) + Candidates(links[i + 1..])
  {
    SplitAround(links, i);
    CandidatesThree(links[..i], [links[i]], links[i + 1..]);
  }

  lemma SplitAround<T>(s: seq<T>, i: nat)
    requires i < |s|
    ensures s == s[..i] + [s[i]] + s[i + 1..]
  {
    assert s[i..] == [s[i]] + s[i + 1..];
    assert s == s[..i] + s[i..];
  }

  lemma CandidatesThree(a: seq<LinkItem>, m: seq<LinkItem>, b: seq<LinkItem>)
    ensures Candidates(a + m + b) == Candidates(a) + Candidates(m) + Candidates(b)
  {
    CandidatesConcat(a + m, b);
    CandidatesConcat(a, m);
  }

  /** The first usable publisher link wins, whatever follows it. */
  lemma SelectLinkFirstDirect(raw: string, links: seq<LinkItem>, i: nat)
    requires i < |links| && UsableHref(links[i]).Some? && !IsAggregator(UsableHref(links[i]).value)
    requires forall j :: 0 <= j < i && UsableHref(links[j]).Some? ==> IsAggregator(UsableHref(links[j]).value)
    ensures SelectLink(raw, links) == UsableHref(links[i]).value
  {
    var h := UsableHref(links[i]).value;
    CandidatesAround(links, i);
    NoDirectCandidates(links[..i]);
    assert Candidates([links[i]]) == [h] by {
      assert [links[i]][..0] == [];
    }
    DirectOnesConcat(Candidates(links[..i]), [h]);
    assert DirectOnes([h]) == DirectOnes([]) + [h];
    DirectOnesConcat(Candidates(links[..i]) + [h], Candidates(links[i + 1..]));
  }

  /** When every usable href is the aggregator's, the last one replaces the entry's link. */
  lemma SelectLinkLastAggregator(raw: string, links: seq<LinkItem>, i: nat)
    requires i < |links| && UsableHref(links[i]).Some?
    requires forall j :: 0 <= j < |links| && UsableHref(links[j]).Some? ==> IsAggregator(UsableHref(links[j]).value)
    requires forall j :: i < j < |links| ==> UsableHref(links[j]).None?
    ensures SelectLink(raw, links) == UsableHref(links[i]).value
  {
    NoDirectCandidates(links);
    CandidatesAround(links, i);
    NoCandidates(links[i + 1..]);
    assert Candidates([links[i]]) == [UsableHref(links[i]).value] by {
      assert [links[i]][..0] == [];
    }
  }

  /** With no usable href the entry keeps its own link. */
  lemma SelectLinkNoCandidate(raw: string, links: seq<LinkItem>)
    requires forall j :: 0 <= j < |links| ==> UsableHref(links[j]).None?
    ensures SelectLink(raw, links) == raw
  {
    NoCandidates(links);
  }

  /** The first of `keys` that the query string holds a value for, and that value. */
  function FirstPresent(pairs: seq<(string, string)>, keys: seq<string>): (r: Option<string>)
    ensures r.Some? ==> exists i :: 0 <= i < |keys| && LookupFirst(pairs, keys[i]) == r
                          && forall j :: 0 <= j < i ==> LookupFirst(pairs, keys[j]).None?
    ensures r.None? ==> forall i :: 0 <= i < |keys| ==> LookupFirst(pairs, keys[i]).None?
  {
    if keys == [] then None
    else match LookupFirst(pairs, keys[0])
      case Some(v) => Some(v)
      case None =>
        var r := FirstPresent(pairs, keys[1..]);
        assert forall i :: 1 <= i < |keys| ==> keys[i] == keys[1..][i - 1];
        r
  }

  /** The loop over `url`, `u`, `q` that stops at the first key present. */
  method RedirectTarget(pairs: seq<(string, string)>) returns (candidate: Option<string>)
    ensures candidate == FirstPresent(pairs, RedirectKeys)
  {
    var k := 0;
    while k < |RedirectKeys|
      invariant 0 <= k <= |RedirectKeys|
      invariant FirstPresent(pairs, RedirectKeys) == FirstPresent(pairs, RedirectKeys[k..])
    {
      var v := LookupFirst(pairs, RedirectKeys[k]);
      assert RedirectKeys[k..][1..] == RedirectKeys[k + 1..];
      if v.Some? {
        candidate := v;
        return;
      }
      k := k + 1;
    }
    candidate := None;
  }

  /** The value the redirect link carries for the first of its keys, as `parse_qs` decoded it. */
  function RedirectCandidate(link: string): Option<string> {
    FirstPresent(ParseQsl(QueryOf(link)), RedirectKeys)
  }

  /**
   * Unwrapping as src/fetcher.py:61-75 writes it: the value `parse_qs`
   * has already percent-decoded is decoded a second time.
   */
  function UnwrapAsWritten(link: string): (r: string)
    ensures !IsAggregator(link) ==> r == link
    ensures IsAggregator(link) && (RedirectCandidate(link).None? || RedirectCandidate(link) == Some("")) ==> r == link
    ensures (IsAggregator(link) && RedirectCandidate(link).Some? && RedirectCandidate(link).value != "")
            ==> r == Unquote(RedirectCandidate(link).value)
  {
    if IsAggregator(link) then
      match RedirectCandidate(link)
      case Some(c) => if c != "" then Unquote(c) else link
      case None => link
    else link
  }

  /**
   * Unwrapping with a single decoding: an aggregator link is replaced by
   * the value of its first redirect key; any other link, or an aggregator
   * link without such a key, is kept.
   */
  function UnwrapRedirect(link: string): (r: string)
    ensures !IsAggregator(link) ==> r == link
    ensures IsAggregator(link) && (RedirectCandidate(link).None? || RedirectCandidate(link) == Some("")) ==> r == link
    ensures IsAggregator(link) && RedirectCandidate(link).Some? && RedirectCandidate(link).value != ""
            ==> r == RedirectCandidate(link).value
    ensures r != link ==> Some(r) == RedirectCandidate(link)
  {
    if IsAggregator(link) then
      match RedirectCandidate(link)
      case Some(c) => if c != "" then c else link
      case None => link
    else link
  }

  /** An aggregator link `base?url=<encoded target>`. */
  predicate IsRedirectBase(base: string) {
    && IsAggregator(base)
    && (forall i :: 0 <= i < |base| ==> base[i] != '?' && base[i] != '#')
    && NoUnsafeChars(base)
  }

  /** What percent-encoding produces is safe to place in a query string. */
  lemma EncodedIsSafe(target: string)
    requires IsAscii(target) && target != ""
    ensures PercentEncode(target) != ""
    ensures QuerySafe(PercentEncode(target))
    ensures forall i :: 0 <= i < |PercentEncode(target)| ==> PercentEncode(target)[i] != '&' && PercentEncode(target)[i] != '+'
  {
  }

  /** The query of an aggregator link built from a redirect base is its one `key=value` parameter. */
  lemma RedirectQueryOf(base: string, key: string, e: string)
    requires IsRedirectBase(base) && QuerySafe(key) && QuerySafe(e)
    ensures QueryOf(base + "?" + (key + "=" + e)) == key + "=" + e
  {
    QuerySafeConcat(key, "=", e, "", "", "");
    assert key + "=" + e + "" + "" + "" == key + "=" + e;
    QueryOfComposed(base, key + "=" + e);
  }

  /** A query made of a single parameter named by one of the redirect keys redirects to its decoded value. */
  lemma RedirectPairOf(k: nat, target: string)
    requires k < |RedirectKeys| && IsAscii(target) && target != ""
    ensures FirstPresent(ParseQsl(RedirectKeys[k] + "=" + PercentEncode(target)), RedirectKeys) == Some(target)
  {
    var key := RedirectKeys[k];
    var e := PercentEncode(target);
    EncodedIsSafe(target);
    assert key == "url" || key == "u" || key == "q";
    SinglePair(key, e);
    assert ReplaceChar(e, '+', ' ') == e;
    UnquoteEncode(target);
    FirstPresentSingle(k, target);
  }

  /** A single pair named by one of the redirect keys is found whichever key it is. */
  lemma FirstPresentSingle(k: nat, v: string)
    requires k < |RedirectKeys|
    ensures FirstPresent([(RedirectKeys[k], v)], RedirectKeys) == Some(v)
  {
    var pairs := [(RedirectKeys[k], v)];
    assert RedirectKeys[1..] == ["u", "q"] && RedirectKeys[2..] == ["q"];
    if k == 0 {
      assert LookupFirst(pairs, "url") == Some(v);
    } else if k == 1 {
      assert LookupFirst(pairs, "url") == None;
      assert LookupFirst(pairs, "u") == Some(v);
    } else {
      assert LookupFirst(pairs, "url") == None;
      assert LookupFirst(pairs, "u") == None;
      assert LookupFirst(pairs, "q") == Some(v);
    }
  }

  lemma RedirectCandidateOf(base: string, k: nat, target: string)
    requires k < |RedirectKeys| && IsRedirectBase(base) && IsAscii(target) && target != ""
    ensures RedirectCandidate(base + "?" + (RedirectKeys[k] + "=" + PercentEncode(target))) == Some(target)
  {
    EncodedIsSafe(target);
    RedirectQueryOf(base, RedirectKeys[k], PercentEncode(target));
    RedirectPairOf(k, target);
  }

  /** Anything that extends a redirect base is an aggregator link. */
  lemma ExtendsAggregator(base: string, rest: string)
    requires IsAggregator(base)
    ensures IsAggregator(base + rest)
  {
    ContainsAppended(base, rest, AggregatorMarker);
  }

  /**
   * The corrected unwrapping recovers any ASCII target a redirector
   * percent-encodes into its `url`, `u` or `q` parameter.
   */
  lemma UnwrapRoundTrip(base: string, k: nat, target: string)
    requires k < |RedirectKeys| && IsRedirectBase(base) && IsAscii(target) && target != ""
    ensures UnwrapRedirect(base + "?" + (RedirectKeys[k] + "=" + PercentEncode(target))) == target
  {
    var rest := "?" + (RedirectKeys[k] + "=" + PercentEncode(target));
    var link := base + "?" + (RedirectKeys[k] + "=" + PercentEncode(target));
    ExtendsAggregator(base, rest);
    assert link == base + rest;
    RedirectCandidateOf(base, k, target);
    assert IsAggregator(link) && RedirectCandidate(link) == Some(target);
  }

  /**
   * The code as written and the single-decoding unwrap agree on every link
   * whose redirect candidate holds no `%`: decoding it again changes nothing.
   */
  lemma AsWrittenAgreesWithoutPercent(link: string)
    requires RedirectCandidate(link).Some? ==> '%' !in RedirectCandidate(link).value
    ensures UnwrapAsWritten(link) == UnwrapRedirect(link)
  {
  }

  /** Decoding "a%25" once yields "a%". */
  lemma UnquoteOncePercent()
    ensures Unquote("a%25") == "a%"
  {
    UnquoteLiteralPrefix("a", "%25");
    UnquoteHexEscape('2', '5', []);
    assert "a%25" == "a" + "%25";
    assert "%25" == ['%', '2', '5'] + [];
    assert Unquote([]) == [];
  }

  /**
   * The code as written recovers the target only when decoding it once
   * more changes nothing: a target holding `%25` loses it.
   */
  lemma UnwrapAsWrittenDecodesTwice(base: string)
    requires IsRedirectBase(base)
    ensures var link := base + "?" + ("url=" + PercentEncode("a%25"));
      UnwrapAsWritten(link) == "a%" && UnwrapRedirect(link) == "a%25"
  {
    DecodesTwiceAt(base, "a%25");
  }

  lemma DecodesTwiceAt(base: string, target: string)
    requires IsRedirectBase(base) && target == "a%25"
    ensures var link := base + "?" + ("url=" + PercentEncode(target));
      UnwrapAsWritten(link) == "a%" && UnwrapRedirect(link) == target
  {
    assert IsAscii(target);
    UnwrapsOfRedirect(base, target);
    UnquoteOncePercent();
  }

  /** The two unwraps of a redirect link carrying `target` in its `url` parameter. */
  lemma UnwrapsOfRedirect(base: string, target: string)
    requires IsRedirectBase(base) && IsAscii(target) && target != ""
    ensures var link := base + "?" + ("url=" + PercentEncode(target));
      UnwrapAsWritten(link) == Unquote(target) && UnwrapRedirect(link) == target
  {
    var e := PercentEncode(target);
    var link := base + "?" + ("url=" + e);
    assert RedirectKeys[0] + "=" + e == "url=" + e;
    RedirectCandidateOf(base, 0, target);
    ExtendsAggregator(base, "?" + ("url=" + e));
    assert link == base + ("?" + ("url=" + e));
    BothUnwraps(link, target);
  }

  /** What the two unwraps make of an aggregator link with a non-empty candidate. */
  lemma BothUnwraps(link: string, target: string)
    requires IsAggregator(link) && RedirectCandidate(link) == Some(target) && target != ""
    ensures UnwrapAsWritten(link) == Unquote(target) && UnwrapRedirect(link) == target
  {
  }

  /** The characters of the article base used in the examples below. */
  lemma ExampleBaseChars(base: string)
    requires base == "https://" + AggregatorMarker + ".com/rss/articles/CBMi"
    ensures forall i :: 0 <= i < |base| ==> base[i] != '?' && base[i] != '#' && !IsUnsafeUrlChar(base[i])
  {
  }

  /** A Google News article address is a redirect base. */
  lemma ExampleBase()
    ensures IsRedirectBase("https://" + AggregatorMarker + ".com/rss/articles/CBMi")
  {
    var base := "https://" + AggregatorMarker + ".com/rss/articles/CBMi";
    assert OccursAt(AggregatorMarker, AggregatorMarker, 0);
    ContainsExtended("https://", AggregatorMarker, ".com/rss/articles/CBMi", AggregatorMarker);
    ExampleBaseChars(base);
  }

  /** A Google News article link whose `url` key names https://example.com/a unwraps to it. */
  lemma UnwrapExample()
    ensures UnwrapRedirect("https://" + AggregatorMarker + ".com/rss/articles/CBMi"
                           + "?" + ("url=" + PercentEncode("https://example.com/a")))
            == "https://example.com/a"
  {
    ExampleBase();
    ExampleTargetRoundTrip("https://" + AggregatorMarker + ".com/rss/articles/CBMi", "https://example.com/a");
  }

  lemma ExampleTargetRoundTrip(base: string, target: string)
    requires IsRedirectBase(base) && target == "https://example.com/a"
    ensures UnwrapRedirect(base + "?" + ("url=" + PercentEncode(target))) == target
  {
    var e := PercentEncode(target);
    assert IsAscii(target);
    assert RedirectKeys[0] + "=" + e == "url=" + e;
    UnwrapRoundTrip(base, 0, target);
  }

  /** On that same article address, the code as written loses the `%25` of a target. */
  lemma UnwrapAsWrittenExample()
    ensures UnwrapAsWritten("https://" + AggregatorMarker + ".com/rss/articles/CBMi"
                            + "?" + ("url=" + PercentEncode("a%25"))) == "a%"
  {
    ExampleBase();
    UnwrapAsWrittenDecodesTwice("https://" + AggregatorMarker + ".com/rss/articles/CBMi");
  }

  // ---------------------------------------------------------------------
  // Feed entries and the recency window

  /** A parsed time field: its instant in seconds, or a value `mktime` rejects. */
  datatype ParsedTime = Representable(seconds: int) | Unrepresentable

  /** The fields of one feed entry that the fetcher reads; `None` is a missing key. */
  datatype RawEntry = RawEntry(
    title: Option<string>,
    link: Option<string>,
    links: seq<LinkItem>,
    summary: Option<string>,
    published: Option<string>,
    publishedParsed: Option<ParsedTime>,
    updatedParsed: Option<ParsedTime>)

  /** The article record handed to the page; `publishedAt` is absent when no time was usable. */
  datatype Article = Article(title: string, link: string, description: string, published: string, publishedAt: Option<int>)

  /**
   * The entry's publication instant: `published_parsed`, or `updated_parsed`
   * only when the former is missing. A present but unconvertible
   * `published_parsed` gives no instant at all.
   */
  function PublishedAt(e: RawEntry): (r: Option<int>)
    ensures r.Some? ==> e.publishedParsed == Some(Representable(r.value))
                        || (e.publishedParsed.None? && e.updatedParsed == Some(Representable(r.value)))
    ensures e.publishedParsed.Some? && e.publishedParsed.value.Representable?
            ==> r == Some(e.publishedParsed.value.seconds)
    ensures e.publishedParsed.None? && e.updatedParsed.Some? && e.updatedParsed.value.Representable?
            ==> r == Some(e.updatedParsed.value.seconds)
    ensures e.publishedParsed == Some(Unrepresentable) ==> r.None?
    ensures e.publishedParsed.None? && e.updatedParsed == Some(Unrepresentable) ==> r.None?
    ensures e.publishedParsed.None? && e.updatedParsed.None? ==> r.None?
  {
    var parsed := if e.publishedParsed.Some? then e.publishedParsed else e.updatedParsed;
    match parsed
    case Some(Representable(t)) => Some(t)
    case _ => None
  }

  /** The oldest instant the window admits, `days` whole days before `now`. */
  function MinPublished(now: int, days: int): int {
    now - days * SecondsPerDay
  }

  /** An entry stays unless it has an instant and that instant is before the window. */
  predicate IsRecent(at: Option<int>, minTime: int) {
    at.None? || at.value >= minTime
  }

  /**
   * The link an entry ends up with: the selected link, unwrapped when it is
   * a redirect. The unwrap decodes the redirect target once, correcting the
   * second decoding of src/fetcher.py:73 (`UnwrapAsWritten`); the two agree
   * whenever the target holds no `%` (`AsWrittenAgreesWithoutPercent`).
   */
  function EntryLink(e: RawEntry): string {
    UnwrapRedirect(SelectLink(e.link.GetOr(""), e.links))
  }

  /** The article record of an entry; missing text fields become empty strings. */
  function ToArticle(e: RawEntry): (a: Article)
    ensures a.publishedAt == PublishedAt(e) && a.link == EntryLink(e)
    ensures e.title.None? ==> a.title == ""
    ensures e.title.Some? ==> a.title == e.title.value
    ensures e.summary.None? ==> a.description == ""
    ensures e.summary.Some? ==> a.description == e.summary.value
    ensures e.published.None? ==> a.published == ""
    ensures e.published.Some? ==> a.published == e.published.value
  {
    Article(e.title.GetOr(""), EntryLink(e), e.summary.GetOr(""), e.published.GetOr(""), PublishedAt(e))
  }

  /** The articles of the entries inside the window, in feed order. */
  function Normalized(entries: seq<RawEntry>, minTime: int): (r: seq<Article>)
    ensures |r| <= |entries|
    ensures forall k :: 0 <= k < |r| ==> IsRecent(r[k].publishedAt, minTime)
  {
    if entries == [] then []
    else
      var last := entries[|entries| - 1];
      Normalized(entries[..|entries| - 1], minTime)
        + (if IsRecent(PublishedAt(last), minTime) then [ToArticle(last)] else [])
  }

  lemma {:induction false} NormalizedConcat(a: seq<RawEntry>, b: seq<RawEntry>, minTime: int)
    ensures Normalized(a + b, minTime) == Normalized(a, minTime) + Normalized(b, minTime)
    decreases |b|
  {
    if b == [] {
      assert a + b == a;
    } else {
      var init := b[..|b| - 1];
      var last := b[|b| - 1];
      NormalizedConcat(a, init, minTime);
      assert (a + b)[..|a + b| - 1] == a + init;
      assert (a + b)[|a + b| - 1] == last;
      var tail := if IsRecent(PublishedAt(last), minTime) then [ToArticle(last)] else [];
      assert Normalized(a + b, minTime) == Normalized(a + init, minTime) + tail;
      assert Normalized(b, minTime) == Normalized(init, minTime) + tail;
    }
  }

  /** Every entry inside the window yields its article; an entry before it yields none. */
  lemma {:induction false} NormalizedOne(e: RawEntry, minTime: int)
    ensures Normalized([e], minTime) == if IsRecent(PublishedAt(e), minTime) then [ToArticle(e)] else []
  {
    assert [e][..0] == [];
  }

  /**
   * The window test in terms of the entry's own fields: an entry whose
   * usable parsed time is before `minTime` is dropped, one at or after it
   * is kept, and one without a usable time is kept.
   */
  lemma NormalizedOneByTime(e: RawEntry, minTime: int)
    ensures (e.publishedParsed.Some? && e.publishedParsed.value.Representable?
             && e.publishedParsed.value.seconds < minTime) ==> Normalized([e], minTime) == []
    ensures (e.publishedParsed.Some? && e.publishedParsed.value.Representable?
             && e.publishedParsed.value.seconds >= minTime) ==> Normalized([e], minTime) == [ToArticle(e)]
    ensures (e.publishedParsed.None? && e.updatedParsed.Some? && e.updatedParsed.value.Representable?
             && e.updatedParsed.value.seconds < minTime) ==> Normalized([e], minTime) == []
    ensures (e.publishedParsed.None? && e.updatedParsed.Some? && e.updatedParsed.value.Representable?
             && e.updatedParsed.value.seconds >= minTime) ==> Normalized([e], minTime) == [ToArticle(e)]
    ensures (e.publishedParsed == Some(Unrepresentable)
             || (e.publishedParsed.None? && (e.updatedParsed.None? || e.updatedParsed == Some(Unrepresentable))))
            ==> Normalized([e], minTime) == [ToArticle(e)]
  {
    NormalizedOne(e, minTime);
  }

  /** Every entry inside the window contributes its article. */
  lemma {:induction false} NormalizedKeepsRecent(entries: seq<RawEntry>, minTime: int, k: nat)
    requires k < |entries| && IsRecent(PublishedAt(entries[k]), minTime)
    ensures ToArticle(entries[k]) in Normalized(entries, minTime)
    decreases |entries|
  {
    var init := entries[..|entries| - 1];
    if k < |init| {
      assert init[k] == entries[k];
      NormalizedKeepsRecent(init, minTime, k);
    }
  }

  /** Every article in the result is the article of an entry inside the window. */
  lemma {:induction false} NormalizedFromRecent(entries: seq<RawEntry>, minTime: int, a: Article)
    requires a in Normalized(entries, minTime)
    ensures exists k :: 0 <= k < |entries| && IsRecent(PublishedAt(entries[k]), minTime) && ToArticle(entries[k]) == a
    decreases |entries|
  {
    var init := entries[..|entries| - 1];
    var last := entries[|entries| - 1];
    if a in Normalized(init, minTime) {
      NormalizedFromRecent(init, minTime, a);
      var k :| 0 <= k < |init| && IsRecent(PublishedAt(init[k]), minTime) && ToArticle(init[k]) == a;
      assert entries[k] == init[k];
    } else {
      assert IsRecent(PublishedAt(last), minTime) && ToArticle(last) == a;
    }
  }

  /** When every entry is inside the window, each entry yields its article, in order. */
  lemma {:induction false} NormalizedAllRecent(entries: seq<RawEntry>, minTime: int)
    requires forall k :: 0 <= k < |entries| ==> IsRecent(PublishedAt(entries[k]), minTime)
    ensures |Normalized(entries, minTime)| == |entries|
    ensures forall k :: 0 <= k < |entries| ==> Normalized(entries, minTime)[k] == ToArticle(entries[k])
    decreases |entries|
  {
    if entries != [] {
      var init := entries[..|entries| - 1];
      var last := entries[|entries| - 1];
      assert forall k :: 0 <= k < |init| ==> init[k] == entries[k];
      NormalizedAllRecent(init, minTime);
      var r := Normalized(entries, minTime);
      assert r == Normalized(init, minTime) + [ToArticle(last)];
      forall k | 0 <= k < |entries| ensures r[k] == ToArticle(entries[k]) {
        if k < |init| {
          assert r[k] == Normalized(init, minTime)[k];
        }
      }
    }
  }

  /** Widening the window never drops an article: a longer look-back keeps at least as many. */
  lemma {:induction false} NormalizedWiderWindow(entries: seq<RawEntry>, minTime: int, earlier: int)
    requires earlier <= minTime
    ensures |Normalized(entries, minTime)| <= |Normalized(entries, earlier)|
    decreases |entries|
  {
    if entries != [] {
      NormalizedWiderWindow(entries[..|entries| - 1], minTime, earlier);
    }
  }

  /**
   * The link handling of the fetch loop: the scan over `links`, then the
   * loop over the redirect keys. The candidate is taken as `parse_qs`
   * decoded it, without the second decoding of the code as written.
   */
  method ResolveLink(e: RawEntry) returns (link: string)
    ensures link == EntryLink(e)
  {
    link := ScanLinks(e.link.GetOr(""), e.links);
    if link != "" && IsAggregator(link) {
      var candidate := RedirectTarget(ParseQsl(QueryOf(link)));
      if candidate.Some? && candidate.value != "" {
        link := candidate.value;
      }
    }
  }

  /** The loop over the feed's entries: resolve the link, skip old entries, collect the rest. */
  method NormalizeEntries(entries: seq<RawEntry>, minTime: int) returns (articles: seq<Article>)
    ensures articles == Normalized(entries, minTime)
  {
    articles := [];
    var i := 0;
    while i < |entries|
      invariant 0 <= i <= |entries|
      invariant articles == Normalized(entries[..i], minTime)
    {
      var e := entries[i];
      assert entries[..i + 1][..i] == entries[..i];
      var link := ResolveLink(e);
      var at := PublishedAt(e);
      if at.Some? && at.value < minTime {
        i := i + 1;
        continue;
      }
      articles := articles + [Article(e.title.GetOr(""), link, e.summary.GetOr(""), e.published.GetOr(""), at)];
      i := i + 1;
    }
    assert entries[..i] == entries;
  }

  /** What the HTTP request gives back: no response at all, or a status and the parsed entries. */
  datatype FetchOutcome = TransportError | HttpResponse(status: int, entries: seq<RawEntry>)

  /**
   * `fetch_digital_solutions`: request the search feed and normalize its
   * entries. `get` stands for the request and the feed parser, `now` for
   * the clock.
   */
  method FetchDigitalSolutions(query: Option<string>, days: int, region: Option<string>,
                               get: string -> FetchOutcome, now: int) returns (articles: seq<Article>)
    ensures get(SearchUrl(query, region)).TransportError? ==> articles == []
    ensures get(SearchUrl(query, region)).HttpResponse? && get(SearchUrl(query, region)).status != 200 ==> articles == []
    ensures get(SearchUrl(query, region)).HttpResponse? && get(SearchUrl(query, region)).status == 200
            ==> articles == Normalized(get(SearchUrl(query, region)).entries, MinPublished(now, days))
  {
    var url := SearchUrl(query, region);
    var response := get(url);
    if response.TransportError? || response.status != 200 {
      return [];
    }
    articles := NormalizeEntries(response.entries, MinPublished(now, days));
  }
}
