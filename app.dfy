/**
 * The page logic of src/app.py: the "time since" label of the header, the
 * search query composed from the selected topics, the case-insensitive
 * topic matcher, the loop that tags every article and files it into one
 * topic bucket, and the split of a bucket into the visible head and the
 * "Show more" tail.
 *
 * Streamlit widgets, markup and the result cache are outside the model.
 */
module App {
  import opened Common
  import opened Text
  import Fetcher

  // ---------------------------------------------------------------------
  // Elapsed time

  datatype TimeUnit = Seconds | Minutes | Hours | Days

  function Suffix(u: TimeUnit): string {
    match u
    case Seconds => "s"
    case Minutes => "m"
    case Hours => "h"
    case Days => "d"
  }

  function UnitOf(c: char): Option<TimeUnit> {
    if c == 's' then Some(Seconds)
    else if c == 'm' then Some(Minutes)
    else if c == 'h' then Some(Hours)
    else if c == 'd' then Some(Days)
    else None
  }

  /**
   * The amount and unit `humanize_timesince` reports after `secs` seconds:
   * it divides by 60, then 60, then 24, keeping the first quotient below
   * its unit's limit.
   */
  function ElapsedOf(secs: int): (r: (int, TimeUnit))
    ensures secs < 60 ==> r == (secs, Seconds)
    ensures 60 <= secs < 3600 ==> r == (secs / 60, Minutes)
    ensures 3600 <= secs < 86400 ==> r == (secs / 3600, Hours)
    ensures 86400 <= secs ==> r == (secs / 86400, Days)
  {
    if secs < 60 then (secs, Seconds)
    else
      var mins := secs / 60;
      if mins < 60 then (mins, Minutes)
      else
        var hrs := mins / 60;
        assert hrs == secs / 3600;
        if hrs < 24 then (hrs, Hours)
        else
          assert hrs / 24 == secs / 86400;
          (hrs / 24, Days)
  }

  /** Every unit but seconds reports an amount between one and that unit's limit. */
  lemma ElapsedBounds(secs: int)
    ensures ElapsedOf(secs).1 == Minutes ==> 1 <= ElapsedOf(secs).0 < 60
    ensures ElapsedOf(secs).1 == Hours ==> 1 <= ElapsedOf(secs).0 < 24
    ensures ElapsedOf(secs).1 == Days ==> 1 <= ElapsedOf(secs).0
    ensures ElapsedOf(secs).1 == Seconds <==> secs < 60
  {
    if 60 <= secs < 3600 {
      assert secs / 60 < 60;
    } else if 3600 <= secs < 86400 {
      assert secs / 3600 < 24;
    }
  }

  /** The label for `secs` elapsed seconds, such as `5m ago`. */
  function HumanizeSeconds(secs: int): (r: string)
    ensures |r| >= 6 && r[|r| - 4..] == " ago"
  {
    var (amount, unit) := ElapsedOf(secs);
    IntToString(amount) + Suffix(unit) + " ago"
  }

  /** Reads a label of the form `<integer><unit> ago` back into its amount and unit. */
  function ParseHumanized(text: string): Option<(int, TimeUnit)> {
    if |text| < 6 || text[|text| - 4..] != " ago" then None
    else
      var body := text[..|text| - 4];
      match (ParseInt(body[..|body| - 1]), UnitOf(body[|body| - 1]))
      case (Some(n), Some(u)) => Some((n, u))
      case _ => None
  }

  /** A label reads back as the amount and unit it was made from. */
  lemma HumanizeReadsBack(secs: int)
    ensures ParseHumanized(HumanizeSeconds(secs)) == Some(ElapsedOf(secs))
  {
    var (amount, unit) := ElapsedOf(secs);
    var digits := IntToString(amount);
    var text := HumanizeSeconds(secs);
    assert |digits| >= 1 by {
      if amount < 0 {
        assert digits == "-" + NatToString(-amount);
      }
    }
    assert text == digits + Suffix(unit) + " ago";
    assert text[|text| - 4..] == " ago";
    var body := text[..|text| - 4];
    assert body == digits + Suffix(unit);
    assert body[..|body| - 1] == digits;
    assert UnitOf(body[|body| - 1]) == Some(unit);
    IntToStringRoundTrip(amount);
  }

  /** A label that reads back is the one `HumanizeSeconds` writes for that amount and unit: no other spelling is accepted. */
  lemma ParseHumanizedExact(text: string)
    requires ParseHumanized(text).Some?
    ensures var (n, u) := ParseHumanized(text).value;
      text == IntToString(n) + Suffix(u) + " ago"
  {
    var body := text[..|text| - 4];
    var digits := body[..|body| - 1];
    ParseIntExact(digits);
    assert body == digits + [body[|body| - 1]];
    assert text == body + text[|text| - 4..];
  }

  /** `f"{secs}s ago"` writes no leading zero, so `007s ago` is not a label. */
  lemma LeadingZeroNotLabel(text: string)
    requires text == "007s ago"
    ensures ParseHumanized(text) == None
  {
    var body := text[..|text| - 4];
    assert body[..|body| - 1] == "007";
  }

  /**
   * `humanize_timesince`: `parsed` is the instant `fromisoformat` finds in
   * `raw`, or `None` when it raises; `now` is the clock.
   */
  function HumanizeTimeSince(parsed: Option<int>, raw: string, now: int): (r: string)
    ensures parsed.None? ==> r == raw
    ensures parsed.Some? ==> ParseHumanized(r) == Some(ElapsedOf(now - parsed.value))
  {
    match parsed
    case None => raw
    case Some(t) =>
      HumanizeReadsBack(now - t);
      HumanizeSeconds(now - t)
  }

  // ---------------------------------------------------------------------
  // Query composition

  /** A topic as it appears in the query: in double quotes when it holds a space. */
  function QuotePart(topic: string): string {
    if ' ' in topic then "\"" + topic + "\"" else topic
  }

  function QuotedParts(selected: seq<string>): (parts: seq<string>)
    ensures |parts| == |selected|
    ensures forall k :: 0 <= k < |selected| ==> parts[k] == QuotePart(selected[k])
  {
    seq(|selected|, k requires 0 <= k < |selected| => QuotePart(selected[k]))
  }

  /** The search query for a selection of topics. */
  function ComposedQuery(selected: seq<string>): string {
    if selected == [] then Fetcher.DefaultQuery else Join(QuotedParts(selected), " OR ")
  }

  /** Builds the query the way the page does: quote each topic in turn, then join with ` OR `. */
  method ComposeQuery(selected: seq<string>) returns (query: string)
    ensures query == ComposedQuery(selected)
  {
    if selected == [] {
      query := Fetcher.DefaultQuery;
      return;
    }
    var parts: seq<string> := [];
    for i := 0 to |selected|
      invariant |parts| == i
      invariant forall k :: 0 <= k < i ==> parts[k] == QuotePart(selected[k])
    {
      var t := selected[i];
      if ' ' in t {
        parts := parts + ["\"" + t + "\""];
      } else {
        parts := parts + [t];
      }
    }
    assert parts == QuotedParts(selected);
    query := Join(parts, " OR ");
  }

  /** The query is the first topic's part, then ` OR ` and the query of the remaining topics. */
  lemma ComposedQueryCons(t: string, rest: seq<string>)
    requires rest != []
    ensures ComposedQuery([t] + rest) == QuotePart(t) + " OR " + ComposedQuery(rest)
  {
    var ps := QuotedParts([t] + rest);
    var tail := QuotedParts(rest);
    assert ps == [QuotePart(t)] + tail by {
      forall k | 0 <= k < |ps| ensures ps[k] == ([QuotePart(t)] + tail)[k] {
        if k > 0 {
          assert ([t] + rest)[k] == rest[k - 1];
        }
      }
    }
    assert ComposedQuery([t] + rest) == Join(ps, " OR ");
    assert ComposedQuery(rest) == Join(tail, " OR ");
    JoinCons(QuotePart(t), tail, " OR ");
  }

  /** A topic occurs in its own query part. */
  lemma PartMentionsTopic(t: string)
    ensures Contains(QuotePart(t), t)
  {
    var part := QuotePart(t);
    if ' ' in t {
      assert part[1..1 + |t|] == t;
      assert OccursAt(part, t, 1);
    } else {
      assert OccursAt(part, t, 0);
    }
  }

  /** Every selected topic occurs in the query, quoted or not. */
  lemma QueryMentionsTopic(selected: seq<string>, k: nat)
    requires k < |selected|
    ensures Contains(ComposedQuery(selected), selected[k])
  {
    var parts := QuotedParts(selected);
    JoinContainsParts(parts, " OR ", k);
    PartMentionsTopic(selected[k]);
    ContainsTransitive(Join(parts, " OR "), parts[k], selected[k]);
  }

  // ---------------------------------------------------------------------
  // Topic matching

  /** The text a topic is searched in: title, description and link, space-separated, lower-cased. */
  function Haystack(a: Fetcher.Article): string {
    Lower(a.title + " " + a.description + " " + a.link)
  }

  /** The topic as searched: lower-cased, surrounding double quotes removed. */
  function TopicKey(topic: string): string {
    StripChar(Lower(topic), '"')
  }

  /** The characters `\b` treats as part of a word (ASCII only). */
  predicate IsWordChar(c: char) {
    ('a' <= c <= 'z') || ('A' <= c <= 'Z') || ('0' <= c <= '9') || c == '_'
  }

  predicate IsWordAt(s: string, i: int) {
    0 <= i < |s| && IsWordChar(s[i])
  }

  /** `\b` at position `i`: a word character on exactly one side. */
  predicate Boundary(s: string, i: int) {
    IsWordAt(s, i - 1) != IsWordAt(s, i)
  }

  /** `\b<key>\b` matches at `i`. */
  predicate WholeWordAt(s: string, key: string, i: int) {
    OccursAt(s, key, i) && Boundary(s, i) && Boundary(s, i + |key|)
  }

  /** The leftmost position at or after `from` where `\b<key>\b` matches. */
  function FindWholeWord(s: string, key: string, from: nat): (r: Option<nat>)
    ensures r.Some? ==> from <= r.value && WholeWordAt(s, key, r.value)
    ensures r.Some? ==> forall j :: from <= j < r.value ==> !WholeWordAt(s, key, j)
    ensures r.None? ==> forall j :: from <= j ==> !WholeWordAt(s, key, j)
    decreases |s| + 1 - from
  {
    if from > |s| then None
    else if WholeWordAt(s, key, from) then Some(from)
    else FindWholeWord(s, key, from + 1)
  }

  /** `_matches_topic_regex(article, topic)`. */
  function MatchesTopic(a: Fetcher.Article, topic: string): (r: bool)
    ensures r ==> Contains(Haystack(a), TopicKey(topic))
  {
    var hay := Haystack(a);
    var key := TopicKey(topic);
    if ' ' in key then Contains(hay, key)
    else
      var w := FindWholeWord(hay, key, 0);
      assert w.Some? ==> OccursAt(hay, key, w.value);
      w.Some?
  }

  /**
   * A key holding a space matches as a plain substring of the haystack, any
   * other key only as a whole word.
   */
  lemma MatchesTopicMeans(a: Fetcher.Article, topic: string)
    ensures ' ' in TopicKey(topic) ==> (MatchesTopic(a, topic) <==> exists i :: OccursAt(Haystack(a), TopicKey(topic), i))
    ensures ' ' !in TopicKey(topic) ==> (MatchesTopic(a, topic) <==> exists i :: WholeWordAt(Haystack(a), TopicKey(topic), i))
  {
  }

  /** Lower-casing is idempotent. */
  lemma LowerLower(s: string)
    ensures Lower(Lower(s)) == Lower(s)
  {
  }

  /** Matching does not depend on the case of the topic. */
  lemma MatchIgnoresTopicCase(a: Fetcher.Article, topic: string)
    ensures MatchesTopic(a, Lower(topic)) == MatchesTopic(a, topic)
  {
    LowerLower(topic);
    assert TopicKey(Lower(topic)) == TopicKey(topic);
  }

  /** Matching does not depend on the case of the article's text. */
  lemma MatchIgnoresArticleCase(a: Fetcher.Article, topic: string)
    ensures MatchesTopic(a.(title := Lower(a.title), description := Lower(a.description), link := Lower(a.link)), topic)
            == MatchesTopic(a, topic)
  {
    var b := a.(title := Lower(a.title), description := Lower(a.description), link := Lower(a.link));
    assert Haystack(b) == Haystack(a);
  }

  /** A single word does not match inside a longer word: `pay` against `payment`. */
  lemma PayNotInPayment(a: Fetcher.Article)
    requires a.title == "Payment" && a.description == "" && a.link == ""
    ensures !MatchesTopic(a, "pay")
  {
    PaymentHaystack(a);
    PayKey();
    NoWholePay(Haystack(a));
    MatchesTopicMeans(a, "pay");
  }

  lemma PaymentHaystack(a: Fetcher.Article)
    requires a.title == "Payment" && a.description == "" && a.link == ""
    ensures Haystack(a) == "payment  "
  {
  }

  lemma PayKey()
    ensures TopicKey("pay") == "pay"
  {
    assert Lower("pay") == "pay";
  }

  lemma NoWholePay(hay: string)
    requires hay == "payment  "
    ensures forall i :: !WholeWordAt(hay, "pay", i)
  {
    forall i
      ensures !WholeWordAt(hay, "pay", i)
    {
      if i == 0 {
        assert !Boundary(hay, 3);
      } else if 0 < i <= |hay| - 3 {
        assert hay[i] != 'p';
        assert hay[i..i + 3][0] == hay[i];
      }
    }
  }

  /** A single word matches where it stands alone: `pay` in `Apple Pay launch`. */
  lemma PayInApplePay(a: Fetcher.Article)
    requires a.title == "Apple Pay launch" && a.description == "" && a.link == ""
    ensures MatchesTopic(a, "pay")
  {
    ApplePayHaystack(a);
    PayKey();
    WholePayAt(Haystack(a));
    MatchesTopicMeans(a, "pay");
  }

  lemma ApplePayHaystack(a: Fetcher.Article)
    requires a.title == "Apple Pay launch" && a.description == "" && a.link == ""
    ensures Haystack(a) == "apple pay launch  "
  {
  }

  lemma WholePayAt(hay: string)
    requires hay == "apple pay launch  "
    ensures WholeWordAt(hay, "pay", 6)
  {
    assert hay[6..9] == "pay";
  }

  // ---------------------------------------------------------------------
  // Bucketing

  /** The bucket of articles that match no selected topic. */
  const OtherTag: string := "Other"

  /**
   * An article dict of the page: its fetched fields, which never change,
   * and the two keys the bucketing loop writes into it.
   */
  class ArticleRecord {
    const article: Fetcher.Article
    var matchedTopics: seq<string>
    var tag: string

    constructor (a: Fetcher.Article)
      ensures article == a && matchedTopics == [] && tag == ""
    {
      article := a;
      matchedTopics := [];
      tag := "";
    }
  }

  /** The elements of `xs` for which `p` holds, in order. */
  function Filter<T>(xs: seq<T>, p: T -> bool): seq<T> {
    if xs == [] then []
    else
      var last := xs[|xs| - 1];
      Filter(xs[..|xs| - 1], p) + (if p(last) then [last] else [])
  }

  lemma {:induction false} FilterLength<T>(xs: seq<T>, p: T -> bool)
    ensures |Filter(xs, p)| <= |xs|
    decreases |xs|
  {
    if xs != [] {
      FilterLength(xs[..|xs| - 1], p);
    }
  }

  lemma {:induction false} FilterConcat<T>(x: seq<T>, y: seq<T>, p: T -> bool)
    ensures Filter(x + y, p) == Filter(x, p) + Filter(y, p)
    decreases |y|
  {
    if y == [] {
      assert x + y == x;
    } else {
      FilterConcat(x, y[..|y| - 1], p);
      assert (x + y)[..|x + y| - 1] == x + y[..|y| - 1];
    }
  }

  lemma FilterFront<T>(t: T, rest: seq<T>, p: T -> bool)
    ensures Filter([t] + rest, p) == (if p(t) then [t] else []) + Filter(rest, p)
  {
    FilterConcat([t], rest, p);
    assert [t][..0] == [];
  }

  lemma {:induction false} FilterSound<T>(xs: seq<T>, p: T -> bool, t: T)
    requires t in Filter(xs, p)
    ensures t in xs && p(t)
    decreases |xs|
  {
    var init := xs[..|xs| - 1];
    if t in Filter(init, p) {
      FilterSound(init, p, t);
    }
  }

  lemma {:induction false} FilterComplete<T>(xs: seq<T>, p: T -> bool, k: nat)
    requires k < |xs| && p(xs[k])
    ensures xs[k] in Filter(xs, p)
    decreases |xs|
  {
    var init := xs[..|xs| - 1];
    if k < |init| {
      assert init[k] == xs[k];
      FilterComplete(init, p, k);
    }
  }

  lemma {:induction false} FilterFirst<T>(xs: seq<T>, p: T -> bool, k: nat)
    requires k < |xs| && p(xs[k])
    requires forall j :: 0 <= j < k ==> !p(xs[j])
    ensures Filter(xs, p) != [] && Filter(xs, p)[0] == xs[k]
    decreases k
  {
    assert xs == [xs[0]] + xs[1..];
    FilterFront(xs[0], xs[1..], p);
    if k > 0 {
      assert forall j :: 0 <= j < k - 1 ==> xs[1..][j] == xs[j + 1];
      FilterFirst(xs[1..], p, k - 1);
    }
  }

  /** The matcher for one article, as a predicate on topics. */
  function MatchesFor(a: Fetcher.Article): string -> bool {
    t => MatchesTopic(a, t)
  }

  /** `[t for t in selected if matches(a, t)]`. */
  function Matched(a: Fetcher.Article, selected: seq<string>): (r: seq<string>)
    ensures |r| <= |selected|
  {
    FilterLength(selected, MatchesFor(a));
    Filter(selected, MatchesFor(a))
  }

  /** Matched topics keep the selection's order: the matches of a concatenation are concatenated. */
  lemma MatchedConcat(a: Fetcher.Article, x: seq<string>, y: seq<string>)
    ensures Matched(a, x + y) == Matched(a, x) + Matched(a, y)
  {
    FilterConcat(x, y, MatchesFor(a));
  }

  /** The matched topics are selected topics the article matches. */
  lemma MatchedSound(a: Fetcher.Article, selected: seq<string>, t: string)
    requires t in Matched(a, selected)
    ensures t in selected && MatchesTopic(a, t)
  {
    FilterSound(selected, MatchesFor(a), t);
  }

  /** Every selected topic the article matches is among its matched topics. */
  lemma MatchedComplete(a: Fetcher.Article, selected: seq<string>, k: nat)
    requires k < |selected| && MatchesTopic(a, selected[k])
    ensures selected[k] in Matched(a, selected)
  {
    FilterComplete(selected, MatchesFor(a), k);
  }

  /** The tag the page gives an article with these matched topics. */
  function TagOf(matched: seq<string>): (r: string)
    ensures r == OtherTag || r in matched
    ensures matched == [] ==> r == OtherTag
  {
    if matched == [] then OtherTag else matched[0]
  }

  /** The tag of an article: its first matching selected topic, else `Other`. */
  function Tag(a: Fetcher.Article, selected: seq<string>): (r: string)
    ensures r in selected || r == OtherTag
  {
    var m := Matched(a, selected);
    if m != [] then
      MatchedSound(a, selected, m[0]);
      TagOf(m)
    else TagOf(m)
  }

  /** The tag is a selected topic or `Other`. */
  lemma TagInSelection(a: Fetcher.Article, selected: seq<string>)
    ensures Tag(a, selected) in selected || Tag(a, selected) == OtherTag
  {
    var m := Matched(a, selected);
    if m != [] {
      MatchedSound(a, selected, m[0]);
    }
  }

  /** When `Other` is not a selected topic, the tag is `Other` exactly when nothing matched. */
  lemma TagOtherIffUnmatched(a: Fetcher.Article, selected: seq<string>)
    requires OtherTag !in selected
    ensures Tag(a, selected) == OtherTag <==> Matched(a, selected) == []
  {
    var m := Matched(a, selected);
    if m != [] {
      MatchedSound(a, selected, m[0]);
    }
  }

  /** A matched article is tagged with the first selected topic it matches. */
  lemma TagIsFirstMatch(a: Fetcher.Article, selected: seq<string>, k: nat)
    requires k < |selected| && MatchesTopic(a, selected[k])
    requires forall j :: 0 <= j < k ==> !MatchesTopic(a, selected[j])
    ensures Tag(a, selected) == selected[k]
  {
    FilterFirst(selected, MatchesFor(a), k);
  }

  /** The records filed under `key`, in input order. */
  function Bucket(recs: seq<ArticleRecord>, selected: seq<string>, key: string): seq<ArticleRecord> {
    Filter(recs, TaggedWith(selected, key))
  }

  /** Whether a record's tag is `key`, as a predicate on records. */
  function TaggedWith(selected: seq<string>, key: string): ArticleRecord -> bool {
    (r: ArticleRecord) => Tag(r.article, selected) == key
  }

  /** Buckets keep input order: the bucket of a concatenation is the concatenation of the buckets. */
  lemma BucketConcat(x: seq<ArticleRecord>, y: seq<ArticleRecord>, selected: seq<string>, key: string)
    ensures Bucket(x + y, selected, key) == Bucket(x, selected, key) + Bucket(y, selected, key)
  {
    FilterConcat(x, y, TaggedWith(selected, key));
  }

  /** A bucket holds only records of the input whose tag is the bucket's key. */
  lemma BucketSound(recs: seq<ArticleRecord>, selected: seq<string>, key: string, x: ArticleRecord)
    requires x in Bucket(recs, selected, key)
    ensures x in recs && Tag(x.article, selected) == key
  {
    FilterSound(recs, TaggedWith(selected, key), x);
  }

  /** Appending one record to the input appends it to its tag's bucket and to no other. */
  lemma BucketStep(recs: seq<ArticleRecord>, i: nat, selected: seq<string>, key: string)
    requires i < |recs|
    ensures Bucket(recs[..i + 1], selected, key)
            == Bucket(recs[..i], selected, key) + (if Tag(recs[i].article, selected) == key then [recs[i]] else [])
  {
    assert recs[..i + 1][..i] == recs[..i];
  }

  /** A record is in a bucket exactly when that bucket is its tag's. */
  lemma BucketMembership(recs: seq<ArticleRecord>, selected: seq<string>, k: nat, key: string)
    requires k < |recs|
    ensures recs[k] in Bucket(recs, selected, key) <==> key == Tag(recs[k].article, selected)
  {
    if key == Tag(recs[k].article, selected) {
      FilterComplete(recs, TaggedWith(selected, key), k);
    }
    if recs[k] in Bucket(recs, selected, key) {
      BucketSound(recs, selected, key, recs[k]);
    }
  }

  /** Sum of the bucket sizes over a list of keys. */
  function SumSizes(recs: seq<ArticleRecord>, selected: seq<string>, keys: seq<string>): nat {
    if keys == [] then 0 else |Bucket(recs, selected, keys[0])| + SumSizes(recs, selected, keys[1..])
  }

  function Occurrences(keys: seq<string>, t: string): nat {
    if keys == [] then 0 else (if keys[0] == t then 1 else 0) + Occurrences(keys[1..], t)
  }

  lemma {:induction false} SumSizesStep(recs: seq<ArticleRecord>, r: ArticleRecord, selected: seq<string>, keys: seq<string>)
    ensures SumSizes(recs + [r], selected, keys)
            == SumSizes(recs, selected, keys) + Occurrences(keys, Tag(r.article, selected))
    decreases |keys|
  {
    if keys != [] {
      SumSizesStep(recs, r, selected, keys[1..]);
      assert (recs + [r])[..|recs + [r]| - 1] == recs;
    }
  }

  lemma {:induction false} OccursOnce(keys: seq<string>, t: string)
    requires t in keys
    requires forall i, j :: 0 <= i < j < |keys| ==> keys[i] != keys[j]
    ensures Occurrences(keys, t) == 1
    decreases |keys|
  {
    if keys[0] == t {
      NotOccurring(keys[1..], t);
    } else {
      OccursOnce(keys[1..], t);
    }
  }

  lemma {:induction false} NotOccurring(keys: seq<string>, t: string)
    requires t !in keys
    ensures Occurrences(keys, t) == 0
    decreases |keys|
  {
    if keys != [] {
      NotOccurring(keys[1..], t);
    }
  }

  /**
   * Every record lands in exactly one bucket: over any duplicate-free list
   * of keys that holds every tag, the bucket sizes add up to the number of
   * records.
   */
  lemma {:induction false} BucketSizesSum(recs: seq<ArticleRecord>, selected: seq<string>, keys: seq<string>)
    requires forall i, j :: 0 <= i < j < |keys| ==> keys[i] != keys[j]
    requires forall k :: 0 <= k < |recs| ==> Tag(recs[k].article, selected) in keys
    ensures SumSizes(recs, selected, keys) == |recs|
    decreases |recs|
  {
    if recs == [] {
      EmptyBuckets(selected, keys);
    } else {
      var init := recs[..|recs| - 1];
      var last := recs[|recs| - 1];
      assert forall k :: 0 <= k < |init| ==> init[k] == recs[k];
      BucketSizesSum(init, selected, keys);
      InitLast(recs);
      SumSizesStep(init, last, selected, keys);
      OccursOnce(keys, Tag(last.article, selected));
    }
  }

  lemma {:induction false} EmptyBuckets(selected: seq<string>, keys: seq<string>)
    ensures SumSizes([], selected, keys) == 0
    decreases |keys|
  {
    if keys != [] {
      EmptyBuckets(selected, keys[1..]);
    }
  }

  /** The keys of the page's bucket dict: every selected topic, and `Other`. */
  function BucketKeys(selected: seq<string>): set<string> {
    (set t | t in selected) + {OtherTag}
  }

  /** The bucket dict the loop builds, one bucket per key. */
  function BucketMap(recs: seq<ArticleRecord>, selected: seq<string>): (r: map<string, seq<ArticleRecord>>)
    ensures r.Keys == BucketKeys(selected)
    ensures forall key :: key in r ==> |r[key]| <= |recs|
  {
    assert forall key :: key in BucketKeys(selected) ==> |Bucket(recs, selected, key)| <= |recs| by {
      forall key | key in BucketKeys(selected) {
        FilterLength(recs, TaggedWith(selected, key));
      }
    }
    map key | key in BucketKeys(selected) :: Bucket(recs, selected, key)
  }

  /** Filing the next record appends it to its tag's bucket and leaves the others as they were. */
  lemma BucketMapStep(recs: seq<ArticleRecord>, i: nat, selected: seq<string>)
    requires i < |recs|
    ensures Tag(recs[i].article, selected) in BucketMap(recs[..i], selected)
    ensures var t := Tag(recs[i].article, selected);
      var before := BucketMap(recs[..i], selected);
      BucketMap(recs[..i + 1], selected) == before[t := before[t] + [recs[i]]]
  {
    var t := Tag(recs[i].article, selected);
    TagInSelection(recs[i].article, selected);
    var before := BucketMap(recs[..i], selected);
    var after := BucketMap(recs[..i + 1], selected);
    forall key | key in BucketKeys(selected)
      ensures after[key] == before[t := before[t] + [recs[i]]][key]
    {
      BucketStep(recs, i, selected, key);
    }
  }

  /** The buckets after filing record `i` under the tag its matched topics give. */
  lemma FileNext(recs: seq<ArticleRecord>, i: nat, selected: seq<string>, buckets: map<string, seq<ArticleRecord>>)
    requires i < |recs| && buckets == BucketMap(recs[..i], selected)
    ensures var t := Tag(recs[i].article, selected);
      t in buckets && buckets[t := buckets[t] + [recs[i]]] == BucketMap(recs[..i + 1], selected)
  {
    BucketMapStep(recs, i, selected);
  }

  /** The record carries the matched topics and the tag the loop gives its article. */
  predicate Tagged(r: ArticleRecord, selected: seq<string>)
    reads r
  {
    r.matchedTopics == Matched(r.article, selected) && r.tag == TagOf(r.matchedTopics)
  }

  lemma InitLast<T>(s: seq<T>)
    requires s != []
    ensures s[..|s| - 1] + [s[|s| - 1]] == s
  {
  }

  lemma PrefixStep<T>(s: seq<T>, i: nat)
    requires i < |s|
    ensures s[..i + 1] == s[..i] + [s[i]]
  {
  }

  /**
   * One pass of the bucketing loop: the record gets its matched topics and
   * its tag, and is appended to that tag's bucket; the records `done`
   * before it keep theirs.
   */
  method FileRecord(art: ArticleRecord, selected: seq<string>, buckets: map<string, seq<ArticleRecord>>, ghost done: seq<ArticleRecord>)
      returns (filed: map<string, seq<ArticleRecord>>)
    requires Tag(art.article, selected) in buckets
    requires forall r :: r in done ==> Tagged(r, selected)
    modifies art
    ensures forall r :: r in done + [art] ==> Tagged(r, selected)
    ensures var t := Tag(art.article, selected); filed == buckets[t := buckets[t] + [art]]
  {
    var matched := Matched(art.article, selected);
    art.matchedTopics := matched;
    if matched != [] {
      art.tag := matched[0];
      filed := buckets[matched[0] := buckets[matched[0]] + [art]];
    } else {
      art.tag := OtherTag;
      filed := buckets[OtherTag := buckets[OtherTag] + [art]];
    }
  }

  /**
   * The bucketing loop: every record gets its matched topics and its tag,
   * and is appended to its tag's bucket. The buckets are keyed by the
   * selected topics and `Other`.
   */
  method AssignBuckets(recs: seq<ArticleRecord>, selected: seq<string>) returns (buckets: map<string, seq<ArticleRecord>>)
    modifies set r | r in recs
    ensures buckets == BucketMap(recs, selected)
    ensures forall r :: r in recs ==> Tagged(r, selected)
  {
    buckets := map t | t in selected :: [];
    buckets := buckets[OtherTag := []];
    assert buckets == BucketMap(recs[..0], selected);
    for i := 0 to |recs|
      invariant buckets == BucketMap(recs[..i], selected)
      invariant forall r :: r in recs[..i] ==> Tagged(r, selected)
    {
      var art := recs[i];
      FileNext(recs, i, selected, buckets);
      buckets := FileRecord(art, selected, buckets, recs[..i]);
      PrefixStep(recs, i);
    }
    assert recs[..|recs|] == recs;
  }

  // ---------------------------------------------------------------------
  // Head and tail of a bucket

  /** Where Python's `bucket[:n]` cuts a sequence of length `len`. */
  function CutPoint(n: int, len: nat): (k: nat)
    ensures k <= len
    ensures n >= 0 ==> k == if n < len then n else len
    ensures n < 0 ==> k == if len + n > 0 then len + n else 0
  {
    if n >= 0 then (if n < len then n else len)
    else if len + n > 0 then len + n else 0
  }

  /** `head = bucket[:per_topic]`, `tail = bucket[per_topic:]`. */
  function SplitForDisplay<T>(bucket: seq<T>, perTopic: int): (r: (seq<T>, seq<T>))
    ensures r.0 + r.1 == bucket
    ensures perTopic >= 0 ==> |r.0| == if perTopic < |bucket| then perTopic else |bucket|
    ensures perTopic < 0 ==> |r.0| == if |bucket| + perTopic > 0 then |bucket| + perTopic else 0
  {
    var k := CutPoint(perTopic, |bucket|);
    assert bucket[..k] + bucket[k..] == bucket;
    (bucket[..k], bucket[k..])
  }
}
