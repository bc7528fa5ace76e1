# Digital Solutions News — a verified model of its core

The application is a small Streamlit news reader. It asks Google News for an
RSS search on a set of payment topics and normalises the feed entries into
articles. It then files every article under one topic and renders cards. This
project models the logic inside that page in Dafny and proves properties of it:

- **Feed normalisation**, from `src/fetcher.py`:
  - the region to locale table;
  - the search URL;
  - the link scan over an entry's `links`;
  - unwrapping a `news.google` redirect through its `url`/`u`/`q` query keys;
  - the recency window;
  - building one article per kept entry.

  The scan loops and the entry loop are methods proved against reference functions.
- **Query composition, topic matching and bucketing**, from `src/app.py`:
  - quoting multi-word topics and joining them with `" OR "`;
  - case-insensitive matching, as a phrase or as a whole word;
  - the loop that records every article's matched topics and tag and appends it to exactly one bucket;
  - the head/tail split of a bucket;
  - the `Ns/Nm/Nh/Nd ago` labels.

  Articles are objects of class `ArticleRecord`, whose `matchedTopics` and `tag` fields the bucketing loop sets in place.
- **Card text**, from `src/components/news_card.py`:
  - the three regular-expression passes of `_sanitize_text` and its final strip;
  - the `"Title - Source"` split at the last separator;
  - the host-name fall-back for the source;
  - the defaults of missing fields.

The modules are:

- `Common`: `Option`.
- `Text`: the parts of Python's `str` that the code calls:
  - `strip`, `strip('"')`, ASCII `lower`;
  - `in`, `find`, `rfind`;
  - `replace`, `join`;
  - decimal formatting.
- `Percent`: `urllib.parse.unquote`, and the `quote` encoder that is its inverse.
- `QueryString`: the query part of `urlsplit`, and `parse_qsl` with the first-value lookup that `parse_qs(..)[key][0]` performs.
- `Fetcher`, `App`, `NewsCard`: the three source files.

Calls into code that is not part of this model become parameters:

- HTTP and feed parsing: a `get` function returning a transport error or a status and parsed entries.
- The clock: an integer `now`.
- `html.unescape`: a function on strings.
- `urlparse(link).netloc`: a function returning `None` where `urlparse` raises.

Times are whole seconds since the epoch.

## Model

| member | source | states |
|---|---|---|
| Fetcher.RegionLocale | src/fetcher.py:17-28 | United Kingdom and Europe get their own `(hl, gl, ceid)` triples. Every other region, `None` included, gets Global's `('en-US','US','US:en')`. In every case `ceid` is `gl:` followed by the language. |
| Fetcher.SearchUrl | src/fetcher.py:10-30 | The URL starts with the search prefix and `?q=`. No space survives in it, because spaces become `+`. What the server reads back from it is stated by the next lemmas. |
| Fetcher.SearchUrlQuery | src/fetcher.py:10-30 | The query part of the URL is `q=`, then the query with spaces as `+` (the default query when none is given), then the locale parameters. |
| Fetcher.SearchUrlLocale | src/fetcher.py:16-30 | For every region, reading `hl`, `gl` and `ceid` back out of the URL gives that region's triple, whatever query is searched, as long as it holds no `&`, `#`, tab or line break. |
| Fetcher.DefaultQueryPlain | src/fetcher.py:10-12 | The default query is not empty and holds none of the characters that would stop it from reading back. |
| Fetcher.PlusEncoding | src/fetcher.py:14 | Writing spaces as `+` keeps the query free of `&` and `#`. Reading it back, with `+` as a space and then percent-decoding, gives the query again. |
| Fetcher.LocaleParamsSafe | src/fetcher.py:25-30 | For every region, the locale part of the URL starts with `&` and keeps the URL's query intact. |
| Fetcher.SearchUrlReadsBack | src/fetcher.py:10-30 | Reading `q` back out of the built URL gives the query that was searched. With no query (`None`) it gives the default literal. A given query must be non-empty and hold no `&`, `#`, `%`, `+`, tab or line break. |
| Fetcher.ScanLinks | src/fetcher.py:48-59 | The loop over `links` returns exactly `SelectLink`: the first usable non-aggregator href, else the last usable href, else the raw link. |
| Fetcher.CandidatesConcat | src/fetcher.py:53-55 | The usable hrefs of a concatenation of link lists are the concatenation of their usable hrefs. |
| Fetcher.SelectLinkFirstDirect | src/fetcher.py:53-58 | The first `http` href not containing `news.google` wins, whatever follows it. |
| Fetcher.SelectLinkLastAggregator | src/fetcher.py:55-59 | When every usable href contains `news.google`, the last one is taken. |
| Fetcher.SelectLinkNoCandidate | src/fetcher.py:48-55 | With no usable href (non-dict items, missing hrefs, hrefs not starting with `http`), the raw `link` is kept. |
| Fetcher.SelectLink | src/fetcher.py:48-59 | The scan's choice is the raw link or one of the usable hrefs. Whenever some usable href lacks `news.google`, the choice lacks it too. The three SelectLink lemmas above say which href is taken. |
| Fetcher.DirectOnes | src/fetcher.py:55-58 | The publisher links kept from the candidates are candidates that do not contain `news.google`. |
| Fetcher.FirstPresent | src/fetcher.py:67-71 | A result is the first value of one of the keys. No result means none of the keys is present. |
| Fetcher.RedirectTarget | src/fetcher.py:67-71 | The loop over `url`, `u`, `q` stops at the first key present and returns its first value. |
| Fetcher.UnwrapRedirect | src/fetcher.py:61-75 | A link without `news.google` is unchanged. An aggregator link with no non-empty candidate is unchanged. An aggregator link with a non-empty candidate becomes that candidate as `parse_qs` decoded it. This is the corrected unwrap: it decodes once, where line 73 decodes a second time (see Findings). |
| Fetcher.RedirectPairOf | src/fetcher.py:66-71 | A query made of one `url`, `u` or `q` parameter holding the quoted target yields the target as the redirect candidate. |
| Fetcher.RedirectCandidateOf | src/fetcher.py:65-71 | For a redirect URL `base?<key>=<quoted target>` with `key` one of `url`, `u`, `q`, the candidate read from its query is the target. |
| Fetcher.UnwrapRoundTrip | src/fetcher.py:61-75 | Unwrapping a `news.google` redirect whose `url`, `u` or `q` parameter is the quoted target gives back exactly the target. |
| Fetcher.AsWrittenAgreesWithoutPercent | src/fetcher.py:66-73 | The code as written and the corrected unwrap give the same link whenever the redirect candidate holds no `%`. |
| Fetcher.UnwrapExample | src/fetcher.py:61-75 | A `news.google` link with `url=https%3A%2F%2Fexample.com%2Fa` unwraps to `https://example.com/a`. |
| Fetcher.UnwrapAsWritten | src/fetcher.py:61-75 | This is the code as written: it decodes a second time a value the query parser already decoded. Non-aggregator links pass unchanged, and so does an aggregator link with no non-empty candidate. |
| Fetcher.UnwrapAsWrittenDecodesTwice | src/fetcher.py:66-73 | For a redirect to the target `a%25`, the as-written unwrap returns `a%`, not the target. |
| Fetcher.UnwrapAsWrittenExample | src/fetcher.py:66-73 | The same discrepancy on a concrete `news.google` article URL. |
| Fetcher.PublishedAt | src/fetcher.py:79-86 | A usable `published_parsed` gives its time. When it is missing, a usable `updated_parsed` gives its time. A present but unconvertible time gives none, and so do both missing. Any time given comes from one of those two fields. |
| Fetcher.ToArticle | src/fetcher.py:78-102 | The article carries the entry's link and parsed time (`published_iso` is empty exactly when the time is absent). A missing title, summary or `published` becomes `""`. |
| Fetcher.EntryLink | src/fetcher.py:47-75 | The link of one entry: the scan's choice (`SelectLink`), then the redirect unwrap (`UnwrapRedirect`). It has no contract of its own. Fetcher.ResolveLink proves the imperative code computes it, and the SelectLink and UnwrapRedirect rows state what it yields. |
| Fetcher.Normalized | src/fetcher.py:88-104 | The output is never longer than the input, and every kept article is inside the window. |
| Fetcher.NormalizedConcat | src/fetcher.py:46-104 | Feed order is kept: normalising a concatenation concatenates the results. |
| Fetcher.NormalizedOne | src/fetcher.py:88-104 | A single entry yields its article exactly when its time is missing or at or after `now - days`. |
| Fetcher.NormalizedOneByTime | src/fetcher.py:79-90 | Stated on the entry's own fields: a usable `published_parsed`, or else `updated_parsed`, before the bound drops the entry. One at or after the bound keeps it. An entry with no usable time is kept. |
| Fetcher.NormalizedKeepsRecent | src/fetcher.py:88-104 | Every entry inside the window has its article in the output. |
| Fetcher.NormalizedFromRecent | src/fetcher.py:88-104 | Every output article comes from some entry inside the window. |
| Fetcher.NormalizedAllRecent | src/fetcher.py:46-104 | When no entry is too old, the output is exactly one article per entry, in order. |
| Fetcher.NormalizedWiderWindow | src/fetcher.py:43-44 | A longer look-back never yields fewer articles. |
| Fetcher.ResolveLink | src/fetcher.py:47-75 | The link handling of one entry computes `EntryLink`: the scan, then the loop over the redirect keys. The candidate is decoded once, as in the corrected unwrap. |
| Fetcher.NormalizeEntries | src/fetcher.py:46-104 | The entry loop with its `continue` builds exactly `Normalized(entries, now - days)`. Links are those of the corrected unwrap. |
| Fetcher.FetchDigitalSolutions | src/fetcher.py:31-46 | A transport error or a non-200 status gives `[]`. A 200 response gives the normalised entries for the window ending at `now`. Links are those of the corrected unwrap. |
| QueryString.QueryOfComposed | src/fetcher.py:65 | For a URL `base?query` whose parts hold no `?`, `#`, tab or line break, `urlsplit(..).query` is `query`. |
| QueryString.QueryOf | src/fetcher.py:65 | `urlparse(..).query`: the text after the first `?` and before the first `#`, once tabs and line breaks are deleted. It never holds a `#`. QueryString.QueryOfComposed reads it back for a composed URL. |
| QueryString.ParseQsl | src/fetcher.py:66 | `parse_qsl`: at most one decoded pair per `&`-separated piece, in order. ParsePairOf, LeadingPair, SinglePair and SkipPiece state which pairs come out. |
| QueryString.LookupFirst | src/fetcher.py:69-70 | `qs[key][0]`: a result is the value of the first pair with that name. No result means no pair has that name. |
| QueryString.ParsePairOf | src/fetcher.py:66 | `name=value` with a non-empty value parses to the name and the value, with `+` as a space and then percent-decoded. |
| QueryString.LeadingPair | src/fetcher.py:66-70 | The first value of the leading parameter of a query is its decoded value. |
| QueryString.SinglePair | src/fetcher.py:66 | A query holding one `name=value` parameter parses to that one decoded pair. |
| QueryString.SkipPiece | src/fetcher.py:66-70 | A leading piece that yields no pair with a given name does not change what that name looks up. |
| QueryString.SplitOn | src/fetcher.py:66 | Splitting on `&` gives pieces free of `&` that join back to the input. |
| Percent.Unquote | src/fetcher.py:73 | Decoding never lengthens the text. Text without `%` is unchanged. |
| Percent.UnquoteEncode | src/fetcher.py:73 | Decoding undoes `quote(.., safe="")` on ASCII text. |
| Percent.UnquoteLiteralPrefix | src/fetcher.py:73 | Text without `%` is decoded to itself, whatever follows it. |
| App.ElapsedOf | src/app.py:17-27 | Below 60 s the label counts seconds. Below an hour it counts `s // 60` minutes. Below a day it counts `s // 3600` hours. Otherwise it counts `s // 86400` days, which equals the code's chained floor divisions. |
| App.ElapsedBounds | src/app.py:18-27 | Minutes are 1–59, hours 1–23 and days at least 1. Seconds are used exactly when `s < 60`. |
| App.HumanizeReadsBack | src/app.py:18-27 | Every label has the form `<integer><s\|m\|h\|d> ago` and reads back as the amount and unit it was made from. |
| App.HumanizeSeconds | src/app.py:18-27 | The label for elapsed seconds always ends in ` ago`. Its amount and unit are fixed exactly by App.HumanizeReadsBack and App.ParseHumanizedExact. |
| App.ParseHumanizedExact | src/app.py:19-27 | Any text that reads back as an amount and a unit is exactly `str(amount)`, then the unit letter, then ` ago`. So no spelling with a leading zero, `-0` or a `+` sign is taken for a label. |
| App.LeadingZeroNotLabel | src/app.py:19 | `007s ago` does not read back as a label, because `f"{secs}s ago"` never writes one. |
| App.HumanizeTimeSince | src/app.py:8-27 | An unparsable timestamp is returned as given. Otherwise the label reads back as the elapsed amount and unit since it. By App.ParseHumanizedExact, only the exact `f"{n}<unit> ago"` text does that. |
| App.QuotedParts | src/app.py:132-137 | One part per selected topic, in order, in double quotes exactly when the topic holds a space. |
| App.ComposeQuery | src/app.py:128-138 | The loop builds the default query when no topic is selected, and otherwise the quoted parts joined with `" OR "`. |
| App.ComposedQueryCons | src/app.py:133-138 | With further topics, the query is the first part, then `" OR "`, then the query of the rest. |
| App.PartMentionsTopic | src/app.py:134-137 | Each part contains its topic. |
| App.QueryMentionsTopic | src/app.py:128-138 | Every selected topic occurs in the composed query. |
| App.FindWholeWord | src/app.py:196 | The search finds the leftmost occurrence with a non-word character or a string end on each side. Finding none means there is no such occurrence. |
| App.MatchesTopic | src/app.py:188-196 | `_matches_topic_regex`: a match always means the key occurs in the haystack. App.MatchesTopicMeans states the if-and-only-if for phrases and for whole words. |
| App.MatchesTopicMeans | src/app.py:188-196 | The lowered topic with surrounding `"` removed is searched in the lowered `title description link`. A key with a space matches as any substring. A key without one matches only at word boundaries. Both are stated as if-and-only-if. |
| App.MatchIgnoresTopicCase | src/app.py:191 | The topic's case never changes the verdict. |
| App.MatchIgnoresArticleCase | src/app.py:189-190 | The article's case never changes the verdict. |
| App.PayNotInPayment | src/app.py:195-196 | `pay` does not match an article titled `Payment`. |
| App.PayInApplePay | src/app.py:195-196 | `pay` matches an article titled `Apple Pay launch`. |
| App.Matched | src/app.py:200 | `matched`: never more topics than were selected. MatchedConcat, MatchedSound and MatchedComplete state that it is exactly the matching selected topics, in order. |
| App.MatchedConcat | src/app.py:200 | `matched_topics` keeps the selection's order. |
| App.MatchedSound | src/app.py:200 | Every matched topic is selected and matches the article. |
| App.MatchedComplete | src/app.py:200 | Every selected topic that matches is among the matched topics. |
| App.TagInSelection | src/app.py:202-208 | The tag is a selected topic or `Other`. |
| App.TagOtherIffUnmatched | src/app.py:202-208 | When `Other` is not itself a topic, the tag is `Other` exactly when nothing matched. |
| App.TagIsFirstMatch | src/app.py:202-205 | A matching article is tagged with the first selected topic it matches, even when it matches several. |
| App.TagOf | src/app.py:202-208 | The tag of a matched-topics list is `Other` or one of the list. An empty list gives `Other`. |
| App.Tag | src/app.py:200-208 | An article's tag is a selected topic or `Other`. TagOtherIffUnmatched and TagIsFirstMatch say which. |
| App.BucketConcat | src/app.py:198-208 | Buckets keep the articles' input order. |
| App.BucketSound | src/app.py:198-208 | A bucket holds only articles whose tag is its key. |
| App.BucketStep | src/app.py:202-208 | Filing the next article appends it to the bucket of its tag and to no other. |
| App.BucketMembership | src/app.py:198-208 | An article is in a bucket exactly when that bucket's key is its tag, so it is in exactly one bucket. |
| App.BucketSizesSum | src/app.py:185-208 | Over the distinct bucket keys, the bucket sizes add up to the number of articles. |
| App.BucketMapStep | src/app.py:185-208 | The bucket dict before and after one step differ only in the tag's bucket, which gains the article. |
| App.BucketMap | src/app.py:185-208 | The bucket dict has exactly the selected topics and `Other` as keys, and no bucket outgrows the article list. BucketMembership, BucketSizesSum and BucketMapStep state its contents. |
| App.FileRecord | src/app.py:199-208 | One pass of the loop body: the record gets its matched topics and its tag in place, and the bucket of its tag gains it. Every record filed before keeps its tags. |
| App.AssignBuckets | src/app.py:185-208 | The loop leaves every article with its matched topics and its tag. It returns the dict keyed by the selected topics and `Other` whose buckets are the in-order filters by tag. |
| App.CutPoint | src/app.py:217-218 | Python's slice bound for `[:n]`, including a negative `n`. |
| App.SplitForDisplay | src/app.py:217-218 | `head + tail == bucket`. `\|head\| == min(per_topic, \|bucket\|)` for a non-negative `per_topic`. A negative `per_topic` cuts that many from the end, down to an empty head. |
| NewsCard.Sub | src/components/news_card.py:17-19 | Deleting the matches of a pattern never lengthens the text. Text without `<` is unchanged. |
| NewsCard.SubKeepsPlain | src/components/news_card.py:17-19 | Text without `<` before a match is kept as it is. |
| NewsCard.MatchAt | src/components/news_card.py:17-19 | A match of any of the three patterns at the start of the text starts with `<`, ends with `>` and is at least two characters long. OpenTagRemoved, CloseTagRemoved and AnyTagMatches state which texts match. |
| NewsCard.SubKeepsUnclosed | src/components/news_card.py:17-19 | Text without `>` holds no match and is kept. |
| NewsCard.SubDropsMatch | src/components/news_card.py:17-19 | A match is deleted and the scan resumes after it, without rescanning. |
| NewsCard.OpenTagRemoved | src/components/news_card.py:17 | `<`, whitespace, a case-insensitive `a` or `font`, any attributes free of `>`, then `>` is deleted. |
| NewsCard.CloseTagRemoved | src/components/news_card.py:18 | `</`, whitespace, a case-insensitive `a` or `font`, whitespace, then `>` is deleted. |
| NewsCard.AnyTagMatches | src/components/news_card.py:19 | The generic pattern matches at the start exactly when the text starts with `<`, one or more characters other than `>`, then `>`. |
| NewsCard.AnyTagPassClean | src/components/news_card.py:8-19 | After the generic pass no such tag is left anywhere, even where a deletion joins two pieces. |
| NewsCard.NoTagSlice | src/components/news_card.py:20 | Any piece of tag-free text is tag-free, so the final strip keeps it so. |
| NewsCard.StripKeepsNoTag | src/components/news_card.py:20 | Stripping tag-free text leaves it tag-free. |
| NewsCard.Sanitize | src/components/news_card.py:7-20 | An empty input gives `""`. The result has no leading or trailing whitespace. |
| NewsCard.SanitizeNoTag | src/components/news_card.py:8-20 | The sanitised text contains no tag. |
| NewsCard.SanitizePlain | src/components/news_card.py:15-20 | Text that holds no `<` once unescaped is only stripped. |
| NewsCard.PassOrderMatters | src/components/news_card.py:17-19 | `<<a>b>` sanitises to `""`, while the generic pass alone would leave `b>`. |
| NewsCard.SplitSourceAbsent | src/components/news_card.py:37-38 | A title without `" - "` is kept whole, with an empty source. |
| NewsCard.SplitSourceAtLast | src/components/news_card.py:38-41 | The split is at the last `" - "`, both parts are stripped, and the source part contains no `" - "`. |
| NewsCard.SplitSourceRoundTrip | src/components/news_card.py:38-41 | `title + " - " + source` splits back into the stripped title and source, when the source neither contains `" - "` nor starts with `"- "`. |
| NewsCard.SplitSourceClean | src/components/news_card.py:38-41 | Splitting keeps a clean title clean: no tag, no surrounding whitespace. |
| NewsCard.SplitSource | src/components/news_card.py:37-41 | `rsplit(" - ", 1)` with both parts stripped. It has no contract of its own. SplitSourceAbsent, SplitSourceAtLast, SplitSourceRoundTrip and SplitSourceClean state what it yields. |
| NewsCard.SourceName | src/components/news_card.py:43-48 | A source found in the title is kept. Otherwise the link's netloc with every `www.` removed is used, and a netloc that raises gives `""`. |
| NewsCard.SourceDropsWww | src/components/news_card.py:43-46 | A host `www.<host>` is shown as `<host>`. |
| NewsCard.SourceDropsInnerWww | src/components/news_card.py:43-46 | A `www.` inside the host is removed too. Text before it that has no `w` is kept. |
| NewsCard.CardOf | src/components/news_card.py:28-51 | A missing link shows as `#`. Published and tag default to `""`. The description is the sanitised description. The title is the title part of `SplitSource` on the sanitised title (`No title` when missing). The source is `SourceName` of the source part: the title's source, else the host from the link. |
| NewsCard.CardTextClean | src/components/news_card.py:33-41 | The card's title and description contain no tag. The title has no surrounding whitespace. |
| NewsCard.CardDescriptionDefault | src/components/news_card.py:30-34 | A missing description shows as `""`. |
| NewsCard.CardTitleDefault | src/components/news_card.py:28-48 | A missing title shows as `No title`, and the source then comes from the link. |
| Text.Strip | src/components/news_card.py:20 | `str.strip()` removes exactly the leading and trailing whitespace. What is left neither starts nor ends with whitespace. |
| Text.StripChar | src/app.py:191 | `strip('"')` removes exactly the leading and trailing quotes. |
| Text.FindLast | src/components/news_card.py:39 | `rfind` gives an occurrence with none after it, or none at all. |
| Text.Contains | src/app.py:193-194 | `sub in s` holds exactly when `sub` occurs at some index. |
| Text.RemoveAllLeading | src/components/news_card.py:46 | `replace(pat, "")` drops an occurrence at the front. |
| Text.RemoveAllKeepsPrefix | src/components/news_card.py:46 | `replace(pat, "")` keeps text that lacks the pattern's first character, so no occurrence starts in it. |
| Text.RemoveAll | src/components/news_card.py:46 | `replace(pat, "")` never lengthens the text, and text without the pattern is unchanged. RemoveAllLeading and RemoveAllKeepsPrefix state what is removed. |
| Text.JoinContainsParts | src/app.py:138 | A joined string contains each of its parts. |
| Text.IntToStringRoundTrip | src/app.py:19-27 | The decimal text of an integer parses back to it. |
| Text.ParseIntExact | src/app.py:19-27 | The only text that reads back as an integer is that integer's `str`. |

## Left out

- HTTP and feed parsing (`requests.get`, `feedparser.parse`) are not modelled. The model takes their outcome, a transport error or a status with the entries' parsed fields.
- `urlparse` raising `ValueError` on a malformed IPv6 host (src/fetcher.py:62-75) is left out. That `except` branch would keep the link unchanged.
- Percent.Unquote maps an escape `%HH` to the character with code `HH`. That is exact for ASCII. For bytes 0x80 and above, Python decodes runs of escapes as UTF-8, which is not modelled.
- Case folding and `\b` cover ASCII only. `lower()` and word characters for non-ASCII letters are not modelled.
- Clock and time conversion are left out:
  - `datetime.now`, `fromisoformat`, `time.mktime` and `fromtimestamp` are replaced by integer seconds.
  - `mktime` reads the parsed struct as local time (src/fetcher.py:82). The naive `datetime.now()` at src/app.py:39 is then treated as UTC (src/app.py:11-12). Neither time-zone quirk is modelled.
- App.HumanizeTimeSince takes whole elapsed seconds. The truncation of a fractional `total_seconds()` toward zero is not modelled.
- The `fetch_images` parameter of `fetch_digital_solutions` is left out. It is unused by the code.
- The `@st.cache_data` wrapper, its TTL and the refresh button (src/app.py:30-39, 173-178) are left out. They are framework behaviour.
- The Streamlit page is left out: CSS, sidebar widgets, headers, the section rendering loop and the card HTML template (src/app.py:42-178, 210-238; src/components/news_card.py:53-70).
- The help text at src/app.py:103 promises that a multi-topic article appears under every matching section. The code files it under its first match only. The model follows the code (App.TagIsFirstMatch).
- The default query at src/app.py:129 is the same literal as src/fetcher.py:12, so both use Fetcher.DefaultQuery.
- The `matched_topics` and `tag` keys are absent from an article dict until the bucketing loop adds them. `ArticleRecord` starts them as `[]` and `""`.
- A card input key that is present with the value `None` is not modelled. Fetched articles always carry strings, and a missing key is `None` in `CardInput`.
- Fetcher.SearchUrlReadsBack covers only given queries without `&`, `#`, `%`, `+` and control characters; the default query meets this. The code does no other encoding, so such characters change what the URL's `q` parameter reads back as.
- Fetcher.SearchUrlLocale covers only queries without `&`, `#` and control characters. A query holding `&hl=..` would override the region's language, and `#` cuts the locale off the query.
- Fetcher.SearchUrl: its own contract states only the shape of the URL. The values read back from it are stated by Fetcher.SearchUrlReadsBack and Fetcher.SearchUrlLocale.
- Fetcher.ResolveLink decodes the redirect candidate once, as the corrected unwrap does. The code at src/fetcher.py:73 decodes it a second time (see Findings), so links whose target holds a `%` escape differ from the code's. Fetcher.AsWrittenAgreesWithoutPercent states that the two agree otherwise.
- Fetcher.EntryLink uses the corrected unwrap, Fetcher.UnwrapRedirect, not Fetcher.UnwrapAsWritten.
- Fetcher.ToArticle takes its link from Fetcher.EntryLink, so it stores the corrected link, where src/fetcher.py:97 stores the twice-decoded `final_link`.
- Fetcher.NormalizeEntries and Fetcher.Normalized build links with Fetcher.EntryLink, so they carry the corrected links.
- Fetcher.FetchDigitalSolutions returns the articles of Fetcher.NormalizeEntries, so it carries the corrected links too.
- `src/debug_fetcher.py` is a print-only driver and is not part of this model.

## Findings

| source | as written | input that shows it | evidently intended | confidence | as-written member | corrected member |
|---|---|---|---|---|---|---|
| src/fetcher.py:66-73 | `parse_qs` already percent-decodes the values, and the candidate is then passed through `unquote` a second time | a redirect whose target is `a%25`, quoted in the `url` parameter as `a%2525`: the first decoding gives `a%25`, the second gives `a%` | the target URL exactly as the redirector quoted it, decoded once | not executed | Fetcher.UnwrapAsWrittenDecodesTwice | Fetcher.UnwrapRoundTrip |
