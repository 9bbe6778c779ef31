# GeoImpact core in Dafny

GeoImpact collects geopolitical headlines, shows them in a feed with topic
filters, and turns one article into an India-focused impact report through a
language model. This project models three parts of that system:

- **The news route** (`GET /api/news`). It takes the articles merged from the
  upstream endpoints and applies the title/URL quality filter and the
  de-duplication by first title. It backfills each description, using a
  title classifier that falls back to canned sentences. It assigns
  `article-<index>` ids and defaults, sorts newest first, and keeps twenty.
  It also covers the answer the handler builds, including the 500 when the
  credential is missing.
- **The analysis route** (`POST /api/analyze`). It refuses a missing title or
  content with a 400. The model's reply is read in two stages:
  - the strict stage trims the reply, strips a code fence, cuts the greedy
    brace span, parses it, and overlays defaults on the parsed object;
  - the fallback stage scans the reply's non-blank lines.

  A failed model call answers 500.
- **The feed page**. It covers the state `fetchNews` leaves: the returned
  list, or the three sample articles, plus the warning when the fetch
  failed. It also covers the keyword and recency filter over the displayed
  articles.

Modules:
- `Strings` models the JavaScript string operations the code relies on:
  - `trim` and the `\s` class;
  - `toLowerCase` and `includes`;
  - `split` and `join`;
  - `length` in UTF-16 code units;
  - the rendering of an integer in a template string.

  The code calls neither `indexOf` nor `lastIndexOf`. `Strings.IndexOf` and
  `Strings.LastIndexOf` are there to express the greedy match of
  `/\{[\s\S]*\}/` (src/app/api/analyze/route.ts:70): it runs from the
  first "{" to the last "}".
- `Types` holds the shared records.
- `NewsRoute`, `AnalyzeRoute` and `HomePage` model the three source files.

The route handlers are pure data shaping, so they are modelled as functions.
The source sorts the enhanced list in place, so that step is an array method,
`NewsRoute.SortNewestFirst`, proved against the functional order
`NewestFirst`. `NewsRoute.GetNews` runs the handler with that method.

The model represents some JavaScript values differently:
- A missing, `null` or empty string field is `""`, since all three are falsy
  to the `||` and `!` tests the code applies.
- Dates are integer millisecond timestamps.
- The current time is a parameter.
- The three upstream fetches are not run. The news route is given their
  concatenated results.
- The language model's reply is a parameter (`None` when generation fails).
- `JSON.parse` is a parameter of type `JsonParser`.

Behaviour of the code that the model keeps and the lemmas pin down:

- The quality filter's `findIndex` (src/app/api/news/route.ts:56) searches
  the whole merged list, not only the articles with a title and a URL. A
  title therefore reaches the feed only when its *first* copy has a URL. A
  URL-less first copy hides every later complete copy
  (`NewsRoute.TitleSurvivesIffFirstCopyHasUrl`).
- The fallback scan (src/app/api/analyze/route.ts:95-97) tests exactly two
  spellings of each keyword, for example `summary` and `Summary`. A line
  holding only `SUMMARY` is not found (`AnalyzeRoute.FindLine`).
- The fallback impact (src/app/api/analyze/route.ts:97) joins the lines from
  the third one on. It does so whatever lines the summary and context scans
  picked (`AnalyzeRoute.RecoverImpactRule`).
- The overlay (src/app/api/analyze/route.ts:84) passes any non-empty parsed
  sentiment through. A value other than `positive`, `negative` or `neutral`
  reaches the report (`AnalyzeRoute.OverlaySentimentUnchecked`).

## Model

| member | source | states |
|---|---|---|
| Strings.SpacesEnd | src/app/api/analyze/route.ts:64 | `\s*` from a position: the run it covers is white space, and it stops at the end or at a non-space |
| Strings.SpaceRunUnique | src/app/api/analyze/route.ts:64 | the `\s*` run from a position is unique, so the match `\s*` makes is determined |
| Strings.DropLeadingSpaces | src/app/api/analyze/route.ts:60 | the result is a suffix of the text, what it drops is blank, and it does not start with white space |
| Strings.DropTrailingSpaces | src/app/api/analyze/route.ts:60 | the result is a prefix of the text, what it drops is blank, and it does not end with white space |
| Strings.BetweenBlanks | src/app/api/analyze/route.ts:60 | removing blank text at both ends leaves a window of the text with only blank text around it |
| Strings.NothingBetweenBlanks | src/app/api/analyze/route.ts:60 | after removing both blank ends, the window has white space at neither end, and it is empty exactly when the text is blank |
| Strings.Trim | src/app/api/analyze/route.ts:60 | `trim`: the result is a window of the text with only white space around it, has white space at neither end, and is empty exactly when the text is all white space |
| Strings.Lower | src/app/api/news/route.ts:78 | same length, each character lower-cased |
| Strings.Contains | src/app/page.tsx:146 | `includes` holds only for a needle no longer than the text |
| Strings.OccursInTail | src/app/page.tsx:146 | a window of the text after its first character is the window one position later in the text |
| Strings.ContainsIffOccurs | src/app/page.tsx:145-162 | `includes` holds exactly when some window of the text equals the needle |
| Strings.OccursAtWithin | src/app/api/analyze/route.ts:60-73 | a window of a window is a window of the whole text |
| Strings.OccursAtChain | src/app/api/analyze/route.ts:60-73 | three nested windows make a window of the whole text |
| Strings.ContainsInLeft | src/app/page.tsx:142 | a needle found in the title part is found in the whole search text |
| Strings.ContainsInRight | src/app/page.tsx:142 | a needle found in a later part is found in the whole search text |
| Strings.IndexOf | src/app/api/analyze/route.ts:70 | -1 exactly when the character is absent, else the first position holding it |
| Strings.LastIndexOf | src/app/api/analyze/route.ts:70 | -1 exactly when the character is absent, else a position holding it with none after it |
| Strings.Split | src/app/api/analyze/route.ts:92 | `split('\n')` gives at least one piece, and no piece contains the separator |
| Strings.Join | src/app/api/analyze/route.ts:97 | `join`: the first piece starts the result, followed by the glue when there is a second piece; `SplitJoinRoundTrip` and `JoinSplitRoundTrip` tie it to `split` |
| Strings.JoinCons | src/app/api/analyze/route.ts:97 | joining a piece in front of a non-empty list is that piece, the glue, then the join of the list |
| Strings.SplitAtFirst | src/app/api/analyze/route.ts:92 | with a separator present, the first piece ends at the first separator and the rest is split alone |
| Strings.SplitJoinRoundTrip | src/app/api/analyze/route.ts:92 | joining the pieces of a split with the separator gives back the text |
| Strings.SplitFirstPiece | src/app/api/analyze/route.ts:92 | a split cuts at the first separator: a separator-free head is the first piece and the rest is split alone |
| Strings.JoinSplitRoundTrip | src/app/api/analyze/route.ts:92 | splitting the join of separator-free pieces gives back the pieces |
| Strings.Utf16Length | src/app/api/news/route.ts:74 | `length` counts UTF-16 code units: between one and two per character, and one per character exactly when none is outside the Basic Multilingual Plane |
| Strings.Utf16LengthConcat | src/app/api/news/route.ts:74 | the code-unit length of a concatenation is the sum of the lengths |
| Strings.NatToDecimal | src/app/api/news/route.ts:95 | decimal digits only, at least one, no leading zero |
| Strings.DecimalRoundTrip | src/app/api/news/route.ts:95 | reading the rendered digits back gives the number |
| Strings.NatToDecimalInjective | src/app/api/news/route.ts:95 | distinct numbers render as distinct strings |
| NewsRoute.KeepsAt | src/app/api/news/route.ts:54-57 | the `filter` callback keeps a position exactly when its article has a title and a URL and no earlier article in the whole merged list has that title |
| NewsRoute.FindTitle | src/app/api/news/route.ts:56 | `findIndex`: -1 exactly when no article has the title, else the first position with it |
| NewsRoute.KeptFrom | src/app/api/news/route.ts:53-57 | the positions whose filter test passes, in increasing order, and all of them |
| NewsRoute.KeptArticles | src/app/api/news/route.ts:53-57 | the articles at the passing positions have a title and a URL, are the first copies of their titles in merge order, repeat no title, and include every passing position |
| NewsRoute.KeptAreFirstCopies | src/app/api/news/route.ts:53-57 | an article at a passing position has a title and a URL, and `findIndex` of its title is that position |
| NewsRoute.KeptCoverPassing | src/app/api/news/route.ts:53-57 | every article at a passing position is in the output |
| NewsRoute.UniqueArticles | src/app/api/news/route.ts:53-57 | every kept article has a title and a URL, is the first copy of its title, keeps merge order, and no title repeats; every position passing the test is kept |
| NewsRoute.TitleSurvivesIffFirstCopyHasUrl | src/app/api/news/route.ts:53-57 | a title is in the output exactly when its first copy in the merged list has a URL |
| NewsRoute.TitleTopic | src/app/api/news/route.ts:78-90 | the chosen category has one of its keywords in the lower-cased title, and no category earlier in the if/else-if chain has one; the catch-all only when none matches |
| NewsRoute.MentionsPair | src/app/api/news/route.ts:78-87 | `includes(k1) \|\| includes(k2)` is a mention of a two-keyword category |
| NewsRoute.MentionsTriple | src/app/api/news/route.ts:80 | `includes('usa') \|\| includes('america') \|\| includes('united states')` is a mention of the three-keyword category |
| NewsRoute.CannedDescription | src/app/api/news/route.ts:79-89 | every canned sentence has at least 50 characters |
| NewsRoute.CandidateDescription | src/app/api/news/route.ts:71 | the description when present, else the content; empty only when both are missing |
| NewsRoute.EnhancedDescription | src/app/api/news/route.ts:71-91 | at least 50 UTF-16 code units; a candidate of 50 or more code units is kept, a shorter one is replaced by the sentence of the title's category |
| NewsRoute.ArticleId | src/app/api/news/route.ts:95 | `article-${index}`: the prefix, then only digits with no leading zero, which read back as the index |
| NewsRoute.ArticleIdInjective | src/app/api/news/route.ts:95 | distinct positions give distinct `article-<index>` ids |
| NewsRoute.Enhance | src/app/api/news/route.ts:93-105 | the id comes from the position; the description is the enhanced one, of at least 50 code units; title, URL, content and source name are always present, each the upstream value when given and its default otherwise; the date defaults to now; an image exactly when given |
| NewsRoute.EnhanceAll | src/app/api/news/route.ts:70 | one enhanced article per unique article, at the same position |
| NewsRoute.EnhanceAllDescriptions | src/app/api/news/route.ts:70-91 | every enhanced article has a description of at least 50 code units |
| NewsRoute.EnhanceAllDistinctIds | src/app/api/news/route.ts:95 | the enhanced list never repeats an id |
| NewsRoute.InsertByRecency | src/app/api/news/route.ts:109-111 | inserting adds exactly one element |
| NewsRoute.InsertByRecencyPermutes | src/app/api/news/route.ts:109-111 | inserting adds exactly the new article to the multiset |
| NewsRoute.InsertByRecencyKeepsOrder | src/app/api/news/route.ts:109-111 | inserting into a newest-first list keeps it newest first |
| NewsRoute.NewestFirst | src/app/api/news/route.ts:109-111 | the sort's result is newest first and a permutation of its input |
| NewsRoute.NewestFirstKeepsOrderedInput | src/app/api/news/route.ts:109-111 | an already newest-first list, ties included, is left as it is |
| NewsRoute.InsertOlderAppends | src/app/api/news/route.ts:109-111 | an article no more recent than the last of a sorted list is placed at its end: a tie compares as zero and is not moved |
| NewsRoute.InsertByRecencyStampedAt | src/app/api/news/route.ts:109-111 | an inserted article comes after every article with its own timestamp |
| NewsRoute.NewestFirstIsStable | src/app/api/news/route.ts:109-111 | the sort is stable: for every timestamp, the articles carrying it keep their input order |
| NewsRoute.InsertPlacement | src/app/api/news/route.ts:109-111 | an article is inserted right after the last article at least as recent as it |
| NewsRoute.SplicedAt | src/app/api/news/route.ts:109-111 | a list that agrees with the sorted prefix before a position, holds the new article there and the shifted rest after it is the splice |
| NewsRoute.InsertAt | src/app/api/news/route.ts:109-111 | one in-place insertion step leaves the prefix as the functional insertion and the rest untouched |
| NewsRoute.SortNewestFirst | src/app/api/news/route.ts:109-111 | the array ends up as the stable newest-first order of what it held |
| NewsRoute.DistinctIdsOccurOnce | src/app/api/news/route.ts:95 | a list with distinct ids holds each article at most once |
| NewsRoute.DistinctIdsPermutation | src/app/api/news/route.ts:109-111 | reordering keeps ids distinct |
| NewsRoute.NewestCut | src/app/api/news/route.ts:109-114 | `slice(0, 20)` of the sorted list has twenty articles, or all of them when there are fewer |
| NewsRoute.NewestCutKeepsNewest | src/app/api/news/route.ts:109-114 | the cut is newest first, holds only articles of the list, and every article left out is no more recent than any article kept |
| NewsRoute.OrderedPrefixKeepsNewest | src/app/api/news/route.ts:114 | a prefix of a newest-first list is newest first, and nothing after it is more recent than anything in it |
| NewsRoute.NewestCutDistinctIds | src/app/api/news/route.ts:109-114 | sorting and cutting a list with distinct ids keeps them distinct |
| NewsRoute.Aggregate | src/app/api/news/route.ts:114 | never more than 20 articles |
| NewsRoute.AggregateIsNewestPrefix | src/app/api/news/route.ts:52-114 | as many articles as unique titles, up to 20, newest first, each one of the enhanced articles |
| NewsRoute.AggregateKeepsNewest | src/app/api/news/route.ts:108-114 | an enhanced article left out of the list is no more recent than any article listed |
| NewsRoute.AggregateIdsAndDescriptions | src/app/api/news/route.ts:69-114 | the listed ids are distinct and every description has at least 50 code units |
| NewsRoute.NewsResponseFor | src/app/api/news/route.ts:13-18 | no credential gives the 500 configuration error; otherwise a list whose count is its length, at most 20, holding the aggregated articles |
| NewsRoute.NewestArticles | src/app/api/news/route.ts:108-114 | sorting a copy in an array and taking its first twenty gives the functional cut |
| NewsRoute.GetNews | src/app/api/news/route.ts:108-120 | the handler that sorts in place answers exactly as the functional model does |
| AnalyzeRoute.CutFenceTailFrom | src/app/api/analyze/route.ts:64 | the search from a position cuts at the leftmost "```" followed only by white space, or leaves the text when there is none |
| AnalyzeRoute.StripTrailingFence | src/app/api/analyze/route.ts:64 | `replace(/```\s*$/, '')` removes the leftmost closing fence and what follows it, and leaves the text unchanged exactly when there is no such fence |
| AnalyzeRoute.StripFence | src/app/api/analyze/route.ts:63-67 | a reply starting with "```json" loses that marker and the white-space run after it, then its closing fence; one starting with a bare "```" loses those three characters and the run after it, then its closing fence; any other reply is left as it is; the result is always a window of the reply |
| AnalyzeRoute.ExtractBraces | src/app/api/analyze/route.ts:69-73 | without a "{" before a "}" the text stays; otherwise it becomes the span from the first "{" to the last "}"; either way a window of the text |
| AnalyzeRoute.ExtractBracesEnds | src/app/api/analyze/route.ts:69-73 | after the brace match the text holds a "{" before a "}" exactly when it starts with "{" and ends with "}" |
| AnalyzeRoute.CleanText | src/app/api/analyze/route.ts:60-73 | the payload handed to `JSON.parse` is a window of the raw reply |
| AnalyzeRoute.Overlay | src/app/api/analyze/route.ts:79-87 | every field of the report carries text; each is the parsed value when present and its default otherwise; takeaways are the parsed array or empty |
| AnalyzeRoute.OverlayKeepsCompleteReply | src/app/api/analyze/route.ts:79-87 | a reply that fills every field comes through unchanged |
| AnalyzeRoute.OverlayIdempotent | src/app/api/analyze/route.ts:79-87 | overlaying a report a second time changes nothing |
| AnalyzeRoute.OverlaySentimentUnchecked | src/app/api/analyze/route.ts:84 | the sentiment is one of the three declared values exactly when the reply's is, or the reply has none |
| AnalyzeRoute.KeepNonBlank | src/app/api/analyze/route.ts:92 | a line is kept exactly when it is not all white space; a single line is kept or dropped as a whole |
| AnalyzeRoute.KeepNonBlankAppend | src/app/api/analyze/route.ts:92 | filtering a concatenation is concatenating the filtered parts, so lines keep their order |
| AnalyzeRoute.NonBlankLines | src/app/api/analyze/route.ts:92 | the lines are non-blank and free of newlines, and they are exactly the non-blank pieces of `split('\n')`, in their order and with their repeats (the order-keeping filter `KeepNonBlank`) |
| AnalyzeRoute.NonBlankLinesOfJoin | src/app/api/analyze/route.ts:92 | the lines of a text made by joining newline-free lines are those lines without the blank ones, in order |
| AnalyzeRoute.FindLine | src/app/api/analyze/route.ts:95-97 | -1 exactly when no line has either spelling, else the first line that has one |
| AnalyzeRoute.RestJoined | src/app/api/analyze/route.ts:97 | `lines.slice(2).join(' ')`: empty with two lines or fewer; splitting it at spaces gives back the lines from the third on when they hold no space; over non-blank lines, empty exactly when there is no third line |
| AnalyzeRoute.Recover | src/app/api/analyze/route.ts:94-101 | the fallback report is populated, neutral, with no takeaways and a medium-term timeline |
| AnalyzeRoute.NonBlankLinesNonEmpty | src/app/api/analyze/route.ts:92 | no kept line is empty, so `\|\|` never skips one |
| AnalyzeRoute.RecoverSummaryRule | src/app/api/analyze/route.ts:95 | the summary is the first line naming it, else the first line, else the default |
| AnalyzeRoute.RecoverContextRule | src/app/api/analyze/route.ts:96 | the context is the first line naming it, else the second line, else the default |
| AnalyzeRoute.RecoverImpactRule | src/app/api/analyze/route.ts:97 | the impact is the first line naming it, else the lines from the third on joined by spaces, else the default |
| AnalyzeRoute.JoinNonEmpty | src/app/api/analyze/route.ts:97 | joining non-blank lines gives text exactly when there is a line |
| AnalyzeRoute.ParseAnalysis | src/app/api/analyze/route.ts:57-102 | the strict stage is used exactly when the cleaned payload parses, giving its overlay; otherwise the line scan; the report is populated either way |
| AnalyzeRoute.AnalyzeResponseFor | src/app/api/analyze/route.ts:9-16 | a missing title or content gives 400; a failed model call gives 500; a reply gives a populated report |
| AnalyzeRoute.TrimKeepsUnpadded | src/app/api/analyze/route.ts:60 | trimming text without outer white space changes nothing |
| AnalyzeRoute.OpeningFenceRemoved | src/app/api/analyze/route.ts:63-66 | the opening "```json" or "```" goes together with all the white space after it, and then only the closing-fence rule applies |
| AnalyzeRoute.BareFenceBeforeObject | src/app/api/analyze/route.ts:63-65 | a bare "```" followed by blank padding and an object does not start with "```json" |
| AnalyzeRoute.ClosingFenceRemoved | src/app/api/analyze/route.ts:64 | after an object, only the closing fence goes |
| AnalyzeRoute.FencesRemoved | src/app/api/analyze/route.ts:63-67 | both fences of a fenced object go, and only they |
| AnalyzeRoute.BracesOfPaddedObject | src/app/api/analyze/route.ts:70-73 | padding after an object does not survive the brace match |
| AnalyzeRoute.FencedObjectUnwrapped | src/app/api/analyze/route.ts:60-73 | a fenced reply around an object hands the parser exactly the object |
| AnalyzeRoute.FencedSummaryAndSentiment | src/app/api/analyze/route.ts:57-87 | a fenced object with only a summary and a sentiment becomes a strict-stage report with those two and defaults elsewhere |
| HomePage.SearchText | src/app/page.tsx:139-142 | the lower-cased title, description and content, in that order, separated by single spaces, and nothing else |
| HomePage.FilterKeywords | src/app/page.tsx:144-165 | a filter id has keywords exactly when it is one of the six topic filters |
| HomePage.Keeps | src/app/page.tsx:137-165 | `all` and any unknown id keep every article |
| HomePage.KeepsIgnoresClock | src/app/page.tsx:137-156 | only `latest` depends on the current time |
| HomePage.LatestKeepsLastDay | src/app/page.tsx:157-162 | `latest` keeps an article exactly when it is dated no more than 24 hours before now, or later |
| HomePage.FilterArticles | src/app/page.tsx:136-166 | an article is shown exactly when it is in the list and the active filter keeps it; never more than the list |
| HomePage.FilterIsSubsequence | src/app/page.tsx:136 | filtering only leaves articles out and keeps their order |
| HomePage.FilterArticlesAppend | src/app/page.tsx:136-166 | filtering a concatenation is concatenating the filtered parts, so every occurrence of a kept article stays, in its place |
| HomePage.FilterIdempotent | src/app/page.tsx:136-166 | filtering a filtered list changes nothing |
| HomePage.FilterAllKeepsEverything | src/app/page.tsx:137-164 | `all` and any unknown filter id show the whole list |
| HomePage.TitleMatchInSearchText | src/app/page.tsx:139-142 | a keyword in the lower-cased title is in the search text |
| HomePage.ClassifierKeywordsLeadFilter | src/app/page.tsx:145-156 | each topic filter's keyword list starts with the news route classifier's keywords for that category |
| HomePage.MentionInTitleKept | src/app/page.tsx:144-155 | a category's filter keeps an article whose title mentions one of the classifier's keywords for that category |
| HomePage.ClassifiedTitleKeptByTopicFilter | src/app/page.tsx:144-155 | an article the news route classifies under a category passes that category's feed filter |
| HomePage.FallbackArticles | src/app/page.tsx:46-74 | three sample articles, ids fallback-1 to fallback-3, distinct, stamped now, without image |
| HomePage.FeedAfterFetch | src/app/page.tsx:30-115 | the feed is never empty; it is the returned list when that has articles, else the samples; the warning is set exactly when the fetch failed |

## Left out

- The three upstream fetches (src/app/api/news/route.ts:20-50). These are
  network I/O. The route is given their concatenated results. Endpoint
  failures are simply absent from that list.
- The `q`, `country` and `category` query parameters. They only shape the
  endpoint URLs.
- The route's outer `catch` (src/app/api/news/route.ts:121-130). For
  upstream records whose fields are strings, nothing between the fetches and
  the response throws. The upstream list is untyped, though. A `null` entry
  throws at `article.title` (line 54) or inside `findIndex` (line 56). A
  truthy non-string title on an article whose description is missing or
  shorter than 50 code units throws at `toLowerCase` (line 78). In those
  cases the route answers 500 "Failed to fetch news", which is not modelled.
  Here every upstream record is a well-typed `RawArticle`.
- Date parsing and invalid dates. `publishedAt` is an integer; a missing date
  is `None` and becomes the current time. ISO strings and the `NaN` ordering
  of unparsable dates are not represented.
- Fields of an upstream article other than the eight an article has. The
  `...article` spread copies them unchanged.
- Strings.Lower: lower-cases ASCII letters only, not the full Unicode
  mapping of `toLowerCase`.
- A truthy non-string value in a parsed or upstream text field (a number, an
  object), and in `keyTakeaways`. `Array.isArray` accepts an array of any
  element type, but the model's field is a list of strings. Text fields are
  strings here.
- The platform's sort algorithm. `SortNewestFirst` is an insertion sort. It
  yields the same stable order the comparator defines.
- The language model call: the client, the prompt text and the credential.
  The reply is a parameter. The raw-response log line is also left out.
- `JSON.parse` itself. It is the `JsonParser` parameter.
- A request body that is not JSON. The route then answers 500 from its outer
  `catch`, the same as a failed model call.
- The feed page's rendering, the loading flag, the refresh button, navigation
  to the analysis page (`handleReadMore`), and `NewsCard`.
- The analysis page (src/app/analysis/[id]/page.tsx). It only displays the
  report.
- The page's error-response read (`response.json()` on a non-ok answer) and
  its `details` message. It ends in the same `catch` as a thrown fetch, which
  `FetchOutcome.NotOk` stands for.
- HomePage.Keeps: the `latest` test divides the age by 3,600,000 in floating
  point before comparing it with 24. The model compares the age in
  milliseconds with 86,400,000 exactly, so rounding at the boundary is not
  represented.
- The timestamp each fallback sample gets from `new Date()`. All three are
  stamped with the one current-time parameter.
- The per-article date default of the news route
  (src/app/api/news/route.ts:103). `new Date().toISOString()` runs once for
  each date-less article inside the `map`, so two such articles can get
  different milliseconds, and the sort at lines 109-111 then puts the later
  one first. The model gives every date-less article the same current-time
  parameter, so such articles tie and keep their input order.
