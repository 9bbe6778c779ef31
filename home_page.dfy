/** The feed page's data logic (src/app/page.tsx): what `fetchNews` leaves
    in the page's state once a fetch settles, and the topic filter over the
    displayed articles. Rendering, navigation and the loading flag are not
    modelled; the clock is a parameter in milliseconds. */
module HomePage {
  import opened Types
  import opened Strings
  import NewsRoute

  /** The filter ids the page offers (page.tsx:12-21). */
  const FilterIds: seq<string> :=
    ["all", "india-china", "india-usa", "global-conflicts", "economic", "security", "diplomatic", "latest"]

  const HourMillis: int := 60 * 60 * 1000

  /** `${title} ${description} ${content}`, each part lower-cased: the
      three fields in order, one character apart, and nothing else. */
  function SearchText(a: NewsArticle): (t: string)
    ensures |t| == |a.title| + |a.description| + |a.content| + 2
    ensures OccursAt(t, Lower(a.title), 0)
    ensures OccursAt(t, Lower(a.description), |a.title| + 1)
    ensures OccursAt(t, Lower(a.content), |a.title| + |a.description| + 2)
    ensures t[|a.title|] == ' ' && t[|a.title| + |a.description| + 1] == ' '
  {
    var title, description, content := Lower(a.title), Lower(a.description), Lower(a.content);
    var t := title + " " + description + " " + content;
    assert t[..|title|] == title;
    assert t[|title| + 1..|title| + 1 + |description|] == description;
    assert t[|title| + |description| + 2..] == content;
    t
  }

  /** The words each topic filter looks for; `all`, `latest` and any id the
      page does not know look for none. */
  function FilterKeywords(filter: string): (kws: seq<string>)
    ensures kws != [] <==> filter in FilterIds && filter != "all" && filter != "latest"
  {
    if filter == "india-china" then ["china", "chinese"]
    else if filter == "india-usa" then ["usa", "america", "united states"]
    else if filter == "global-conflicts" then ["conflict", "war", "tension", "crisis"]
    else if filter == "economic" then ["economic", "trade", "economy", "financial"]
    else if filter == "security" then ["security", "defense", "military", "strategic"]
    else if filter == "diplomatic" then ["diplomatic", "foreign", "relations", "partnership"]
    else []
  }

  /** `text.includes(k1) || text.includes(k2) || ...` */
  predicate ContainsAny(text: string, keywords: seq<string>) {
    exists k :: 0 <= k < |keywords| && Contains(text, keywords[k])
  }

  /** The callback of `articles.filter` for `activeFilter`: a topic filter
      keeps an article whose search text holds one of its words; `latest`
      compares the age in hours with 24, which as exact arithmetic is an age
      of at most 24 hours of milliseconds; the rest keep everything. */
  predicate Keeps(filter: string, a: NewsArticle, now: int)
    ensures filter == "all" || filter !in FilterIds ==> Keeps(filter, a, now)
  {
    if filter == "latest" then now - a.publishedAt <= 24 * HourMillis
    else if FilterKeywords(filter) == [] then true
    else ContainsAny(SearchText(a), FilterKeywords(filter))
  }

  /** Only `latest` looks at the clock. */
  lemma KeepsIgnoresClock(filter: string, a: NewsArticle, now: int, later: int)
    requires filter != "latest"
    ensures Keeps(filter, a, now) == Keeps(filter, a, later)
  {
  }

  /** `latest` keeps what was published at most a day (86,400,000 ms) before
      `now`, and anything dated after it. */
  lemma LatestKeepsLastDay(a: NewsArticle, now: int)
    ensures Keeps("latest", a, now) <==> a.publishedAt >= now - 86_400_000
  {
  }

  /** `filteredArticles` */
  function FilterArticles(articles: seq<NewsArticle>, filter: string, now: int): (r: seq<NewsArticle>)
    ensures |r| <= |articles|
    ensures forall a :: a in r <==> a in articles && Keeps(filter, a, now)
  {
    if |articles| == 0 then []
    else
      (if Keeps(filter, articles[0], now) then [articles[0]] else [])
      + FilterArticles(articles[1..], filter, now)
  }

  /** The filter works article by article, so every occurrence of a kept
      article stays, in its place. */
  lemma {:induction false} FilterArticlesAppend(a: seq<NewsArticle>, b: seq<NewsArticle>, filter: string, now: int)
    ensures FilterArticles(a + b, filter, now) == FilterArticles(a, filter, now) + FilterArticles(b, filter, now)
    decreases |a|
  {
    if |a| == 0 {
      assert a + b == b;
    } else {
      assert (a + b)[0] == a[0] && (a + b)[1..] == a[1..] + b;
      FilterArticlesAppend(a[1..], b, filter, now);
    }
  }

  /** `r` is `s` with some elements left out, the rest in their order. */
  predicate IsSubsequence(r: seq<NewsArticle>, s: seq<NewsArticle>)
    decreases |s|
  {
    |r| == 0
    || (|s| > 0 && ((r[0] == s[0] && IsSubsequence(r[1..], s[1..])) || IsSubsequence(r, s[1..])))
  }

  /** Filtering only leaves articles out; it never reorders them. */
  lemma {:induction false} FilterIsSubsequence(articles: seq<NewsArticle>, filter: string, now: int)
    ensures IsSubsequence(FilterArticles(articles, filter, now), articles)
  {
    if |articles| > 0 {
      FilterIsSubsequence(articles[1..], filter, now);
      var rest := FilterArticles(articles[1..], filter, now);
      if Keeps(filter, articles[0], now) {
        assert FilterArticles(articles, filter, now) == [articles[0]] + rest;
        assert ([articles[0]] + rest)[1..] == rest;
      } else {
        assert FilterArticles(articles, filter, now) == rest;
      }
    }
  }

  /** Filtering a filtered list changes nothing. */
  lemma {:induction false} FilterIdempotent(articles: seq<NewsArticle>, filter: string, now: int)
    ensures FilterArticles(FilterArticles(articles, filter, now), filter, now)
         == FilterArticles(articles, filter, now)
  {
    if |articles| > 0 {
      var rest := FilterArticles(articles[1..], filter, now);
      FilterIdempotent(articles[1..], filter, now);
      if Keeps(filter, articles[0], now) {
        var r := [articles[0]] + rest;
        assert FilterArticles(articles, filter, now) == r;
        assert r[1..] == rest;
        assert FilterArticles(r, filter, now) == [articles[0]] + FilterArticles(rest, filter, now);
      } else {
        assert FilterArticles(articles, filter, now) == rest;
      }
    }
  }

  /** `all`, and any id the page does not know, keep the whole list. */
  lemma {:induction false} FilterAllKeepsEverything(articles: seq<NewsArticle>, filter: string, now: int)
    requires filter == "all" || filter !in FilterIds
    ensures FilterArticles(articles, filter, now) == articles
  {
    if |articles| > 0 {
      FilterAllKeepsEverything(articles[1..], filter, now);
      assert articles == [articles[0]] + articles[1..];
    }
  }

  /** The filter id matching each category of the news route's title
      classifier. */
  function TopicFilter(t: NewsRoute.Topic): string {
    match t
    case China => "india-china"
    case UnitedStates => "india-usa"
    case Economy => "economic"
    case Security => "security"
    case Diplomacy => "diplomatic"
    case General => "all"
  }

  /** A keyword of the lower-cased title is a keyword of the search text. */
  lemma TitleMatchInSearchText(a: NewsArticle, kw: string)
    requires Contains(Lower(a.title), kw)
    ensures Contains(SearchText(a), kw)
  {
    var tail := " " + Lower(a.description) + " " + Lower(a.content);
    assert SearchText(a) == Lower(a.title) + tail;
    ContainsInLeft(Lower(a.title), tail, kw);
  }

  /** Each filter looks for the classifier's keywords of its category
      first, then possibly more. */
  lemma ClassifierKeywordsLeadFilter(t: NewsRoute.Topic)
    ensures NewsRoute.TopicKeywords(t) <= FilterKeywords(TopicFilter(t))
  {
  }

  /** A category's filter keeps any article whose lower-cased title
      mentions one of the category's keywords. */
  lemma MentionInTitleKept(a: NewsArticle, now: int, t: NewsRoute.Topic)
    requires NewsRoute.Mentions(Lower(a.title), t)
    ensures Keeps(TopicFilter(t), a, now)
  {
    var kws := NewsRoute.TopicKeywords(t);
    var k :| 0 <= k < |kws| && Contains(Lower(a.title), kws[k]);
    TitleMatchInSearchText(a, kws[k]);
    ClassifierKeywordsLeadFilter(t);
    assert TopicFilter(t) != "latest";
    assert FilterKeywords(TopicFilter(t))[k] == kws[k];
  }

  /** An article whose title the news route classifies under a category is
      kept by that category's filter: each filter looks for at least the
      classifier's keywords, in a text that starts with the lower-cased
      title. */
  lemma ClassifiedTitleKeptByTopicFilter(a: NewsArticle, now: int)
    ensures Keeps(TopicFilter(NewsRoute.TitleTopic(a.title)), a, now)
  {
    var t := NewsRoute.TitleTopic(a.title);
    if t != NewsRoute.General {
      MentionInTitleKept(a, now, t);
    }
  }

  // ---------------------------------------------------------------------------
  // What a fetch leaves on the page

  /** How `fetch('/api/news?...')` and reading its body settle: the call or
      the body read threw, the status was not ok, or the body's `articles`
      (possibly missing). */
  datatype FetchOutcome = Threw | NotOk | Ok(articles: Option<seq<NewsArticle>>)

  /** The page state once `fetchNews` finishes. */
  datatype Feed = Feed(articles: seq<NewsArticle>, error: Option<string>)

  const SampleDataWarning := "Using sample data - NewsAPI may be temporarily unavailable"

  const FallbackId1 := "fallback-1"
  const FallbackId2 := "fallback-2"
  const FallbackId3 := "fallback-3"

  const BorderTalksTitle := "India-China Border Tensions Continue Amid Diplomatic Talks"
  const BorderTalksDescription :=
      "Recent developments in the India-China border region " +
      "highlight ongoing diplomatic efforts to maintain peace and " +
      "stability."
  const BorderTalksContent :=
      "Diplomatic channels remain open between India and China as " +
      "both nations work towards resolving border disputes " +
      "through peaceful dialogue."
  const PartnershipTitle := "India-US Strategic Partnership Strengthens in Indo-Pacific"
  const PartnershipDescription :=
      "The United States and India continue to deepen their " +
      "strategic partnership in the Indo-Pacific region."
  const PartnershipContent :=
      "Both nations are working together to ensure regional " +
      "stability and counter emerging security challenges."
  const TradeShiftTitle := "Global Economic Shifts Impact India's Trade Relations"
  const TradeShiftDescription :=
      "Changing global economic dynamics are reshaping India's " +
      "international trade partnerships."
  const TradeShiftContent :=
      "India is adapting to new economic realities while " +
      "maintaining its position as a key global player."

  /** The three sample articles, stamped with the current time. */
  function FallbackArticles(now: int): (r: seq<NewsArticle>)
    ensures |r| == 3
    ensures r[0].id == FallbackId1 && r[1].id == FallbackId2 && r[2].id == FallbackId3
    ensures NewsRoute.DistinctIds(r)
    ensures forall i :: 0 <= i < |r| ==> r[i].publishedAt == now && r[i].urlToImage.None?
  {
    assert FallbackId1[9] != FallbackId2[9] && FallbackId1[9] != FallbackId3[9] && FallbackId2[9] != FallbackId3[9];
    [ NewsArticle(FallbackId1, BorderTalksTitle, BorderTalksDescription, BorderTalksContent,
        "https://example.com/news1", Source("Geopolitical News"), now, None),
      NewsArticle(FallbackId2, PartnershipTitle, PartnershipDescription, PartnershipContent,
        "https://example.com/news2", Source("Strategic Affairs"), now, None),
      NewsArticle(FallbackId3, TradeShiftTitle, TradeShiftDescription, TradeShiftContent,
        "https://example.com/news3", Source("Economic Times"), now, None) ]
  }

  /** `fetchNews`: the returned list when it has articles; otherwise the
      samples, and when the fetch failed, also the warning. */
  function FeedAfterFetch(outcome: FetchOutcome, now: int): (f: Feed)
    ensures |f.articles| > 0
    ensures f.error.Some? <==> !outcome.Ok?
    ensures f.error.Some? ==> f.error.value == SampleDataWarning
    ensures outcome.Ok? && outcome.articles.Some? && |outcome.articles.value| > 0 ==>
      f.articles == outcome.articles.value
    ensures !(outcome.Ok? && outcome.articles.Some? && |outcome.articles.value| > 0) ==>
      f.articles == FallbackArticles(now)
  {
    match outcome
    case Threw => Feed(FallbackArticles(now), Some(SampleDataWarning))
    case NotOk => Feed(FallbackArticles(now), Some(SampleDataWarning))
    case Ok(articles) =>
      if articles.None? || |articles.value| == 0 then Feed(FallbackArticles(now), None)
      else Feed(articles.value, None)
  }
}
