/** The news aggregation route (src/app/api/news/route.ts): from the merged
    list of raw upstream articles to the at most twenty normalised articles
    the feed receives. The three endpoint fetches are not modelled; the
    route is given their concatenated results and the current time. */
module NewsRoute {
  import opened Types
  import opened Strings

  /** One article as an upstream endpoint returns it. Every field is
      optional there; a missing string field and an empty one are both
      falsy, and both are "" here. A missing date is `None`. */
  datatype RawArticle = RawArticle(
    title: string,
    description: string,
    content: string,
    url: string,
    sourceName: string,
    publishedAt: Option<int>,
    urlToImage: string)

  const MaxArticles: nat := 20
  const MinDescriptionLength: nat := 50

  /** Status the route answers with when its credential is missing. */
  const ConfigErrorStatus: nat := 500
  const MissingKeyError := "News API key is not configured"

  // ---------------------------------------------------------------------------
  // Quality filter and de-duplication

  /** `self.findIndex(a => a.title === t)`: the first position whose title is
      `t`, or -1. */
  function FindTitle(all: seq<RawArticle>, t: string): (k: int)
    ensures -1 <= k < |all|
    ensures k == -1 <==> forall j :: 0 <= j < |all| ==> all[j].title != t
    ensures k >= 0 ==> all[k].title == t && forall j :: 0 <= j < k ==> all[j].title != t
  {
    if |all| == 0 then -1
    else if all[0].title == t then 0
    else
      var k := FindTitle(all[1..], t);
      if k == -1 then -1 else k + 1
  }

  /** The filter's test for position `i`: a title, a URL, and `i` is the
      first position in the WHOLE merged list with that title. The search
      runs over the unfiltered list, so an earlier copy without a URL still
      counts as the first one. */
  predicate KeepsAt(all: seq<RawArticle>, i: nat): (b: bool)
    requires i < |all|
    ensures b <==> all[i].title != "" && all[i].url != "" &&
                   forall j :: 0 <= j < i ==> all[j].title != all[i].title
  {
    all[i].title != "" && all[i].url != "" && i == FindTitle(all, all[i].title)
  }

  /** The positions from `i` on whose flag in `keep` is set, in increasing
      order. */
  function KeptFrom(keep: seq<bool>, i: nat): (idx: seq<nat>)
    requires i <= |keep|
    ensures forall j :: 0 <= j < |idx| ==> i <= idx[j] < |keep| && keep[idx[j]]
    ensures forall j, k :: 0 <= j < k < |idx| ==> idx[j] < idx[k]
    ensures forall p :: i <= p < |keep| && keep[p] ==> p in idx
    decreases |keep| - i
  {
    if i == |keep| then []
    else
      var rest := KeptFrom(keep, i + 1);
      if keep[i] then [i] + rest else rest
  }

  /** `allArticles.filter((article, index, self) => ...)`: the articles that
      have a title and a URL and are the first with their title, in their
      merged order. */
  function UniqueArticles(all: seq<RawArticle>): (u: seq<RawArticle>)
    ensures forall j :: 0 <= j < |u| ==> u[j].title != "" && u[j].url != ""
    ensures forall j :: 0 <= j < |u| ==>
      0 <= FindTitle(all, u[j].title) && all[FindTitle(all, u[j].title)] == u[j]
    ensures forall j, k :: 0 <= j < k < |u| ==>
      FindTitle(all, u[j].title) < FindTitle(all, u[k].title)
    ensures forall j, k :: 0 <= j < k < |u| ==> u[j].title != u[k].title
    ensures forall i :: 0 <= i < |all| && KeepsAt(all, i) ==> all[i] in u
  {
    var keep := seq(|all|, i requires 0 <= i < |all| => KeepsAt(all, i));
    var idx := KeptFrom(keep, 0);
    var u := seq(|idx|, j requires 0 <= j < |idx| => all[idx[j]]);
    KeptArticles(all, keep, idx, u);
    u
  }

  /** The articles at the kept positions, taken in increasing order, are the
      first copies of distinct titles, and every kept position is among them. */
  lemma KeptArticles(all: seq<RawArticle>, keep: seq<bool>, idx: seq<nat>, u: seq<RawArticle>)
    requires |keep| == |all| && forall i :: 0 <= i < |all| ==> keep[i] == KeepsAt(all, i)
    requires forall j :: 0 <= j < |idx| ==> idx[j] < |keep| && keep[idx[j]]
    requires forall j, k :: 0 <= j < k < |idx| ==> idx[j] < idx[k]
    requires forall p :: 0 <= p < |keep| && keep[p] ==> p in idx
    requires |u| == |idx| && forall j :: 0 <= j < |idx| ==> u[j] == all[idx[j]]
    ensures forall j :: 0 <= j < |u| ==> u[j].title != "" && u[j].url != ""
    ensures forall j :: 0 <= j < |u| ==>
      0 <= FindTitle(all, u[j].title) && all[FindTitle(all, u[j].title)] == u[j]
    ensures forall j, k :: 0 <= j < k < |u| ==>
      FindTitle(all, u[j].title) < FindTitle(all, u[k].title)
    ensures forall j, k :: 0 <= j < k < |u| ==> u[j].title != u[k].title
    ensures forall i :: 0 <= i < |all| && KeepsAt(all, i) ==> all[i] in u
  {
    KeptAreFirstCopies(all, keep, idx, u);
    KeptCoverPassing(all, keep, idx, u);
  }

  /** Each kept article passed the test at its own position, so it has a
      title and a URL and is the first copy of its title. */
  lemma KeptAreFirstCopies(all: seq<RawArticle>, keep: seq<bool>, idx: seq<nat>, u: seq<RawArticle>)
    requires |keep| == |all| && forall i :: 0 <= i < |all| ==> keep[i] == KeepsAt(all, i)
    requires forall j :: 0 <= j < |idx| ==> idx[j] < |keep| && keep[idx[j]]
    requires |u| == |idx| && forall j :: 0 <= j < |idx| ==> u[j] == all[idx[j]]
    ensures forall j :: 0 <= j < |u| ==>
      u[j].title != "" && u[j].url != "" && FindTitle(all, u[j].title) == idx[j]
  {
    forall j | 0 <= j < |u|
      ensures u[j].title != "" && u[j].url != "" && FindTitle(all, u[j].title) == idx[j]
    {
      assert keep[idx[j]] && u[j] == all[idx[j]];
    }
  }

  /** Every position that passes the test contributes its article. */
  lemma KeptCoverPassing(all: seq<RawArticle>, keep: seq<bool>, idx: seq<nat>, u: seq<RawArticle>)
    requires |keep| == |all| && forall i :: 0 <= i < |all| ==> keep[i] == KeepsAt(all, i)
    requires forall j :: 0 <= j < |idx| ==> idx[j] < |keep|
    requires forall p :: 0 <= p < |keep| && keep[p] ==> p in idx
    requires |u| == |idx| && forall j :: 0 <= j < |idx| ==> u[j] == all[idx[j]]
    ensures forall i :: 0 <= i < |all| && KeepsAt(all, i) ==> all[i] in u
  {
    forall i | 0 <= i < |all| && KeepsAt(all, i) ensures all[i] in u {
      assert keep[i];
      var j :| 0 <= j < |idx| && idx[j] == i;
      assert u[j] == all[i];
    }
  }

  /** A title reaches the output exactly when its first copy in the merged
      list has a URL: a URL-less first copy hides every later copy. */
  lemma TitleSurvivesIffFirstCopyHasUrl(all: seq<RawArticle>, i: nat)
    requires i < |all| && all[i].title != ""
    ensures (exists j :: 0 <= j < |UniqueArticles(all)| && UniqueArticles(all)[j].title == all[i].title)
        <==> all[FindTitle(all, all[i].title)].url != ""
  {
    var u := UniqueArticles(all);
    var f := FindTitle(all, all[i].title);
    if all[f].url != "" {
      assert KeepsAt(all, f);
      var j :| 0 <= j < |u| && u[j] == all[f];
    }
    if exists j :: 0 <= j < |u| && u[j].title == all[i].title {
      var j :| 0 <= j < |u| && u[j].title == all[i].title;
      assert all[FindTitle(all, u[j].title)] == u[j];
    }
  }

  // ---------------------------------------------------------------------------
  // Description enhancement and defaults

  /** The categories of the title classifier, in priority order. */
  datatype Topic = China | UnitedStates | Economy | Security | Diplomacy | General

  /** Position of a category in the priority order. */
  function Rank(t: Topic): nat {
    match t
    case China => 0
    case UnitedStates => 1
    case Economy => 2
    case Security => 3
    case Diplomacy => 4
    case General => 5
  }

  /** The keywords each category looks for; the catch-all has none. */
  function TopicKeywords(t: Topic): seq<string> {
    match t
    case China => ["china", "chinese"]
    case UnitedStates => ["usa", "america", "united states"]
    case Economy => ["economic", "trade"]
    case Security => ["security", "defense"]
    case Diplomacy => ["diplomatic", "foreign"]
    case General => []
  }

  predicate Mentions(text: string, t: Topic) {
    exists k :: 0 <= k < |TopicKeywords(t)| && Contains(text, TopicKeywords(t)[k])
  }

  /** The if/else-if chain over `title.toLowerCase()`: the first category
      of the priority order whose keywords occur in the lower-cased title, and
      the catch-all only when none does. */
  function TitleTopic(title: string): (topic: Topic)
    ensures topic != General ==> Mentions(Lower(title), topic)
    ensures forall u :: Rank(u) < Rank(topic) ==> !Mentions(Lower(title), u)
  {
    var low := Lower(title);
    MentionsPair(low, China);
    MentionsTriple(low, UnitedStates);
    MentionsPair(low, Economy);
    MentionsPair(low, Security);
    MentionsPair(low, Diplomacy);
    var topic :=
      if Contains(low, "china") || Contains(low, "chinese") then China
      else if Contains(low, "usa") || Contains(low, "america") || Contains(low, "united states") then UnitedStates
      else if Contains(low, "economic") || Contains(low, "trade") then Economy
      else if Contains(low, "security") || Contains(low, "defense") then Security
      else if Contains(low, "diplomatic") || Contains(low, "foreign") then Diplomacy
      else General;
    assert forall u :: Rank(u) < Rank(topic) ==> !Mentions(low, u) by {
      forall u | Rank(u) < Rank(topic) ensures !Mentions(low, u) {
        if u == UnitedStates {
          MentionsTriple(low, u);
        } else if u != General {
          MentionsPair(low, u);
        }
      }
    }
    topic
  }

  /** A category with two keywords is mentioned when either occurs. */
  lemma MentionsPair(text: string, t: Topic)
    requires |TopicKeywords(t)| == 2
    ensures Mentions(text, t) <==>
      Contains(text, TopicKeywords(t)[0]) || Contains(text, TopicKeywords(t)[1])
  {
    if Contains(text, TopicKeywords(t)[1]) {
      assert 1 < |TopicKeywords(t)|;
    }
  }

  /** A category with three keywords is mentioned when any of them occurs. */
  lemma MentionsTriple(text: string, t: Topic)
    requires |TopicKeywords(t)| == 3
    ensures Mentions(text, t) <==>
      Contains(text, TopicKeywords(t)[0]) || Contains(text, TopicKeywords(t)[1])
      || Contains(text, TopicKeywords(t)[2])
  {
    if Contains(text, TopicKeywords(t)[2]) {
      assert 2 < |TopicKeywords(t)|;
    }
  }

  const ChinaDescription :=
      "Recent developments in India-China relations highlight " +
      "ongoing diplomatic efforts and strategic considerations in " +
      "the region. This development could have significant " +
      "implications for regional stability and bilateral " +
      "cooperation."
  const UnitedStatesDescription :=
      "Strategic developments in India-US partnership continue to " +
      "evolve, reflecting the deepening cooperation between the " +
      "two nations in various sectors including defense, " +
      "technology, and regional security."
  const EconomyDescription :=
      "Economic developments affecting India's international " +
      "trade relations and domestic economic policies. These " +
      "changes could impact India's position in the global " +
      "economic landscape."
  const SecurityDescription :=
      "Security-related developments that could influence India's " +
      "defense posture and regional security dynamics. These " +
      "updates are crucial for understanding India's strategic " +
      "position."
  const DiplomacyDescription :=
      "Diplomatic developments involving India's foreign policy " +
      "and international relations. These updates provide " +
      "insights into India's global engagement and strategic " +
      "partnerships."
  const GeneralDescription :=
      "Important geopolitical development that could have " +
      "significant implications for India's international " +
      "relations, economic policies, and strategic positioning in " +
      "the global arena."

  /** The canned sentence of each category. */
  function CannedDescription(t: Topic): (d: string)
    ensures |d| >= MinDescriptionLength
  {
    match t
    case China => ChinaDescription
    case UnitedStates => UnitedStatesDescription
    case Economy => EconomyDescription
    case Security => SecurityDescription
    case Diplomacy => DiplomacyDescription
    case General => GeneralDescription
  }

  /** `article.description || article.content || ''` */
  function CandidateDescription(a: RawArticle): (d: string)
    ensures d == "" <==> a.description == "" && a.content == ""
    ensures a.description != "" ==> d == a.description
    ensures a.description == "" ==> d == a.content
  {
    if a.description != "" then a.description else a.content
  }

  /** The candidate when its `length` (in UTF-16 code units) is at least 50,
      otherwise the canned sentence of the title's category. */
  function EnhancedDescription(a: RawArticle): (d: string)
    ensures Utf16Length(d) >= MinDescriptionLength
    ensures Utf16Length(CandidateDescription(a)) >= MinDescriptionLength ==> d == CandidateDescription(a)
    ensures Utf16Length(CandidateDescription(a)) < MinDescriptionLength ==>
      d == CannedDescription(TitleTopic(a.title))
  {
    var d := CandidateDescription(a);
    if d == "" || Utf16Length(d) < MinDescriptionLength then CannedDescription(TitleTopic(a.title)) else d
  }

  const ArticlePrefix := "article-"

  /** `article-${index}`: the prefix, then digits that read back as the index. */
  function ArticleId(index: nat): (id: string)
    ensures |id| > |ArticlePrefix| && id[..|ArticlePrefix|] == ArticlePrefix
    ensures forall k :: |ArticlePrefix| <= k < |id| ==> IsDigit(id[k])
    ensures DecimalValue(id[|ArticlePrefix|..]) == index
    ensures |id| == |ArticlePrefix| + 1 || id[|ArticlePrefix|] != '0'
  {
    var digits := NatToDecimal(index);
    var id := ArticlePrefix + digits;
    assert id[|ArticlePrefix|..] == digits;
    DecimalRoundTrip(index);
    id
  }

  /** Distinct positions give distinct ids. */
  lemma ArticleIdInjective(i: nat, j: nat)
    requires i != j
    ensures ArticleId(i) != ArticleId(j)
  {
    var p := |ArticlePrefix|;
    assert ArticleId(i)[p..] != ArticleId(j)[p..];
  }

  const DefaultTitle := "Breaking News"
  const DefaultUrl := "#"
  const DefaultSourceName := "International News"

  /** The object the `map` callback returns for the article at `index`: every
      field the feed reads is present, a field the upstream supplied is kept,
      and a missing one takes its default. */
  function Enhance(a: RawArticle, index: nat, now: int): (n: NewsArticle)
    ensures n.id == ArticleId(index)
    ensures n.title != "" && n.url != "" && n.source.name != "" && n.content != ""
    ensures n.description == EnhancedDescription(a)
    ensures Utf16Length(n.description) >= MinDescriptionLength
    ensures a.title != "" ==> n.title == a.title
    ensures a.title == "" ==> n.title == DefaultTitle
    ensures a.url != "" ==> n.url == a.url
    ensures a.url == "" ==> n.url == DefaultUrl
    ensures a.content != "" ==> n.content == a.content
    ensures a.content == "" ==> n.content == n.description
    ensures a.sourceName == "" ==> n.source.name == DefaultSourceName
    ensures a.sourceName != "" ==> n.source.name == a.sourceName
    ensures n.publishedAt == (if a.publishedAt.Some? then a.publishedAt.value else now)
    ensures a.urlToImage != "" ==> n.urlToImage == Some(a.urlToImage)
    ensures a.urlToImage == "" ==> n.urlToImage == None
  {
    var d := EnhancedDescription(a);
    NewsArticle(
      ArticleId(index),
      if a.title != "" then a.title else DefaultTitle,
      d,
      if a.content != "" then a.content else d,
      if a.url != "" then a.url else DefaultUrl,
      Source(if a.sourceName != "" then a.sourceName else DefaultSourceName),
      match a.publishedAt
      case Some(t) => t
      case None => now,
      if a.urlToImage != "" then Some(a.urlToImage) else None)
  }

  /** `uniqueArticles.map((article, index) => ...)` */
  function EnhanceAll(u: seq<RawArticle>, now: int): (r: seq<NewsArticle>)
    ensures |r| == |u|
    ensures forall i :: 0 <= i < |u| ==> r[i] == Enhance(u[i], i, now)
  {
    seq(|u|, i requires 0 <= i < |u| => Enhance(u[i], i, now))
  }

  /** Every enhanced article carries a description of at least 50 code
      units. */
  lemma EnhanceAllDescriptions(u: seq<RawArticle>, now: int)
    ensures forall n :: n in EnhanceAll(u, now) ==> Utf16Length(n.description) >= MinDescriptionLength
  {
    var r := EnhanceAll(u, now);
    forall n | n in r ensures Utf16Length(n.description) >= MinDescriptionLength {
      var i :| 0 <= i < |r| && r[i] == n;
      assert n == Enhance(u[i], i, now);
    }
  }

  predicate DistinctIds(s: seq<NewsArticle>) {
    forall i, j :: 0 <= i < |s| && 0 <= j < |s| && i != j ==> s[i].id != s[j].id
  }

  /** The enhanced list never repeats an id. */
  lemma EnhanceAllDistinctIds(u: seq<RawArticle>, now: int)
    ensures DistinctIds(EnhanceAll(u, now))
  {
    var r := EnhanceAll(u, now);
    forall i, j | 0 <= i < |r| && 0 <= j < |r| && i != j ensures r[i].id != r[j].id {
      ArticleIdInjective(i, j);
    }
  }

  // ---------------------------------------------------------------------------
  // Newest-first ordering

  predicate NewestFirstOrder(s: seq<NewsArticle>) {
    forall i, j :: 0 <= i < j < |s| ==> s[i].publishedAt >= s[j].publishedAt
  }

  /** Places `x` after every element of `sorted` at least as recent as it, so
      that articles with equal timestamps keep their order. */
  function InsertByRecency(sorted: seq<NewsArticle>, x: NewsArticle): (r: seq<NewsArticle>)
    ensures |r| == |sorted| + 1
    decreases |sorted|
  {
    if |sorted| == 0 then [x]
    else if sorted[|sorted| - 1].publishedAt >= x.publishedAt then sorted + [x]
    else InsertByRecency(sorted[..|sorted| - 1], x) + [sorted[|sorted| - 1]]
  }

  /** Inserting adds exactly `x`. */
  lemma {:induction false} InsertByRecencyPermutes(sorted: seq<NewsArticle>, x: NewsArticle)
    ensures multiset(InsertByRecency(sorted, x)) == multiset(sorted) + multiset{x}
    decreases |sorted|
  {
    if |sorted| > 0 {
      var init := sorted[..|sorted| - 1];
      assert sorted == init + [sorted[|sorted| - 1]];
      InsertByRecencyPermutes(init, x);
    }
  }

  /** Inserting into a newest-first list keeps it newest first. */
  lemma {:induction false} InsertByRecencyKeepsOrder(sorted: seq<NewsArticle>, x: NewsArticle)
    requires NewestFirstOrder(sorted)
    ensures NewestFirstOrder(InsertByRecency(sorted, x))
    decreases |sorted|
  {
    if |sorted| > 0 && sorted[|sorted| - 1].publishedAt < x.publishedAt {
      var last := sorted[|sorted| - 1];
      var init := sorted[..|sorted| - 1];
      var front := InsertByRecency(init, x);
      var r := front + [last];
      assert NewestFirstOrder(init);
      InsertByRecencyKeepsOrder(init, x);
      InsertByRecencyPermutes(init, x);
      forall i | 0 <= i < |front| ensures front[i].publishedAt >= last.publishedAt {
        assert front[i] in multiset(init) + multiset{x};
        if front[i] != x {
          assert front[i] in init;
        }
      }
      forall i, j | 0 <= i < j < |r| ensures r[i].publishedAt >= r[j].publishedAt {
        if j < |front| {
          assert r[i] == front[i] && r[j] == front[j];
        } else {
          assert r[i] == front[i] && r[j] == last;
        }
      }
    }
  }

  /** `enhancedArticles.sort((a, b) => b.publishedAt - a.publishedAt)`: the
      stable sort by descending timestamp, written as insertion sort. */
  function NewestFirst(s: seq<NewsArticle>): (r: seq<NewsArticle>)
    ensures NewestFirstOrder(r)
    ensures multiset(r) == multiset(s)
  {
    if |s| == 0 then []
    else
      var init := s[..|s| - 1];
      assert s == init + [s[|s| - 1]];
      InsertByRecencyPermutes(NewestFirst(init), s[|s| - 1]);
      InsertByRecencyKeepsOrder(NewestFirst(init), s[|s| - 1]);
      InsertByRecency(NewestFirst(init), s[|s| - 1])
  }

  /** A list already in newest-first order is left exactly as it is: equal
      timestamps are never reordered. */
  lemma {:induction false} NewestFirstKeepsOrderedInput(s: seq<NewsArticle>)
    requires NewestFirstOrder(s)
    ensures NewestFirst(s) == s
  {
    if |s| > 0 {
      var init, last := s[..|s| - 1], s[|s| - 1];
      NewestFirstOrderPrefix(s);
      NewestFirstKeepsOrderedInput(init);
      InsertOlderAppends(init, last);
      InitPlusLast(s);
    }
  }

  /** Dropping the last article keeps a list newest first, and that article
      is no more recent than the one before it. */
  lemma NewestFirstOrderPrefix(s: seq<NewsArticle>)
    requires NewestFirstOrder(s) && |s| > 0
    ensures NewestFirstOrder(s[..|s| - 1])
    ensures |s| == 1 || s[..|s| - 1][|s| - 2].publishedAt >= s[|s| - 1].publishedAt
  {
    var init := s[..|s| - 1];
    forall i, j | 0 <= i < j < |init| ensures init[i].publishedAt >= init[j].publishedAt {
      assert init[i] == s[i] && init[j] == s[j];
    }
  }

  /** An article no more recent than the last one of the list goes at its
      end. */
  lemma InsertOlderAppends(sorted: seq<NewsArticle>, x: NewsArticle)
    requires |sorted| == 0 || sorted[|sorted| - 1].publishedAt >= x.publishedAt
    ensures InsertByRecency(sorted, x) == sorted + [x]
  {
  }

  /** A non-empty list is its prefix followed by its last element. */
  lemma InitPlusLast(s: seq<NewsArticle>)
    requires |s| > 0
    ensures s == s[..|s| - 1] + [s[|s| - 1]]
  {
  }

  /** The articles of `s` stamped `t`, in their order in `s`. */
  function StampedAt(s: seq<NewsArticle>, t: int): seq<NewsArticle>
  {
    if |s| == 0 then []
    else StampedAt(s[..|s| - 1], t) + (if s[|s| - 1].publishedAt == t then [s[|s| - 1]] else [])
  }

  /** Inserting `x` puts it after every article with its own timestamp. */
  lemma {:induction false} InsertByRecencyStampedAt(sorted: seq<NewsArticle>, x: NewsArticle, t: int)
    ensures StampedAt(InsertByRecency(sorted, x), t)
         == StampedAt(sorted, t) + (if x.publishedAt == t then [x] else [])
    decreases |sorted|
  {
    if |sorted| == 0 {
      assert [x][..0] == [];
    } else if sorted[|sorted| - 1].publishedAt >= x.publishedAt {
      assert (sorted + [x])[..|sorted|] == sorted;
    } else {
      var init := sorted[..|sorted| - 1];
      var last := sorted[|sorted| - 1];
      var front := InsertByRecency(init, x);
      InsertByRecencyStampedAt(init, x, t);
      assert (front + [last])[..|front|] == front;
    }
  }

  /** The sort is stable: for every timestamp, the articles stamped with it
      appear in the result in the order they had in the input. With
      `NewestFirstOrder` and the multiset this pins the result down. */
  lemma {:induction false} NewestFirstIsStable(s: seq<NewsArticle>, t: int)
    ensures StampedAt(NewestFirst(s), t) == StampedAt(s, t)
  {
    if |s| > 0 {
      var init := s[..|s| - 1];
      NewestFirstIsStable(init, t);
      InsertByRecencyStampedAt(NewestFirst(init), s[|s| - 1], t);
    }
  }

  /** `InsertByRecency` puts `x` right after the last element at least as
      recent as it, ahead of the run of older elements that ends the list. */
  lemma {:induction false} InsertPlacement(sorted: seq<NewsArticle>, x: NewsArticle, j: nat)
    requires j <= |sorted|
    requires j == 0 || sorted[j - 1].publishedAt >= x.publishedAt
    requires forall k :: j <= k < |sorted| ==> sorted[k].publishedAt < x.publishedAt
    ensures InsertByRecency(sorted, x) == sorted[..j] + [x] + sorted[j..]
    decreases |sorted|
  {
    if j == |sorted| {
      assert sorted[..j] == sorted && sorted[j..] == [];
    } else {
      var init, last := sorted[..|sorted| - 1], sorted[|sorted| - 1];
      assert last.publishedAt < x.publishedAt;
      assert InsertByRecency(sorted, x) == InsertByRecency(init, x) + [last];
      InsertPlacement(init, x, j);
      assert init[..j] == sorted[..j];
      assert sorted[j..] == init[j..] + [last];
      assert init[..j] + [x] + init[j..] + [last] == sorted[..j] + [x] + (init[j..] + [last]);
    }
  }

  /** A list that agrees with `sorted` before `j`, holds `x` at `j` and
      agrees with `sorted` shifted by one after it is the splice. */
  lemma SplicedAt(r: seq<NewsArticle>, sorted: seq<NewsArticle>, x: NewsArticle, j: nat)
    requires j <= |sorted| && |r| == |sorted| + 1
    requires forall k :: 0 <= k < j ==> r[k] == sorted[k]
    requires r[j] == x
    requires forall k :: j < k < |r| ==> r[k] == sorted[k - 1]
    ensures r == sorted[..j] + [x] + sorted[j..]
  {
    var placed := sorted[..j] + [x] + sorted[j..];
    forall k | 0 <= k < |r| ensures r[k] == placed[k] {
      if k < j {
        assert placed[k] == sorted[k];
      } else if j < k {
        assert placed[k] == sorted[j..][k - j - 1];
      }
    }
  }

  /** One pass of insertion sort: the element at `i` moves left past every
      older element of the ordered prefix before it, which shift right. */
  method InsertAt(a: array<NewsArticle>, i: nat)
    requires i < a.Length
    modifies a
    ensures a[..i + 1] == InsertByRecency(old(a[..i]), old(a[i]))
    ensures a[i + 1..] == old(a[i + 1..])
  {
    ghost var sorted := a[..i];
    var x := a[i];
    var j := i;
    while j > 0 && a[j - 1].publishedAt < x.publishedAt
      invariant 0 <= j <= i
      invariant forall k :: 0 <= k < j ==> a[k] == sorted[k]
      invariant forall k :: j < k <= i ==> a[k] == sorted[k - 1]
      invariant forall k :: i < k < a.Length ==> a[k] == old(a[k])
      invariant forall k :: j <= k < i ==> sorted[k].publishedAt < x.publishedAt
    {
      a[j] := a[j - 1];
      j := j - 1;
    }
    a[j] := x;
    ghost var r := a[..i + 1];
    SplicedAt(r, sorted, x, j);
    InsertPlacement(sorted, x, j);
  }

  /** Sorting one more element of the input is inserting it. */
  lemma NewestFirstStep(s: seq<NewsArticle>, i: nat)
    requires i < |s|
    ensures NewestFirst(s[..i + 1]) == InsertByRecency(NewestFirst(s[..i]), s[i])
  {
    assert s[..i + 1][..i] == s[..i];
  }

  /** Two lists that agree from `i` on agree at `i` and from `i + 1` on. */
  lemma SameSuffixStep(s: seq<NewsArticle>, t: seq<NewsArticle>, i: nat)
    requires i < |s| && i <= |t| && s[i..] == t[i..]
    ensures s[i] == t[i] && s[i + 1..] == t[i + 1..]
  {
    assert s[i] == s[i..][0] && t[i] == t[i..][0];
    assert s[i + 1..] == s[i..][1..] && t[i + 1..] == t[i..][1..];
  }

  /** Sorting in place: the array ends up as `NewestFirst` of what it held. */
  method SortNewestFirst(a: array<NewsArticle>)
    modifies a
    ensures a[..] == NewestFirst(old(a[..]))
  {
    ghost var input := a[..];
    var i := 0;
    while i < a.Length
      invariant 0 <= i <= a.Length
      invariant a[..i] == NewestFirst(input[..i])
      invariant a[i..] == input[i..]
    {
      SameSuffixStep(a[..], input, i);
      InsertAt(a, i);
      NewestFirstStep(input, i);
      i := i + 1;
    }
    assert a[..] == a[..a.Length];
    assert input == input[..a.Length];
  }

  // ---------------------------------------------------------------------------
  // The whole route

  /** A sequence with distinct ids contains each article once. */
  lemma {:induction false} DistinctIdsOccurOnce(s: seq<NewsArticle>, v: NewsArticle)
    requires DistinctIds(s)
    ensures multiset(s)[v] <= 1
  {
    if |s| > 0 {
      var init := s[..|s| - 1];
      assert s == init + [s[|s| - 1]];
      assert DistinctIds(init);
      DistinctIdsOccurOnce(init, v);
      if v == s[|s| - 1] {
        assert v !in init;
      }
    }
  }

  /** Reordering keeps the ids distinct. */
  lemma DistinctIdsPermutation(s: seq<NewsArticle>, t: seq<NewsArticle>)
    requires DistinctIds(s) && multiset(s) == multiset(t)
    ensures DistinctIds(t)
  {
    forall p, q | 0 <= p < |t| && 0 <= q < |t| && p != q ensures t[p].id != t[q].id {
      if t[p].id == t[q].id {
        assert t[p] in multiset(s) && t[q] in multiset(s);
        var i :| 0 <= i < |s| && s[i] == t[p];
        var j :| 0 <= j < |s| && s[j] == t[q];
        assert i == j;
        var lo, hi := if p < q then p else q, if p < q then q else p;
        assert t == t[..hi] + t[hi..];
        assert t[lo] in multiset(t[..hi]);
        assert t[hi] in multiset(t[hi..]);
        assert multiset(t)[t[p]] >= 2;
        DistinctIdsOccurOnce(s, t[p]);
      }
    }
  }

  function Min(a: nat, b: nat): nat {
    if a <= b then a else b
  }

  /** `sort` then `slice(0, 20)`: the twenty newest, newest first. */
  function NewestCut(s: seq<NewsArticle>): (r: seq<NewsArticle>)
    ensures |r| == Min(MaxArticles, |s|)
  {
    var sorted := NewestFirst(s);
    assert |sorted| == |s| by {
      assert |multiset(sorted)| == |multiset(s)|;
    }
    sorted[..Min(MaxArticles, |sorted|)]
  }

  /** The cut is newest first, takes its articles from the list, and keeps
      the newest: an article left out is no more recent than any article
      kept. */
  lemma NewestCutKeepsNewest(s: seq<NewsArticle>)
    ensures NewestFirstOrder(NewestCut(s))
    ensures forall i :: 0 <= i < |NewestCut(s)| ==> NewestCut(s)[i] in s
    ensures forall e, o :: (e in s && e !in NewestCut(s) && o in NewestCut(s)) ==> e.publishedAt <= o.publishedAt
  {
    var sorted := NewestFirst(s);
    var r := NewestCut(s);
    assert r == sorted[..|r|];
    assert forall e :: e in sorted <==> e in s by {
      assert multiset(sorted) == multiset(s);
      forall e ensures e in sorted <==> e in s {
        assert e in sorted <==> e in multiset(sorted);
      }
    }
    OrderedPrefixKeepsNewest(sorted, |r|);
  }

  /** A prefix of a newest-first list is newest first, and every element
      after it is no more recent than any element in it. */
  lemma OrderedPrefixKeepsNewest(sorted: seq<NewsArticle>, m: nat)
    requires NewestFirstOrder(sorted) && m <= |sorted|
    ensures NewestFirstOrder(sorted[..m])
    ensures forall i :: 0 <= i < m ==> sorted[..m][i] in sorted
    ensures forall e, o :: (e in sorted && e !in sorted[..m] && o in sorted[..m]) ==> e.publishedAt <= o.publishedAt
  {
    var r := sorted[..m];
    forall e, o | e in sorted && e !in r && o in r ensures e.publishedAt <= o.publishedAt {
      var k :| 0 <= k < |sorted| && sorted[k] == e;
      var j :| 0 <= j < m && r[j] == o;
      assert k >= m;
      assert sorted[j] == o;
    }
  }

  /** Cutting a list with distinct ids keeps them distinct. */
  lemma NewestCutDistinctIds(s: seq<NewsArticle>)
    requires DistinctIds(s)
    ensures DistinctIds(NewestCut(s))
  {
    var sorted := NewestFirst(s);
    DistinctIdsPermutation(s, sorted);
    var r := NewestCut(s);
    assert r == sorted[..|r|];
    forall i, j | 0 <= i < |r| && 0 <= j < |r| && i != j ensures r[i].id != r[j].id {
      assert r[i] == sorted[i] && r[j] == sorted[j];
    }
  }

  /** Lines 52-114: filter and de-duplicate, enhance, sort newest first, keep
      the first twenty. */
  function Aggregate(raw: seq<RawArticle>, now: int): (r: seq<NewsArticle>)
    ensures |r| <= MaxArticles
  {
    NewestCut(EnhanceAll(UniqueArticles(raw), now))
  }

  /** The route's list is the newest-first order of the enhanced articles,
      cut to twenty: as many as there are unique articles up to twenty,
      newest first, each one of the enhanced articles. */
  lemma AggregateIsNewestPrefix(raw: seq<RawArticle>, now: int)
    ensures |Aggregate(raw, now)| == Min(MaxArticles, |UniqueArticles(raw)|)
    ensures NewestFirstOrder(Aggregate(raw, now))
    ensures forall i :: 0 <= i < |Aggregate(raw, now)| ==>
      Aggregate(raw, now)[i] in EnhanceAll(UniqueArticles(raw), now)
  {
    NewestCutKeepsNewest(EnhanceAll(UniqueArticles(raw), now));
  }

  /** The cut keeps the newest: an enhanced article left out is no more
      recent than any article kept. */
  lemma AggregateKeepsNewest(raw: seq<RawArticle>, now: int)
    ensures forall e, o ::
      (e in EnhanceAll(UniqueArticles(raw), now) && e !in Aggregate(raw, now) && o in Aggregate(raw, now))
      ==> e.publishedAt <= o.publishedAt
  {
    NewestCutKeepsNewest(EnhanceAll(UniqueArticles(raw), now));
  }

  /** Every listed article has its own id and a description of at least 50
      UTF-16 code units. */
  lemma AggregateIdsAndDescriptions(raw: seq<RawArticle>, now: int)
    ensures DistinctIds(Aggregate(raw, now))
    ensures forall i :: 0 <= i < |Aggregate(raw, now)| ==>
      Utf16Length(Aggregate(raw, now)[i].description) >= MinDescriptionLength
  {
    var u := UniqueArticles(raw);
    var enhanced := EnhanceAll(u, now);
    EnhanceAllDistinctIds(u, now);
    NewestCutDistinctIds(enhanced);
    NewestCutKeepsNewest(enhanced);
    EnhanceAllDescriptions(u, now);
  }

  datatype NewsResponse =
    | NewsList(articles: seq<NewsArticle>, totalResults: nat, message: string)
    | NewsError(status: nat, error: string)

  /** The GET handler's answer. Without a credential it answers 500 at once,
      whatever the endpoints would have returned; otherwise it lists the
      aggregated articles with their count. */
  function NewsResponseFor(apiKey: string, raw: seq<RawArticle>, now: int): (r: NewsResponse)
    ensures apiKey == "" ==> r == NewsError(ConfigErrorStatus, MissingKeyError)
    ensures apiKey != "" ==> r.NewsList? && r.totalResults == |r.articles| <= MaxArticles
    ensures apiKey != "" ==> r.articles == Aggregate(raw, now)
  {
    if apiKey == "" then NewsError(ConfigErrorStatus, MissingKeyError)
    else
      var articles := Aggregate(raw, now);
      NewsList(articles, |articles|,
        "Found " + NatToDecimal(|articles|) + " recent geopolitical news articles")
  }

  /** The sort and the slice as the source runs them: the enhanced list is
      sorted in place in an array before the first twenty are taken. */
  method NewestArticles(enhanced: seq<NewsArticle>) returns (articles: seq<NewsArticle>)
    ensures articles == NewestCut(enhanced)
  {
    var a := new NewsArticle[|enhanced|](i requires 0 <= i < |enhanced| => enhanced[i]);
    assert a[..] == enhanced;
    SortNewestFirst(a);
    ghost var sorted := NewestFirst(enhanced);
    assert a[..] == sorted;
    var n := Min(MaxArticles, a.Length);
    articles := a[..n];
    assert articles == sorted[..n];
  }

  /** The handler as the source runs it. */
  method GetNews(apiKey: string, raw: seq<RawArticle>, now: int) returns (response: NewsResponse)
    ensures response == NewsResponseFor(apiKey, raw, now)
  {
    if apiKey == "" {
      return NewsError(ConfigErrorStatus, MissingKeyError);
    }
    var articles := NewestArticles(EnhanceAll(UniqueArticles(raw), now));
    response := NewsList(articles, |articles|,
      "Found " + NatToDecimal(|articles|) + " recent geopolitical news articles");
  }

}
