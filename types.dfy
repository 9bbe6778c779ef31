/** The records shared by the API routes and the feed page
    (src/types/index.ts). */
module Types {

  datatype Option<+T> = None | Some(value: T)

  datatype Source = Source(name: string)

  /** A normalised article as the feed receives it. `publishedAt` is an
      integer timestamp in milliseconds rather than an ISO date string, and a
      missing `urlToImage` is `None`. */
  datatype NewsArticle = NewsArticle(
    id: string,
    title: string,
    description: string,
    content: string,
    url: string,
    source: Source,
    publishedAt: int,
    urlToImage: Option<string>)

  /** The structured report. The declared type narrows `sentiment` to three
      values, but the parsing route passes any non-empty parsed string
      through, so the model keeps it a string and names the three values in
      `IsSentiment`. The route always fills `keyTakeaways` and `timeline`. */
  datatype AnalysisResult = AnalysisResult(
    summary: string,
    geopoliticalContext: string,
    impactForIndia: string,
    sentiment: string,
    keyTakeaways: seq<string>,
    timeline: string)

  predicate IsSentiment(s: string) {
    s == "positive" || s == "negative" || s == "neutral"
  }
}
