/** The analysis route (src/app/api/analyze/route.ts): the input gate, and the
    two-stage reading of the language model's reply into an
    `AnalysisResult`. The model call is not modelled: the route is given its
    outcome, the reply text or a failure. `JSON.parse` is not modelled
    either: the route is given a parser that yields the parsed object or
    nothing. */
module AnalyzeRoute {
  import opened Types
  import opened Strings

  /** What a successful strict parse of the payload offers the overlay. A
      textual field that is missing, null or empty is "" (all falsy);
      `keyTakeaways` is `Some` exactly when the parsed value is an array. A
      parse that yields `null` fails the property reads inside the same
      `try`, so the parser answers `None` for it as for a syntax error. */
  datatype ParsedObject = ParsedObject(
    summary: string,
    geopoliticalContext: string,
    impactForIndia: string,
    sentiment: string,
    keyTakeaways: Option<seq<string>>,
    timeline: string)

  type JsonParser = string -> Option<ParsedObject>

  const DefaultSummary := "Analysis completed"
  const DefaultContext := "Context analysis provided"
  const DefaultImpact := "Impact analysis provided"
  const DefaultSentiment := "neutral"
  const DefaultTimeline := "Medium-term"

  const BadRequestStatus: nat := 400
  const ServerErrorStatus: nat := 500
  const MissingInputError := "Title and content are required"
  const AnalysisError := "Failed to analyze article"

  /** Every field of the report carries text. */
  predicate Populated(r: AnalysisResult) {
    r.summary != "" && r.geopoliticalContext != "" && r.impactForIndia != ""
    && r.sentiment != "" && r.timeline != ""
  }

  // ---------------------------------------------------------------------------
  // Stage one: clean the reply and parse it

  const JsonFence := "```json"
  const Fence := "```"

  /** The pattern /```\s*$/ matches at `p`. */
  predicate FenceTailAt(s: string, p: int) {
    0 <= p && p + |Fence| <= |s| && s[p..p + |Fence|] == Fence && IsBlank(s[p + |Fence|..])
  }

  /** The search from `p` on for the leftmost match of /```\s*$/. */
  function CutFenceTailFrom(s: string, p: nat): (r: string)
    requires p <= |s|
    requires forall q :: 0 <= q < p ==> !FenceTailAt(s, q)
    ensures r <= s
    ensures r == s ==> forall q :: !FenceTailAt(s, q)
    ensures r != s ==> FenceTailAt(s, |r|)
    ensures forall q :: 0 <= q < |r| ==> !FenceTailAt(s, q)
    decreases |s| - p
  {
    if p + |Fence| > |s| then s
    else if FenceTailAt(s, p) then s[..p]
    else CutFenceTailFrom(s, p + 1)
  }

  /** `.replace(/```\s*$/, '')`: the text cut at the leftmost "```" that only
      white space follows, or unchanged when there is none. */
  function StripTrailingFence(s: string): (r: string)
    ensures r <= s
    ensures r == s <==> forall q :: !FenceTailAt(s, q)
    ensures r != s ==> FenceTailAt(s, |r|) && forall q :: 0 <= q < |r| ==> !FenceTailAt(s, q)
  {
    CutFenceTailFrom(s, 0)
  }

  /** Lines 63-67 on the trimmed reply: an opening "```json" or "```" is
      removed together with the white space after it, then a closing fence.
      What is left is a window of the reply. */
  function StripFence(trimmed: string): (r: string)
    ensures exists i :: OccursAt(trimmed, r, i)
    ensures JsonFence <= trimmed ==>
      exists k :: SpaceRun(trimmed, |JsonFence|, k) && r == StripTrailingFence(trimmed[k..])
    ensures Fence <= trimmed && !(JsonFence <= trimmed) ==>
      exists k :: SpaceRun(trimmed, |Fence|, k) && r == StripTrailingFence(trimmed[k..])
    ensures !(Fence <= trimmed) ==> r == trimmed
  {
    if !(Fence <= trimmed) then
      assert OccursAt(trimmed, trimmed, 0);
      trimmed
    else
      var m := if JsonFence <= trimmed then |JsonFence| else |Fence|;
      var k := SpacesEnd(trimmed, m);
      var r := StripTrailingFence(trimmed[k..]);
      assert OccursAt(trimmed, r, k) by {
        assert trimmed[k..k + |r|] == trimmed[k..][..|r|];
      }
      r
  }

  /** Some "{" comes before some "}". */
  predicate HasBracePair(s: string) {
    exists i, j :: 0 <= i < j < |s| && s[i] == '{' && s[j] == '}'
  }

  /** `s[i..j + 1]` runs from the first "{" to the last "}". */
  predicate GreedyBraces(s: string, i: int, j: int) {
    0 <= i < j < |s| && s[i] == '{' && s[j] == '}'
    && (forall k :: 0 <= k < i ==> s[k] != '{')
    && (forall k :: j < k < |s| ==> s[k] != '}')
  }

  /** `cleanText.match(/\{[\s\S]*\}/)`: the greedy match from the first "{"
      to the last "}" replaces the text; without a match the text stays. */
  function ExtractBraces(s: string): (r: string)
    ensures !HasBracePair(s) ==> r == s
    ensures HasBracePair(s) ==> exists i, j :: GreedyBraces(s, i, j) && r == s[i..j + 1]
    ensures exists i :: OccursAt(s, r, i)
  {
    var f := IndexOf(s, '{');
    var l := LastIndexOf(s, '}');
    if 0 <= f < l then
      assert forall k :: 0 <= k < f ==> s[k] != '{' by {
        forall k | 0 <= k < f ensures s[k] != '{' {
          assert s[k] == s[..f][k];
        }
      }
      assert GreedyBraces(s, f, l);
      var r := s[f..l + 1];
      assert OccursAt(s, r, f);
      r
    else
      assert !HasBracePair(s);
      assert OccursAt(s, s, 0);
      s
  }

  /** After the brace match the text holds a "{" before a "}" exactly when
      it runs from a "{" to a "}". */
  lemma ExtractBracesEnds(s: string)
    ensures var r := ExtractBraces(s);
      HasBracePair(r) <==> 2 <= |r| && r[0] == '{' && r[|r| - 1] == '}'
  {
    var r := ExtractBraces(s);
    if HasBracePair(s) {
      var i, j :| GreedyBraces(s, i, j) && r == s[i..j + 1];
      assert r[0] == s[i] && r[|r| - 1] == s[j] && 0 < |r| - 1;
    }
  }

  /** Lines 60-73: the payload handed to the strict parser, a window of the
      reply. */
  function CleanText(text: string): (r: string)
    ensures exists i :: OccursAt(text, r, i)
  {
    var t := Trim(text);
    var s := StripFence(t);
    var r := ExtractBraces(s);
    assert exists i :: OccursAt(text, r, i) by {
      var i1 :| OccursAt(text, t, i1);
      var i2 :| OccursAt(t, s, i2);
      var i3 :| OccursAt(s, r, i3);
      OccursAtChain(text, t, s, r, i1, i2, i3);
    }
    r
  }

  /** Lines 80-87: each textual field is the parsed one when it is non-empty,
      else its default; `keyTakeaways` is the parsed array or `[]`. The
      sentiment is not checked against the three values. */
  function Overlay(p: ParsedObject): (r: AnalysisResult)
    ensures Populated(r)
    ensures r.summary == (if p.summary != "" then p.summary else DefaultSummary)
    ensures r.geopoliticalContext == (if p.geopoliticalContext != "" then p.geopoliticalContext else DefaultContext)
    ensures r.impactForIndia == (if p.impactForIndia != "" then p.impactForIndia else DefaultImpact)
    ensures r.sentiment == (if p.sentiment != "" then p.sentiment else DefaultSentiment)
    ensures r.keyTakeaways == (if p.keyTakeaways.Some? then p.keyTakeaways.value else [])
    ensures r.timeline == (if p.timeline != "" then p.timeline else DefaultTimeline)
  {
    AnalysisResult(
      if p.summary != "" then p.summary else DefaultSummary,
      if p.geopoliticalContext != "" then p.geopoliticalContext else DefaultContext,
      if p.impactForIndia != "" then p.impactForIndia else DefaultImpact,
      if p.sentiment != "" then p.sentiment else DefaultSentiment,
      match p.keyTakeaways
      case Some(k) => k
      case None => [],
      if p.timeline != "" then p.timeline else DefaultTimeline)
  }

  /** The report read back as a parsed object. */
  function AsParsed(r: AnalysisResult): ParsedObject {
    ParsedObject(r.summary, r.geopoliticalContext, r.impactForIndia, r.sentiment,
      Some(r.keyTakeaways), r.timeline)
  }

  /** A reply that already fills every field comes through unchanged. */
  lemma OverlayKeepsCompleteReply(r: AnalysisResult)
    requires Populated(r)
    ensures Overlay(AsParsed(r)) == r
  {
  }

  /** Overlaying a report a second time changes nothing. */
  lemma OverlayIdempotent(p: ParsedObject)
    ensures Overlay(AsParsed(Overlay(p))) == Overlay(p)
  {
    OverlayKeepsCompleteReply(Overlay(p));
  }

  /** The overlay yields one of the three declared sentiments exactly when the
      reply's sentiment is one of them or missing. */
  lemma OverlaySentimentUnchecked(p: ParsedObject)
    ensures IsSentiment(Overlay(p).sentiment) <==> p.sentiment == "" || IsSentiment(p.sentiment)
  {
  }

  // ---------------------------------------------------------------------------
  // Stage two: the heuristic line scan over the raw reply

  /** `.filter(line => line.trim())` */
  function KeepNonBlank(pieces: seq<string>): (r: seq<string>)
    ensures |r| <= |pieces|
    ensures forall x :: x in r <==> x in pieces && !IsBlank(x)
    ensures |pieces| == 1 ==> r == (if IsBlank(pieces[0]) then [] else pieces)
  {
    if |pieces| == 0 then []
    else if Trim(pieces[0]) != "" then [pieces[0]] + KeepNonBlank(pieces[1..])
    else KeepNonBlank(pieces[1..])
  }

  /** The filter works piece by piece, in order: with the one-piece case
      above this pins it down as the order-keeping filter. */
  lemma {:induction false} KeepNonBlankAppend(a: seq<string>, b: seq<string>)
    ensures KeepNonBlank(a + b) == KeepNonBlank(a) + KeepNonBlank(b)
    decreases |a|
  {
    if |a| == 0 {
      assert a + b == b;
    } else {
      assert (a + b)[0] == a[0] && (a + b)[1..] == a[1..] + b;
      KeepNonBlankAppend(a[1..], b);
    }
  }

  /** `text.split('\n').filter(line => line.trim())`: the lines of the raw
      reply that are not blank, untrimmed. */
  function NonBlankLines(text: string): (lines: seq<string>)
    ensures forall k :: 0 <= k < |lines| ==> !IsBlank(lines[k]) && '\n' !in lines[k]
    ensures forall x :: x in lines <==> x in Split(text, '\n') && !IsBlank(x)
    ensures lines == KeepNonBlank(Split(text, '\n'))
  {
    var pieces := Split(text, '\n');
    var lines := KeepNonBlank(pieces);
    forall k | 0 <= k < |lines| ensures !IsBlank(lines[k]) && '\n' !in lines[k] {
      assert lines[k] in pieces;
      var j :| 0 <= j < |pieces| && pieces[j] == lines[k];
    }
    lines
  }

  /** The lines of a reply written line by line are its non-blank lines, in
      their order. */
  lemma NonBlankLinesOfJoin(parts: seq<string>)
    requires |parts| >= 1
    requires forall k :: 0 <= k < |parts| ==> '\n' !in parts[k]
    ensures NonBlankLines(Join(parts, "\n")) == KeepNonBlank(parts)
  {
    JoinSplitRoundTrip(parts, '\n');
  }

  predicate HasEither(line: string, k1: string, k2: string) {
    Contains(line, k1) || Contains(line, k2)
  }

  /** `lines.findIndex(line => line.includes(k1) || line.includes(k2))` */
  function FindLine(lines: seq<string>, k1: string, k2: string): (i: int)
    ensures -1 <= i < |lines|
    ensures i == -1 <==> forall k :: 0 <= k < |lines| ==> !HasEither(lines[k], k1, k2)
    ensures i >= 0 ==> HasEither(lines[i], k1, k2) && forall k :: 0 <= k < i ==> !HasEither(lines[k], k1, k2)
  {
    if |lines| == 0 then -1
    else if HasEither(lines[0], k1, k2) then 0
    else
      var i := FindLine(lines[1..], k1, k2);
      if i == -1 then -1 else i + 1
  }

  /** `x || y` on strings. */
  function Or(x: string, y: string): string {
    if x != "" then x else y
  }

  /** `lines[i]`, or `undefined` (falsy, so "") outside the list; also what
      `lines.find(...)` gives for the index `findIndex` would report. */
  function LineAt(lines: seq<string>, i: int): string {
    if 0 <= i < |lines| then lines[i] else ""
  }

  /** `lines.slice(2).join(' ')`: nothing for two lines or fewer; otherwise
      the lines from the third on, which splitting at spaces gives back when
      they hold none. Over non-blank lines it is empty only when there is
      no third line. */
  function RestJoined(lines: seq<string>): (r: string)
    ensures |lines| <= 2 ==> r == ""
    ensures 2 < |lines| && (forall k :: 2 <= k < |lines| ==> ' ' !in lines[k]) ==> Split(r, ' ') == lines[2..]
    ensures (forall k :: 0 <= k < |lines| ==> !IsBlank(lines[k])) ==> (r == "" <==> |lines| <= 2)
  {
    // `slice(2)` of two lines or fewer is empty, and so is its join
    if |lines| <= 2 then ""
    else
      var rest := lines[2..];
      assert forall k :: 0 <= k < |rest| ==> rest[k] == lines[k + 2];
      assert (forall k :: 2 <= k < |lines| ==> ' ' !in lines[k]) ==> Split(Join(rest, " "), ' ') == rest by {
        if forall k :: 2 <= k < |lines| ==> ' ' !in lines[k] {
          JoinSplitRoundTrip(rest, ' ');
        }
      }
      assert (forall k :: 0 <= k < |lines| ==> !IsBlank(lines[k])) ==> Join(rest, " ") != "" by {
        if forall k :: 0 <= k < |lines| ==> !IsBlank(lines[k]) {
          JoinNonEmpty(rest);
        }
      }
      Join(rest, " ")
  }

  /** Lines 92-101: the report built from the raw reply's lines. */
  function Recover(text: string): (r: AnalysisResult)
    ensures Populated(r)
    ensures r.sentiment == DefaultSentiment && r.keyTakeaways == [] && r.timeline == DefaultTimeline
  {
    var lines := NonBlankLines(text);
    AnalysisResult(
      Or(LineAt(lines, FindLine(lines, "summary", "Summary")), Or(LineAt(lines, 0), DefaultSummary)),
      Or(LineAt(lines, FindLine(lines, "context", "Context")), Or(LineAt(lines, 1), DefaultContext)),
      Or(LineAt(lines, FindLine(lines, "impact", "Impact")), Or(RestJoined(lines), DefaultImpact)),
      DefaultSentiment,
      [],
      DefaultTimeline)
  }

  /** The non-blank lines are non-empty, so `||` never skips one. */
  lemma NonBlankLinesNonEmpty(text: string)
    ensures forall k :: 0 <= k < |NonBlankLines(text)| ==> NonBlankLines(text)[k] != ""
  {
    var lines := NonBlankLines(text);
    forall k | 0 <= k < |lines| ensures lines[k] != "" {
      assert !IsBlank(lines[k]);
    }
  }

  /** The recovered summary is the first line naming it, else the first line,
      else the default. */
  lemma RecoverSummaryRule(text: string)
    ensures var lines := NonBlankLines(text);
      var i := FindLine(lines, "summary", "Summary");
      Recover(text).summary ==
        if i >= 0 then lines[i] else if |lines| > 0 then lines[0] else DefaultSummary
  {
    NonBlankLinesNonEmpty(text);
  }

  /** The recovered context is the first line naming it, else the second
      line, else the default. */
  lemma RecoverContextRule(text: string)
    ensures var lines := NonBlankLines(text);
      var i := FindLine(lines, "context", "Context");
      Recover(text).geopoliticalContext ==
        if i >= 0 then lines[i] else if |lines| > 1 then lines[1] else DefaultContext
  {
    NonBlankLinesNonEmpty(text);
  }

  /** The recovered impact is the first line naming it, else the lines from
      the third on joined by spaces, else the default. */
  lemma RecoverImpactRule(text: string)
    ensures var lines := NonBlankLines(text);
      var i := FindLine(lines, "impact", "Impact");
      Recover(text).impactForIndia ==
        if i >= 0 then lines[i] else if |lines| > 2 then Join(lines[2..], " ") else DefaultImpact
  {
    NonBlankLinesNonEmpty(text);
  }

  /** Joining non-blank lines gives text exactly when there is a line. */
  lemma {:induction false} JoinNonEmpty(lines: seq<string>)
    requires forall k :: 0 <= k < |lines| ==> !IsBlank(lines[k])
    ensures Join(lines, " ") == "" <==> lines == []
  {
    if |lines| >= 1 {
      assert lines[0] != "";
      if |lines| > 1 {
        assert Join(lines, " ") == lines[0] + " " + Join(lines[1..], " ");
      }
    }
  }

  // ---------------------------------------------------------------------------
  // The two stages together, and the handler

  /** Which stage produced the report. */
  datatype ParseOutcome = Parsed(result: AnalysisResult) | Recovered(result: AnalysisResult)

  /** Lines 57-102: the strict parse of the cleaned payload with the overlay,
      or, when it fails, the line scan over the raw reply. Either way a fully
      populated report. */
  function ParseAnalysis(text: string, parse: JsonParser): (o: ParseOutcome)
    ensures o.Parsed? <==> parse(CleanText(text)).Some?
    ensures o.Parsed? ==> o.result == Overlay(parse(CleanText(text)).value)
    ensures o.Recovered? ==> o.result == Recover(text)
    ensures Populated(o.result)
  {
    match parse(CleanText(text))
    case Some(p) => Parsed(Overlay(p))
    case None => Recovered(Recover(text))
  }

  datatype AnalyzeResponse = Report(analysis: AnalysisResult) | Failure(status: nat, error: string)

  /** The POST handler's answer, given the request's `title` and `content`
      ("" when missing) and the model's reply (`None` when generation
      failed). A missing field is refused before the model's outcome is
      looked at; once a reply exists the answer is always a populated report. */
  function AnalyzeResponseFor(title: string, content: string, reply: Option<string>, parse: JsonParser)
    : (r: AnalyzeResponse)
    ensures title == "" || content == "" ==> r == Failure(BadRequestStatus, MissingInputError)
    ensures title != "" && content != "" && reply.None? ==> r == Failure(ServerErrorStatus, AnalysisError)
    ensures title != "" && content != "" && reply.Some? ==>
      r == Report(ParseAnalysis(reply.value, parse).result) && Populated(r.analysis)
  {
    if title == "" || content == "" then Failure(BadRequestStatus, MissingInputError)
    else match reply
      case None => Failure(ServerErrorStatus, AnalysisError)
      case Some(text) => Report(ParseAnalysis(text, parse).result)
  }

  // ---------------------------------------------------------------------------
  // A fenced reply

  lemma TrimKeepsUnpadded(s: string)
    requires |s| > 0 && !IsSpace(s[0]) && !IsSpace(s[|s| - 1])
    ensures Trim(s) == s
  {
  }

  /** The opening marker goes, with the blank padding after it, whatever
      follows; a bare "```" counts as one unless "json" comes right after it. */
  lemma OpeningFenceRemoved(tag: string, before: string, rest: string)
    requires tag == "json" || tag == ""
    requires IsBlank(before) && (rest == [] || !IsSpace(rest[0]))
    requires tag == "json" || !(JsonFence <= Fence + before + rest)
    ensures StripFence(Fence + tag + before + rest) == StripTrailingFence(rest)
  {
    var text := Fence + tag + before + rest;
    var m := |Fence| + |tag|;
    var e := m + |before|;
    assert text == Fence + tag + (before + rest);
    assert text[e..] == rest;
    assert SpaceRun(text, m, e) by {
      forall p | m <= p < e ensures IsSpace(text[p]) {
        assert text[p] == before[p - m];
      }
      if e < |text| {
        assert text[e] == rest[0];
      }
    }
    if tag == "json" {
      assert text[..|JsonFence|] == JsonFence;
    } else {
      assert text[..|Fence|] == Fence;
    }
    var k :| SpaceRun(text, m, k) && StripFence(text) == StripTrailingFence(text[k..]);
    SpaceRunUnique(text, m, k, e);
  }

  /** A bare fence followed by padding and a "{" is not a "```json" one. */
  lemma BareFenceBeforeObject(before: string, rest: string)
    requires IsBlank(before) && |rest| > 0 && rest[0] == '{'
    ensures !(JsonFence <= Fence + before + rest)
  {
    var bare := Fence + before + rest;
    assert bare[3] == if |before| > 0 then before[0] else '{';
  }

  /** The closing fence goes, and only it: the padding before it stays. */
  lemma ClosingFenceRemoved(payload: string, after: string)
    requires |payload| > 0 && payload[|payload| - 1] == '}' && IsBlank(after)
    ensures StripTrailingFence(payload + after + Fence) == payload + after
  {
    var s := payload + after + Fence;
    var cut := |payload| + |after|;
    assert s[cut..] == Fence;
    assert FenceTailAt(s, cut);
    assert s[|payload| - 1] == '}';
    forall q | 0 <= q < cut ensures !FenceTailAt(s, q) {
      if q + 3 <= |payload| - 1 {
        // the closing brace is in the padding the fence would need
        var t := s[q + 3..];
        assert t[|payload| - 1 - (q + 3)] == '}';
        assert !IsBlank(t);
      } else if q < |payload| {
        // the closing brace is inside the would-be fence
        var w := s[q..q + 3];
        assert w[|payload| - 1 - q] == '}';
        assert w != Fence;
      } else {
        // the would-be fence starts with padding
        var w := s[q..q + 3];
        assert w[0] == after[q - |payload|];
        assert w != Fence;
      }
    }
    assert s[..cut] == payload + after;
  }

  /** Trailing padding after an object does not survive the brace match. */
  lemma BracesOfPaddedObject(payload: string, after: string)
    requires |payload| >= 2 && payload[0] == '{' && payload[|payload| - 1] == '}'
    requires IsBlank(after)
    ensures ExtractBraces(payload + after) == payload
  {
    var s := payload + after;
    forall k | |payload| - 1 < k < |s| ensures s[k] != '}' {
      assert s[k] == after[k - |payload|];
    }
    assert s[|payload| - 1] == '}';
    assert LastIndexOf(s, '}') == |payload| - 1;
    assert IndexOf(s, '{') == 0;
    assert s[0..|payload|] == payload;
  }

  /** Both markers of a fenced object go, and only they. */
  lemma FencesRemoved(tag: string, before: string, payload: string, after: string)
    requires tag == "json" || tag == ""
    requires IsBlank(before) && IsBlank(after)
    requires |payload| >= 2 && payload[0] == '{' && payload[|payload| - 1] == '}'
    ensures StripFence(Fence + tag + before + payload + after + Fence) == payload + after
  {
    var rest := payload + after + Fence;
    assert Fence + tag + before + payload + after + Fence == Fence + tag + before + rest;
    if tag == "" {
      BareFenceBeforeObject(before, rest);
    }
    OpeningFenceRemoved(tag, before, rest);
    ClosingFenceRemoved(payload, after);
  }

  /** A reply fenced as the prompt forbids, "```json" or "```", blank
      padding, an object, blank padding, "```", still hands the parser
      exactly the object. */
  lemma FencedObjectUnwrapped(tag: string, before: string, payload: string, after: string)
    requires tag == "json" || tag == ""
    requires IsBlank(before) && IsBlank(after)
    requires |payload| >= 2 && payload[0] == '{' && payload[|payload| - 1] == '}'
    ensures CleanText(Fence + tag + before + payload + after + Fence) == payload
  {
    var text := Fence + tag + before + payload + after + Fence;
    TrimKeepsUnpadded(text);
    FencesRemoved(tag, before, payload, after);
    BracesOfPaddedObject(payload, after);
  }

  const SummaryOnlyReply := "{\"summary\":\"S\",\"sentiment\":\"positive\"}"

  /** The scenario of a reply fenced as "```json", a newline, an object naming
      only a summary and a sentiment, a newline, "```": those two come from
      the reply, the other fields are the defaults. */
  lemma FencedSummaryAndSentiment(parse: JsonParser)
    requires parse(SummaryOnlyReply) == Some(ParsedObject("S", "", "", "positive", None, ""))
    ensures ParseAnalysis(Fence + "json" + "\n" + SummaryOnlyReply + "\n" + Fence, parse)
      == Parsed(AnalysisResult("S", DefaultContext, DefaultImpact, "positive", [], DefaultTimeline))
  {
    FencedObjectUnwrapped("json", "\n", SummaryOnlyReply, "\n");
  }
}
