/**
 * The three generation endpoints: the fixed order of their checks (rate limit, text
 * validity, generation), the answers they build, and the reply-list parser.
 */
module Api {
  import opened Wrappers
  import opened Text
  import RateLimit
  import N = Normalize
  import Prompts
  import LlmClient
  import Schemas

  // ---------------------------------------------------------------------------------------
  // Reply parsing
  // ---------------------------------------------------------------------------------------

  /** The characters stripped from the front of a reply line: digits, `.`, space, `-` and `•`. */
  const REPLY_PREFIX_CHARS: string := "0123456789. -•"

  /** What a line reply looks like: non-empty, past its numbering, no trailing space. */
  predicate IsLineReply(r: string) {
    r != [] && r[0] !in REPLY_PREFIX_CHARS && !IsSpace(r[|r| - 1])
  }

  /** One line of the generated text as a reply: trimmed, its numbering removed, if anything is left. */
  function LineReply(line: string): (r: Option<string>)
    ensures r.Some? ==> IsLineReply(r.value)
    ensures r.Some? <==> Strip(line) != [] && LStripChars(Strip(line), REPLY_PREFIX_CHARS) != []
  {
    var l := Strip(line);
    if l == [] then None
    else
      var r := LStripChars(l, REPLY_PREFIX_CHARS);
      if r == [] then None
      else
        LastOfSuffix(l, r);
        Some(r)
  }

  /** A non-empty suffix ends where the text ends. */
  lemma LastOfSuffix(l: string, r: string)
    requires r != [] && |r| <= |l| && r == l[|l| - |r|..] && NoSpaceEdges(l)
    ensures !IsSpace(r[|r| - 1])
  {
    assert r[|r| - 1] == l[|l| - 1];
  }

  /** The replies the line loop collects, in line order. */
  function LineReplies(lines: seq<string>): (rs: seq<string>)
    ensures |rs| <= |lines|
  {
    if lines == [] then []
    else
      var init := LineReplies(lines[..|lines| - 1]);
      match LineReply(lines[|lines| - 1])
      case None => init
      case Some(r) => init + [r]
  }

  /** Every collected reply has the shape of a line reply. */
  lemma {:induction false} LineRepliesShape(lines: seq<string>)
    ensures forall r :: r in LineReplies(lines) ==> IsLineReply(r)
  {
    if lines != [] {
      var init := lines[..|lines| - 1];
      LineRepliesShape(init);
      match LineReply(lines[|lines| - 1])
      case None =>
        assert LineReplies(lines) == LineReplies(init);
      case Some(r) =>
        assert IsLineReply(r);
        assert LineReplies(lines) == LineReplies(init) + [r];
    }
  }

  /** The reply of one line, as a list of zero or one replies. */
  function LineReplyList(line: string): seq<string> {
    match LineReply(line)
    case None => []
    case Some(r) => [r]
  }

  /** One more line adds its reply, if any, at the end. */
  lemma LineRepliesSnoc(init: seq<string>, line: string)
    ensures LineReplies(init + [line]) == LineReplies(init) + LineReplyList(line)
  {
    var lines := init + [line];
    assert lines[..|lines| - 1] == init;
    assert lines[|lines| - 1] == line;
  }

  /** The loop's step: the first `i + 1` lines add the reply of line `i`, if any. */
  lemma LineRepliesStep(lines: seq<string>, i: nat)
    requires i < |lines|
    ensures LineReplies(lines[..i + 1]) == LineReplies(lines[..i]) + LineReplyList(lines[i])
    ensures LineReplyList(lines[i])
      == (var l := Strip(lines[i]);
          if l == [] || LStripChars(l, REPLY_PREFIX_CHARS) == [] then [] else [LStripChars(l, REPLY_PREFIX_CHARS)])
  {
    PrefixSnoc(lines, i);
    LineRepliesSnoc(lines[..i], lines[i]);
  }

  lemma PrefixSnoc<T>(s: seq<T>, i: nat)
    requires i < |s|
    ensures s[..i + 1] == s[..i] + [s[i]]
  {
  }

  /** The loop keeps line order: collecting over two blocks of lines is collecting over each. */
  lemma {:induction false} LineRepliesAppend(a: seq<string>, b: seq<string>)
    ensures LineReplies(a + b) == LineReplies(a) + LineReplies(b)
    decreases |b|
  {
    if b == [] {
      assert a + b == a;
    } else {
      var b' := b[..|b| - 1];
      var line := b[|b| - 1];
      assert b == b' + [line];
      assert a + b == (a + b') + [line];
      LineRepliesAppend(a, b');
      LineRepliesSnoc(a + b', line);
      LineRepliesSnoc(b', line);
    }
  }

  /** The fallback: the pieces between `. `, trimmed, blank ones dropped, each ending with `.`. */
  function FallbackReplies(pieces: seq<string>): (rs: seq<string>)
    ensures |rs| <= |pieces|
  {
    if pieces == [] then []
    else
      var init := FallbackReplies(pieces[..|pieces| - 1]);
      var s := Strip(pieces[|pieces| - 1]);
      if s != [] then init + [s + "."] else init
  }

  /** What a fallback reply looks like: at least one character, then the `.` put back. */
  predicate IsFallbackReply(r: string) {
    |r| >= 2 && r[|r| - 1] == '.'
  }

  /** `r` is the trimmed form of some non-blank piece, followed by `.`. */
  predicate FromPiece(r: string, pieces: seq<string>) {
    exists p :: p in pieces && Strip(p) != [] && r == Strip(p) + "."
  }

  /**
   * The fallback replies are exactly the non-blank pieces, trimmed and followed by `.`: every
   * reply comes from a piece, and every non-blank piece gives a reply.
   */
  lemma {:induction false} FallbackRepliesShape(pieces: seq<string>)
    ensures forall r :: r in FallbackReplies(pieces) ==> IsFallbackReply(r) && FromPiece(r, pieces)
    ensures forall p :: p in pieces && Strip(p) != [] ==> Strip(p) + "." in FallbackReplies(pieces)
  {
    if pieces != [] {
      var init := pieces[..|pieces| - 1];
      var last := pieces[|pieces| - 1];
      assert pieces == init + [last];
      FallbackRepliesShape(init);
      var rs := FallbackReplies(pieces);
      forall r | r in rs ensures IsFallbackReply(r) && FromPiece(r, pieces) {
        if r in FallbackReplies(init) {
          var p :| p in init && Strip(p) != [] && r == Strip(p) + ".";
          assert p in pieces;
        } else {
          assert r == Strip(last) + ".";
        }
      }
      forall p | p in pieces && Strip(p) != [] ensures Strip(p) + "." in rs {
        if p in init {
          assert Strip(p) + "." in FallbackReplies(init);
        }
      }
    }
  }

  /** The pieces are kept in order: the fallback over two blocks of pieces is the fallback over each. */
  lemma {:induction false} FallbackRepliesAppend(a: seq<string>, b: seq<string>)
    ensures FallbackReplies(a + b) == FallbackReplies(a) + FallbackReplies(b)
    decreases |b|
  {
    if b == [] {
      assert a + b == a;
    } else {
      var b' := b[..|b| - 1];
      assert (a + b)[..|a + b| - 1] == a + b';
      assert (a + b)[|a + b| - 1] == b[|b| - 1];
      FallbackRepliesAppend(a, b');
    }
  }

  /** At most three replies are kept. */
  const MAX_REPLIES: nat := 3

  /** The reply list of a (trimmed) generated text. */
  function RepliesOf(text: string): (rs: seq<string>)
    ensures |rs| <= MAX_REPLIES
  {
    var fromLines := LineReplies(Split(text, "\n"));
    var all := if fromLines == [] then FallbackReplies(Split(text, ". ")) else fromLines;
    Take(all, MAX_REPLIES)
  }

  /**
   * Replies come from the lines when any line yields one, as a prefix of them in order;
   * only when none does is the fallback used.
   */
  lemma RepliesSource(text: string)
    ensures var fromLines := LineReplies(Split(text, "\n"));
      var rs := RepliesOf(text);
      && (fromLines != [] ==> rs == fromLines[..|rs|] && |rs| == if |fromLines| < 3 then |fromLines| else 3)
      && (fromLines == [] ==> var f := FallbackReplies(Split(text, ". "));
            rs == f[..|rs|] && |rs| == if |f| < 3 then |f| else 3)
  {
  }

  /** Line replies start past their numbering; fallback replies end with `.`; none is empty. */
  lemma RepliesShape(text: string)
    ensures forall r :: r in RepliesOf(text) ==> r != []
    ensures LineReplies(Split(text, "\n")) == [] ==> forall r :: r in RepliesOf(text) ==> r[|r| - 1] == '.'
    ensures LineReplies(Split(text, "\n")) != [] ==> forall r :: r in RepliesOf(text) ==> IsLineReply(r)
  {
    var fromLines := LineReplies(Split(text, "\n"));
    var all := if fromLines == [] then FallbackReplies(Split(text, ". ")) else fromLines;
    LineRepliesShape(Split(text, "\n"));
    FallbackRepliesShape(Split(text, ". "));
    TakeMembers(all, MAX_REPLIES);
  }

  lemma TakeMembers<T>(s: seq<T>, n: nat)
    ensures forall x :: x in Take(s, n) ==> x in s
  {
    forall x | x in Take(s, n) ensures x in s {
      var i :| 0 <= i < |Take(s, n)| && Take(s, n)[i] == x;
      assert s[i] == x;
    }
  }

  /** The replies-parsing block: the line loop, the fallback, and the cut to three. */
  method ParseReplies(text: string) returns (replies: seq<string>)
    ensures replies == RepliesOf(text)
  {
    replies := [];
    var lines := Split(text, "\n");
    var i := 0;
    assert lines[..0] == [];
    while i < |lines|
      invariant 0 <= i <= |lines|
      invariant replies == LineReplies(lines[..i])
    {
      LineRepliesStep(lines, i);
      ghost var before := replies;
      var line := Strip(lines[i]);
      if line != [] {
        line := LStripChars(line, REPLY_PREFIX_CHARS);
        if line != [] {
          replies := replies + [line];
        }
      }
      assert replies == before + LineReplyList(lines[i]);
      assert replies == LineReplies(lines[..i + 1]);
      i := i + 1;
      assert replies == LineReplies(lines[..i]);
    }
    assert lines[..i] == lines;
    if replies == [] {
      replies := FallbackReplies(Split(text, ". "));
    }
    replies := Take(replies, MAX_REPLIES);
  }

  // ---------------------------------------------------------------------------------------
  // The handlers
  // ---------------------------------------------------------------------------------------

  datatype Endpoint = SummarizeEndpoint | ContextEndpoint | RepliesEndpoint

  /** The endpoint's name, which is also its rate-limit endpoint. */
  function EndpointName(e: Endpoint): string {
    match e
    case SummarizeEndpoint => "summarize"
    case ContextEndpoint => "context"
    case RepliesEndpoint => "replies"
  }

  /** Every caller is rate-limited as this one address. */
  const CLIENT_IP: string := "127.0.0.1"

  /** The bucket a handler consumes from: one per endpoint, shared by all callers. */
  function HandlerBucket(e: Endpoint): (k: string)
    ensures k == CLIENT_IP + ":" + EndpointName(e)
  {
    RateLimit.BucketKey(CLIENT_IP, Some(EndpointName(e)))
  }

  /** The three endpoints use three different buckets. */
  lemma HandlerBucketsDistinct(e1: Endpoint, e2: Endpoint)
    ensures HandlerBucket(e1) == HandlerBucket(e2) <==> e1 == e2
  {
    if e1 != e2 {
      assert |HandlerBucket(e1)| != |HandlerBucket(e2)| || HandlerBucket(e1)[10] != HandlerBucket(e2)[10];
    }
  }

  const INVALID_TEXT_DETAIL: string := "Invalid or too short text for processing"
  const INTERNAL_ERROR_DETAIL: string := "Internal server error"

  function FailDetail(e: Endpoint): string {
    match e
    case SummarizeEndpoint => "Failed to generate summary"
    case ContextEndpoint => "Failed to generate context"
    case RepliesEndpoint => "Failed to generate replies"
  }

  /** `f"{x:.0f}"` for any sign. */
  function FormatSeconds(x: real): (s: string)
    ensures s != []
    ensures x >= 0.0 ==>
      && (forall i :: 0 <= i < |s| ==> '0' <= s[i] <= '9')
      && ParseDigits(s) == RoundHalfEven(x)
      && (s == "0" || s[0] != '0')
    ensures x < 0.0 ==>
      && s[0] == '-'
      && (forall i :: 1 <= i < |s| ==> '0' <= s[i] <= '9')
      && ParseDigits(s[1..]) == RoundHalfEven(-x)
  {
    if x < 0.0 then "-" + FormatFixed0(-x) else FormatFixed0(x)
  }

  function RateLimitDetail(retryAfter: real): string {
    "Rate limit exceeded. Try again in " + FormatSeconds(retryAfter) + " seconds"
  }

  /** What a handler answers; processing times are left out. */
  datatype Answer =
    | Refused(status: int, detail: string)
    | SummaryAnswer(summary: string, wordCount: nat)
    | ContextAnswer(context: string, sourceUrl: Option<string>)
    | RepliesAnswer(replies: seq<string>, count: nat)

  /** The normalised request text (mentions kept, URLs kept). */
  function NormalizedText(nfkc: string -> string, detect: string -> Option<string>, q: Schemas.Request): (r: string)
    ensures '\n' !in r && '\t' !in r && |r| <= N.MAX_LENGTH + 3
    ensures q.text == "" ==> r == ""
  {
    N.NormalizedTextShape(nfkc, detect, Some(q.text), false);
    N.Normalize(nfkc, detect, Some(q.text), false).text
  }

  /** The opening line of each endpoint's prompt. */
  function Intro(e: Endpoint): string {
    match e
    case SummarizeEndpoint => Prompts.SUMMARIZE_INTRO
    case ContextEndpoint => Prompts.CONTEXT_INTRO
    case RepliesEndpoint => Prompts.REPLIES_INTRO
  }

  /** The prompt of each endpoint; replies use `conversational` for an empty style. */
  function PromptFor(e: Endpoint, text: string, q: Schemas.Request): (p: string)
    ensures Prompts.TweetLineAt(p, text, |Intro(e)|) && p[..|Intro(e)|] == Intro(e)
    ensures e == SummarizeEndpoint ==> p == Prompts.BuildSummarizePrompt(text, q.persona, q.url, q.author)
    ensures e == ContextEndpoint ==> p == Prompts.BuildContextPrompt(text, q.persona, q.url, q.author)
    ensures e == RepliesEndpoint ==> p == Prompts.BuildRepliesPrompt(text, q.persona, q.style, q.url, q.author)
  {
    Prompts.IgnoredArguments(text, q.persona, q.persona, q.style, "conversational", q.url, q.author);
    match e
    case SummarizeEndpoint => Prompts.BuildSummarizePrompt(text, q.persona, q.url, q.author)
    case ContextEndpoint => Prompts.BuildContextPrompt(text, q.persona, q.url, q.author)
    case RepliesEndpoint =>
      Prompts.BuildRepliesPrompt(text, q.persona, if q.style == "" then "conversational" else q.style, q.url, q.author)
  }

  /**
   * The successful answer built from the generated text: the summary is trimmed and counted in
   * whitespace-separated words, the context is trimmed and carries the request URL, and the
   * replies are parsed from the trimmed text and counted.
   */
  function Respond(e: Endpoint, generated: string, q: Schemas.Request): (a: Answer)
    ensures a.SummaryAnswer? <==> e == SummarizeEndpoint
    ensures a.ContextAnswer? <==> e == ContextEndpoint
    ensures a.RepliesAnswer? <==> e == RepliesEndpoint
    ensures a.SummaryAnswer? ==>
      a.summary == Strip(generated) && NoSpaceEdges(a.summary) && a.wordCount == |Words(a.summary)|
    ensures a.ContextAnswer? ==> a.context == Strip(generated) && NoSpaceEdges(a.context) && a.sourceUrl == q.url
    ensures a.RepliesAnswer? ==> a.replies == RepliesOf(Strip(generated)) && a.count == |a.replies| <= MAX_REPLIES
  {
    var t := Strip(generated);
    match e
    case SummarizeEndpoint => SummaryAnswer(t, |Words(t)|)
    case ContextEndpoint => ContextAnswer(t, q.url)
    case RepliesEndpoint => RepliesAnswer(RepliesOf(t), |RepliesOf(t)|)
  }

  /**
   * The order of a handler's checks, given their outcomes: the rate limit, then the text, then
   * the model's result (`None` when the client raised).
   */
  function Decide(e: Endpoint, allowed: bool, retryAfter: real, textValid: bool,
                  result: Option<LlmClient.Generation>, q: Schemas.Request): (a: Answer)
    ensures !allowed ==> a == Refused(429, RateLimitDetail(retryAfter))
    ensures allowed && !textValid ==> a == Refused(400, INVALID_TEXT_DETAIL)
    ensures allowed && textValid && result.None? ==> a == Refused(500, INTERNAL_ERROR_DETAIL)
    ensures allowed && textValid && result.Some? && !result.value.success ==> a == Refused(500, FailDetail(e))
    ensures allowed && textValid && result.Some? && result.value.success ==> a == Respond(e, result.value.text, q)
  {
    if !allowed then Refused(429, RateLimitDetail(retryAfter))
    else if !textValid then Refused(400, INVALID_TEXT_DETAIL)
    else match result
      case None => Refused(500, INTERNAL_ERROR_DETAIL)
      case Some(g) => if !g.success then Refused(500, FailDetail(e)) else Respond(e, g.text, q)
  }

  /** A handler refuses only with 429, 400 or 500, and only a refusal carries a status. */
  lemma RefusalStatuses(e: Endpoint, allowed: bool, retryAfter: real, textValid: bool,
                        result: Option<LlmClient.Generation>, q: Schemas.Request)
    ensures var a := Decide(e, allowed, retryAfter, textValid, result, q);
      && (a.Refused? ==> a.status == 429 || a.status == 400 || a.status == 500)
      && (a.Refused? <==> !allowed || !textValid || result.None? || !result.value.success)
  {
  }

  /**
   * A whole handler after its rate-limit check: the request text is normalised and checked,
   * the endpoint's prompt is sent to `generate`, and the answer is built.
   */
  function Handle(e: Endpoint, allowed: bool, retryAfter: real, nfkc: string -> string,
                  detect: string -> Option<string>, generate: string -> Option<LlmClient.Generation>,
                  q: Schemas.Request): (a: Answer)
    ensures !allowed ==> a == Refused(429, RateLimitDetail(retryAfter))
    ensures allowed && !N.IsValidText(nfkc, Some(NormalizedText(nfkc, detect, q))) ==> a == Refused(400, INVALID_TEXT_DETAIL)
    ensures a.Refused? ==> a.status == 429 || a.status == 400 || a.status == 500
    ensures !a.Refused? ==>
      var g := generate(PromptFor(e, NormalizedText(nfkc, detect, q), q));
      g.Some? && g.value.success && a == Respond(e, g.value.text, q)
  {
    var text := NormalizedText(nfkc, detect, q);
    RefusalStatuses(e, allowed, retryAfter, N.IsValidText(nfkc, Some(text)), generate(PromptFor(e, text, q)), q);
    Decide(e, allowed, retryAfter, N.IsValidText(nfkc, Some(text)), generate(PromptFor(e, text, q)), q)
  }

  lemma HandleIs(e: Endpoint, allowed: bool, retryAfter: real, nfkc: string -> string,
                  detect: string -> Option<string>, generate: string -> Option<LlmClient.Generation>,
                  q: Schemas.Request, text: string, prompt: string)
    requires text == NormalizedText(nfkc, detect, q) && prompt == PromptFor(e, text, q)
    ensures Handle(e, allowed, retryAfter, nfkc, detect, generate, q)
            == Decide(e, allowed, retryAfter, N.IsValidText(nfkc, Some(text)), generate(prompt), q)
  {
  }

  /**
   * A generation endpoint: `is_allowed` on the shared bucket of the endpoint, then the
   * checks in order, then the answer.
   */
  method HandleRequest(limiter: RateLimit.RateLimiter, e: Endpoint, now: real, nfkc: string -> string,
                       detect: string -> Option<string>, generate: string -> Option<LlmClient.Generation>,
                       q: Schemas.Request) returns (a: Answer)
    requires limiter.Valid()
    modifies limiter, limiter.buckets.Values
    ensures limiter.Valid()
    ensures old(RateLimit.RatesNonZero(limiter.State(), limiter.requests, limiter.window))
    ensures var r := RateLimit.Admit(old(limiter.State()), HandlerBucket(e), 1, now, limiter.requests, limiter.window);
      limiter.State() == r.0 && a == Handle(e, r.1.0, r.1.1, nfkc, detect, generate, q)
  {
    ghost var r := RateLimit.Admit(limiter.State(), HandlerBucket(e), 1, now, limiter.requests, limiter.window);
    var allowed, retryAfter := limiter.IsAllowed(CLIENT_IP, Some(EndpointName(e)), 1, now);
    assert limiter.State() == r.0 && allowed == r.1.0 && retryAfter == r.1.1;
    a := Process(e, allowed, retryAfter, nfkc, detect, generate, q);
  }

  /** The handler's body after the rate-limit call: the checks in order, then the answer. */
  method Process(e: Endpoint, allowed: bool, retryAfter: real, nfkc: string -> string,
                 detect: string -> Option<string>, generate: string -> Option<LlmClient.Generation>,
                 q: Schemas.Request) returns (a: Answer)
    ensures a == Handle(e, allowed, retryAfter, nfkc, detect, generate, q)
  {
    var text := NormalizedText(nfkc, detect, q);
    var prompt := PromptFor(e, text, q);
    HandleIs(e, allowed, retryAfter, nfkc, detect, generate, q, text, prompt);
    if !allowed {
      return Refused(429, RateLimitDetail(retryAfter));
    }
    if !N.IsValidText(nfkc, Some(text)) {
      return Refused(400, INVALID_TEXT_DETAIL);
    }
    var result := generate(prompt);
    if result.None? {
      return Refused(500, INTERNAL_ERROR_DETAIL);
    }
    if !result.value.success {
      return Refused(500, FailDetail(e));
    }
    a := RespondTo(e, result.value.text, q);
  }

  /** Building the answer from a successful generation; the replies go through the parser. */
  method RespondTo(e: Endpoint, generated: string, q: Schemas.Request) returns (a: Answer)
    ensures a == Respond(e, generated, q)
  {
    var t := Strip(generated);
    match e {
      case SummarizeEndpoint =>
        a := SummaryAnswer(t, |Words(t)|);
      case ContextEndpoint =>
        a := ContextAnswer(t, q.url);
      case RepliesEndpoint =>
        var replies := ParseReplies(t);
        a := RepliesAnswer(replies, |replies|);
    }
  }
}
