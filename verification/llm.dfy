/** The analysis backend client of internal/collector/llm.go: one attempt
    against one endpoint (tryEndpoint), the substring classifier that decides
    whether a failed attempt means "this endpoint is down", and the ordered
    fallback over the configured endpoints (Analyze).

    Nothing here performs a request. What a call to endpoint i would come to
    is an input (an `Exchange`); Analyze is a fold over the per-endpoint
    outcomes that only ever looks at the ones it reaches. */
module Llm {
  import opened Wrappers
  import opened Text
  import opened Protocol

  datatype Endpoint = Endpoint(url: string, model: string, apiKey: string)

  const ChatPath := "/chat/completions"
  const MaxTokens := 1024

  /** The chat-completions request tryEndpoint sends (the fixed system
      instruction is not modelled). */
  datatype ChatRequest = ChatRequest(
    url: string, authorization: string, model: string, userContent: string, maxTokens: int)

  /** The body of a 200 reply: not decodable as a chat-completions response,
      decodable with an empty list of choices, or decodable with a first
      choice whose content did or did not decode as an AnalysisResult. */
  datatype ChatReply =
    | Undecodable(error: string)
    | NoChoices
    | FirstChoice(content: Result<AnalysisResult, string>)

  /** What one outbound call came to. `BuildFailed` is a failure before
      anything was sent (encoding the body or building the request);
      `TransportFailed` is an error from the HTTP client, which is always a
      `*url.Error` and so always a `net.Error`; `Responded`
      carries the status code, the raw body (read for non-200 replies) and
      the decoded body (used for 200 replies). */
  datatype Exchange =
    | BuildFailed(error: string)
    | TransportFailed(error: string, latencyMs: nat)
    | Responded(statusCode: int, body: string, reply: ChatReply, latencyMs: nat)

  /** One attempt's outcome as tryEndpoint returns it: a result, or the text
      of an error; a latency either way. */
  datatype Attempt =
    | Succeeded(result: AnalysisResult, latencyMs: nat)
    | Failed(error: string, latencyMs: nat)

  /** The errors Analyze can return. Only `AllUnavailable` wraps the
      ErrLLMUnavailable sentinel. */
  datatype LlmError =
    | NoEndpoints
    | Terminal(text: string)
    | AllUnavailable(last: string)

  /** Analyze's result: the analysis, or an error; the total latency either way. */
  datatype Analysis =
    | Analyzed(result: AnalysisResult, latencyMs: nat)
    | AnalysisFailed(error: LlmError, latencyMs: nat)

  const UnavailableSentinel := "all LLM endpoints unavailable"

  /** The text substrings that mark an error as an availability problem. */
  const UnavailableMarkers: seq<string> := ["connection", "HTTP 502", "HTTP 503", "HTTP 504"]

  // ---------------------------------------------------------------------------
  // Request building

  /** The request URL: the endpoint URL with one trailing "/" removed, then
      the chat-completions path. */
  function RequestUrl(base: string): (r: string)
    ensures HasSuffix(r, ChatPath)
    ensures var stem := r[..|r| - |ChatPath|];
      && (base == stem || base == stem + "/")
      && (HasSuffix(base, "/") <==> base == stem + "/")
  {
    var stem := TrimSuffix(base, "/");
    assert (stem + ChatPath)[..|stem|] == stem;
    assert (stem + ChatPath)[|stem|..] == ChatPath;
    if HasSuffix(base, "/") then
      stem + ChatPath
    else
      assert base == stem;
      assert !HasSuffix(stem + "/", "/") ==> false by { assert (stem + "/")[|stem|..] == "/"; }
      stem + ChatPath
  }

  function BuildRequest(ep: Endpoint, lines: seq<string>): (req: ChatRequest)
  {
    ChatRequest(RequestUrl(ep.url), BearerHeader(ep.apiKey), ep.model, Join(lines, LineSeparator), MaxTokens)
  }

  /** The request carries the endpoint's key after the bearer scheme, and its
      user content gives the lines back when split on newlines (lines never
      contain a newline, since they come from splitting the log on one). */
  lemma RequestCarriesKeyAndLines(ep: Endpoint, lines: seq<string>)
    requires |lines| >= 1
    requires forall i :: 0 <= i < |lines| ==> '\n' !in lines[i]
    ensures var req := BuildRequest(ep, lines);
      && HasPrefix(req.authorization, BearerScheme)
      && TrimPrefix(req.authorization, BearerScheme) == ep.apiKey
      && Split(req.userContent, '\n') == lines
      && req.model == ep.model
  {
    TrimPrefixOfPrepended(BearerScheme, ep.apiKey);
    SplitJoin(lines, '\n');
  }

  // ---------------------------------------------------------------------------
  // One attempt

  /** tryEndpoint: turn what the call came to into an attempt, with the error
      text Go would produce. */
  function TryEndpoint(ex: Exchange): (a: Attempt)
    ensures a.Succeeded? <==> ex.Responded? && ex.statusCode == 200
                              && ex.reply.FirstChoice? && ex.reply.content.Success?
    ensures a.Succeeded? ==> a.result == ex.reply.content.value
    ensures a.latencyMs == if ex.BuildFailed? then 0 else ex.latencyMs
  {
    match ex
    case BuildFailed(e) => Failed(e, 0)
    case TransportFailed(e, lat) => Failed("connection failed: " + e, lat)
    case Responded(code, body, reply, lat) =>
      if code == 502 || code == 503 || code == 504 then
        Failed("HTTP " + IntToDecimal(code), lat)
      else if code != 200 then
        Failed("API error " + IntToDecimal(code) + ": " + body, lat)
      else
        match reply
        case Undecodable(e) => Failed(e, lat)
        case NoChoices => Failed("empty response from API", lat)
        case FirstChoice(Failure(e)) => Failed("failed to parse LLM response: " + e, lat)
        case FirstChoice(Success(r)) => Succeeded(r, lat)
  }

  /** The per-endpoint attempts, in endpoint order. */
  function Attempts(exchanges: seq<Exchange>): (r: seq<Attempt>)
    ensures |r| == |exchanges|
    ensures forall i :: 0 <= i < |r| ==> r[i] == TryEndpoint(exchanges[i])
  {
    seq(|exchanges|, i requires 0 <= i < |exchanges| => TryEndpoint(exchanges[i]))
  }

  // ---------------------------------------------------------------------------
  // Classification

  predicate UnavailableText(s: string) {
    Contains(s, "connection") || Contains(s, "HTTP 502") || Contains(s, "HTTP 503") || Contains(s, "HTTP 504")
  }

  /** isUnavailableErr: no error is not an availability error; an error is one
      when its text contains one of the markers. */
  predicate IsUnavailableErr(err: Option<string>) {
    err.Some? && UnavailableText(err.value)
  }

  /** Analyze moves past this attempt to the next endpoint. */
  predicate Advances(a: Attempt) {
    a.Failed? && IsUnavailableErr(Some(a.error))
  }

  /** IsUnavailable: the error wraps the all-unavailable sentinel. */
  predicate IsUnavailable(e: LlmError) {
    e.AllUnavailable?
  }

  /** The text of each error, as `err.Error()` would print it. */
  function ErrorText(e: LlmError): (s: string)
    ensures e.AllUnavailable? ==> HasPrefix(s, UnavailableSentinel)
  {
    match e
    case NoEndpoints => "no LLM endpoints configured"
    case Terminal(t) => t
    case AllUnavailable(last) =>
      assert (UnavailableSentinel + ": " + last)[..|UnavailableSentinel|] == UnavailableSentinel;
      UnavailableSentinel + ": " + last
  }

  /** The classifier against an independent reading: some marker occurs at
      some position of the text. Substring matching, so an "API error" whose
      body mentions a connection counts too. */
  lemma IsUnavailableErrMeaning(err: Option<string>)
    ensures err.None? ==> !IsUnavailableErr(err)
    ensures err.Some? ==>
      (IsUnavailableErr(err) <==>
        exists m, i :: m in UnavailableMarkers && OccursAt(err.value, m, i))
  {
    if err.Some? {
      var s := err.value;
      ContainsIffOccurs(s, "connection");
      ContainsIffOccurs(s, "HTTP 502");
      ContainsIffOccurs(s, "HTTP 503");
      ContainsIffOccurs(s, "HTTP 504");
      if exists m, i :: m in UnavailableMarkers && OccursAt(s, m, i) {
        var m, i :| m in UnavailableMarkers && OccursAt(s, m, i);
        assert m == "connection" || m == "HTTP 502" || m == "HTTP 503" || m == "HTTP 504";
      }
      if IsUnavailableErr(err) {
        if Contains(s, "connection") {
          var i :| OccursAt(s, "connection", i);
          assert UnavailableMarkers[0] == "connection";
        } else if Contains(s, "HTTP 502") {
          var i :| OccursAt(s, "HTTP 502", i);
          assert UnavailableMarkers[1] == "HTTP 502";
        } else if Contains(s, "HTTP 503") {
          var i :| OccursAt(s, "HTTP 503", i);
          assert UnavailableMarkers[2] == "HTTP 503";
        } else {
          var i :| OccursAt(s, "HTTP 504", i);
          assert UnavailableMarkers[3] == "HTTP 504";
        }
      }
    }
  }

  /** A text that starts with a prefix holding neither 'c' nor 'H' is an
      availability error exactly when the rest is. */
  lemma UnavailableAfterPrefix(p: string, s: string)
    requires 'c' !in p && 'H' !in p
    ensures UnavailableText(p + s) <==> UnavailableText(s)
  {
    ContainsAfterForeignPrefix(p, s, "connection");
    ContainsAfterForeignPrefix(p, s, "HTTP 502");
    ContainsAfterForeignPrefix(p, s, "HTTP 503");
    ContainsAfterForeignPrefix(p, s, "HTTP 504");
  }

  lemma GatewayStatusText(code: int)
    requires code == 502 || code == 503 || code == 504
    ensures UnavailableText("HTTP " + IntToDecimal(code))
  {
    var d := if code == 502 then '2' else if code == 503 then '3' else '4';
    assert NatToDecimal(code / 10) == NatToDecimal(50) == ['5', '0'];
    assert IntToDecimal(code) == ['5', '0', d];
    ContainsItsPrefix("HTTP 50" + [d], "");
    assert "HTTP " + IntToDecimal(code) == "HTTP 50" + [d] + "";
  }

  lemma NetworkFailureAdvances(e: string, lat: nat)
    ensures Advances(TryEndpoint(TransportFailed(e, lat)))
  {
    ContainsItsPrefix("connection", " failed: " + e);
    assert "connection failed: " + e == "connection" + (" failed: " + e);
  }

  lemma OtherStatusClassifiedByBody(code: int, body: string, reply: ChatReply, lat: nat)
    requires code !in {200, 502, 503, 504}
    ensures var a := TryEndpoint(Responded(code, body, reply, lat));
      a.Failed? && (Advances(a) <==> UnavailableText(body))
  {
    var p := "API error " + IntToDecimal(code) + ": ";
    assert 'c' !in IntToDecimal(code) && 'H' !in IntToDecimal(code);
    UnavailableAfterPrefix(p, body);
    assert "API error " + IntToDecimal(code) + ": " + body == p + body;
  }

  lemma EmptyChoicesTerminal(body: string, lat: nat)
    ensures var a := TryEndpoint(Responded(200, body, NoChoices, lat));
      a.Failed? && !Advances(a)
  {
    EmptyChoicesAttempt(body, lat);
    EmptyResponseNotUnavailable();
  }

  lemma EmptyChoicesAttempt(body: string, lat: nat)
    ensures TryEndpoint(Responded(200, body, NoChoices, lat)) == Failed("empty response from API", lat)
  {
  }

  /** The empty-choices text holds no marker: it has neither 'c' nor 'H'. */
  lemma EmptyResponseNotUnavailable()
    ensures !UnavailableText("empty response from API")
  {
    var t := "empty response from API";
    assert forall i | 0 <= i < |t| :: t[i] != 'c' && t[i] != 'H';
    NotContainsForeign(t, "connection");
    NotContainsForeign(t, "HTTP 502");
    NotContainsForeign(t, "HTTP 503");
    NotContainsForeign(t, "HTTP 504");
  }

  lemma BadContentClassifiedByDecoder(body: string, e: string, lat: nat)
    ensures var a := TryEndpoint(Responded(200, body, FirstChoice(Failure(e)), lat));
      a.Failed? && (Advances(a) <==> UnavailableText(e))
  {
    UnavailableAfterPrefix("failed to parse LLM response: ", e);
  }

  /** What each kind of outcome comes to: the error text, and whether the
      fallback moves on. Transport failures and gateway statuses always move
      on; an empty choice list never does; a build failure or an undecodable
      reply moves on only if its error text happens to contain a marker;
      another status only if its body does; a bad first choice only if the
      decoder's message does. */
  lemma TryEndpointClassification(ex: Exchange)
    ensures var a := TryEndpoint(ex);
      && (ex.BuildFailed? ==> a == Failed(ex.error, 0) && (Advances(a) <==> UnavailableText(ex.error)))
      && (ex.TransportFailed? ==> a == Failed("connection failed: " + ex.error, ex.latencyMs) && Advances(a))
      && (ex.Responded? && ex.statusCode in {502, 503, 504} ==>
            a == Failed("HTTP " + IntToDecimal(ex.statusCode), ex.latencyMs) && Advances(a))
      && (ex.Responded? && ex.statusCode !in {200, 502, 503, 504} ==>
            && a == Failed("API error " + IntToDecimal(ex.statusCode) + ": " + ex.body, ex.latencyMs)
            && (Advances(a) <==> UnavailableText(ex.body)))
      && (ex.Responded? && ex.statusCode == 200 && ex.reply.Undecodable? ==>
            a == Failed(ex.reply.error, ex.latencyMs) && (Advances(a) <==> UnavailableText(ex.reply.error)))
      && (ex.Responded? && ex.statusCode == 200 && ex.reply.NoChoices? ==>
            a == Failed("empty response from API", ex.latencyMs) && !Advances(a))
      && (ex.Responded? && ex.statusCode == 200 && ex.reply.FirstChoice? && ex.reply.content.Failure? ==>
            && a == Failed("failed to parse LLM response: " + ex.reply.content.error, ex.latencyMs)
            && (Advances(a) <==> UnavailableText(ex.reply.content.error)))
  {
    match ex
    case BuildFailed(_) =>
    case TransportFailed(e, lat) =>
      NetworkFailureAdvances(e, lat);
    case Responded(code, body, reply, lat) =>
      if code in {502, 503, 504} {
        GatewayStatusText(code);
      } else if code != 200 {
        OtherStatusClassifiedByBody(code, body, reply, lat);
      } else {
        match reply
        case Undecodable(_) =>
        case NoChoices =>
          EmptyChoicesTerminal(body, lat);
        case FirstChoice(Failure(e)) =>
          BadContentClassifiedByDecoder(body, e, lat);
        case FirstChoice(Success(_)) =>
      }
  }

  // ---------------------------------------------------------------------------
  // Ordered fallback

  /** Sum of the latencies of a run of attempts. */
  function SumLatency(a: seq<Attempt>): (total: nat)
  {
    if |a| == 0 then 0 else a[0].latencyMs + SumLatency(a[1..])
  }

  /** The loop of Analyze from some endpoint on, with the latency so far and
      the last error seen. */
  function Walk(rest: seq<Attempt>, total: nat, lastErr: string): (r: Analysis)
    decreases |rest|
  {
    if |rest| == 0 then AnalysisFailed(AllUnavailable(lastErr), total)
    else
      var t := total + rest[0].latencyMs;
      match rest[0]
      case Succeeded(r, _) => Analyzed(r, t)
      case Failed(e, _) =>
        if IsUnavailableErr(Some(e)) then Walk(rest[1..], t, e) else AnalysisFailed(Terminal(e), t)
  }

  /** Analyze: try the endpoints in order from the first. `attempts[i]` is
      what endpoint i would give if it were tried. */
  function Analyze(attempts: seq<Attempt>): (r: Analysis)
  {
    if |attempts| == 0 then AnalysisFailed(NoEndpoints, 0) else Walk(attempts, 0, "")
  }

  /** The result of a chain of calls: each endpoint's exchange turned into an
      attempt, then the fallback over them. */
  function AnalyzeExchanges(exchanges: seq<Exchange>): (r: Analysis)
  {
    Analyze(Attempts(exchanges))
  }

  lemma {:induction false} WalkStops(rest: seq<Attempt>, total: nat, lastErr: string, k: nat)
    requires k < |rest|
    requires forall j :: 0 <= j < k ==> Advances(rest[j])
    requires !Advances(rest[k])
    ensures Walk(rest, total, lastErr) ==
      if rest[k].Succeeded? then Analyzed(rest[k].result, total + SumLatency(rest[..k + 1]))
      else AnalysisFailed(Terminal(rest[k].error), total + SumLatency(rest[..k + 1]))
    decreases k
  {
    assert rest[..k + 1][1..] == rest[1..][..k];
    if k == 0 {
      assert SumLatency(rest[..1]) == rest[0].latencyMs + SumLatency([]);
    } else {
      assert Advances(rest[0]);
      WalkStops(rest[1..], total + rest[0].latencyMs, rest[0].error, k - 1);
    }
  }

  lemma {:induction false} WalkExhausts(rest: seq<Attempt>, total: nat, lastErr: string)
    requires |rest| > 0
    requires forall j :: 0 <= j < |rest| ==> Advances(rest[j])
    ensures rest[|rest| - 1].Failed?
    ensures Walk(rest, total, lastErr) ==
      AnalysisFailed(AllUnavailable(rest[|rest| - 1].error), total + SumLatency(rest))
    decreases |rest|
  {
    assert Advances(rest[0]);
    if |rest| == 1 {
      assert SumLatency(rest) == rest[0].latencyMs + SumLatency([]);
    } else {
      WalkExhausts(rest[1..], total + rest[0].latencyMs, rest[0].error);
    }
  }

  /** No endpoints configured: a configuration error, zero latency, nothing tried. */
  lemma EmptyChainIsConfigError()
    ensures Analyze([]) == AnalysisFailed(NoEndpoints, 0)
    ensures !IsUnavailable(Analyze([]).error)
    ensures ErrorText(Analyze([]).error) == "no LLM endpoints configured"
  {
  }

  /** The first attempt that does not move on decides the result: its
      analysis if it succeeded, its own error otherwise; the latency is the
      sum over that attempt and every one before it. */
  lemma StopsAtFirstNonAdvancing(a: seq<Attempt>, k: nat)
    requires k < |a|
    requires forall j :: 0 <= j < k ==> Advances(a[j])
    requires !Advances(a[k])
    ensures Analyze(a) ==
      if a[k].Succeeded? then Analyzed(a[k].result, SumLatency(a[..k + 1]))
      else AnalysisFailed(Terminal(a[k].error), SumLatency(a[..k + 1]))
  {
    WalkStops(a, 0, "", k);
  }

  /** Every endpoint unavailable: the all-unavailable error wrapping the last
      endpoint's error, with the latency of all of them. */
  lemma ExhaustsWhenAllAdvance(a: seq<Attempt>)
    requires |a| > 0
    requires forall j :: 0 <= j < |a| ==> Advances(a[j])
    ensures a[|a| - 1].Failed?
    ensures Analyze(a) == AnalysisFailed(AllUnavailable(a[|a| - 1].error), SumLatency(a))
    ensures ErrorText(Analyze(a).error) == UnavailableSentinel + ": " + a[|a| - 1].error
  {
    WalkExhausts(a, 0, "");
  }

  /** Endpoints after the deciding one are never attempted: replacing
      whatever they would give changes nothing. */
  lemma LaterEndpointsNotAttempted(a: seq<Attempt>, k: nat, later: seq<Attempt>)
    requires k < |a|
    requires forall j :: 0 <= j < k ==> Advances(a[j])
    requires !Advances(a[k])
    ensures Analyze(a[..k + 1] + later) == Analyze(a)
  {
    var b := a[..k + 1] + later;
    assert b[..k + 1] == a[..k + 1];
    assert forall j :: 0 <= j <= k ==> b[j] == a[j];
    StopsAtFirstNonAdvancing(a, k);
    StopsAtFirstNonAdvancing(b, k);
  }

  lemma {:induction false} WalkUnavailableIff(rest: seq<Attempt>, total: nat, lastErr: string)
    ensures (Walk(rest, total, lastErr).AnalysisFailed? && IsUnavailable(Walk(rest, total, lastErr).error))
      <==> forall j :: 0 <= j < |rest| ==> Advances(rest[j])
    decreases |rest|
  {
    if |rest| > 0 {
      WalkUnavailableIff(rest[1..], total + rest[0].latencyMs, if rest[0].Failed? then rest[0].error else "");
      if forall j :: 0 <= j < |rest[1..]| ==> Advances(rest[1..][j]) {
        if Advances(rest[0]) {
          forall j | 0 <= j < |rest| ensures Advances(rest[j]) {
            if j > 0 { assert rest[j] == rest[1..][j - 1]; }
          }
        }
      }
    }
  }

  /** The error is the all-unavailable one exactly when there was at least
      one endpoint and every endpoint failed as unavailable. */
  lemma UnavailableIffAllAdvance(a: seq<Attempt>)
    ensures (Analyze(a).AnalysisFailed? && IsUnavailable(Analyze(a).error))
      <==> (|a| > 0 && forall j :: 0 <= j < |a| ==> Advances(a[j]))
  {
    if |a| > 0 {
      WalkUnavailableIff(a, 0, "");
    }
  }
}
