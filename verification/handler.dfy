/** The ingest endpoint of internal/collector/handler.go (IngestHandler.ServeHTTP):
    a fixed chain of checks on the request, then the analysis, then exactly
    one insert into the store.

    The HTTP request is reduced to what the checks look at; JSON decoding
    is an input (`payload`); the analysis backend's per-endpoint outcomes,
    the server clock and the store engine's verdict on the insert are the
    `Env`. */
module Handler {
  import opened Wrappers
  import opened Text
  import opened Rfc3339
  import opened Protocol
  import opened Llm
  import opened Db

  /** Go's int64, the type of the size limit and of the declared length. */
  const MinInt64: int := -0x8000_0000_0000_0000
  const MaxInt64: int := 0x7fff_ffff_ffff_ffff
  type Int64 = x: int | MinInt64 <= x <= MaxInt64

  /** The handler's configuration: the shared key, the body size limit, and
      whether an analysis client exists at all. */
  datatype Config = Config(apiKey: string, maxPayloadBytes: Int64, llmConfigured: bool)

  /** What the handler reads from one request: the Authorization header
      ("" when absent), the declared Content-Length (-1 when unknown), the
      body stream, and what decoding the bytes read gives. The stream yields
      `bodyLength` bytes and then ends, with an error instead of EOF when
      `streamFails`; each read that reaches the error delivers no bytes. */
  datatype Request = Request(
    authorization: string,
    contentLength: Int64,
    bodyLength: nat,
    streamFails: bool,
    payload: Option<DmesgDelta>)

  /** Everything outside the handler that decides the outcome: what each
      configured endpoint would give, the server clock, the store engine's
      failure on insert if any, and the store's clock. */
  datatype Env = Env(attempts: seq<Attempt>, now: Clock, insertError: Option<string>, createdAt: UtcClock)

  /** The reply: an http.Error with its code and text, the "skipped" body,
      or the stored status with the analysis latency. */
  datatype Reply =
    | ErrorReply(code: int, message: string)
    | Skipped
    | Recorded(status: string, latencyMs: nat)

  /** The reply, the store afterwards, and whether the analysis was run. */
  datatype Served = Served(reply: Reply, db: Store, analysed: bool)

  function Code(r: Reply): (code: int) {
    match r
    case ErrorReply(code, _) => code
    case Skipped => 200
    case Recorded(_, _) => 200
  }

  // ---------------------------------------------------------------------------
  // The checks

  /** The header has the bearer scheme and what follows it is the key. */
  predicate Authorized(header: string, key: string) {
    HasPrefix(header, BearerScheme) && TrimPrefix(header, BearerScheme) == key
  }

  const TwoTo64: int := 0x1_0000_0000_0000_0000

  /** Go's `+` on int64: the exact sum reduced into the int64 range. */
  function AddInt64(a: Int64, b: Int64): (r: Int64)
    ensures (r - (a + b)) % TwoTo64 == 0
  {
    (a + b - MinInt64) % TwoTo64 + MinInt64
  }

  /** The limit handed to io.LimitReader: max+1 in int64 arithmetic. */
  function ReadLimit(max: Int64): (limit: Int64)
    ensures (limit - (max + 1)) % TwoTo64 == 0
  {
    AddInt64(max, 1)
  }

  /** Whether io.ReadAll meets the stream's error. The limited reader reports
      EOF without touching the stream once its limit is used up, and at once
      when the limit is not positive, so the error is reached only when the
      whole stream lies below a positive limit. */
  predicate ReadHitsError(req: Request, max: Int64) {
    var limit := ReadLimit(max);
    req.streamFails && 0 < limit && req.bodyLength < limit
  }

  /** How many bytes reading through that limit yields: nothing when the
      limit is not positive, otherwise the body up to the limit. */
  function ReadLength(bodyLength: nat, max: Int64): (n: nat)
    ensures n <= bodyLength
  {
    var limit := ReadLimit(max);
    if limit <= 0 then 0
    else if bodyLength <= limit then bodyLength
    else limit
  }

  /** The status and issues to store, and the latency to report, given
      whether there is an analysis client and what each endpoint would give. */
  function Outcome(llmConfigured: bool, attempts: seq<Attempt>): (o: (string, seq<Issue>, nat))
    ensures !llmConfigured ==> o == (StatusError, [], 0)
    ensures llmConfigured ==> o.2 == Analyze(attempts).latencyMs
    ensures llmConfigured && Analyze(attempts).Analyzed? ==>
      o.0 == Analyze(attempts).result.status && o.1 == Analyze(attempts).result.issues
    ensures llmConfigured && Analyze(attempts).AnalysisFailed? ==>
      && o.1 == []
      && (o.0 == StatusLlmUnavailable || o.0 == StatusError)
      && (o.0 == StatusLlmUnavailable <==>
            |attempts| > 0 && forall j :: 0 <= j < |attempts| ==> Advances(attempts[j]))
    ensures llmConfigured && |attempts| > 0 && (forall j :: 0 <= j < |attempts| ==> Advances(attempts[j])) ==>
      o.0 == StatusLlmUnavailable && o.2 == SumLatency(attempts)
  {
    if !llmConfigured then (StatusError, [], 0)
    else
      UnavailableIffAllAdvance(attempts);
      var allDown := |attempts| > 0 && forall j :: 0 <= j < |attempts| ==> Advances(attempts[j]);
      assert allDown ==> Analyze(attempts).latencyMs == SumLatency(attempts) by {
        if allDown { ExhaustsWhenAllAdvance(attempts); }
      }
      match Analyze(attempts)
      case Analyzed(r, lat) => (r.status, r.issues, lat)
      case AnalysisFailed(e, lat) =>
        (if IsUnavailable(e) then StatusLlmUnavailable else StatusError, [], lat)
  }

  /** The record built for a delta that got past the checks. The id and
      creation time are the zero values; the store assigns both. */
  function Record(delta: DmesgDelta, llmConfigured: bool, attempts: seq<Attempt>, now: Clock): (s: StoredResult)
    ensures s.timestamp == now && s.hostname == delta.hostname
    ensures s.rawDmesg == Join(delta.lines, LineSeparator)
    ensures llmConfigured ==> s.apiLatencyMs == Analyze(attempts).latencyMs
    ensures !llmConfigured ==> s.status == StatusError && s.issues == [] && s.apiLatencyMs == 0
  {
    var o := Outcome(llmConfigured, attempts);
    StoredResult(0, now, delta.hostname, o.0, o.1, Join(delta.lines, LineSeparator), o.2, ZeroTime)
  }

  /** ServeHTTP. An empty read never decodes. */
  function ServeHttp(h: Config, req: Request, env: Env, db: Store): (s: Served)
    ensures s.db == db || (|s.db.rows| == |db.rows| + 1 && s.db.rows[..|db.rows|] == db.rows)
    ensures s.reply.Recorded? <==> s.db != db
    ensures s.analysed ==> h.llmConfigured
    ensures Code(s.reply) in {200, 400, 401, 413, 500}
  {
    if !Authorized(req.authorization, h.apiKey) then
      Served(ErrorReply(401, "Unauthorized"), db, false)
    else if req.contentLength > h.maxPayloadBytes then
      Served(ErrorReply(413, "Request Entity Too Large"), db, false)
    else if ReadHitsError(req, h.maxPayloadBytes) then
      Served(ErrorReply(400, "Failed to read body"), db, false)
    else if ReadLength(req.bodyLength, h.maxPayloadBytes) > h.maxPayloadBytes then
      Served(ErrorReply(413, "Request Entity Too Large"), db, false)
    else if ReadLength(req.bodyLength, h.maxPayloadBytes) == 0 || req.payload.None? then
      Served(ErrorReply(400, "Invalid JSON"), db, false)
    else if |req.payload.value.lines| == 0 then
      Served(Skipped, db, false)
    else
      var delta := req.payload.value;
      var stored := Record(delta, h.llmConfigured, env.attempts, env.now);
      match InsertResult(db, stored, env.insertError, env.createdAt)
      case Failure(_) => Served(ErrorReply(500, "Internal error"), db, h.llmConfigured)
      case Success(db') =>
        assert |db'.rows| != |db.rows|;
        Served(Recorded(stored.status, stored.apiLatencyMs), db', h.llmConfigured)
  }

  /** A request that gets past every check: authorized, within the size
      limit both as declared and as read, readable, with something read that
      decodes to a delta with lines. */
  predicate Admitted(h: Config, req: Request) {
    && Authorized(req.authorization, h.apiKey)
    && req.contentLength <= h.maxPayloadBytes
    && !ReadHitsError(req, h.maxPayloadBytes)
    && 0 < ReadLength(req.bodyLength, h.maxPayloadBytes) <= h.maxPayloadBytes
    && req.payload.Some?
    && |req.payload.value.lines| > 0
  }

  // ---------------------------------------------------------------------------
  // Lemmas

  /** The key check accepts exactly the header the agent sends. */
  lemma AuthorizedIff(header: string, key: string)
    ensures Authorized(header, key) <==> header == BearerHeader(key)
  {
    if header == BearerHeader(key) {
      TrimPrefixOfPrepended(BearerScheme, key);
    }
  }

  /** Below the largest limit, the capped read flags a body as too large
      exactly when it is (at most max+1 bytes are read, and that is over the
      limit iff the body is), and a body within the limit is read whole. At
      the largest limit max+1 wraps and nothing is read. */
  lemma CappedReadDetectsOversize(bodyLength: nat, max: Int64)
    ensures max < MaxInt64 ==> (ReadLength(bodyLength, max) > max <==> bodyLength > max)
    ensures max < MaxInt64 && ReadLength(bodyLength, max) <= max ==> ReadLength(bodyLength, max) == bodyLength
    ensures max == MaxInt64 ==> ReadLength(bodyLength, max) == 0
  {
  }

  /** The int64 sum max+1 is max+1 itself below the largest int64, and the
      most negative int64 at it. */
  lemma ReadLimitValue(max: Int64)
    ensures max < MaxInt64 ==> ReadLimit(max) == max + 1
    ensures max == MaxInt64 ==> ReadLimit(max) == MinInt64
  {
  }

  /** A request past the key and declared-size checks is answered 400
      "Failed to read body" exactly when the read meets the stream's error,
      which is exactly when the stream fails, the limit is below the largest
      int64, and the whole stream is within it. A stream failing beyond
      max+1 bytes, or under the wrapped limit, is never seen to fail. */
  lemma ReadErrorReply(h: Config, req: Request, env: Env, db: Store)
    requires Authorized(req.authorization, h.apiKey) && req.contentLength <= h.maxPayloadBytes
    ensures ReadHitsError(req, h.maxPayloadBytes) <==>
      req.streamFails && req.bodyLength <= h.maxPayloadBytes < MaxInt64
    ensures ServeHttp(h, req, env, db).reply == ErrorReply(400, "Failed to read body") <==>
      ReadHitsError(req, h.maxPayloadBytes)
    ensures ReadHitsError(req, h.maxPayloadBytes) ==>
      ServeHttp(h, req, env, db) == Served(ErrorReply(400, "Failed to read body"), db, false)
  {
    ReadLimitValue(h.maxPayloadBytes);
  }

  /** A wrong or missing key: 401, no analysis, nothing stored. */
  lemma UnauthorizedHasNoEffect(h: Config, req: Request, env: Env, db: Store)
    requires !Authorized(req.authorization, h.apiKey)
    ensures ServeHttp(h, req, env, db) == Served(ErrorReply(401, "Unauthorized"), db, false)
  {
  }

  /** Too large, as declared or as read: 413, nothing analysed or stored,
      and the size is checked before the body is decoded, so the payload
      does not matter. A body is too large as read only below the largest
      limit; at that limit see MaximalLimitReadsNothing. */
  lemma OversizeRejectedBeforeDecoding(h: Config, req: Request, env: Env, db: Store, other: Option<DmesgDelta>)
    requires Authorized(req.authorization, h.apiKey)
    requires req.contentLength > h.maxPayloadBytes
          || (req.bodyLength > h.maxPayloadBytes && h.maxPayloadBytes < MaxInt64)
    ensures ServeHttp(h, req, env, db) == Served(ErrorReply(413, "Request Entity Too Large"), db, false)
    ensures ServeHttp(h, req.(payload := other), env, db) == ServeHttp(h, req, env, db)
  {
    CappedReadDetectsOversize(req.bodyLength, h.maxPayloadBytes);
  }

  /** With the size limit at the largest int64, max+1 wraps to a negative
      limit and the body is never touched, so every authorized request is
      answered 400 "Invalid JSON", whatever its body and whether or not its
      stream fails: nothing is ever analysed or stored. */
  lemma MaximalLimitReadsNothing(h: Config, req: Request, env: Env, db: Store)
    requires h.maxPayloadBytes == MaxInt64
    requires Authorized(req.authorization, h.apiKey)
    ensures ServeHttp(h, req, env, db) == Served(ErrorReply(400, "Invalid JSON"), db, false)
  {
    CappedReadDetectsOversize(req.bodyLength, h.maxPayloadBytes);
  }

  /** A body that does not decode: 400, nothing analysed or stored. */
  lemma InvalidJsonRejected(h: Config, req: Request, env: Env, db: Store)
    requires Authorized(req.authorization, h.apiKey)
    requires req.contentLength <= h.maxPayloadBytes && !ReadHitsError(req, h.maxPayloadBytes)
    requires req.bodyLength <= h.maxPayloadBytes
    requires req.payload.None?
    ensures ServeHttp(h, req, env, db) == Served(ErrorReply(400, "Invalid JSON"), db, false)
  {
    CappedReadDetectsOversize(req.bodyLength, h.maxPayloadBytes);
  }

  /** A delta without lines: "skipped", nothing analysed or stored. The body
      holding it is not empty, since an empty body does not decode. */
  lemma EmptyDeltaSkipped(h: Config, req: Request, env: Env, db: Store)
    requires Authorized(req.authorization, h.apiKey)
    requires req.contentLength <= h.maxPayloadBytes && !ReadHitsError(req, h.maxPayloadBytes)
    requires 0 < req.bodyLength <= h.maxPayloadBytes < MaxInt64
    requires req.payload.Some? && |req.payload.value.lines| == 0
    ensures ServeHttp(h, req, env, db) == Served(Skipped, db, false)
  {
    CappedReadDetectsOversize(req.bodyLength, h.maxPayloadBytes);
  }

  /** Only an admitted request reaches the analysis and the store. */
  lemma OnlyAdmittedRequestsHaveEffects(h: Config, req: Request, env: Env, db: Store)
    requires !Admitted(h, req)
    ensures ServeHttp(h, req, env, db).db == db
    ensures !ServeHttp(h, req, env, db).analysed
    ensures !ServeHttp(h, req, env, db).reply.Recorded?
  {
  }

  /** An admitted request yields exactly one record whatever the analysis
      came to: the delta's host, its lines joined by newlines, the server's
      clock rather than the delta's, and the analysis latency (0 without a
      client). A store failure gives 500 and leaves the table as it was. */
  lemma AdmittedRequestStoresOneRecord(h: Config, req: Request, env: Env, db: Store)
    requires Admitted(h, req)
    ensures var s := ServeHttp(h, req, env, db);
      var delta := req.payload.value;
      && s.analysed == h.llmConfigured
      && (env.insertError.Some? ==> s == Served(ErrorReply(500, "Internal error"), db, h.llmConfigured))
      && (env.insertError.None? ==>
            && |s.db.rows| == |db.rows| + 1
            && s.db.rows[..|db.rows|] == db.rows
            && var row := s.db.rows[|db.rows|];
            && row.hostname == delta.hostname
            && row.rawDmesg == Join(delta.lines, LineSeparator)
            && row.timestamp == Format(env.now)
            && row.apiLatencyMs == (if h.llmConfigured then Analyze(env.attempts).latencyMs else 0)
            && s.reply == Recorded(row.status, row.apiLatencyMs as nat))
  {
  }

  /** The stored status. With no client it is "error"; with one, it is the
      backend's status on success, and on failure "llm_unavailable" exactly
      when there was at least one endpoint and each failed as unavailable,
      "error" otherwise. The latency stored and reported is the one Analyze
      returned, on failure as on success. */
  lemma StoredStatus(h: Config, req: Request, env: Env, db: Store)
    requires Admitted(h, req) && env.insertError.None?
    ensures var s := ServeHttp(h, req, env, db);
      var a := Analyze(env.attempts);
      && s.reply.Recorded?
      && (!h.llmConfigured ==> s.reply == Recorded(StatusError, 0))
      && (h.llmConfigured ==>
            s.reply.latencyMs == a.latencyMs && s.db.rows[|db.rows|].apiLatencyMs == a.latencyMs)
      && (h.llmConfigured && a.Analyzed? ==>
            s.reply == Recorded(a.result.status, a.latencyMs)
            && s.db.rows[|db.rows|].issues == a.result.issues)
      && (h.llmConfigured && a.AnalysisFailed? ==>
            && s.db.rows[|db.rows|].issues == []
            && (s.reply.status == StatusLlmUnavailable <==>
                  |env.attempts| > 0 && forall j :: 0 <= j < |env.attempts| ==> Advances(env.attempts[j]))
            && (s.reply.status != StatusLlmUnavailable ==> s.reply.status == StatusError))
  {
  }

  /** The timestamp the agent put in the delta plays no part. */
  lemma ClientTimestampIgnored(h: Config, req: Request, env: Env, db: Store, t: Clock)
    requires req.payload.Some?
    ensures ServeHttp(h, req.(payload := Some(req.payload.value.(timestamp := t))), env, db)
         == ServeHttp(h, req, env, db)
  {
  }
}
