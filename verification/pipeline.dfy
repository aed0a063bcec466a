/** How the two halves meet: the request an agent's collection step sends,
    as the collector's ingest endpoint handles it. */
module Pipeline {
  import opened Wrappers
  import opened Text
  import opened Rfc3339
  import opened Protocol
  import opened Db
  import opened Dmesg
  import opened Agent
  import opened Handler

  /** The request the collector sees for what the agent sent, given how the
      body's size came out. */
  function Arrival(out: Outbound, bodyLength: nat): (req: Request)
    requires bodyLength <= MaxInt64
  {
    Request(out.authorization, bodyLength, bodyLength, false, Some(out.delta))
  }

  /** The collector accepts the agent's header exactly when both were given
      the same key. */
  lemma AgentHeaderAccepted(agentKey: string, collectorKey: string)
    ensures Authorized(BearerHeader(agentKey), collectorKey) <==> agentKey == collectorKey
  {
    AuthorizedIff(BearerHeader(agentKey), collectorKey);
    if BearerHeader(agentKey) == BearerHeader(collectorKey) {
      TrimPrefixOfPrepended(BearerScheme, agentKey);
      TrimPrefixOfPrepended(BearerScheme, collectorKey);
    }
  }

  /** A batch the agent sends, arriving within the size limit at a
      collector with the same key whose store accepts the insert, becomes
      one new row holding the agent's host name and the sent lines joined by
      newlines; the collector answers 200, which the agent takes as
      delivered. */
  lemma SentBatchIsStored(
    cfg: AgentConfig, state: StateFile, lines: seq<string>, parse: TimeParser, now: Clock,
    reply: CollectorReply, write: StateWrite,
    h: Config, env: Env, db: Store, bodyLength: nat)
    requires !state.Unreadable?
    requires Collect(cfg, state, Success(lines), parse, now, reply, write).sent.Some?
    requires h.apiKey == cfg.apiKey
    requires 0 < bodyLength <= h.maxPayloadBytes < MaxInt64
    requires env.insertError.None?
    ensures var out := Collect(cfg, state, Success(lines), parse, now, reply, write).sent.value;
      var served := ServeHttp(h, Arrival(out, bodyLength), env, db);
      var sentLines := CapLines(FilterNewLines(lines, LastSeen(state), parse).0).0;
      && Code(served.reply) == 200
      && Send(Replied(Code(served.reply), "")).None?
      && |served.db.rows| == |db.rows| + 1
      && served.db.rows[|db.rows|].hostname == cfg.hostname
      && served.db.rows[|db.rows|].rawDmesg == Join(sentLines, LineSeparator)
  {
    var out := Collect(cfg, state, Success(lines), parse, now, reply, write).sent.value;
    SentDelta(cfg, state, lines, parse, now, reply, write);
    AgentHeaderAccepted(cfg.apiKey, h.apiKey);
    CappedReadDetectsOversize(bodyLength, h.maxPayloadBytes);
    assert Admitted(h, Arrival(out, bodyLength));
    AdmittedRequestStoresOneRecord(h, Arrival(out, bodyLength), env, db);
  }
}
