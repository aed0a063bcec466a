/** One collection step of the agent (Agent.collect in internal/agent/agent.go)
    and its check of the collector's answer (Agent.send).

    The step reads the last-sent marker from the state file, takes the
    current kernel log, keeps the lines newer than the marker, caps them,
    sends them, and only then writes the newest kept timestamp back as the
    marker. The state file's contents, the log, the collector's answer and
    the outcome of writing the state file are inputs. */
module Agent {
  import opened Wrappers
  import opened Text
  import opened Rfc3339
  import opened Protocol
  import opened Dmesg

  datatype AgentConfig = AgentConfig(hostname: string, apiKey: string)

  /** The state file as the agent finds it: absent, unreadable, holding text
      that is not a timestamp, or holding a marker. */
  datatype StateFile = Missing | Unreadable(error: string) | Corrupt | Holds(marker: Instant)

  /** What sending came to: no HTTP answer (encoding, request or transport
      failure), or the collector's status code and body. */
  datatype CollectorReply = NotDelivered(error: string) | Replied(statusCode: int, body: string)

  /** The POST the agent makes: its Authorization header and the delta. */
  datatype Outbound = Outbound(authorization: string, delta: DmesgDelta)

  /** How far a failed write of the marker got. WriteLastTimestamp creates
      the directory, then os.WriteFile opens the file with truncation, writes
      and closes it. A failure before the open leaves the file as it was
      (Untouched); a failed write after it (a full disk, say) leaves it empty
      or holding a proper prefix of the timestamp text, which never parses
      (Truncated); a failed close after a complete write leaves the new
      marker in place (Complete). */
  datatype WriteStage = Untouched | Truncated | Complete

  /** How writing the marker went: written, or failed at some stage. */
  datatype StateWrite = Written | WriteFailed(error: string, stage: WriteStage)

  /** The write leaves the new marker in the file, whether or not it
      reports an error. */
  predicate StoresMarker(w: StateWrite) {
    w.Written? || (w.WriteFailed? && w.stage.Complete?)
  }

  /** The step's error if any, what it sent if anything, and the state file
      afterwards. */
  datatype Step = Step(error: Option<string>, sent: Option<Outbound>, state: StateFile)

  /** ReadLastTimestamp: a missing or unparsable file is a fresh start at the
      zero time; only a read failure is an error. */
  function ReadLastTimestamp(f: StateFile): (r: Result<Instant, string>)
    ensures r.Failure? <==> f.Unreadable?
  {
    match f
    case Missing => Success(ZeroInstant)
    case Unreadable(e) => Failure(e)
    case Corrupt => Success(ZeroInstant)
    case Holds(t) => Success(t)
  }

  /** send's verdict on the answer: nothing wrong only for status 200. */
  function Send(reply: CollectorReply): (err: Option<string>)
  {
    match reply
    case NotDelivered(e) => Some(e)
    case Replied(code, body) =>
      if code != 200 then Some("collector returned " + IntToDecimal(code) + ": " + TrimSpace(body))
      else None
  }

  /** collect. */
  function Collect(
    cfg: AgentConfig, state: StateFile, dmesg: Result<seq<string>, string>, parse: TimeParser,
    now: Clock, reply: CollectorReply, write: StateWrite): (s: Step)
    ensures s.state == state || s.state.Holds? || s.state.Corrupt?
    ensures s.state.Holds? && s.state != state ==> StoresMarker(write) && (s.error.None? <==> write.Written?)
    ensures s.error.Some? && s.state != state ==> write.WriteFailed? && !write.stage.Untouched?
  {
    match ReadLastTimestamp(state)
    case Failure(e) => Step(Some("read state: " + e), None, state)
    case Success(lastSeen) =>
      match dmesg
      case Failure(e) => Step(Some("get dmesg: " + e), None, state)
      case Success(lines) =>
        var (newLines, latest) := FilterNewLines(lines, lastSeen, parse);
        if |newLines| == 0 then Step(None, None, state)
        else
          var out := Outbound(BearerHeader(cfg.apiKey), DmesgDelta(cfg.hostname, now, CapLines(newLines).0));
          match Send(reply)
          case Some(e) => Step(Some("send: " + e), Some(out), state)
          case None =>
            match write
            case WriteFailed(e, stage) =>
              var after := match stage
                case Untouched => state
                case Truncated => Corrupt
                case Complete => Holds(latest);
              Step(Some("write state: " + e), Some(out), after)
            case Written => Step(None, Some(out), Holds(latest))
  }

  /** The marker the step starts from. */
  function LastSeen(state: StateFile): (t: Instant)
    requires !state.Unreadable?
  {
    ReadLastTimestamp(state).value
  }

  // ---------------------------------------------------------------------------
  // Lemmas

  /** The file's marker is read back as written; no file, or an unparsable
      one, means the zero time. */
  lemma StateReadBack(f: StateFile)
    ensures f.Holds? ==> ReadLastTimestamp(f) == Success(f.marker)
    ensures f.Missing? || f.Corrupt? ==> ReadLastTimestamp(f) == Success(ZeroInstant)
  {
  }

  /** Only a 200 is success; any other code is an error quoting the code and
      the trimmed body. */
  lemma SendChecksStatus(code: int, body: string)
    ensures Send(Replied(code, body)).None? <==> code == 200
    ensures code != 200 ==>
      Send(Replied(code, body)) == Some("collector returned " + IntToDecimal(code) + ": " + TrimSpace(body))
  {
  }

  /** A state file that cannot be read, or a log that cannot be taken: an
      error, nothing sent, the file untouched. */
  lemma EarlyFailuresSendNothing(cfg: AgentConfig, state: StateFile, dmesg: Result<seq<string>, string>,
                                 parse: TimeParser, now: Clock, reply: CollectorReply, write: StateWrite)
    requires state.Unreadable? || dmesg.Failure?
    ensures var s := Collect(cfg, state, dmesg, parse, now, reply, write);
      && s.sent.None? && s.state == state
      && s.error == Some(if state.Unreadable? then "read state: " + state.error else "get dmesg: " + dmesg.error)
  {
  }

  /** No new lines: nothing sent, no error, the file untouched. */
  lemma NothingNewSendsNothing(cfg: AgentConfig, state: StateFile, lines: seq<string>,
                               parse: TimeParser, now: Clock, reply: CollectorReply, write: StateWrite)
    requires !state.Unreadable?
    requires forall i :: 0 <= i < |lines| ==> !IsNew(lines[i], LastSeen(state), parse)
    ensures Collect(cfg, state, Success(lines), parse, now, reply, write) == Step(None, None, state)
  {
    FilterKeepsExactlyNew(lines, LastSeen(state), parse);
    forall x | x in multiset(lines) ensures !IsNew(x, LastSeen(state), parse) {
      var i :| 0 <= i < |lines| && lines[i] == x;
    }
    assert multiset(FilterNewLines(lines, LastSeen(state), parse).0) == multiset{};
  }

  /** The capped batch is a run of new lines in log order, ending with the
      newest one kept. */
  lemma CappedBatch(lines: seq<string>, lastSeen: Instant, parse: TimeParser)
    ensures var kept := FilterNewLines(lines, lastSeen, parse).0;
      var capped := CapLines(kept).0;
      && IsSubsequence(capped, lines)
      && kept == kept[..|kept| - |capped|] + capped
      && (forall i :: 0 <= i < |capped| ==> IsNew(capped[i], lastSeen, parse))
  {
    var kept := FilterNewLines(lines, lastSeen, parse).0;
    var capped := CapLines(kept).0;
    FilterIsSubsequence(lines, lastSeen, parse);
    SubsequenceOfSuffix(kept[..|kept| - |capped|], capped, lines);
    FilterKeepsExactlyNew(lines, lastSeen, parse);
    forall i | 0 <= i < |capped| ensures IsNew(capped[i], lastSeen, parse) {
      assert capped[i] == kept[|kept| - |capped| + i];
      assert capped[i] in multiset(kept);
    }
  }

  /** What is sent: the configured host, the current time, the new lines
      capped to the most recent MaxLines in log order, and the key under the
      bearer scheme. */
  lemma SentDelta(cfg: AgentConfig, state: StateFile, lines: seq<string>,
                  parse: TimeParser, now: Clock, reply: CollectorReply, write: StateWrite)
    requires !state.Unreadable?
    ensures var s := Collect(cfg, state, Success(lines), parse, now, reply, write);
      var kept := FilterNewLines(lines, LastSeen(state), parse).0;
      && (s.sent.Some? <==> |kept| > 0)
      && (s.sent.Some? ==>
            && s.sent.value.authorization == BearerHeader(cfg.apiKey)
            && s.sent.value.delta.hostname == cfg.hostname
            && s.sent.value.delta.timestamp == now
            && 0 < |s.sent.value.delta.lines| <= MaxLines
            && s.sent.value.delta.lines == CapLines(kept).0)
  {
  }

  /** A suffix of a subsequence is a subsequence. */
  lemma {:induction false} SubsequenceOfSuffix(front: seq<string>, back: seq<string>, b: seq<string>)
    requires IsSubsequence(front + back, b)
    ensures IsSubsequence(back, b)
    decreases |front|
  {
    if |front| > 0 {
      var a := front + back;
      assert a == [front[0]] + (front[1..] + back);
      SubsequenceDropFirst(a, b);
      assert a[1..] == front[1..] + back;
      SubsequenceOfSuffix(front[1..], back, b);
    } else {
      assert front + back == back;
    }
  }

  lemma {:induction false} SubsequenceDropFirst(a: seq<string>, b: seq<string>)
    requires |a| > 0 && IsSubsequence(a, b)
    ensures IsSubsequence(a[1..], b)
    decreases |b|
  {
    if |a| > 1 {
      assert |b| > 0;
      var a' := a[..|a| - 1];
      var b' := b[..|b| - 1];
      var t := a[1..];
      assert t[|t| - 1] == a[|a| - 1];
      assert t[..|t| - 1] == a'[1..];
      if a[|a| - 1] == b[|b| - 1] {
        SubsequenceDropFirst(a', b');
      } else {
        SubsequenceDropFirst(a, b');
      }
    }
  }

  /** The marker moves only after the collector accepted the batch and the
      new marker reached the file, and then to the newest new timestamp; no
      error is reported exactly when the write succeeded as a whole. A failed
      send leaves the file alone; a failed write leaves it alone, unparsable
      if the file had already been truncated, or holding the new marker if
      only the close failed. */
  lemma MarkerOnlyAfterDelivery(cfg: AgentConfig, state: StateFile, dmesg: Result<seq<string>, string>,
                                parse: TimeParser, now: Clock, reply: CollectorReply, write: StateWrite)
    ensures var s := Collect(cfg, state, dmesg, parse, now, reply, write);
      s.state.Holds? && s.state != state ==>
        && !state.Unreadable? && dmesg.Success?
        && s.sent.Some? && Send(reply).None? && StoresMarker(write)
        && s.error == (if write.Written? then None else Some("write state: " + write.error))
        && s.state == Holds(FilterNewLines(dmesg.value, LastSeen(state), parse).1)
    ensures var s := Collect(cfg, state, dmesg, parse, now, reply, write);
      s.sent.Some? && Send(reply).Some? ==> s.state == state && s.error.Some?
    ensures var s := Collect(cfg, state, dmesg, parse, now, reply, write);
      s.sent.Some? && Send(reply).None? && write.WriteFailed? ==>
        && s.error == Some("write state: " + write.error)
        && !state.Unreadable? && dmesg.Success?
        && s.state == (if write.stage.Untouched? then state
                       else if write.stage.Truncated? then Corrupt
                       else Holds(FilterNewLines(dmesg.value, LastSeen(state), parse).1))
  {
  }

  /** A write that failed after truncating the file costs the marker: the
      next step starts again from the zero time and so sends every stamped
      line of the log again. */
  lemma TruncatedWriteStartsOver(cfg: AgentConfig, state: StateFile, lines: seq<string>, parse: TimeParser,
                                 now: Clock, reply: CollectorReply, e: string)
    requires Collect(cfg, state, Success(lines), parse, now, reply, WriteFailed(e, Truncated)).sent.Some?
    requires Send(reply).None?
    ensures var s := Collect(cfg, state, Success(lines), parse, now, reply, WriteFailed(e, Truncated));
      && s.error == Some("write state: " + e)
      && ReadLastTimestamp(s.state) == Success(ZeroInstant)
  {
  }

  /** A moved marker is strictly later than the one it replaces. */
  lemma MarkerAdvances(cfg: AgentConfig, state: StateFile, dmesg: Result<seq<string>, string>,
                       parse: TimeParser, now: Clock, reply: CollectorReply, write: StateWrite)
    ensures var s := Collect(cfg, state, dmesg, parse, now, reply, write);
      s.state.Holds? && s.state != state ==> s.state.marker > LastSeen(state)
  {
    var s := Collect(cfg, state, dmesg, parse, now, reply, write);
    if s.state.Holds? && s.state != state {
      RefilterKeepsNothing(dmesg.value, LastSeen(state), parse);
    }
  }

  /** Nothing is sent twice: after a delivered step whose write left the new
      marker in the file (even one whose close then failed), a step over the
      same log sends nothing, not even the lines the cap held back, and
      leaves the file as it is. */
  lemma NoResend(cfg: AgentConfig, state: StateFile, lines: seq<string>, parse: TimeParser,
                 now: Clock, reply: CollectorReply, write: StateWrite,
                 now': Clock, reply': CollectorReply, write': StateWrite)
    requires StoresMarker(write)
    requires Collect(cfg, state, Success(lines), parse, now, reply, write).state != state
    ensures var s := Collect(cfg, state, Success(lines), parse, now, reply, write);
      Collect(cfg, s.state, Success(lines), parse, now', reply', write') == Step(None, None, s.state)
  {
    var s := Collect(cfg, state, Success(lines), parse, now, reply, write);
    RefilterKeepsNothing(lines, LastSeen(state), parse);
  }
}
