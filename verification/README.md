# tasseograph in Dafny

A model of the decision logic of tasseograph, a log-anomaly pipeline. An
agent on each host takes the kernel log (`dmesg -T`), keeps the lines newer
than the last batch it delivered, caps the batch, and posts it to a central
collector. The collector checks the request, asks a chain of OpenAI-compatible
language-model endpoints for an analysis, falling back from one endpoint to
the next while they are unavailable, and stores one result per batch in a
SQLite table that can be queried by host, by non-ok status, and counted by
status.

All I/O is replaced by inputs: what each endpoint's HTTP exchange came to,
what the request body decodes to, whether the store accepts an insert, the
clocks, the state file's contents and the kernel log's lines. Everything is
pure functions over immutable datatypes.

| file | module | models |
|---|---|---|
| wrappers.dfy | Wrappers | `Option`, `Result` |
| text.dfy | Text | the Go `strings` operations the code uses (`HasPrefix`, `TrimPrefix`, `TrimSuffix`, `Contains`, `Join`, `TrimSpace`), decimal formatting, byte-wise text order |
| rfc3339.dfy | Rfc3339 | second-precision `time.RFC3339` formatting and parsing of stored timestamps, and how text order relates to time order |
| protocol.dfy | Protocol | the records of `internal/protocol/types.go`, the status strings, the bearer header |
| llm.dfy | Llm | `tryEndpoint`, `isUnavailableErr`, `IsUnavailable` and the ordered fallback of `Analyze` |
| db.dfy | Db | the `results` table as an append-only row sequence: `InsertResult`, `scanResults`, `QueryByHostname`, `QueryNonOK`, `StatusCounts` |
| handler.dfy | Handler | `IngestHandler.ServeHTTP` |
| dmesg.dfy | Dmesg | `ParseDmesgTimestamp`, `FilterNewLines`, `CapLines`, `MaxLines` |
| agent.dfy | Agent | `Agent.collect`, `Agent.send`'s status check, `ReadLastTimestamp`'s outcomes |
| pipeline.dfy | Pipeline | the agent's request meeting the collector's checks |

Modelling choices:

- Analysis outcomes. `Analyze` is a fold over `attempts`, where `attempts[i]` is what endpoint `i` would give if tried. `TryEndpoint` turns one `Exchange` into an `Attempt` with the exact error text Go would produce. The `Exchange` is a build failure, a transport failure, or an HTTP status with a body and a decoded reply. Every error the HTTP client returns is a `*url.Error`, which is a `net.Error`, so every transport failure takes the "connection failed" branch.
- Stored timestamps are `Clock` values: a Go `time.Time` restricted to four-digit years and whole-minute offsets. `Format` writes them to the second, as `time.RFC3339` does, and `Parse` reads them back.
- Query order. `ORDER BY timestamp DESC` compares the stored text byte by byte. SQLite does not fix the order of rows whose text is equal; the model returns the most recently inserted of those first.
- `LIMIT` with a negative value means no limit, as in SQLite.
- Sizes. The limit is an `Int64`. Reading through `io.LimitReader(body, max+1)` yields `min(body, max+1)` bytes, and nothing when `max+1 <= 0`. When `max` is the largest int64, `max+1` wraps around to the smallest, so nothing is read. An empty read never decodes, as `json.Unmarshal` rejects empty input. The body stream is its length and whether it ends in an error instead of EOF. The limited reader stops at its limit without touching the stream again, so the error is met only when the whole stream is shorter than a positive limit.
- Kernel-log timestamps are whole seconds on the Unix scale (`Instant`). Reading the bracketed text as a calendar time is a parameter `parse: string -> Option<Instant>`. The bracket shape itself, the regular expression `^\[[A-Za-z]{3} [A-Za-z]{3} [ \d]\d \d{2}:\d{2}:\d{2} \d{4}\]`, is modelled character by character.
- The state file is `Missing`, `Unreadable`, `Corrupt` or `Holds(marker)`. A failed write is `Untouched`, `Truncated` or `Complete`, by how far it got. Creating the directory or opening the file can fail, and the file is then as it was. `os.WriteFile` truncates the file when it opens it. A failed write after the open leaves an empty file or a proper prefix of the timestamp text; neither parses, so the file becomes `Corrupt`. `os.WriteFile` also reports a failed close after a complete write, and then the file holds the new marker while the step still reports "write state: …".

## Model

| member | source | states |
|---|---|---|
| Llm.RequestUrl | internal/collector/llm.go:119 | The URL ends in "/chat/completions". What precedes that is the endpoint URL with at most one trailing "/" removed, and one was removed exactly when the URL ended in "/". |
| Llm.RequestCarriesKeyAndLines | internal/collector/llm.go:104-126 | The request Llm.BuildRequest makes for an endpoint names the endpoint's model and carries "Bearer " followed by the endpoint's key. Its user content splits back into exactly the lines it was built from. |
| Llm.TryEndpoint | internal/collector/llm.go:101-177 | An attempt succeeds exactly on status 200 with a first choice whose content decodes, and the result is that content. The latency is 0 when the request could not be built, and the measured time otherwise. |
| Llm.TryEndpointClassification | internal/collector/llm.go:128-174 | The exact error text per kind of outcome, and whether the fallback moves on. A build failure keeps its own text, with latency 0. A transport failure is "connection failed: <error>" and always moves on. Statuses 502, 503 and 504 are "HTTP <code>" and always move on. Any other non-200 status is "API error <code>: <body>", moving on exactly when the body holds a marker. An undecodable reply keeps the decoder's text. Zero choices is "empty response from API" and never moves on. Bad content is "failed to parse LLM response: <message>", moving on exactly when the message holds a marker. Every case but the build failure carries the measured latency. |
| Llm.GatewayStatusText | internal/collector/llm.go:143-147 | "HTTP 502", "HTTP 503" and "HTTP 504" are availability texts. |
| Llm.NetworkFailureAdvances | internal/collector/llm.go:128-135 | Every transport failure is wrapped as "connection failed: …" and moves on to the next endpoint. |
| Llm.OtherStatusClassifiedByBody | internal/collector/llm.go:149-152 | Any status other than 200, 502, 503 and 504 fails the attempt. It moves on exactly when the response body contains a marker; the "API error <code>: " prefix cannot contribute one. |
| Llm.EmptyChoicesTerminal | internal/collector/llm.go:166-168 | Zero choices is an error that stops the fallback. |
| Llm.EmptyChoicesAttempt | internal/collector/llm.go:166-168 | A 200 reply with zero choices fails with exactly "empty response from API" and the measured latency, whatever the body. |
| Llm.EmptyResponseNotUnavailable | internal/collector/llm.go:180-189 | "empty response from API" contains none of the availability markers. |
| Llm.BadContentClassifiedByDecoder | internal/collector/llm.go:170-174 | Undecodable first-choice content is an error. It moves on exactly when the decoder's message contains a marker. |
| Llm.IsUnavailableErrMeaning | internal/collector/llm.go:180-189 | Llm.IsUnavailableErr: no error is never an availability error. An error is one exactly when one of "connection", "HTTP 502", "HTTP 503", "HTTP 504" occurs somewhere in its text. |
| Llm.UnavailableAfterPrefix | internal/collector/llm.go:185-188 | Prepending text with no 'c' and no 'H' changes neither way whether a text is an availability text. |
| Llm.ErrorText | internal/collector/llm.go:98 | The all-unavailable error's text starts with "all LLM endpoints unavailable". |
| Llm.EmptyChainIsConfigError | internal/collector/llm.go:69-71 | No endpoints: the "no LLM endpoints configured" error, latency 0, not an availability error. |
| Llm.WalkStops | internal/collector/llm.go:76-95 | From any point of the loop, the first attempt that does not move on decides the outcome, and the latency grows by the sum up to and including it. |
| Llm.WalkExhausts | internal/collector/llm.go:76-98 | From any point of the loop, if every remaining attempt moves on, the outcome is the all-unavailable error wrapping the last error, with all their latencies added. |
| Llm.StopsAtFirstNonAdvancing | internal/collector/llm.go:76-95 | Llm.Analyze tries endpoints from the first. The first attempt that does not move on decides the result: its analysis if it succeeded, its error if not. The latency is the sum over that attempt and all before it. |
| Llm.ExhaustsWhenAllAdvance | internal/collector/llm.go:97-98 | If every endpoint fails as unavailable, Llm.Analyze's error wraps the sentinel and the last endpoint's error ("all LLM endpoints unavailable: <last>"), and the latency is the sum over all endpoints. |
| Llm.LaterEndpointsNotAttempted | internal/collector/llm.go:80-94 | What the endpoints after the deciding one would give has no effect on the result. |
| Llm.WalkUnavailableIff | internal/collector/llm.go:76-98 | From any point of the loop, the outcome is the all-unavailable error exactly when every remaining attempt moves on. |
| Llm.UnavailableIffAllAdvance | internal/collector/llm.go:192-194 | `IsUnavailable` holds of the result exactly when there was at least one endpoint and every one failed as unavailable. |
| Handler.AuthorizedIff | internal/collector/handler.go:35-39 | Handler.Authorized, the key check, passes exactly for the header "Bearer " followed by the configured key. |
| Handler.AddInt64 | internal/collector/handler.go:48 | Go's `+` on int64: the result is an int64 equal to the exact sum modulo 2^64. |
| Handler.ReadLimit | internal/collector/handler.go:48 | The limit handed to io.LimitReader is max+1 as Go's int64 addition gives it: an int64 equal to max+1 modulo 2^64. |
| Handler.ReadLimitValue | internal/collector/handler.go:48 | The limit is max+1 itself when max is below the largest int64, and the most negative int64 when max is the largest. |
| Handler.CappedReadDetectsOversize | internal/collector/handler.go:48-56 | Handler.ReadLength, what io.ReadAll gets through the limit: when max is below the largest int64, the read exceeds max exactly when the body does, and when it does not, the whole body was read. When max is the largest int64, max+1 wraps negative and nothing is read. |
| Handler.MaximalLimitReadsNothing | internal/collector/handler.go:48-63 | With the largest int64 as the limit, every authorized request within it is answered 400 "Invalid JSON", with no analysis and no insert, whatever its body holds and whether or not its stream fails: the wrapped limit never touches the body, and an empty body does not decode. |
| Handler.ReadErrorReply | internal/collector/handler.go:47-52 | A request past the key and declared-size checks is answered 400 "Failed to read body", with no analysis and no insert, exactly when the read meets the stream's error. That happens exactly when the stream fails, the limit is below the largest int64, and the whole stream fits within the limit. A stream that fails only beyond max+1 bytes, or under the wrapped limit, is never seen to fail. |
| Handler.Outcome | internal/collector/handler.go:89-103 | What is stored for an analysis, stated against Llm.Analyze. No client gives "error", no issues and latency 0. With a client the latency is always Analyze's latency. A successful analysis gives its status and issues. A failed one gives no issues, and "llm_unavailable" exactly when at least one endpoint existed and every attempt moved on, "error" otherwise. In the all-unavailable case the latency is the sum over all endpoints. |
| Handler.Record | internal/collector/handler.go:77-103 | The record carries the server's clock, the delta's host, and its lines joined by "\n". With a client its latency is Analyze's latency, also when the analysis failed. Without one it is "error" with no issues and latency 0. |
| Handler.ServeHttp | internal/collector/handler.go:33-116 | The store is unchanged, or exactly one row is appended. A row is appended exactly when the reply reports a stored status. Analysis runs only when a client is configured. The reply code is one of 200, 400, 401, 413, 500. |
| Handler.UnauthorizedHasNoEffect | internal/collector/handler.go:35-39 | A wrong or missing key gives 401 "Unauthorized", with no analysis and no insert. |
| Handler.OversizeRejectedBeforeDecoding | internal/collector/handler.go:41-56 | An authorized request is answered 413, with no analysis and no insert, whatever its body would decode to, when it is too large as declared, or when its stream is longer than the limit while the limit is below the largest int64. In the second case the read stops at max+1 bytes, so a later stream error plays no part. |
| Handler.InvalidJsonRejected | internal/collector/handler.go:58-63 | An authorized request within the limit, whose read does not meet a stream error and does not decode, gives 400 "Invalid JSON", with no analysis and no insert. |
| Handler.EmptyDeltaSkipped | internal/collector/handler.go:58-70 | A delta without lines, read whole and non-empty within a limit below the largest int64, is answered "skipped", with no analysis and no insert. |
| Handler.OnlyAdmittedRequestsHaveEffects | internal/collector/handler.go:33-70 | A request that fails Handler.Admitted is neither analysed nor stored. Admitted means authorized, within the limit as declared and as read, read non-empty without meeting a stream error, decoded, and holding lines. |
| Handler.AdmittedRequestStoresOneRecord | internal/collector/handler.go:72-115 | A request that passes every check is analysed iff a client exists. A store failure gives 500 and no change. Otherwise exactly one row is appended: the delta's host, its lines joined by "\n", the server clock's text, and a latency that is Analyze's with a client (whether or not it succeeded) and 0 without one. The reply reports the row's status and latency. |
| Handler.StoredStatus | internal/collector/handler.go:77-103 | The stored status is "error" with latency 0 without a client. With a client, the reply and the row carry Analyze's latency, on failure too. Success stores the result's status and issues. On failure there are no issues, and the status is "llm_unavailable" exactly when at least one endpoint existed and all were unavailable, "error" otherwise. |
| Handler.ClientTimestampIgnored | internal/collector/handler.go:82-87 | The delta's own timestamp has no effect on the reply or the store. |
| Db.InsertResult | internal/collector/db.go:62-74 | Failure exactly when the engine fails. Otherwise one row is appended, and every earlier row is kept. The new row has the next id, the timestamp's RFC 3339 text, the record's host, status, issues, raw text and latency, and the store's clock. Ids stay positive and strictly increasing, and the new one exceeds every earlier one. |
| Db.InsertAppendsOnly | internal/collector/db.go:62-74 | A successful insert adds exactly one row and leaves every existing row as it was. |
| Db.SortDesc | internal/collector/db.go:82 | ORDER BY timestamp DESC: a permutation of the rows, with timestamp texts non-increasing. |
| Db.Limit | internal/collector/db.go:83 | LIMIT: the first `limit` rows, or all of them when the limit is negative or at least their number. |
| Db.SelectSpec | internal/collector/db.go:78-84 | Db.Select returns only rows of the table that pass the filter, newest text first. There are as many as the limit allows of those that pass, and no passing row that is left out is newer than a returned one. With a negative limit every passing row is returned. |
| Db.SelectByHostnameSpec | internal/collector/db.go:77-91 | The rows behind QueryByHostname: only that host's rows, newest first, limited, and no newer row of that host left out. |
| Db.SelectNonOkSpec | internal/collector/db.go:94-108 | The rows behind QueryNonOK: only rows whose status is not "ok", newest first, limited, and no newer such row left out. |
| Db.QueryByHostname | internal/collector/db.go:77-91 | Every result returned, each read by Db.Scan through Db.ScanAll, has the asked-for host, and there are at most `limit` of them when the limit is not negative. |
| Db.QueryNonOk | internal/collector/db.go:94-108 | No result returned has status "ok", and there are at most `limit` of them when the limit is not negative. |
| Db.TallyCounts | internal/collector/db.go:120-128 | The tally holds exactly the strings that occur, each mapped to its number of occurrences. |
| Db.StatusCounts | internal/collector/db.go:111-130 | The keys are exactly the statuses some row carries. Each maps to the number of rows carrying it. |
| Db.StatusCountsExample | internal/collector/db_test.go:74-93 | Rows with statuses ok, ok, ok, warning, critical count as ok 3, warning 1, critical 1. |
| Db.ScanInserted | internal/collector/db.go:132-161 | Db.Scan reads an inserted row back with the same id, host, status, issues, raw text and latency. Its timestamp is cut to the second, and its creation time is the store clock to the second. |
| Db.InsertThenQueryByHostname | internal/collector/db_test.go:22-52 | Insert a record for a host with no earlier rows, then query that host with any non-zero limit: the answer is that one record, with the new id, its timestamp cut to the second and every other field as inserted. |
| Db.InsertedRowIsFound | internal/collector/db.go:77-91 | Whatever else the table holds, an unlimited query for an inserted record's host returns its row. |
| Rfc3339.ParseFormat | internal/collector/db.go:146 | Rfc3339.Parse reads the text Rfc3339.Format stores back as the same time, less its sub-second part. |
| Rfc3339.FormatOrderSameZone | internal/collector/db.go:82 | For two times with the same offset, the stored texts sort exactly as the times do. |
| Rfc3339.FormatOrderMixedZones | internal/collector/db.go:82 | With different offsets the text order can contradict time order: 12:00+01:00 is earlier than 11:30Z but its text sorts after it. |
| Dmesg.CaptureLayout | internal/agent/dmesg.go:13 | A line that fits the pattern starts with "[" and has "]" at position 25. The captured text has three-letter day and month names, a day written as a space or digit then a digit, two-digit hour, minute and second separated by colons, and a four-digit year, with single spaces between the fields. |
| Dmesg.TimestampNeedsShape | internal/agent/dmesg.go:16-24 | Dmesg.ParseDmesgTimestamp gives no timestamp for a line that does not start with the bracketed shape. A line that does gets whatever the calendar reading of the bracketed text gives, whatever follows it. |
| Dmesg.StampMatches | internal/agent/dmesg.go:13 | Both `dmesg -T` stamps of the sample lines, one with a space-padded day, fit the pattern. |
| Dmesg.SampleLinesWithoutTimestamp | internal/agent/dmesg_test.go:17-18 | The empty line and "no timestamp here" have no timestamp. |
| Dmesg.SampleLinesWithTimestamp | internal/agent/dmesg_test.go:15-16 | The sample lines' timestamps are the calendar readings of their bracketed texts, whatever follows the bracket. |
| Dmesg.FilterNewLines | internal/agent/dmesg.go:27-46 | Never more lines kept than given, and the latest timestamp is never before the zero time. |
| Dmesg.FilterKeepsExactlyNew | internal/agent/dmesg.go:31-43 | Every line occurs among the kept ones exactly as often as in the input when its timestamp reads and is strictly after the marker, and not at all otherwise. |
| Dmesg.FilterIsSubsequence | internal/agent/dmesg.go:31-43 | The kept lines are the input with some lines left out, in their original order. |
| Dmesg.LatestIsMaximum | internal/agent/dmesg.go:28-41 | No kept line's timestamp exceeds the latest value. The latest value is the zero time, or the timestamp of some kept line. With no line kept it is the zero time, and it stays the zero time when every kept timestamp is at or before it. |
| Dmesg.EqualTimestampDropped | internal/agent/dmesg.go:37 | A line stamped exactly at the marker is not kept. |
| Dmesg.RefilterKeepsNothing | internal/agent/dmesg.go:27-46 | When some line is kept, the latest timestamp is after the marker, and filtering the same lines again from it keeps nothing. |
| Dmesg.CapLines | internal/agent/dmesg.go:67-73 | Truncated exactly when there are more than 500 lines. The result has min(n, 500) lines and is a suffix of the input. |
| Dmesg.CapIdempotent | internal/agent/dmesg.go:67-73 | Capping a capped batch changes nothing and reports no truncation. |
| Dmesg.CapKeepsMostRecent | internal/agent/dmesg.go:71-72 | The i-th line of a capped batch is the input's line at the same distance from the end, so the earliest lines are the ones dropped. |
| Dmesg.ZeroInstantIsZeroTime | internal/agent/dmesg.go:29 | The starting "latest" value is Go's zero time, January 1 of year 1 at midnight UTC. |
| Agent.ReadLastTimestamp | internal/agent/state.go:15-31 | Reading the state fails exactly when the file exists but cannot be read. |
| Agent.StateReadBack | internal/agent/state.go:15-31 | A stored marker reads back as itself. A missing or unparsable file reads as the zero time. |
| Agent.SendChecksStatus | internal/agent/agent.go:135-138 | Agent.Send takes the collector's answer as success exactly for status 200. Otherwise the error quotes the code and the trimmed body. |
| Agent.Collect | internal/agent/agent.go:68-113 | The state file stays as it was, comes to hold a marker, or becomes unparsable. A new marker is in the file only if the write got it there, and no error is reported with it exactly when the write succeeded as a whole. A step that reports an error and changes the file is one whose state write failed after opening the file. |
| Agent.EarlyFailuresSendNothing | internal/agent/agent.go:69-79 | If the state cannot be read or the log cannot be taken, the step reports the wrapped error, sends nothing and leaves the file alone. |
| Agent.NothingNewSendsNothing | internal/agent/agent.go:81-86 | With no line newer than the marker, nothing is sent, no error is reported and the file is not written. |
| Agent.CappedBatch | internal/agent/agent.go:82-92 | The batch is a run of new lines in log order. It is the tail of the kept lines, so only the oldest are dropped. |
| Agent.SentDelta | internal/agent/agent.go:82-101 | Something is sent exactly when some line is new. It carries the bearer key, the configured host and the current time, and holds the kept lines capped to the 500 most recent (at least one line). |
| Agent.MarkerOnlyAfterDelivery | internal/agent/agent.go:103-110 | A new marker is in the file only when the log was read, something was sent, the collector accepted it, and the write got the marker into the file. It is then the newest kept timestamp. The error is none when the write succeeded, and "write state: <error>" when only the close failed. A failed send leaves the file alone and reports an error. A failed write after delivery reports "write state: <error>". The file is then as it was if the write failed before the open, unparsable if it failed after truncating, and holding the new marker if only the close failed. |
| Agent.TruncatedWriteStartsOver | internal/agent/agent.go:107-110 | After a delivered batch whose state write failed having truncated the file, the step reports "write state: <error>" and the file reads as the zero time, so the next step keeps every line again. |
| Agent.MarkerAdvances | internal/agent/agent.go:108 | A marker that changes moves strictly later. |
| Agent.NoResend | internal/agent/agent.go:82-110 | After a delivered step whose write got the new marker into the file, even one whose close then failed, a step over the same log sends nothing and leaves the file as it is, even for lines the cap held back. |
| Text.TrimSpaceDropsOnlySpace | internal/agent/agent.go:137 | Text.TrimSpace removes only leading and trailing white space. |
| Text.TrimSpaceEnds | internal/agent/agent.go:137 | A trimmed non-empty text neither starts nor ends with white space. |
| Text.TrimSpaceIdempotent | internal/agent/agent.go:137 | Trimming twice is trimming once. |
| Pipeline.AgentHeaderAccepted | internal/agent/agent.go:127 | The collector accepts the header the agent sends exactly when both were configured with the same key. |
| Pipeline.SentBatchIsStored | internal/agent/agent.go:96-105 | A batch the agent sends, arriving within the size limit at a collector with the same key whose store accepts the insert, is answered 200. The agent takes that as delivered. One row is added, with the agent's host and the sent lines joined by "\n". |

## Left out

- The system prompt text and the JSON encoding of requests, replies, deltas and issues. Decoding is an input: the reply's choices, the first choice's content, and the request body's delta.
- HTTP transport, TLS, timeouts and context cancellation. A transport failure is an input carrying its error text.
- The wall clock. Latencies are natural-number inputs, and `time.Now` readings are `Clock` inputs.
- Llm.Analyze: int64 wrap-around of the summed latency is not modelled, because latencies are unbounded naturals.
- The SQLite engine, WAL mode, indexes and concurrent writers. The table is a row sequence, and the engine's failures are inputs.
- Query and row-scan errors from the engine are not modelled: the queries always succeed.
- Db.StatusCounts: the sum of the counts equalling the row count is not stated as a sum over the map. Each count is the multiplicity of its status among the rows, which implies it.
- The text layout of `created_at` (`datetime('now')`) is not modelled. The store's clock is a UTC `Clock` read back to the second.
- Calendar validity: `Parse` checks field ranges but not the day against the month. Reading a kernel-log timestamp is the `parse` parameter.
- Timestamps outside years 0 to 9999, and offsets with seconds, are outside `Clock`.
- `GetDmesg`, which runs the `dmesg -T` subprocess and splits its output. The log's lines, or its failure, are an input.
- `Agent.Run`'s ticker loop, configuration loading, the server wiring and the command line.
- The state file's RFC 3339 text with nanoseconds. The file is modelled by its outcome: missing, unreadable, unparsable or holding a marker. Which part of a truncated write reached the disk is not modelled; any proper prefix reads as unparsable.
- Log output.
- Db.QueryByHostname: its own contract states only the host and the limit. Order and completeness are stated on the selected rows by Db.SelectByHostnameSpec, and the read-back of each row by Db.ScanInserted.
- Db.QueryNonOk: its own contract states only the status and the limit. Order and completeness are stated on the selected rows by Db.SelectNonOkSpec.
- Dmesg.FilterNewLines: its own contract bounds only the number of kept lines and the latest value. What is kept is stated by Dmesg.FilterKeepsExactlyNew and Dmesg.FilterIsSubsequence, and the latest value by Dmesg.LatestIsMaximum.
- Agent.Collect: its own contract states only how the state file may change. What is sent and when the marker moves are stated by Agent.SentDelta, Agent.MarkerOnlyAfterDelivery and Agent.NoResend, and what a truncating failed write leaves by Agent.TruncatedWriteStartsOver.
- Agent.Collect: a new marker in the file no longer implies that no error was reported. `os.WriteFile` returns the close error after a complete write, so the file can hold the new marker while the step reports "write state: …".
- Agent.MarkerOnlyAfterDelivery: a moved marker no longer implies a successful write, for the same reason. It implies only that the write got the marker into the file.
- Handler.ServeHttp: a reader that hands over its last bytes and its error in the same call is not modelled. The stream error comes on a read of its own, so a limited read that ends exactly at the error's position does not see it.
- Llm.ErrorText: its own contract states only the all-unavailable prefix. The full text on that path is stated by Llm.ExhaustsWhenAllAdvance.
- Byte-level behaviour: invalid UTF-8 and multi-byte characters. Strings are sequences of characters.
- The `Severity` field some tests set on `Issue` does not exist in `internal/protocol/types.go`. The model follows the type, so an issue has a summary and evidence only.
