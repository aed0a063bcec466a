/** The records exchanged between agent, collector and store
    (internal/protocol/types.go). */
module Protocol {
  import opened Rfc3339

  /** One detected anomaly: a short description and the log text behind it. */
  datatype Issue = Issue(summary: string, evidence: string)

  /** What a successful analysis returns. The status is whatever the backend
      wrote; "ok", "warning" and "critical" are the expected values but
      nothing checks them. */
  datatype AnalysisResult = AnalysisResult(status: string, issues: seq<Issue>)

  /** One batch of new log lines from one host. */
  datatype DmesgDelta = DmesgDelta(hostname: string, timestamp: Clock, lines: seq<string>)

  /** The persisted outcome of one ingestion. */
  datatype StoredResult = StoredResult(
    id: int,
    timestamp: Clock,
    hostname: string,
    status: string,
    issues: seq<Issue>,
    rawDmesg: string,
    apiLatencyMs: int,
    createdAt: Clock)

  const StatusOk := "ok"
  const StatusLlmUnavailable := "llm_unavailable"
  const StatusError := "error"

  const BearerScheme := "Bearer "

  /** The Authorization header value carrying a shared secret. */
  function BearerHeader(key: string): string
  {
    BearerScheme + key
  }

  /** The separator the collector puts between lines when it keeps or
      forwards them as one text. */
  const LineSeparator := "\n"
}
