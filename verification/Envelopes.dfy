/** The data that Log Cache stores and the vocabulary of a read request. */
module Envelopes {

  datatype Option<+T> = None | Some(value: T)

  datatype Result<+T> = Ok(value: T) | Err(error: string)

  type SourceId = string

  /** The five kinds of payload an envelope can carry. Metric values are exact reals. */
  datatype Message =
    | Log(payload: string)
    | Counter(name: string, total: nat)
    | Gauge(metrics: map<string, real>)
    | Timer(name: string, start: int, stop: int)
    | Event(title: string)

  /** Timestamps are nanoseconds since the Unix epoch. */
  datatype Envelope = Envelope(
    timestamp: int,
    sourceId: SourceId,
    instanceId: string,
    tags: map<string, string>,
    message: Message)

  datatype EnvelopeType = ANY | LOG | COUNTER | GAUGE | TIMER | EVENT

  /** What the store reports about one source. */
  datatype MetaInfo = MetaInfo(count: int, expired: int, oldestTimestamp: int, newestTimestamp: int)

  function Min(a: int, b: int): int {
    if a < b then a else b
  }

  function Max(a: int, b: int): int {
    if a < b then b else a
  }
}
