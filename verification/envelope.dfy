/**
 * The response envelope returned by the request controller: a `message`
 * list holding one record, either a content record or a failure record.
 */
module Envelopes {

  /** The ISO 8601 text of `datetime.now().isoformat()`, taken as an opaque value. */
  type Timestamp = string

  /** The `status` field of every failure record. */
  const FailedStatus: string := "failed"

  /** The fixed error text of the envelope after the attempt loop. */
  const ExhaustedMessage: string := "Maximum retries reached. Service temporarily unavailable."

  datatype Record =
    | Content(content: string, timestamp: Timestamp)
    | Failure(error: string, status: string, timestamp: Timestamp)

  datatype Envelope = Envelope(message: seq<Record>)

  /** `{"message": [{"content": ..., "timestamp": ...}]}` */
  function SuccessEnvelope(content: string, now: Timestamp): Envelope
  {
    Envelope([Content(content, now)])
  }

  /** `{"message": [{"error": ..., "status": "failed", "timestamp": ...}]}` */
  function FailureEnvelope(error: string, now: Timestamp): Envelope
  {
    Envelope([Failure(error, FailedStatus, now)])
  }

  /** The envelope built after the attempt loop runs out. */
  function ExhaustedEnvelope(now: Timestamp): Envelope
  {
    FailureEnvelope(ExhaustedMessage, now)
  }

  /** The shape every response has: exactly one record, stamped `now`, and a
      failure record always carries the status "failed". */
  predicate SingleRecord(e: Envelope, now: Timestamp)
  {
    && |e.message| == 1
    && e.message[0].timestamp == now
    && (e.message[0].Failure? ==> e.message[0].status == FailedStatus)
  }
}
