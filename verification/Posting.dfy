/** The posting loop of the Slack handler: one message per chunk, in order, stopping at the first refusal. */
module Posting {
  import opened Chunker
  import opened ChunkerProof

  const MAX_CHUNK_LENGTH: nat := 3500
  const CHUNK_DELAY_MS: nat := 700

  /** What the handler did for one request: the answer, the messages delivered, the time slept. */
  datatype Outcome = Outcome(status: nat, delivered: seq<Runes>, sleptMs: nat)

  /** One pause before every message but the first. */
  function PausesFor(messages: nat): nat {
    if messages == 0 then 0 else messages - 1
  }

  /** accepts(i) tells whether Slack takes the i-th message. */
  method Notify(text: Runes, accepts: nat -> bool) returns (o: Outcome)
    ensures text == [] ==> o == Outcome(400, [], 0)
    ensures text != [] ==> o.status == 200 || o.status == 502
    ensures o.delivered <= Chunks(text, 3500)
    ensures o.status == 200 <==> text != [] && forall i :: 0 <= i < |Chunks(text, 3500)| ==> accepts(i)
    ensures text != [] ==> (o.status == 200 <==> o.delivered == Chunks(text, 3500))
    ensures forall i :: 0 <= i < |o.delivered| ==> accepts(i)
    ensures o.status == 502 ==> |o.delivered| < |Chunks(text, 3500)| && !accepts(|o.delivered|)
    ensures o.sleptMs == if text == [] || Chunks(text, 3500) == [] then 0
                         else if o.status == 502 then 700 * |o.delivered|
                         else 700 * (|o.delivered| - 1)
    ensures o.sleptMs <= 1400 * (Bytes(text) / 3500)
  {
    hide Chunks, Bytes;
    if text == [] {
      return Outcome(400, [], 0);
    }
    var chunks := SplitIntoChunks(text, MAX_CHUNK_LENGTH);
    CountBound(text, MAX_CHUNK_LENGTH);
    var slept := 0;
    for i := 0 to |chunks|
      invariant forall j :: 0 <= j < i ==> accepts(j)
      invariant slept == CHUNK_DELAY_MS * PausesFor(i)
    {
      if i > 0 {
        slept := slept + CHUNK_DELAY_MS;
      }
      if !accepts(i) {
        return Outcome(502, chunks[..i], slept);
      }
    }
    return Outcome(200, chunks, slept);
  }
}
