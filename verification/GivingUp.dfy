/** What calls that give up cost: over every run of the link, whatever its frames and
    retries, delivered can equal sent only if at most one call gave up, and then only if
    it was the last chunk of all that was taken though not acknowledged. */
module GivingUp {
  import opened Bytes
  import opened Results
  import opened BleLink
  import opened LinkLedger
  import opened StopAndWait

  /** The fewest chunks that can carry so many bytes. */
  function Needed(size: nat): nat {
    (size + MAX_BLE_PAYLOAD - 1) / MAX_BLE_PAYLOAD
  }

  function ChunksNeeded(messages: seq<bytes>): nat {
    if messages == [] then 0
    else ChunksNeeded(messages[..|messages| - 1]) + Needed(|messages[|messages| - 1]|)
  }

  lemma NeededMore(messages: seq<bytes>, m: bytes)
    ensures ChunksNeeded(messages + [m]) == ChunksNeeded(messages) + Needed(|m|)
  {
    assert (messages + [m])[..|messages|] == messages;
  }

  /** The chunks that the call under way has yet to get acknowledged. */
  function Remaining(p: Phase): nat {
    if InChunk(p) then ChunkCount(p.frame) - p.index else 0
  }

  /** Every chunk of every frame was acknowledged, remains, or is among at least one per
      call that gave up.  What is delivered or buffered took as many chunks as it needs. */
  predicate Tallied(l: Link) {
    && ChunksNeeded(l.sent) >= l.ledger.advanced + l.ledger.givenUp + Remaining(l.sender.phase)
    && ChunksNeeded(l.delivered) + Needed(|l.receiver.buffer|) <= l.ledger.accepted
  }

  lemma SendTallied(l: Link, e: SenderEvent)
    requires Invariant(l) && Tallied(l) && SenderEnabled(l.sender, e)
    ensures Tallied(SendStep(l, e))
  {
    hide Chunks, CurrentChunk, Key, AreChunks, AreAcks, Rising;
    if e.Begin? {
      NeededMore(l.sent, e.frame);
    }
  }

  /** One more chunk accepted, at most eighteen bytes more. */
  lemma AddTallied(a: Assembly, data: bytes, delivered: seq<bytes>, accepted: nat)
    requires ChunksNeeded(delivered) + Needed(|a.buffer|) <= accepted
    ensures
      var (receiver, outcome) := Add(a, data);
      var delivered' :=
        if outcome.Ok? && outcome.value.message.Some? then delivered + [outcome.value.message.value] else delivered;
      ChunksNeeded(delivered') + Needed(|receiver.buffer|) <= accepted + if outcome.Ok? then 1 else 0
  {
    var outcome := Add(a, data).1;
    if outcome.Ok? && outcome.value.message.Some? {
      NeededMore(delivered, outcome.value.message.value);
    }
  }

  lemma ReceiveTallied(order: AckOrder, l: Link)
    requires Invariant(l) && Tallied(l) && LinkEnabled(l, DeliverChunk)
    ensures Tallied(ReceiveStep(order, l))
  {
    var g := l.ledger;
    OldestChunk(g);
    AcceptsNewPosition(l.receiver, l.chunks[0], g.positions[0], g.accepted);
    AddTallied(l.receiver, l.chunks[0], l.delivered, g.accepted);
    hide Add, AckFor, Needed, AreChunks, AreAcks, Rising, SequenceAt, IsChunk;
  }

  lemma StepTallied(order: AckOrder, l: Link, e: LinkEvent)
    requires Invariant(l) && Tallied(l) && LinkEnabled(l, e)
    ensures Tallied(LinkStep(order, l, e))
  {
    match e {
      case Send(event) => SendTallied(l, event);
      case DeliverChunk => ReceiveTallied(order, l);
      case _ =>
    }
  }

  lemma {:induction false} TalliedHolds(order: AckOrder, l: Link, events: seq<LinkEvent>)
    requires Invariant(l) && Tallied(l) && Possible(order, l, events)
    ensures Invariant(After(order, l, events)) && Tallied(After(order, l, events))
    decreases |events|
  {
    if events != [] {
      StepKeepsInvariant(order, l, events[0]);
      StepTallied(order, l, events[0]);
      hide Tallied, Invariant, LinkStep;
      TalliedHolds(order, LinkStep(order, l, events[0]), events[1..]);
    }
  }

  /** No call gave up; or one did, and the receiver has taken the last chunk of all, which
      the sender does not know. */
  predicate NoneMissing(l: Link) {
    || l.ledger.givenUp == 0
    || (l.ledger.givenUp == 1 && l.ledger.accepted == l.ledger.advanced + 1 == ChunksNeeded(l.sent))
  }

  lemma NothingToTally()
    ensures Invariant(START) && Tallied(START)
  {}

  /** Whatever the frames, the retries and the link: if between calls delivered equals
      sent, then nothing is missing in this sense. */
  lemma EqualOnlyIfNoneMissing(order: AckOrder, events: seq<LinkEvent>)
    requires Possible(order, START, events)
    ensures
      var l := After(order, START, events);
      !InChunk(l.sender.phase) && l.delivered == l.sent ==> NoneMissing(l)
  {
    NothingToTally();
    TalliedHolds(order, START, events);
    var l := After(order, START, events);
    hide After, Possible, ChunksNeeded, Needed, AreChunks, AreAcks, Rising;
  }
}
