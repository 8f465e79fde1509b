/** Frames that fit in one chunk, which is all a session sends: over every run of the
    link each message delivered is exactly one frame of one call, never a truncation or
    a mix, never twice, never out of order. */
module WholeMessages {
  import opened Bytes
  import opened Results
  import opened BleLink
  import opened LinkLedger
  import opened StopAndWait
  import opened GivingUp

  predicate AllShort(sent: seq<Frame>) {
    forall i :: 0 <= i < |sent| ==> |sent[i]| <= MAX_BLE_PAYLOAD
  }

  predicate Writing(phase: Phase, sent: seq<Frame>) {
    phase.Sending? ==> sent != [] && phase.frame == sent[|sent| - 1]
  }

  /** Each chunk in flight holds the whole frame of the call that wrote it. */
  predicate Carry(wires: seq<bytes>, positions: seq<nat>, owners: seq<nat>, sent: seq<Frame>) {
    && |wires| == |positions| == |owners|
    && (wires != [] ==>
          && 1 <= owners[0] <= |sent|
          && wires[0] == EncodeChunk(SequenceAt(1, positions[0]), true, sent[owners[0] - 1])
          && Carry(wires[1..], positions[1..], owners[1..], sent))
  }

  /** The i-th message delivered is the frame of call calls[i], counted from 1. */
  ghost predicate Handed(delivered: seq<bytes>, calls: seq<nat>, sent: seq<Frame>) {
    && |delivered| == |calls|
    && forall i :: 0 <= i < |calls| ==> 1 <= calls[i] <= |sent| && delivered[i] == sent[calls[i] - 1]
  }

  ghost predicate WholeFrames(l: Link) {
    && Writing(l.sender.phase, l.sent)
    && Carry(l.chunks, l.ledger.positions, l.ledger.owners, l.sent)
    && l.receiver.buffer == []
    && Handed(l.delivered, l.ledger.taken, l.sent)
    && l.ledger.OneChunkCalls()
  }

  lemma {:induction false} CarrySnoc(wires: seq<bytes>, positions: seq<nat>, owners: seq<nat>, sent: seq<Frame>,
      w: bytes, p: nat, o: nat)
    requires Carry(wires, positions, owners, sent)
    requires 1 <= o <= |sent| && w == EncodeChunk(SequenceAt(1, p), true, sent[o - 1])
    ensures Carry(wires + [w], positions + [p], owners + [o], sent)
  {
    if wires != [] {
      assert (wires + [w])[1..] == wires[1..] + [w] && (positions + [p])[1..] == positions[1..] + [p];
      assert (owners + [o])[1..] == owners[1..] + [o];
      CarrySnoc(wires[1..], positions[1..], owners[1..], sent, w, p, o);
    }
  }

  lemma {:induction false} CarryWithout(wires: seq<bytes>, positions: seq<nat>, owners: seq<nat>, sent: seq<Frame>,
      i: nat)
    requires Carry(wires, positions, owners, sent) && i < |wires|
    ensures Carry(Without(wires, i), Without(positions, i), Without(owners, i), sent)
  {
    hide EncodeChunk, SequenceAt;
    if i == 0 {
      assert Without(wires, 0) == wires[1..] && Without(positions, 0) == positions[1..];
      assert Without(owners, 0) == owners[1..];
    } else {
      CarryWithout(wires[1..], positions[1..], owners[1..], sent, i - 1);
      assert Without(wires, i)[1..] == Without(wires[1..], i - 1);
      assert Without(positions, i)[1..] == Without(positions[1..], i - 1);
      assert Without(owners, i)[1..] == Without(owners[1..], i - 1);
    }
  }

  lemma {:induction false} CarryTwice(wires: seq<bytes>, positions: seq<nat>, owners: seq<nat>, sent: seq<Frame>,
      i: nat)
    requires Carry(wires, positions, owners, sent) && i < |wires|
    ensures Carry(Twice(wires, i), Twice(positions, i), Twice(owners, i), sent)
  {
    hide EncodeChunk, SequenceAt;
    if i == 0 {
      assert Twice(wires, 0)[1..] == wires && Twice(positions, 0)[1..] == positions;
      assert Twice(owners, 0)[1..] == owners;
    } else {
      CarryTwice(wires[1..], positions[1..], owners[1..], sent, i - 1);
      assert Twice(wires, i)[1..] == Twice(wires[1..], i - 1);
      assert Twice(positions, i)[1..] == Twice(positions[1..], i - 1);
      assert Twice(owners, i)[1..] == Twice(owners[1..], i - 1);
    }
  }

  lemma {:induction false} CarryMoreSent(wires: seq<bytes>, positions: seq<nat>, owners: seq<nat>, sent: seq<Frame>,
      f: Frame)
    requires Carry(wires, positions, owners, sent)
    ensures Carry(wires, positions, owners, sent + [f])
  {
    if wires != [] {
      CarryMoreSent(wires[1..], positions[1..], owners[1..], sent, f);
    }
  }

  lemma HandedMoreSent(delivered: seq<bytes>, calls: seq<nat>, sent: seq<Frame>, f: Frame)
    requires Handed(delivered, calls, sent)
    ensures Handed(delivered, calls, sent + [f])
  {}

  // ---- every step keeps it ----

  lemma SentGrows(order: AckOrder, l: Link, e: LinkEvent)
    requires LinkEnabled(l, e)
    ensures l.sent <= LinkStep(order, l, e).sent
  {}

  lemma {:induction false} SentGrowsInRun(order: AckOrder, l: Link, events: seq<LinkEvent>)
    requires Possible(order, l, events)
    ensures l.sent <= After(order, l, events).sent
    decreases |events|
  {
    if events != [] {
      SentGrows(order, l, events[0]);
      SentGrowsInRun(order, LinkStep(order, l, events[0]), events[1..]);
    }
  }

  lemma ShortPrefix(sent: seq<Frame>, all: seq<Frame>)
    requires sent <= all && AllShort(all)
    ensures AllShort(sent)
  {
    assert forall i :: 0 <= i < |sent| ==> sent[i] == all[i];
  }

  lemma {:induction false} WholeFramesHold(order: AckOrder, l: Link, events: seq<LinkEvent>)
    requires Invariant(l) && WholeFrames(l) && Possible(order, l, events)
    requires AllShort(After(order, l, events).sent)
    ensures Invariant(After(order, l, events)) && WholeFrames(After(order, l, events))
    decreases |events|
  {
    if events != [] {
      var l' := LinkStep(order, l, events[0]);
      StepKeepsInvariant(order, l, events[0]);
      SentGrowsInRun(order, l', events[1..]);
      ShortPrefix(l'.sent, After(order, l, events).sent);
      StepKeepsWholeFrames(order, l, events[0]);
      WholeFramesHold(order, l', events[1..]);
    }
  }

  lemma StepKeepsWholeFrames(order: AckOrder, l: Link, e: LinkEvent)
    requires Invariant(l) && WholeFrames(l) && LinkEnabled(l, e)
    requires AllShort(LinkStep(order, l, e).sent)
    ensures WholeFrames(LinkStep(order, l, e))
  {
    SentGrows(order, l, e);
    ShortPrefix(l.sent, LinkStep(order, l, e).sent);
    match e {
      case Send(event) => SendKeepsWholeFrames(l, event);
      case DeliverChunk => ReceiveKeepsWholeFrames(order, l);
      case LoseChunk(i) => LoseKeepsWholeFrames(order, l, i);
      case DeliverAck => AckKeepsWholeFrames(l);
      case LoseAck(i) => AckChangeKeepsWholeFrames(order, l, e);
      case DupChunk(i) => DupKeepsWholeFrames(order, l, i);
      case DupAck(i) => AckChangeKeepsWholeFrames(order, l, e);
    }
  }

  lemma LoseKeepsWholeFrames(order: AckOrder, l: Link, i: nat)
    requires WholeFrames(l) && LinkEnabled(l, LoseChunk(i))
    ensures WholeFrames(LinkStep(order, l, LoseChunk(i)))
  {
    CarryWithout(l.chunks, l.ledger.positions, l.ledger.owners, l.sent, i);
    LoseChunkCalls(l.ledger, i);
  }

  lemma DupKeepsWholeFrames(order: AckOrder, l: Link, i: nat)
    requires WholeFrames(l) && LinkEnabled(l, DupChunk(i))
    ensures WholeFrames(LinkStep(order, l, DupChunk(i)))
  {
    CarryTwice(l.chunks, l.ledger.positions, l.ledger.owners, l.sent, i);
    DupChunkCalls(l.ledger, i);
  }

  lemma AckChangeKeepsWholeFrames(order: AckOrder, l: Link, e: LinkEvent)
    requires WholeFrames(l) && LinkEnabled(l, e) && (e.LoseAck? || e.DupAck?)
    ensures WholeFrames(LinkStep(order, l, e))
  {
    hide Carry, Handed, CallsInOrder;
    PauseCalls(l.ledger);
  }

  lemma AckKeepsWholeFrames(l: Link)
    requires WholeFrames(l) && LinkEnabled(l, DeliverAck)
    ensures WholeFrames(AckStep(l))
  {
    hide Carry, Handed, CallsInOrder, ParseBleAck;
    PauseCalls(l.ledger);
  }

  lemma SendKeepsWholeFrames(l: Link, e: SenderEvent)
    requires Invariant(l) && WholeFrames(l) && SenderEnabled(l.sender, e) && AllShort(l.sent)
    ensures WholeFrames(SendStep(l, e))
  {
    match e {
      case Begin(_, _) => BeginKeepsWholeFrames(l, e);
      case Write => WriteKeepsWholeFrames(l);
      case _ => EndKeepsWholeFrames(l, e);
    }
  }

  lemma EndKeepsWholeFrames(l: Link, e: SenderEvent)
    requires Invariant(l) && WholeFrames(l) && SenderEnabled(l.sender, e) && AllShort(l.sent)
    requires !e.Begin? && !e.Write?
    ensures WholeFrames(SendStep(l, e))
  {
    hide Carry, Handed, CallsInOrder, Rising, AreChunks, AreAcks, Key, SequenceAt, Chunks;
    PauseCalls(l.ledger);
  }

  lemma BeginKeepsWholeFrames(l: Link, e: SenderEvent)
    requires Invariant(l) && WholeFrames(l) && e.Begin? && SenderEnabled(l.sender, e)
    ensures WholeFrames(SendStep(l, e))
  {
    var g := l.ledger;
    CarryMoreSent(l.chunks, g.positions, g.owners, l.sent, e.frame);
    HandedMoreSent(l.delivered, g.taken, l.sent, e.frame);
    BeginCalls(g);
  }

  /** The chunk of a short frame is the whole frame, marked as the end. */
  lemma OneChunk(p: Phase)
    requires InChunk(p) && |p.frame| <= MAX_BLE_PAYLOAD
    ensures CurrentChunk(p) == EncodeChunk(Key(p), true, p.frame)
  {
    SequenceAtNext(p.start, 0);
  }

  lemma WriteKeepsWholeFrames(l: Link)
    requires Invariant(l) && WholeFrames(l) && SenderEnabled(l.sender, Write) && AllShort(l.sent)
    ensures WholeFrames(SendStep(l, Write))
  {
    var g, p := l.ledger, l.sender.phase;
    OneChunk(p);
    WriteCalls(g);
    CarrySnoc(l.chunks, g.positions, g.owners, l.sent, CurrentChunk(p), g.advanced, |g.starts|);
  }

  /** A chunk with a whole frame is refused, or handed over as it is. */
  lemma TakesWholeFrame(a: Assembly, frame: Frame, position: nat, accepted: nat)
    requires a == Assembly(SequenceAt(1, accepted), []) && |frame| <= MAX_BLE_PAYLOAD
    requires accepted - 2 <= position <= accepted
    ensures
      var (receiver, outcome) := Add(a, EncodeChunk(SequenceAt(1, position), true, frame));
      && receiver.buffer == []
      && if position == accepted then outcome.Ok? && outcome.value.message == Some(frame) else outcome.Err?
  {
    EncodeParse(SequenceAt(1, position), true, frame);
    AcceptsNewPosition(a, EncodeChunk(SequenceAt(1, position), true, frame), position, accepted);
    assert a.buffer + frame == frame;
  }

  lemma HandedMore(delivered: seq<bytes>, calls: seq<nat>, sent: seq<Frame>, c: nat, message: bytes)
    requires Handed(delivered, calls, sent) && 1 <= c <= |sent| && message == sent[c - 1]
    ensures Handed(delivered + [message], calls + [c], sent)
  {}

  /** The part of a reception that concerns the messages. */
  lemma ReceivedMessage(order: AckOrder, l: Link)
    requires l.ledger.InOrder() && l.receiver == Assembly(SequenceAt(1, l.ledger.accepted), [])
    requires Carry(l.chunks, l.ledger.positions, l.ledger.owners, l.sent) && l.chunks != [] && AllShort(l.sent)
    requires Handed(l.delivered, l.ledger.taken, l.sent)
    ensures
      var l' := ReceiveStep(order, l);
      l'.receiver.buffer == [] && Handed(l'.delivered, l'.ledger.taken, l'.sent)
  {
    hide Add, AckFor, EncodeChunk, SequenceAt, Rising;
    var g := l.ledger;
    OldestChunk(g);
    TakesWholeFrame(l.receiver, l.sent[g.owners[0] - 1], g.positions[0], g.accepted);
    HandedMore(l.delivered, g.taken, l.sent, g.owners[0], l.sent[g.owners[0] - 1]);
  }

  lemma ReceiveKeepsWholeFrames(order: AckOrder, l: Link)
    requires Invariant(l) && WholeFrames(l) && LinkEnabled(l, DeliverChunk) && AllShort(l.sent)
    ensures WholeFrames(ReceiveStep(order, l))
  {
    ReceivedMessage(order, l);
    TakenCalls(l.ledger);
  }

  lemma TakenCalls(g: Ledger)
    requires g.OneChunkCalls() && g.CanReceive()
    ensures g.Receive(true).OneChunkCalls() && g.Receive(false).OneChunkCalls()
  {
    if g.Fits() {
      ReceiveNew(g, true);
      ReceiveNew(g, false);
    } else {
      ReceiveRepeat(g, true);
      ReceiveRepeat(g, false);
    }
  }

  // ---- what a session gets ----

  lemma StartWhole()
    ensures Invariant(START) && WholeFrames(START)
  {}

  lemma FromTheStart(order: AckOrder, events: seq<LinkEvent>)
    requires Possible(order, START, events) && AllShort(After(order, START, events).sent)
    ensures Invariant(After(order, START, events)) && WholeFrames(After(order, START, events))
  {
    StartWhole();
    WholeFramesHold(order, START, events);
  }

  /** Whatever the link loses, delays or duplicates, and the sender repeats: if every frame fits in
      one chunk, each message delivered is one frame exactly, of a later call than the
      message before. */
  lemma DeliversOnlySentFrames(order: AckOrder, events: seq<LinkEvent>) returns (calls: seq<nat>)
    requires Possible(order, START, events) && AllShort(After(order, START, events).sent)
    ensures
      var l := After(order, START, events);
      Increasing(calls, |l.sent|) && Handed(l.delivered, calls, l.sent)
  {
    FromTheStart(order, events);
    calls := After(order, START, events).ledger.taken;
  }

  lemma EveryFrame(l: Link)
    requires Invariant(l) && WholeFrames(l) && |l.ledger.taken| == |l.sent|
    ensures l.delivered == l.sent
  {
    hide AreChunks, AreAcks, Rising, Carry, Owned;
    AllTaken(l.ledger.taken, |l.ledger.starts|);
  }

  /** Between calls delivered equals sent if and only if no call gave up, or one did and
      the receiver accepted one more chunk than was acknowledged. */
  lemma DeliversEverySentFrame(order: AckOrder, events: seq<LinkEvent>)
    requires Possible(order, START, events) && AllShort(After(order, START, events).sent)
    requires !InChunk(After(order, START, events).sender.phase)
    ensures
      var l := After(order, START, events);
      l.delivered == l.sent <==>
      l.ledger.givenUp == 0 || (l.ledger.givenUp == 1 && l.ledger.accepted == l.ledger.advanced + 1)
  {
    var l := After(order, START, events);
    FromTheStart(order, events);
    EqualOnlyIfNoneMissing(order, events);
    hide After, Possible, WholeFrames, Invariant;
    if l.ledger.givenUp == 0 || (l.ledger.givenUp == 1 && l.ledger.accepted == l.ledger.advanced + 1) {
      BetweenCalls(l);
    }
  }

  lemma BetweenCalls(l: Link)
    requires Invariant(l) && WholeFrames(l) && !InChunk(l.sender.phase)
    requires l.ledger.givenUp == 0 || (l.ledger.givenUp == 1 && l.ledger.accepted == l.ledger.advanced + 1)
    ensures l.delivered == l.sent
  {
    AllTaken(l.ledger.taken, |l.ledger.starts|);
    EveryFrame(l);
  }

  /** Call c, counted from 1, was acknowledged.  The chunk accepted at its position is of
      some call d that began there, and call c was received just if it is d: always, if no
      other call began at that position. */
  lemma AcknowledgedMeansReceived(order: AckOrder, events: seq<LinkEvent>, c: nat) returns (d: nat)
    requires Possible(order, START, events) && AllShort(After(order, START, events).sent)
    requires 1 <= c <= |After(order, START, events).sent| == |After(order, START, events).ledger.starts|
    requires After(order, START, events).ledger.starts[c - 1] < After(order, START, events).ledger.advanced
    ensures
      var l, g := After(order, START, events), After(order, START, events).ledger;
      var p := g.starts[c - 1];
      && 1 <= d <= |l.sent| && g.starts[d - 1] == p
      && p < |l.delivered| == |g.taken| && g.taken[p] == d && l.delivered[p] == l.sent[d - 1]
      && (c in g.taken <==> c == d)
      && ((forall b :: 0 <= b < |g.starts| && b != c - 1 ==> g.starts[b] != p) ==> c == d)
  {
    var l := After(order, START, events);
    FromTheStart(order, events);
    hide After, Possible, WholeFrames, Invariant;
    d := TakenAt(l, c);
  }

  lemma TakenAt(l: Link, c: nat) returns (d: nat)
    requires Invariant(l) && WholeFrames(l)
    requires 1 <= c <= |l.sent| == |l.ledger.starts| && l.ledger.starts[c - 1] < l.ledger.advanced
    ensures
      var g := l.ledger;
      var p := g.starts[c - 1];
      && 1 <= d <= |l.sent| && g.starts[d - 1] == p
      && p < |l.delivered| == |g.taken| && g.taken[p] == d && l.delivered[p] == l.sent[d - 1]
      && (c in g.taken <==> c == d)
  {
    hide AreChunks, AreAcks, Rising, Carry, Owned, Increasing, Placed;
    var g := l.ledger;
    var p := g.starts[c - 1];
    PlacedAt(g.taken, g.starts, p);
    d := g.taken[p];
    if c in g.taken {
      var i :| 0 <= i < |g.taken| && g.taken[i] == c;
      PlacedAt(g.taken, g.starts, i);
    }
  }

  // ---- an acknowledgement that comes too late ----

  const WRITE: Frame := [1]
  const READBACK: Frame := [2]

  /** A write times out, merely late, and its readback is sent; the write arrives and is
      acknowledged; the readback's chunk is lost. */
  const LATE_ACK :=
    [Send(Begin(WRITE, 1)), Send(Write), Send(TimedOut), Send(Begin(READBACK, 1)), Send(Write),
     DeliverChunk, DeliverAck, Send(Acked), Send(Finished), LoseChunk(0)]

  const TIMED_OUT :=
    START.(chunks := [[0, 65, 1]], sent := [WRITE], ledger := Ledger([0], [1], [], [0], [], 0, 0, false, false, 1))

  /** Write and readback are both in flight, under the same number. */
  const BOTH_IN_FLIGHT :=
    Link(Sender(1, Sending(READBACK, 1, 0, 0, 1, Pending)), Assembly(1, []), [[0, 65, 1], [0, 65, 2]], [],
         [WRITE, READBACK], [], Ledger([0, 0], [1, 2], [], [0, 0], [], 0, 0, true, false, 1))

  const LATE_WRITE_TAKEN :=
    BOTH_IN_FLIGHT.(receiver := Assembly(2, []), chunks := [[0, 65, 2]], acks := [[0, 0xC0, 1, 1]],
                    delivered := [[1]], ledger := Ledger([0], [2], [0], [0, 0], [1], 0, 1, true, false, 1))

  const LATE_ACK_HEARD :=
    LATE_WRITE_TAKEN.(sender := Sender(1, Sending(READBACK, 1, 0, 0, 1, Resolved)), acks := [],
                      ledger := Ledger([0], [2], [], [0, 0], [1], 0, 1, true, true, 1))

  lemma ChunkOfOneByte(frame: Frame, waiter: Waiter)
    requires |frame| == 1
    ensures InChunk(Sending(frame, 1, 0, 0, 1, waiter))
    ensures CurrentChunk(Sending(frame, 1, 0, 0, 1, waiter)) == [0, 65, frame[0]]
  {
    OneChunk(Sending(frame, 1, 0, 0, 1, waiter));
  }

  lemma WriteTimesOut(order: AckOrder) returns (states: seq<Link>)
    ensures Through(order, states, LATE_ACK[..3])
    ensures states[0] == START && states[3] == TIMED_OUT
  {
    hide Chunks, ChunkCount, CurrentChunk, Key, SequenceAt;
    ChunkOfOneByte(WRITE, NotWritten);
    ChunkOfOneByte(WRITE, Pending);
    var l1 := LinkStep(order, START, LATE_ACK[0]);
    var l2 := LinkStep(order, l1, LATE_ACK[1]);
    var l3 := LinkStep(order, l2, LATE_ACK[2]);
    assert l3 == TIMED_OUT;
    states := [START, l1, l2, l3];
  }

  lemma SendsReadback(order: AckOrder) returns (states: seq<Link>)
    ensures Through(order, states, LATE_ACK[3..5])
    ensures states[0] == TIMED_OUT && states[2] == BOTH_IN_FLIGHT
  {
    ChunkOfOneByte(READBACK, NotWritten);
    var l1 := LinkStep(order, TIMED_OUT, LATE_ACK[3]);
    var l2 := LinkStep(order, l1, LATE_ACK[4]);
    assert l2 == BOTH_IN_FLIGHT;
    states := [TIMED_OUT, l1, l2];
  }

  lemma TakesLateWrite(order: AckOrder)
    ensures LinkEnabled(BOTH_IN_FLIGHT, DeliverChunk)
    ensures LinkStep(order, BOTH_IN_FLIGHT, DeliverChunk) == LATE_WRITE_TAKEN
  {
    assert EncodeChunk(1, true, WRITE) == [0, 65, 1];
    EncodeParse(1, true, WRITE);
    assert [] + [1] == [1];
    assert MakeBleAck(1) == Ok([0, 0xC0, 1, 1]);
  }

  lemma HearsLateAck(order: AckOrder)
    ensures LinkEnabled(LATE_WRITE_TAKEN, DeliverAck)
    ensures LinkStep(order, LATE_WRITE_TAKEN, DeliverAck) == LATE_ACK_HEARD
  {
    ChunkOfOneByte(READBACK, Pending);
    AckRoundTrip([0, 0xC0, 1, 1], 1);
  }

  lemma EndsReadback(order: AckOrder) returns (states: seq<Link>)
    ensures Through(order, states, LATE_ACK[7..])
    ensures states[0] == LATE_ACK_HEARD && states[3].sender.phase.Idle? && states[3].sent == [WRITE, READBACK]
    ensures states[3].delivered == [[1]] && states[3].chunks == []
  {
    ChunkOfOneByte(READBACK, Resolved);
    var l1 := LinkStep(order, LATE_ACK_HEARD, LATE_ACK[7]);
    var l2 := LinkStep(order, l1, LATE_ACK[8]);
    var l3 := LinkStep(order, l2, LATE_ACK[9]);
    states := [LATE_ACK_HEARD, l1, l2, l3];
  }

  /** The late write's acknowledgement ends the readback: a call can be acknowledged in
      full though its frame was never received, when another call began at its position. */
  lemma AcknowledgedNotReceived(order: AckOrder)
    ensures Possible(order, START, LATE_ACK)
    ensures
      var l := After(order, START, LATE_ACK);
      && l.sender.phase.Idle? && l.sent == [WRITE, READBACK] && l.delivered == [[1]] && l.chunks == []
  {
    hide LinkStep, LinkEnabled, Possible, After;
    var x := WriteTimesOut(order);
    var y := SendsReadback(order);
    TakesLateWrite(order);
    HearsLateAck(order);
    var z := EndsReadback(order);
    RunThrough(order, z, LATE_ACK[7..]);
    RunNext(order, LATE_WRITE_TAKEN, DeliverAck, LATE_ACK[7..], LATE_ACK[6..]);
    RunNext(order, BOTH_IN_FLIGHT, DeliverChunk, LATE_ACK[6..], LATE_ACK[5..]);
    RunThrough(order, y, LATE_ACK[3..5]);
    RunOn(order, TIMED_OUT, LATE_ACK[3..5], LATE_ACK[5..], LATE_ACK[3..]);
    RunThrough(order, x, LATE_ACK[..3]);
    RunOn(order, START, LATE_ACK[..3], LATE_ACK[3..], LATE_ACK);
  }
}
