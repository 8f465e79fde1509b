/** Frames of any length whose chunks are never tried again, as the shade sends its
    answers, over a link that may delay and lose but does not duplicate: while no call has
    given up, every message delivered is a whole frame, in order; and between calls, just
    when delivered equals sent. */
module OneAttempt {
  import opened Bytes
  import opened Results
  import opened BleLink
  import opened LinkLedger
  import opened StopAndWait
  import opened GivingUp

  /** One attempt for each chunk, and no duplicates. */
  predicate IsPlain(e: LinkEvent) {
    !e.DupChunk? && !e.DupAck? && (e.Send? && e.event.Begin? ==> e.event.attempts == 1)
  }

  predicate Plain(events: seq<LinkEvent>)
    decreases |events|
  {
    events != [] ==> IsPlain(events[0]) && Plain(events[1..])
  }

  /** got chunks of the last frame sent are in: all of it is handed over, or that much of
      it is buffered. */
  predicate Gathered(buffer: bytes, delivered: seq<bytes>, frame: Frame, got: nat, sent: seq<Frame>)
    requires sent != [] && got <= ChunkCount(frame)
  {
    if got == ChunkCount(frame) then buffer == [] && delivered == sent
    else buffer == frame[..MAX_BLE_PAYLOAD * got] && delivered == sent[..|sent| - 1]
  }

  /** data is chunk i of frame, under this number. */
  predicate IsSlice(data: bytes, number: Sequence, frame: Frame, i: nat)
    requires i < ChunkCount(frame)
  {
    ParseBleChunk(data) == Ok(BleChunk(number, i + 1 == ChunkCount(frame), false, Slice(frame, i)))
  }

  /** Chunk i of the last frame sent is the only one in flight, in or out: it, or its
      acknowledgement, or nothing is. */
  predicate OneInFlight(l: Link, i: nat)
    requires l.sent != [] && i < ChunkCount(l.sent[|l.sent| - 1])
  {
    var g, frame := l.ledger, l.sent[|l.sent| - 1];
    if g.accepted == g.advanced then
      && g.acks == []
      && (g.positions == []
          || (g.positions == [g.advanced] && l.chunks != [] && IsSlice(l.chunks[0], l.sender.txSequence, frame, i)))
      && Gathered(l.receiver.buffer, l.delivered, frame, i, l.sent)
    else
      && g.accepted == g.advanced + 1
      && g.positions == [] && (g.acks == [] || g.acks == [g.advanced])
      && Gathered(l.receiver.buffer, l.delivered, frame, i + 1, l.sent)
  }

  predicate Under(l: Link)
    requires InChunk(l.sender.phase)
  {
    var p, g := l.sender.phase, l.ledger;
    && p.attempts == 1 && p.attempt == 0
    && l.sent != [] && p.frame == l.sent[|l.sent| - 1]
    && OneInFlight(l, p.index)
    && (p.waiter.NotWritten? ==> g.positions == [] && g.accepted == g.advanced)
    && (p.waiter.Resolved? ==> g.acks == [] && g.accepted == g.advanced + 1)
  }

  predicate Between(l: Link) {
    && l.ledger.acks == [] && l.ledger.positions == [] && l.ledger.accepted == l.ledger.advanced
    && l.receiver.buffer == [] && l.delivered == l.sent
  }

  /** While no call has given up. */
  predicate Complete(l: Link) {
    && l.ledger.givenUp == 0
    && ChunksNeeded(l.sent) == l.ledger.advanced + Remaining(l.sender.phase)
    && if InChunk(l.sender.phase) then Under(l) else Between(l)
  }

  /** The last call gave up, and no other before it. */
  predicate JustGaveUp(l: Link) {
    && l.ledger.givenUp == 1 && l.sender.phase.Idle? && l.sent != []
    && var missing := ChunksNeeded(l.sent) - l.ledger.advanced;
       var count := ChunkCount(l.sent[|l.sent| - 1]);
       1 <= missing <= count && OneInFlight(l, count - missing)
  }

  /** A later call began after one gave up: between calls two chunks are missing, or
      nothing of the current position is in flight or accepted. */
  predicate WentOn(l: Link) {
    && l.ledger.givenUp >= 1
    && (!InChunk(l.sender.phase) ==>
          || ChunksNeeded(l.sent) >= l.ledger.advanced + 2
          || (l.ledger.accepted == l.ledger.advanced && Rising(l.ledger.positions, -1, l.ledger.advanced - 1)))
  }

  predicate Accounted(l: Link) {
    Complete(l) || JustGaveUp(l) || WentOn(l)
  }

  /** What the assembler makes of the chunk it lacks. */
  lemma TakesSlice(a: Assembly, data: bytes, frame: Frame, i: nat)
    requires i < ChunkCount(frame) && IsSlice(data, a.expected, frame, i)
    requires a.buffer == frame[..MAX_BLE_PAYLOAD * i]
    ensures
      var (receiver, outcome) := Add(a, data);
      && outcome.Ok? && AckFor(data).Ok?
      && (if i + 1 == ChunkCount(frame) then receiver.buffer == [] && outcome.value.message == Some(frame)
          else receiver.buffer == frame[..MAX_BLE_PAYLOAD * (i + 1)] && outcome.value.message == None)
  {
    var from, to := MAX_BLE_PAYLOAD * i, MAX_BLE_PAYLOAD * (i + 1);
    if i + 1 == ChunkCount(frame) {
      assert frame[..from] + frame[from..] == frame;
    } else {
      assert frame[..from] + frame[from..to] == frame[..to];
    }
  }

  lemma TakesTheOne(order: AckOrder, l: Link, i: nat)
    requires Invariant(l) && LinkEnabled(l, DeliverChunk)
    requires l.sent != [] && i < ChunkCount(l.sent[|l.sent| - 1]) && OneInFlight(l, i)
    ensures OneInFlight(ReceiveStep(order, l), i)
    ensures ReceiveStep(order, l).ledger.accepted == l.ledger.advanced + 1
  {
    hide Add, AckFor, ParseBleChunk, Slice, SequenceAt, ChunkCount, Rising, AreChunks, AreAcks;
    var frame := l.sent[|l.sent| - 1];
    TakesSlice(l.receiver, l.chunks[0], frame, i);
    assert l.sent[..|l.sent| - 1] + [frame] == l.sent;
  }

  lemma ReceiveKeeps(order: AckOrder, l: Link)
    requires Invariant(l) && Accounted(l) && LinkEnabled(l, DeliverChunk)
    ensures Accounted(ReceiveStep(order, l))
  {
    if Complete(l) {
      TakesTheOne(order, l, l.sender.phase.index);
    } else if JustGaveUp(l) {
      TakesTheOne(order, l, ChunkCount(l.sent[|l.sent| - 1]) - (ChunksNeeded(l.sent) - l.ledger.advanced));
    } else {
      ReceiveGoesOn(order, l);
    }
  }

  lemma ReceiveGoesOn(order: AckOrder, l: Link)
    requires Invariant(l) && WentOn(l) && LinkEnabled(l, DeliverChunk)
    ensures WentOn(ReceiveStep(order, l))
  {
    hide Add, AckFor, ParseBleChunk, SequenceAt, ChunkCount, AreChunks, AreAcks, ChunksNeeded;
    var g := l.ledger;
    if Rising(g.positions, -1, g.advanced - 1) {
      RisingWiden(g.positions[1..], g.positions[0], g.advanced - 1, -1, g.advanced - 1);
    }
  }

  lemma AckKeeps(l: Link)
    requires Invariant(l) && Accounted(l) && LinkEnabled(l, DeliverAck)
    ensures Accounted(AckStep(l))
  {
    hide ChunksNeeded, ChunkCount, Gathered, Slice, AreChunks, ParseBleAck, SequenceAt;
    var g := l.ledger;
    assert (g.acks + g.positions)[0] == g.acks[0];
    WakesForCurrent(l.sender, l.acks[0], g.acks[0], g.advanced);
  }

  lemma BeginKeeps(l: Link, e: SenderEvent)
    requires Invariant(l) && Accounted(l) && e.Begin? && SenderEnabled(l.sender, e) && e.attempts == 1
    ensures Accounted(SendStep(l, e))
  {
    hide AreChunks, AreAcks, Rising, SequenceAt, Slice;
    NeededMore(l.sent, e.frame);
    assert (l.sent + [e.frame])[..|l.sent|] == l.sent;
    assert e.frame[..0] == [];
  }

  lemma WriteKeeps(l: Link)
    requires Invariant(l) && Accounted(l) && SenderEnabled(l.sender, Write)
    ensures Accounted(SendStep(l, Write))
  {
    hide AreChunks, AreAcks, Rising, SequenceAt, ChunkCount, ChunksNeeded, Gathered, ParseBleChunk, Chunks;
    var p := l.sender.phase;
    if Complete(l) {
      ChunksParse(p.frame, p.start, p.index);
      NothingInFlight(l);
      assert [] + [CurrentChunk(p)] == [CurrentChunk(p)] && [] + [l.ledger.advanced] == [l.ledger.advanced];
    }
  }

  lemma NothingInFlight(l: Link)
    requires Invariant(l) && l.ledger.positions == []
    ensures l.chunks == []
  {}

  lemma AckedKeeps(l: Link)
    requires Invariant(l) && Accounted(l) && SenderEnabled(l.sender, Acked)
    ensures Accounted(SendStep(l, Acked))
  {
    hide AreChunks, AreAcks, SequenceAt, Slice, ParseBleChunk, ChunksNeeded, ChunkCount;
    var g := l.ledger;
    if WentOn(l) && !Complete(l) {
      WokenBehind(g);
    }
  }

  /** Once woken, everything in flight is of the position that becomes the one before. */
  lemma WokenBehind(g: Ledger)
    requires g.InOrder() && g.woken
    ensures Rising(g.positions, -1, g.advanced) && g.accepted == g.advanced + 1
  {
    var pipe, k := g.acks + g.positions, |g.acks|;
    if g.positions != [] {
      RisingSplit(pipe, k, g.advanced, g.advanced);
      assert pipe[k..] == g.positions;
      RisingWiden(g.positions, pipe[k], g.advanced, -1, g.advanced);
    }
  }

  lemma EndKeeps(l: Link, e: SenderEvent)
    requires Invariant(l) && Accounted(l) && Tallied(l) && SenderEnabled(l.sender, e)
    requires e.TimedOut? || e.Raised? || e.Finished?
    ensures Accounted(SendStep(l, e))
  {
    hide AreChunks, AreAcks, Rising, SequenceAt, Slice, ParseBleChunk, ChunksNeeded, Gathered;
  }

  lemma LoseKeeps(order: AckOrder, l: Link, e: LinkEvent)
    requires Invariant(l) && Accounted(l) && LinkEnabled(l, e) && (e.LoseChunk? || e.LoseAck?)
    ensures Accounted(LinkStep(order, l, e))
  {
    hide AreChunks, AreAcks, SequenceAt, Slice, ParseBleChunk, ChunksNeeded, Gathered, ChunkCount;
    var g := l.ledger;
    if e.LoseChunk? && Rising(g.positions, -1, g.advanced - 1) {
      RisingWithout(g.positions, e.i, -1, g.advanced - 1);
    }
  }

  lemma StepKeeps(order: AckOrder, l: Link, e: LinkEvent)
    requires Invariant(l) && Accounted(l) && Tallied(l) && LinkEnabled(l, e) && IsPlain(e)
    ensures Accounted(LinkStep(order, l, e))
  {
    hide Accounted, Invariant, Tallied;
    match e {
      case Send(event) =>
        match event {
          case Begin(_, _) => BeginKeeps(l, event);
          case Write => WriteKeeps(l);
          case Acked => AckedKeeps(l);
          case _ => EndKeeps(l, event);
        }
      case DeliverChunk => ReceiveKeeps(order, l);
      case DeliverAck => AckKeeps(l);
      case _ => LoseKeeps(order, l, e);
    }
  }

  lemma {:induction false} AccountedHolds(order: AckOrder, l: Link, events: seq<LinkEvent>)
    requires Invariant(l) && Tallied(l) && Accounted(l) && Possible(order, l, events) && Plain(events)
    ensures Invariant(After(order, l, events)) && Accounted(After(order, l, events))
    decreases |events|
  {
    if events != [] {
      StepKeepsInvariant(order, l, events[0]);
      StepTallied(order, l, events[0]);
      StepKeeps(order, l, events[0]);
      hide Accounted, Invariant, Tallied, LinkStep;
      AccountedHolds(order, LinkStep(order, l, events[0]), events[1..]);
    }
  }

  lemma CompleteAtStart()
    ensures Complete(START)
  {}

  lemma FromTheStart(order: AckOrder, events: seq<LinkEvent>)
    requires Possible(order, START, events) && Plain(events)
    ensures Invariant(After(order, START, events)) && Accounted(After(order, START, events))
  {
    NothingToTally();
    CompleteAtStart();
    hide Accounted, Invariant, Tallied, Complete, JustGaveUp, WentOn;
    assert Accounted(START) by {
      CompleteIsAccounted(START);
    }
    AccountedHolds(order, START, events);
  }

  lemma CompleteIsAccounted(l: Link)
    requires Complete(l)
    ensures Accounted(l)
  {}

  /** Frames of any length, each chunk written once: while no call has given up, the
      messages delivered are the frames sent, all of them or all but the one under way. */
  lemma DeliversWholeFrames(order: AckOrder, events: seq<LinkEvent>)
    requires Possible(order, START, events) && Plain(events) && After(order, START, events).ledger.givenUp == 0
    ensures
      var l := After(order, START, events);
      && (!InChunk(l.sender.phase) ==> l.delivered == l.sent)
      && (InChunk(l.sender.phase) ==>
            l.sent != [] && (l.delivered == l.sent || l.delivered == l.sent[..|l.sent| - 1]))
  {
    var l := After(order, START, events);
    FromTheStart(order, events);
    hide After, Possible, Invariant, ChunkCount, ChunksNeeded;
  }

  /** Between calls delivered equals sent if and only if no call gave up, or only the last
      one did, and its last chunk was taken though not acknowledged: the receiver has
      accepted every chunk of every frame. */
  lemma DeliveredEqualsSent(order: AckOrder, events: seq<LinkEvent>)
    requires Possible(order, START, events) && Plain(events) && !InChunk(After(order, START, events).sender.phase)
    ensures After(order, START, events).delivered == After(order, START, events).sent <==>
            NoneMissing(After(order, START, events))
  {
    var l := After(order, START, events);
    FromTheStart(order, events);
    EqualOnlyIfNoneMissing(order, events);
    hide After, Possible, Invariant, ChunkCount, ChunksNeeded;
  }

  // ---- after a call that gave up ----

  const FIRST: Frame := seq(20, _ => 1)
  const SECOND: Frame := seq(20, _ => 2)

  /** The first frame's first chunk is late, and its call gives up; then the second frame's
      two chunks are written. */
  const LATE_CHUNK :=
    [Send(Begin(FIRST, 1)), Send(Write), Send(TimedOut), Send(Begin(SECOND, 1)), Send(Write),
     DeliverChunk, DeliverAck, Send(Acked), Send(Write), DeliverChunk, DeliverChunk]

  lemma ChunksOf(frame: Frame, waiter: Waiter)
    requires |frame| == 20
    ensures InChunk(Sending(frame, 1, 0, 0, 1, waiter)) && InChunk(Sending(frame, 1, 1, 0, 1, waiter))
    ensures CurrentChunk(Sending(frame, 1, 0, 0, 1, waiter)) == EncodeChunk(1, false, frame[..18])
    ensures CurrentChunk(Sending(frame, 1, 1, 0, 1, waiter)) == EncodeChunk(2, true, frame[18..])
  {
    assert Chunks(frame, 1) == [EncodeChunk(1, false, frame[..18])] + Chunks(frame[18..], 2);
    assert Chunks(frame[18..], 2) == [EncodeChunk(2, true, frame[18..])];
  }

  const GAVE_UP :=
    START.(chunks := [EncodeChunk(1, false, FIRST[..18])], sent := [FIRST],
           ledger := Ledger([0], [1], [], [0], [], 0, 0, false, false, 1))

  /** Both first chunks are in flight. */
  const TWO_FIRST_CHUNKS :=
    Link(Sender(1, Sending(SECOND, 1, 0, 0, 1, Pending)), Assembly(1, []),
         [EncodeChunk(1, false, FIRST[..18]), EncodeChunk(1, false, SECOND[..18])], [],
         [FIRST, SECOND], [], Ledger([0, 0], [1, 2], [], [0, 0], [], 0, 0, true, false, 1))

  const LATE_TAKEN :=
    TWO_FIRST_CHUNKS.(receiver := Assembly(2, FIRST[..18]), chunks := [EncodeChunk(1, false, SECOND[..18])],
                      acks := [[0, 0xC0, 1, 1]], ledger := Ledger([0], [2], [0], [0, 0], [1], 0, 1, true, false, 1))

  const WOKEN :=
    LATE_TAKEN.(sender := Sender(1, Sending(SECOND, 1, 0, 0, 1, Resolved)), acks := [],
                ledger := Ledger([0], [2], [], [0, 0], [1], 0, 1, true, true, 1))

  /** The second frame's last chunk is written, behind its first one. */
  const LAST_CHUNK_WRITTEN :=
    Link(Sender(2, Sending(SECOND, 1, 1, 0, 1, Pending)), Assembly(2, FIRST[..18]),
         [EncodeChunk(1, false, SECOND[..18]), EncodeChunk(2, true, SECOND[18..])], [],
         [FIRST, SECOND], [], Ledger([0, 1], [2, 2], [], [0, 0], [1], 1, 1, true, false, 1))

  lemma GivesUp(order: AckOrder) returns (states: seq<Link>)
    ensures Through(order, states, LATE_CHUNK[..3])
    ensures states[0] == START && states[3] == GAVE_UP
  {
    hide Chunks, ChunkCount, CurrentChunk, Key, SequenceAt;
    ChunksOf(FIRST, NotWritten);
    ChunksOf(FIRST, Pending);
    var l1 := LinkStep(order, START, LATE_CHUNK[0]);
    var l2 := LinkStep(order, l1, LATE_CHUNK[1]);
    var l3 := LinkStep(order, l2, LATE_CHUNK[2]);
    assert l3 == GAVE_UP;
    states := [START, l1, l2, l3];
  }

  lemma WritesAgain(order: AckOrder) returns (states: seq<Link>)
    ensures Through(order, states, LATE_CHUNK[3..5])
    ensures states[0] == GAVE_UP && states[2] == TWO_FIRST_CHUNKS
  {
    ChunksOf(SECOND, NotWritten);
    var l4 := LinkStep(order, GAVE_UP, LATE_CHUNK[3]);
    var l5 := LinkStep(order, l4, LATE_CHUNK[4]);
    assert l5 == TWO_FIRST_CHUNKS;
    states := [GAVE_UP, l4, l5];
  }

  lemma TakesLateChunk(order: AckOrder)
    ensures LinkEnabled(TWO_FIRST_CHUNKS, DeliverChunk)
    ensures LinkStep(order, TWO_FIRST_CHUNKS, DeliverChunk) == LATE_TAKEN
  {
    EncodeParse(1, false, FIRST[..18]);
    assert [] + FIRST[..18] == FIRST[..18];
    assert MakeBleAck(1) == Ok([0, 0xC0, 1, 1]);
  }

  lemma HearsLateAck(order: AckOrder)
    ensures LinkEnabled(LATE_TAKEN, DeliverAck) && LinkStep(order, LATE_TAKEN, DeliverAck) == WOKEN
  {
    AckRoundTrip([0, 0xC0, 1, 1], 1);
  }

  lemma WritesLastChunk(order: AckOrder) returns (states: seq<Link>)
    ensures Through(order, states, LATE_CHUNK[7..9])
    ensures states[0] == WOKEN && states[2] == LAST_CHUNK_WRITTEN
  {
    ChunksOf(SECOND, NotWritten);
    var l1 := LinkStep(order, WOKEN, LATE_CHUNK[7]);
    var l2 := LinkStep(order, l1, LATE_CHUNK[8]);
    assert l2 == LAST_CHUNK_WRITTEN;
    states := [WOKEN, l1, l2];
  }

  lemma DeliversTheRest(order: AckOrder) returns (states: seq<Link>)
    ensures Through(order, states, LATE_CHUNK[9..])
    ensures states[0] == LAST_CHUNK_WRITTEN && states[2].sent == [FIRST, SECOND] && states[2].delivered == [[2, 2]]
  {
    EncodeParse(1, false, SECOND[..18]);
    EncodeParse(2, true, SECOND[18..]);
    assert [] + SECOND[18..] == [2, 2];
    var l0 := LAST_CHUNK_WRITTEN;
    var l1 := LinkStep(order, l0, LATE_CHUNK[9]);
    assert l1.receiver == Assembly(2, []);
    var l2 := LinkStep(order, l1, LATE_CHUNK[10]);
    states := [l0, l1, l2];
  }

  lemma EndOfSecond(order: AckOrder)
    ensures Possible(order, WOKEN, LATE_CHUNK[7..])
    ensures After(order, WOKEN, LATE_CHUNK[7..]).sent == [FIRST, SECOND]
    ensures After(order, WOKEN, LATE_CHUNK[7..]).delivered == [[2, 2]]
  {
    hide LinkStep, LinkEnabled, Possible, After;
    var w := WritesLastChunk(order);
    var z := DeliversTheRest(order);
    RunThrough(order, z, LATE_CHUNK[9..]);
    RunThrough(order, w, LATE_CHUNK[7..9]);
    RunOn(order, WOKEN, LATE_CHUNK[7..9], LATE_CHUNK[9..], LATE_CHUNK[7..]);
  }

  /** The late chunk is taken for the second frame's, which is then refused and drops the
      buffer: the end of the second frame is delivered alone. */
  lemma LateChunkTruncates(order: AckOrder)
    ensures Possible(order, START, LATE_CHUNK)
    ensures After(order, START, LATE_CHUNK).sent == [FIRST, SECOND]
    ensures After(order, START, LATE_CHUNK).delivered == [[2, 2]]
  {
    hide LinkStep, LinkEnabled, Possible, After;
    var u := GivesUp(order);
    var v := WritesAgain(order);
    TakesLateChunk(order);
    HearsLateAck(order);
    EndOfSecond(order);
    RunNext(order, LATE_TAKEN, DeliverAck, LATE_CHUNK[7..], LATE_CHUNK[6..]);
    RunNext(order, TWO_FIRST_CHUNKS, DeliverChunk, LATE_CHUNK[6..], LATE_CHUNK[5..]);
    RunThrough(order, v, LATE_CHUNK[3..5]);
    RunOn(order, GAVE_UP, LATE_CHUNK[3..5], LATE_CHUNK[5..], LATE_CHUNK[3..]);
    RunThrough(order, u, LATE_CHUNK[..3]);
    RunOn(order, START, LATE_CHUNK[..3], LATE_CHUNK[3..], LATE_CHUNK);
  }

  // ---- a stale buffer ----

  const TAIL: Frame := [7]

  /** The first frame's first chunk gets through, and its call gives up before the second
      is written; then a frame of one byte is sent. */
  const STALE_BUFFER :=
    [Send(Begin(FIRST, 1)), Send(Write), DeliverChunk, DeliverAck, Send(Acked), Send(Raised),
     Send(Begin(TAIL, 1)), Send(Write), DeliverChunk]

  const FIRST_CHUNK_WRITTEN :=
    START.(sender := Sender(1, Sending(FIRST, 1, 0, 0, 1, Pending)), sent := [FIRST],
           chunks := [EncodeChunk(1, false, FIRST[..18])],
           ledger := Ledger([0], [1], [], [0], [], 0, 0, true, false, 0))

  const FIRST_CHUNK_TAKEN :=
    FIRST_CHUNK_WRITTEN.(receiver := Assembly(2, FIRST[..18]), chunks := [], acks := [[0, 0xC0, 1, 1]],
                         ledger := Ledger([], [], [0], [0], [1], 0, 1, true, false, 0))

  const FIRST_ACK_HEARD :=
    FIRST_CHUNK_TAKEN.(sender := Sender(1, Sending(FIRST, 1, 0, 0, 1, Resolved)), acks := [],
                       ledger := Ledger([], [], [], [0], [1], 0, 1, true, true, 0))

  const GAVE_UP_HALFWAY :=
    Link(Sender(2, Idle), Assembly(2, FIRST[..18]), [], [], [FIRST], [],
         Ledger([], [], [], [0], [1], 1, 1, false, false, 1))

  const TAIL_WRITTEN :=
    GAVE_UP_HALFWAY.(sender := Sender(2, Sending(TAIL, 2, 0, 0, 1, Pending)), sent := [FIRST, TAIL],
                     chunks := [EncodeChunk(2, true, TAIL)],
                     ledger := Ledger([1], [2], [], [0, 1], [1], 1, 1, true, false, 1))

  lemma WritesFirstChunk(order: AckOrder) returns (states: seq<Link>)
    ensures Through(order, states, STALE_BUFFER[..2])
    ensures states[0] == START && states[2] == FIRST_CHUNK_WRITTEN
  {
    hide Chunks, ChunkCount, CurrentChunk, Key, SequenceAt;
    ChunksOf(FIRST, NotWritten);
    var l1 := LinkStep(order, START, STALE_BUFFER[0]);
    var l2 := LinkStep(order, l1, STALE_BUFFER[1]);
    assert l2 == FIRST_CHUNK_WRITTEN;
    states := [START, l1, l2];
  }

  lemma FirstChunkThrough(order: AckOrder)
    ensures LinkEnabled(FIRST_CHUNK_WRITTEN, DeliverChunk)
    ensures LinkStep(order, FIRST_CHUNK_WRITTEN, DeliverChunk) == FIRST_CHUNK_TAKEN
    ensures LinkEnabled(FIRST_CHUNK_TAKEN, DeliverAck)
    ensures LinkStep(order, FIRST_CHUNK_TAKEN, DeliverAck) == FIRST_ACK_HEARD
  {
    EncodeParse(1, false, FIRST[..18]);
    assert [] + FIRST[..18] == FIRST[..18];
    assert MakeBleAck(1) == Ok([0, 0xC0, 1, 1]);
    ChunksOf(FIRST, Pending);
    AckRoundTrip([0, 0xC0, 1, 1], 1);
  }

  lemma GivesUpHalfway(order: AckOrder) returns (states: seq<Link>)
    ensures Through(order, states, STALE_BUFFER[4..6])
    ensures states[0] == FIRST_ACK_HEARD && states[2] == GAVE_UP_HALFWAY
  {
    ChunksOf(FIRST, Resolved);
    var l1 := LinkStep(order, FIRST_ACK_HEARD, STALE_BUFFER[4]);
    var l2 := LinkStep(order, l1, STALE_BUFFER[5]);
    assert l2 == GAVE_UP_HALFWAY;
    states := [FIRST_ACK_HEARD, l1, l2];
  }

  lemma TailChunk(waiter: Waiter)
    ensures InChunk(Sending(TAIL, 2, 0, 0, 1, waiter))
    ensures CurrentChunk(Sending(TAIL, 2, 0, 0, 1, waiter)) == EncodeChunk(2, true, TAIL)
  {}

  lemma WritesTail(order: AckOrder) returns (states: seq<Link>)
    ensures Through(order, states, STALE_BUFFER[6..8])
    ensures states[0] == GAVE_UP_HALFWAY && states[2] == TAIL_WRITTEN
  {
    hide Chunks, ChunkCount, CurrentChunk, Key, SequenceAt;
    TailChunk(NotWritten);
    var l1 := LinkStep(order, GAVE_UP_HALFWAY, STALE_BUFFER[6]);
    var l2 := LinkStep(order, l1, STALE_BUFFER[7]);
    assert l2 == TAIL_WRITTEN;
    states := [GAVE_UP_HALFWAY, l1, l2];
  }

  lemma GluesTail(order: AckOrder) returns (l: Link)
    ensures LinkEnabled(TAIL_WRITTEN, DeliverChunk) && LinkStep(order, TAIL_WRITTEN, DeliverChunk) == l
    ensures l.delivered == [FIRST[..18] + TAIL] && l.sent == [FIRST, TAIL]
  {
    EncodeParse(2, true, TAIL);
    l := LinkStep(order, TAIL_WRITTEN, DeliverChunk);
  }

  lemma TailGlued(order: AckOrder)
    ensures Possible(order, FIRST_ACK_HEARD, STALE_BUFFER[4..])
    ensures After(order, FIRST_ACK_HEARD, STALE_BUFFER[4..]).sent == [FIRST, TAIL]
    ensures After(order, FIRST_ACK_HEARD, STALE_BUFFER[4..]).delivered == [FIRST[..18] + TAIL]
  {
    var y := GivesUpHalfway(order);
    var z := WritesTail(order);
    var last := GluesTail(order);
    NoEvents(order, last);
    hide LinkStep, LinkEnabled, Possible, After;
    RunNext(order, TAIL_WRITTEN, DeliverChunk, [], STALE_BUFFER[8..]);
    RunThrough(order, z, STALE_BUFFER[6..8]);
    RunOn(order, GAVE_UP_HALFWAY, STALE_BUFFER[6..8], STALE_BUFFER[8..], STALE_BUFFER[6..]);
    RunThrough(order, y, STALE_BUFFER[4..6]);
    RunOn(order, FIRST_ACK_HEARD, STALE_BUFFER[4..6], STALE_BUFFER[6..], STALE_BUFFER[4..]);
  }

  /** What the first frame left in the buffer is glued before the next frame: nobody sent
      the message that is delivered. */
  lemma StaleBufferGlues(order: AckOrder)
    ensures Possible(order, START, STALE_BUFFER)
    ensures After(order, START, STALE_BUFFER).sent == [FIRST, TAIL]
    ensures After(order, START, STALE_BUFFER).delivered == [FIRST[..18] + TAIL]
  {
    hide LinkStep, LinkEnabled, Possible, After;
    var x := WritesFirstChunk(order);
    FirstChunkThrough(order);
    TailGlued(order);
    RunNext(order, FIRST_CHUNK_TAKEN, DeliverAck, STALE_BUFFER[4..], STALE_BUFFER[3..]);
    RunNext(order, FIRST_CHUNK_WRITTEN, DeliverChunk, STALE_BUFFER[3..], STALE_BUFFER[2..]);
    RunThrough(order, x, STALE_BUFFER[..2]);
    RunOn(order, START, STALE_BUFFER[..2], STALE_BUFFER[2..], STALE_BUFFER);
  }

  // ---- a duplicate ----

  /** The first chunk arrives twice, the second time behind its acknowledgement. */
  const DUPLICATED :=
    [Send(Begin(FIRST, 1)), Send(Write), DupChunk(0), DeliverChunk, DeliverAck, Send(Acked), Send(Write),
     DeliverChunk, DeliverChunk, DeliverAck, Send(Acked), Send(Finished)]

  const FIRST_TWICE :=
    FIRST_CHUNK_WRITTEN.(chunks := [EncodeChunk(1, false, FIRST[..18]), EncodeChunk(1, false, FIRST[..18])],
                         ledger := Ledger([0, 0], [1, 1], [], [0], [], 0, 0, true, false, 0))

  const ONE_LEFT :=
    FIRST_TWICE.(receiver := Assembly(2, FIRST[..18]), chunks := [EncodeChunk(1, false, FIRST[..18])],
                 acks := [[0, 0xC0, 1, 1]], ledger := Ledger([0], [1], [0], [0], [1], 0, 1, true, false, 0))

  const ONE_HEARD :=
    ONE_LEFT.(sender := Sender(1, Sending(FIRST, 1, 0, 0, 1, Resolved)), acks := [],
              ledger := Ledger([0], [1], [], [0], [1], 0, 1, true, true, 0))

  /** The second chunk is behind the duplicate. */
  const BEHIND :=
    Link(Sender(2, Sending(FIRST, 1, 1, 0, 1, Pending)), Assembly(2, FIRST[..18]),
         [EncodeChunk(1, false, FIRST[..18]), EncodeChunk(2, true, FIRST[18..])], [], [FIRST], [],
         Ledger([0, 1], [1, 1], [], [0], [1], 1, 1, true, false, 0))

  const EMPTIED :=
    BEHIND.(receiver := Assembly(2, []), chunks := [EncodeChunk(2, true, FIRST[18..])],
            ledger := Ledger([1], [1], [], [0], [1], 1, 1, true, false, 0))

  const END_TAKEN :=
    EMPTIED.(receiver := Assembly(3, []), chunks := [], acks := [[0, 0xC0, 1, 2]], delivered := [[1, 1]],
             ledger := Ledger([], [], [1], [0], [1, 1], 1, 2, true, false, 0))

  const END_HEARD :=
    END_TAKEN.(sender := Sender(2, Sending(FIRST, 1, 1, 0, 1, Resolved)), acks := [],
               ledger := Ledger([], [], [], [0], [1, 1], 1, 2, true, true, 0))

  lemma FirstTwice()
    ensures LinkEnabled(FIRST_CHUNK_WRITTEN, DupChunk(0))
    ensures LinkStep(AddThenAck, FIRST_CHUNK_WRITTEN, DupChunk(0)) == FIRST_TWICE
    ensures LinkEnabled(FIRST_TWICE, DeliverChunk) && LinkStep(AddThenAck, FIRST_TWICE, DeliverChunk) == ONE_LEFT
    ensures LinkEnabled(ONE_LEFT, DeliverAck) && LinkStep(AddThenAck, ONE_LEFT, DeliverAck) == ONE_HEARD
  {
    EncodeParse(1, false, FIRST[..18]);
    assert [] + FIRST[..18] == FIRST[..18];
    assert MakeBleAck(1) == Ok([0, 0xC0, 1, 1]);
    ChunksOf(FIRST, Pending);
    AckRoundTrip([0, 0xC0, 1, 1], 1);
  }

  lemma WritesSecond() returns (states: seq<Link>)
    ensures Through(AddThenAck, states, DUPLICATED[5..7])
    ensures states[0] == ONE_HEARD && states[2] == BEHIND
  {
    ChunksOf(FIRST, Resolved);
    ChunksOf(FIRST, NotWritten);
    var l1 := LinkStep(AddThenAck, ONE_HEARD, DUPLICATED[5]);
    var l2 := LinkStep(AddThenAck, l1, DUPLICATED[6]);
    assert l2 == BEHIND;
    states := [ONE_HEARD, l1, l2];
  }

  lemma EndAlone()
    ensures LinkEnabled(BEHIND, DeliverChunk) && LinkStep(AddThenAck, BEHIND, DeliverChunk) == EMPTIED
    ensures LinkEnabled(EMPTIED, DeliverChunk) && LinkStep(AddThenAck, EMPTIED, DeliverChunk) == END_TAKEN
    ensures LinkEnabled(END_TAKEN, DeliverAck) && LinkStep(AddThenAck, END_TAKEN, DeliverAck) == END_HEARD
  {
    EncodeParse(1, false, FIRST[..18]);
    EncodeParse(2, true, FIRST[18..]);
    assert [] + FIRST[18..] == [1, 1];
    assert MakeBleAck(2) == Ok([0, 0xC0, 1, 2]);
    ChunksOf(FIRST, Pending);
    AckRoundTrip([0, 0xC0, 1, 2], 2);
  }

  lemma CallFinishes() returns (states: seq<Link>)
    ensures Through(AddThenAck, states, DUPLICATED[10..])
    ensures states[0] == END_HEARD && states[2].sender == Sender(3, Idle) && states[2].ledger.givenUp == 0
    ensures states[2].sent == [FIRST] && states[2].delivered == [[1, 1]]
  {
    ChunksOf(FIRST, Resolved);
    var l1 := LinkStep(AddThenAck, END_HEARD, DUPLICATED[10]);
    var l2 := LinkStep(AddThenAck, l1, DUPLICATED[11]);
    states := [END_HEARD, l1, l2];
  }

  /** From the acknowledgement of the first chunk on. */
  lemma EndsAlone()
    ensures Possible(AddThenAck, ONE_HEARD, DUPLICATED[5..])
    ensures
      var l := After(AddThenAck, ONE_HEARD, DUPLICATED[5..]);
      && l.sender.phase.Idle? && l.ledger.givenUp == 0 && l.sent == [FIRST] && l.delivered == [[1, 1]]
  {
    hide LinkStep, LinkEnabled, Possible, After;
    var y := WritesSecond();
    EndAlone();
    var z := CallFinishes();
    RunThrough(AddThenAck, z, DUPLICATED[10..]);
    RunNext(AddThenAck, END_TAKEN, DeliverAck, DUPLICATED[10..], DUPLICATED[9..]);
    RunNext(AddThenAck, EMPTIED, DeliverChunk, DUPLICATED[9..], DUPLICATED[8..]);
    RunNext(AddThenAck, BEHIND, DeliverChunk, DUPLICATED[8..], DUPLICATED[7..]);
    RunThrough(AddThenAck, y, DUPLICATED[5..7]);
    RunOn(AddThenAck, ONE_HEARD, DUPLICATED[5..7], DUPLICATED[7..], DUPLICATED[5..]);
  }

  /** A link that may duplicate has to be excluded above: with one chunk there twice, a call
      that ends well delivers the end of its frame alone. */
  lemma DuplicateTruncates()
    ensures Possible(AddThenAck, START, DUPLICATED)
    ensures
      var l := After(AddThenAck, START, DUPLICATED);
      && l.sender.phase.Idle? && l.ledger.givenUp == 0 && l.sent == [FIRST] && l.delivered == [[1, 1]]
  {
    hide LinkStep, LinkEnabled, Possible, After;
    var x := WritesFirstChunk(AddThenAck);
    FirstTwice();
    EndsAlone();
    RunNext(AddThenAck, ONE_LEFT, DeliverAck, DUPLICATED[5..], DUPLICATED[4..]);
    RunNext(AddThenAck, FIRST_TWICE, DeliverChunk, DUPLICATED[4..], DUPLICATED[3..]);
    RunNext(AddThenAck, FIRST_CHUNK_WRITTEN, DupChunk(0), DUPLICATED[3..], DUPLICATED[2..]);
    RunThrough(AddThenAck, x, DUPLICATED[..2]);
    RunOn(AddThenAck, START, DUPLICATED[..2], DUPLICATED[2..], DUPLICATED);
  }
}
