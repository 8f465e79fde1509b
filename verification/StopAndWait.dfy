/** The stop-and-wait link as two parties joined by FIFO channels that may delay, lose
    or duplicate anything: _send_frame on one side, an assembler that acknowledges on the
    other.  The ledger, sent and delivered fields are history: no party reads them. */
module StopAndWait {
  import opened Bytes
  import opened Results
  import opened BleLink
  import opened LinkLedger

  // ---- the sender ----

  /** The future that _send_frame waits on for the current chunk. */
  datatype Waiter = NotWritten | Pending | Resolved

  datatype Phase =
    | Idle
    | Sending(frame: Frame, start: Sequence, index: nat, attempt: nat, attempts: nat, waiter: Waiter)

  datatype Sender = Sender(txSequence: Sequence, phase: Phase)

  /** The points of _send_frame at which it starts, writes a chunk, is woken, or ends. */
  datatype SenderEvent =
    | Begin(frame: Frame, attempts: nat)
    | Write
    | Acked
    | TimedOut
    | Raised
    | Finished

  function CurrentChunk(p: Phase): bytes
    requires p.Sending? && p.index < ChunkCount(p.frame)
  {
    ChunksParse(p.frame, p.start, p.index);
    Chunks(p.frame, p.start)[p.index]
  }

  /** The key under which the current chunk's waiter is registered. */
  function Key(p: Phase): Sequence
    requires p.Sending?
  {
    SequenceAt(p.start, p.index)
  }

  predicate InChunk(p: Phase) {
    p.Sending? && p.index < ChunkCount(p.frame)
  }

  predicate SenderEnabled(s: Sender, e: SenderEvent) {
    match e
    case Begin(_, attempts) => s.phase.Idle? && 1 <= attempts <= 2
    case Write => InChunk(s.phase) && s.phase.waiter.NotWritten?
    case Acked => InChunk(s.phase) && s.phase.waiter.Resolved?
    case TimedOut => InChunk(s.phase) && !s.phase.waiter.NotWritten?
    case Raised => s.phase.Sending?
    case Finished => s.phase.Sending? && s.phase.index == ChunkCount(s.phase.frame)
  }

  function SenderStep(s: Sender, e: SenderEvent): Sender
    requires SenderEnabled(s, e)
  {
    var p := s.phase;
    match e
    case Begin(frame, attempts) => s.(phase := Sending(frame, s.txSequence, 0, 0, attempts, NotWritten))
    case Write => s.(phase := p.(waiter := Pending))
    case Acked => Sender(Next(Key(p)), p.(index := p.index + 1, attempt := 0, waiter := NotWritten))
    case TimedOut =>
      if p.attempt + 1 >= p.attempts then s.(phase := Idle)
      else s.(phase := p.(attempt := p.attempt + 1, waiter := NotWritten))
    case Raised => s.(phase := Idle)
    case Finished => s.(phase := Idle)
  }

  /** An acknowledgement resolves the waiter registered under its number, if any. */
  function Resolve(s: Sender, sequence: Sequence): Sender {
    if InChunk(s.phase) && s.phase.waiter.Pending? && Key(s.phase) == sequence then
      s.(phase := s.phase.(waiter := Resolved))
    else s
  }

  // ---- the link ----

  /** The shade acknowledges before it adds; the central's worker adds first. */
  datatype AckOrder = AckThenAdd | AddThenAck

  datatype Link = Link(
    sender: Sender, receiver: Assembly, chunks: seq<bytes>, acks: seq<bytes>,
    sent: seq<Frame>, delivered: seq<bytes>, ledger: Ledger)

  datatype LinkEvent =
    | Send(event: SenderEvent)
    | DeliverChunk
    | LoseChunk(i: nat)
    | DupChunk(i: nat)
    | DeliverAck
    | LoseAck(i: nat)
    | DupAck(i: nat)

  const START := Link(Sender(1, Idle), Assembly(1, []), [], [], [], [], EMPTY)

  predicate LinkEnabled(l: Link, e: LinkEvent) {
    match e
    case Send(event) => SenderEnabled(l.sender, event)
    case DeliverChunk => l.chunks != [] && l.ledger.CanReceive()
    case LoseChunk(i) => i < |l.chunks| && i < |l.ledger.positions| && i < |l.ledger.owners|
    case DeliverAck => l.acks != [] && l.ledger.acks != []
    case DupChunk(i) => i < |l.chunks| && i < |l.ledger.positions| && i < |l.ledger.owners|
    case LoseAck(i) => i < |l.acks| && i < |l.ledger.acks|
    case DupAck(i) => i < |l.acks| && i < |l.ledger.acks|
  }

  /** A sender event; a write puts the current chunk on the channel. */
  function SendStep(l: Link, e: SenderEvent): Link
    requires SenderEnabled(l.sender, e)
  {
    var l', g := l.(sender := SenderStep(l.sender, e)), l.ledger;
    match e
    case Begin(frame, _) => l'.(sent := l.sent + [frame], ledger := g.Begin())
    case Write => l'.(chunks := l.chunks + [CurrentChunk(l.sender.phase)], ledger := g.Write())
    case Acked => l'.(ledger := g.Advance(InChunk(l'.sender.phase)))
    case TimedOut => l'.(ledger := if l'.sender.phase.Idle? then g.End() else g.Retry())
    case Raised => l'.(ledger := g.End())
    case Finished => l'.(ledger := g.End())
  }

  /** The acknowledgement of a received chunk. */
  function AckFor(data: bytes): Result<bytes> {
    var chunk :- ParseBleChunk(data);
    MakeBleAck(chunk.sequence)
  }

  /** The oldest chunk arrives.  In either order a refused chunk delivers nothing; only
      the order of the shade acknowledges it all the same. */
  function ReceiveStep(order: AckOrder, l: Link): Link
    requires l.chunks != [] && l.ledger.CanReceive()
  {
    var (receiver, outcome) := Add(l.receiver, l.chunks[0]);
    var ack := AckFor(l.chunks[0]);
    var acknowledges := ack.Ok? && (order.AckThenAdd? || outcome.Ok?);
    l.(chunks := l.chunks[1..],
       receiver := receiver,
       acks := if acknowledges then l.acks + [ack.value] else l.acks,
       delivered :=
         if outcome.Ok? && outcome.value.message.Some? then l.delivered + [outcome.value.message.value]
         else l.delivered,
       ledger := l.ledger.Receive(acknowledges))
  }

  /** The oldest acknowledgement arrives. */
  function AckStep(l: Link): Link
    requires l.acks != [] && l.ledger.acks != []
  {
    var ack := ParseBleAck(l.acks[0]);
    var sender := if ack.Ok? then Resolve(l.sender, ack.value) else l.sender;
    l.(acks := l.acks[1..], sender := sender, ledger := l.ledger.TakeAck(sender != l.sender))
  }

  function LinkStep(order: AckOrder, l: Link, e: LinkEvent): Link
    requires LinkEnabled(l, e)
  {
    match e
    case Send(event) => SendStep(l, event)
    case DeliverChunk => ReceiveStep(order, l)
    case LoseChunk(i) => l.(chunks := Without(l.chunks, i), ledger := l.ledger.LoseChunk(i))
    case DeliverAck => AckStep(l)
    case DupChunk(i) => l.(chunks := Twice(l.chunks, i), ledger := l.ledger.DupChunk(i))
    case LoseAck(i) => l.(acks := Without(l.acks, i), ledger := l.ledger.LoseAck(i))
    case DupAck(i) => l.(acks := Twice(l.acks, i), ledger := l.ledger.DupAck(i))
  }

  /** Every event of the run can happen when its turn comes. */
  predicate Possible(order: AckOrder, l: Link, events: seq<LinkEvent>)
    decreases |events|
  {
    events != [] ==> LinkEnabled(l, events[0]) && Possible(order, LinkStep(order, l, events[0]), events[1..])
  }

  function After(order: AckOrder, l: Link, events: seq<LinkEvent>): Link
    requires Possible(order, l, events)
    decreases |events|
  {
    if events == [] then l else After(order, LinkStep(order, l, events[0]), events[1..])
  }

  /** The run that passes through these states. */
  ghost predicate Through(order: AckOrder, states: seq<Link>, events: seq<LinkEvent>) {
    && |states| == |events| + 1
    && forall i :: 0 <= i < |events| ==>
         LinkEnabled(states[i], events[i]) && LinkStep(order, states[i], events[i]) == states[i + 1]
  }

  lemma {:induction false} RunThrough(order: AckOrder, states: seq<Link>, events: seq<LinkEvent>)
    requires Through(order, states, events)
    ensures Possible(order, states[0], events) && After(order, states[0], events) == states[|events|]
    decreases |events|
  {
    if events != [] {
      var later, rest := states[1..], events[1..];
      forall i | 0 <= i < |rest|
        ensures LinkEnabled(later[i], rest[i]) && LinkStep(order, later[i], rest[i]) == later[i + 1]
      {
        assert later[i] == states[i + 1] && rest[i] == events[i + 1] && later[i + 1] == states[i + 2];
      }
      RunThrough(order, later, rest);
    }
  }

  /** A run and then another. */
  lemma {:induction false} RunOn(order: AckOrder, l: Link, first: seq<LinkEvent>, rest: seq<LinkEvent>,
      whole: seq<LinkEvent>)
    requires whole == first + rest
    requires Possible(order, l, first) && Possible(order, After(order, l, first), rest)
    ensures Possible(order, l, whole) && After(order, l, whole) == After(order, After(order, l, first), rest)
    decreases |first|
  {
    if first == [] {
      assert whole == rest;
    } else {
      RunOn(order, LinkStep(order, l, first[0]), first[1..], rest, whole[1..]);
    }
  }

  lemma NoEvents(order: AckOrder, l: Link)
    ensures Possible(order, l, []) && After(order, l, []) == l
  {}

  /** One event and then a run. */
  lemma RunNext(order: AckOrder, l: Link, e: LinkEvent, rest: seq<LinkEvent>, whole: seq<LinkEvent>)
    requires whole == [e] + rest && LinkEnabled(l, e) && Possible(order, LinkStep(order, l, e), rest)
    ensures Possible(order, l, whole) && After(order, l, whole) == After(order, LinkStep(order, l, e), rest)
  {
    hide LinkEnabled, LinkStep;
    assert whole[1..] == rest;
  }

  // ---- what every step keeps ----

  /** The bytes of a chunk carry the number of its position. */
  predicate IsChunk(data: bytes, position: nat) {
    var c := ParseBleChunk(data);
    c.Ok? && !c.value.forBluetoothLayer && c.value.sequence == SequenceAt(1, position)
  }

  predicate IsAck(data: bytes, position: nat) {
    ParseBleAck(data) == Ok(SequenceAt(1, position))
  }

  predicate AreChunks(wires: seq<bytes>, positions: seq<nat>) {
    && |wires| == |positions|
    && (wires != [] ==> IsChunk(wires[0], positions[0]) && AreChunks(wires[1..], positions[1..]))
  }

  predicate AreAcks(wires: seq<bytes>, positions: seq<nat>) {
    && |wires| == |positions|
    && (wires != [] ==> IsAck(wires[0], positions[0]) && AreAcks(wires[1..], positions[1..]))
  }

  /** The state of each party is what the ledger says, modulo 63. */
  predicate InStep(l: Link) {
    var p, g := l.sender.phase, l.ledger;
    && l.sender.txSequence == SequenceAt(1, g.advanced)
    && l.receiver.expected == SequenceAt(1, g.accepted)
    && (p.Sending? ==> Key(p) == l.sender.txSequence && p.index <= ChunkCount(p.frame))
    && (g.busy <==> InChunk(p))
    && (g.woken <==> InChunk(p) && p.waiter.Resolved?)
    && |l.sent| == |g.starts|
  }

  predicate Invariant(l: Link) {
    && InStep(l)
    && AreChunks(l.chunks, l.ledger.positions)
    && AreAcks(l.acks, l.ledger.acks)
    && l.ledger.InOrder()
  }

  lemma {:induction false} ChunksSnoc(wires: seq<bytes>, positions: seq<nat>, w: bytes, p: nat)
    requires AreChunks(wires, positions) && IsChunk(w, p)
    ensures AreChunks(wires + [w], positions + [p])
  {
    if wires != [] {
      assert (wires + [w])[1..] == wires[1..] + [w] && (positions + [p])[1..] == positions[1..] + [p];
      ChunksSnoc(wires[1..], positions[1..], w, p);
    }
  }

  lemma {:induction false} AcksSnoc(wires: seq<bytes>, positions: seq<nat>, w: bytes, p: nat)
    requires AreAcks(wires, positions) && IsAck(w, p)
    ensures AreAcks(wires + [w], positions + [p])
  {
    if wires != [] {
      assert (wires + [w])[1..] == wires[1..] + [w] && (positions + [p])[1..] == positions[1..] + [p];
      AcksSnoc(wires[1..], positions[1..], w, p);
    }
  }

  lemma {:induction false} ChunksWithout(wires: seq<bytes>, positions: seq<nat>, i: nat)
    requires AreChunks(wires, positions) && i < |wires|
    ensures AreChunks(Without(wires, i), Without(positions, i))
  {
    hide IsChunk;
    if i == 0 {
      assert Without(wires, 0) == wires[1..] && Without(positions, 0) == positions[1..];
    } else {
      ChunksWithout(wires[1..], positions[1..], i - 1);
      assert Without(wires, i)[1..] == Without(wires[1..], i - 1);
      assert Without(positions, i)[1..] == Without(positions[1..], i - 1);
    }
  }

  lemma {:induction false} ChunksTwice(wires: seq<bytes>, positions: seq<nat>, i: nat)
    requires AreChunks(wires, positions) && i < |wires|
    ensures AreChunks(Twice(wires, i), Twice(positions, i))
  {
    hide IsChunk;
    if i == 0 {
      assert Twice(wires, 0)[1..] == wires && Twice(positions, 0)[1..] == positions;
    } else {
      ChunksTwice(wires[1..], positions[1..], i - 1);
      assert Twice(wires, i)[1..] == Twice(wires[1..], i - 1);
      assert Twice(positions, i)[1..] == Twice(positions[1..], i - 1);
    }
  }

  lemma {:induction false} AcksTwice(wires: seq<bytes>, positions: seq<nat>, i: nat)
    requires AreAcks(wires, positions) && i < |wires|
    ensures AreAcks(Twice(wires, i), Twice(positions, i))
  {
    hide IsAck;
    if i == 0 {
      assert Twice(wires, 0)[1..] == wires && Twice(positions, 0)[1..] == positions;
    } else {
      AcksTwice(wires[1..], positions[1..], i - 1);
      assert Twice(wires, i)[1..] == Twice(wires[1..], i - 1);
      assert Twice(positions, i)[1..] == Twice(positions[1..], i - 1);
    }
  }

  lemma {:induction false} AcksWithout(wires: seq<bytes>, positions: seq<nat>, i: nat)
    requires AreAcks(wires, positions) && i < |wires|
    ensures AreAcks(Without(wires, i), Without(positions, i))
  {
    hide IsAck;
    if i == 0 {
      assert Without(wires, 0) == wires[1..] && Without(positions, 0) == positions[1..];
    } else {
      AcksWithout(wires[1..], positions[1..], i - 1);
      assert Without(wires, i)[1..] == Without(wires[1..], i - 1);
      assert Without(positions, i)[1..] == Without(positions[1..], i - 1);
    }
  }

  lemma {:induction false} InvariantHolds(order: AckOrder, l: Link, events: seq<LinkEvent>)
    requires Invariant(l) && Possible(order, l, events)
    ensures Invariant(After(order, l, events))
    decreases |events|
  {
    if events != [] {
      StepKeepsInvariant(order, l, events[0]);
      InvariantHolds(order, LinkStep(order, l, events[0]), events[1..]);
    }
  }

  lemma StepKeepsInvariant(order: AckOrder, l: Link, e: LinkEvent)
    requires Invariant(l) && LinkEnabled(l, e)
    ensures Invariant(LinkStep(order, l, e))
  {
    match e {
      case Send(event) => SendKeepsInvariant(l, event);
      case DeliverChunk => ReceiveKeepsInvariant(order, l);
      case LoseChunk(i) =>
        ChunksWithout(l.chunks, l.ledger.positions, i);
        LoseChunkInOrder(l.ledger, i);
      case DupChunk(i) =>
        ChunksTwice(l.chunks, l.ledger.positions, i);
        DupChunkInOrder(l.ledger, i);
      case DeliverAck => AckKeepsInvariant(l);
      case LoseAck(i) =>
        AcksWithout(l.acks, l.ledger.acks, i);
        LoseAckInOrder(l.ledger, i);
      case DupAck(i) =>
        AcksTwice(l.acks, l.ledger.acks, i);
        DupAckInOrder(l.ledger, i);
    }
  }

  lemma SendKeepsInvariant(l: Link, e: SenderEvent)
    requires Invariant(l) && SenderEnabled(l.sender, e)
    ensures Invariant(SendStep(l, e))
  {
    hide AreChunks, AreAcks, CurrentChunk, SequenceAt;
    var p := l.sender.phase;
    PauseInOrder(l.ledger);
    match e {
      case Begin(frame, _) => SequenceAtNext(l.sender.txSequence, 0);
      case Write => WriteKeepsInvariant(l);
      case Acked =>
        SequenceAtNext(p.start, p.index);
        SequenceAtNext(1, l.ledger.advanced);
        AdvanceInOrder(l.ledger, InChunk(SenderStep(l.sender, e).phase));
      case _ =>
    }
  }

  lemma WriteKeepsInvariant(l: Link)
    requires Invariant(l) && SenderEnabled(l.sender, Write)
    ensures Invariant(SendStep(l, Write))
  {
    var p := l.sender.phase;
    ChunksParse(p.frame, p.start, p.index);
    ChunksSnoc(l.chunks, l.ledger.positions, CurrentChunk(p), l.ledger.advanced);
    WriteInOrder(l.ledger);
  }

  /** The acknowledgement of a chunk carries the chunk's number. */
  lemma AckOfChunk(data: bytes, position: nat)
    requires IsChunk(data, position)
    ensures AckFor(data).Ok? && IsAck(AckFor(data).value, position)
  {
    var s := SequenceAt(1, position);
    AckRoundTrip(MakeBleAck(s).value, s);
  }

  /** The receiver accepts a chunk just when it is of the first position it lacks. */
  lemma AcceptsNewPosition(a: Assembly, data: bytes, position: nat, accepted: nat)
    requires IsChunk(data, position) && a.expected == SequenceAt(1, accepted)
    requires accepted - 2 <= position <= accepted
    ensures
      var (receiver, outcome) := Add(a, data);
      if position == accepted then outcome.Ok? && receiver.expected == SequenceAt(1, accepted + 1)
      else outcome.Err? && receiver == Assembly(a.expected, [])
  {
    SequenceAtSame(1, position, accepted);
    SequenceAtNext(1, accepted);
  }

  /** What an arriving chunk does.  At a new position it is accepted, acknowledged, and
      extends the buffer or, marked as the end, hands it over; any other empties the buffer,
      delivers nothing, and is acknowledged only by the party that does so first. */
  lemma ReceivesExactly(order: AckOrder, l: Link)
    requires Invariant(l) && LinkEnabled(l, DeliverChunk)
    ensures
      var l', position := ReceiveStep(order, l), l.ledger.positions[0];
      var chunk, ack := ParseBleChunk(l.chunks[0]).value, [0, 0xC0, 0x01, SequenceAt(1, position) as int];
      && ParseBleChunk(l.chunks[0]).Ok?
      && l'.chunks == l.chunks[1..] && l'.sender == l.sender && l'.sent == l.sent
      && (if position == l.ledger.accepted then
            && l'.acks == l.acks + [ack] && l'.receiver.expected == Next(l.receiver.expected)
            && var extended := l.receiver.buffer + chunk.payload;
               if chunk.endOfMessage then l'.receiver.buffer == [] && l'.delivered == l.delivered + [extended]
               else l'.receiver.buffer == extended && l'.delivered == l.delivered
          else
            && l'.acks == l.acks + (if order.AckThenAdd? then [ack] else [])
            && l'.receiver == Assembly(l.receiver.expected, []) && l'.delivered == l.delivered)
  {
    hide AreAcks, Rising, SequenceAt, ParseBleAck;
    var data, position := l.chunks[0], l.ledger.positions[0];
    assert IsChunk(data, position);
    OldestChunk(l.ledger);
    AcceptsNewPosition(l.receiver, data, position, l.ledger.accepted);
    AckRoundTrip(data, SequenceAt(1, position));
  }

  /** What the channels do by themselves: one packet is lost, or is there twice, in its
      place; the parties notice nothing. */
  lemma ChannelsOnly(order: AckOrder, l: Link, e: LinkEvent)
    requires LinkEnabled(l, e) && !e.Send? && !e.DeliverChunk? && !e.DeliverAck?
    ensures
      var l' := LinkStep(order, l, e);
      && l'.sender == l.sender && l'.receiver == l.receiver && l'.sent == l.sent && l'.delivered == l.delivered
      && (e.LoseChunk? || e.DupChunk? ==> l'.acks == l.acks) && (e.LoseAck? || e.DupAck? ==> l'.chunks == l.chunks)
      && (e.LoseChunk? ==> l.chunks == l'.chunks[..e.i] + [l.chunks[e.i]] + l'.chunks[e.i..])
      && (e.LoseAck? ==> l.acks == l'.acks[..e.i] + [l.acks[e.i]] + l'.acks[e.i..])
      && (e.DupChunk? ==> l'.chunks == l.chunks[..e.i] + [l.chunks[e.i]] + l.chunks[e.i..])
      && (e.DupAck? ==> l'.acks == l.acks[..e.i] + [l.acks[e.i]] + l.acks[e.i..])
  {
    hide SendStep, ReceiveStep, AckStep;
  }

  lemma ReceiveKeepsInvariant(order: AckOrder, l: Link)
    requires Invariant(l) && LinkEnabled(l, DeliverChunk)
    ensures Invariant(ReceiveStep(order, l))
  {
    var data, position := l.chunks[0], l.ledger.positions[0];
    OldestChunk(l.ledger);
    AcceptsNewPosition(l.receiver, data, position, l.ledger.accepted);
    AckOfChunk(data, position);
    AcksSnoc(l.acks, l.ledger.acks, AckFor(data).value, position);
    ReceiveAcknowledging(l.ledger);
    ReceiveSilently(l.ledger);
  }

  /** An acknowledgement wakes the sender only if it is of the current position. */
  lemma WakesForCurrent(s: Sender, data: bytes, position: nat, advanced: nat)
    requires IsAck(data, position) && s.txSequence == SequenceAt(1, advanced)
    requires s.phase.Sending? ==> Key(s.phase) == s.txSequence
    requires advanced - 1 <= position <= advanced
    ensures
      Resolve(s, ParseBleAck(data).value) ==
      if InChunk(s.phase) && s.phase.waiter.Pending? && position == advanced then
        s.(phase := s.phase.(waiter := Resolved))
      else s
  {
    SequenceAtSame(1, position, advanced);
  }

  lemma AckKeepsInvariant(l: Link)
    requires Invariant(l) && LinkEnabled(l, DeliverAck)
    ensures Invariant(AckStep(l))
  {
    var g := l.ledger;
    assert (g.acks + g.positions)[0] == g.acks[0];
    WakesForCurrent(l.sender, l.acks[0], g.acks[0], g.advanced);
    if g.acks[0] == g.advanced {
      TakeAckInOrder(g, true);
    }
    TakeAckInOrder(g, false);
  }

  // ---- every run from the start of a session ----

  lemma StartKeepsInvariant(order: AckOrder, events: seq<LinkEvent>)
    requires Possible(order, START, events)
    ensures Invariant(After(order, START, events))
  {
    InvariantHolds(order, START, events);
  }

  predicate AllNumbered(wires: seq<bytes>, s: Sequence) {
    wires != [] ==>
      ParseBleChunk(wires[0]).Ok? && ParseBleChunk(wires[0]).value.sequence == s && AllNumbered(wires[1..], s)
  }

  /** The receiver expects the sender's number or the one after it, having accepted
      as many chunks as were acknowledged or one more. */
  lemma ExpectedFollowsSender(order: AckOrder, events: seq<LinkEvent>)
    requires Possible(order, START, events)
    ensures
      var l := After(order, START, events);
      && l.sender.txSequence == SequenceAt(1, l.ledger.advanced)
      && (|| (|l.ledger.taken| == l.ledger.advanced && l.receiver.expected == l.sender.txSequence)
          || (|l.ledger.taken| == l.ledger.advanced + 1 && l.receiver.expected == Next(l.sender.txSequence)))
  {
    StartKeepsInvariant(order, events);
    SequenceAtNext(1, After(order, START, events).ledger.advanced);
  }

  lemma {:induction false} SamePositionSameNumber(wires: seq<bytes>, positions: seq<nat>, p: nat)
    requires AreChunks(wires, positions) && Rising(positions, p, p)
    ensures AllNumbered(wires, SequenceAt(1, p))
  {
    if wires != [] {
      SamePositionSameNumber(wires[1..], positions[1..], p);
    }
  }

  lemma {:induction false} TwoBlocks(wires: seq<bytes>, positions: seq<nat>, p: int) returns (k: nat)
    requires AreChunks(wires, positions) && Rising(positions, p - 1, p)
    ensures k <= |wires| && Rising(positions[k..], p, p)
    ensures AreChunks(wires[..k], positions[..k]) && Rising(positions[..k], p - 1, p - 1)
    ensures AreChunks(wires[k..], positions[k..])
  {
    if wires == [] || positions[0] == p {
      k := 0;
      assert wires[0..] == wires && positions[0..] == positions;
    } else {
      var j := TwoBlocks(wires[1..], positions[1..], p);
      k := j + 1;
      assert wires[..k][1..] == wires[1..][..j] && positions[..k][1..] == positions[1..][..j];
      assert wires[k..] == wires[1..][j..] && positions[k..] == positions[1..][j..];
    }
  }

  /** Chunks of the current position and the one before form two blocks, with the
      sender's number and the one before it. */
  lemma BlocksOfNumbers(wires: seq<bytes>, positions: seq<nat>, p: nat) returns (k: nat, before: Sequence)
    requires AreChunks(wires, positions) && Rising(positions, p - 1, p)
    ensures k <= |wires| && Next(before) == SequenceAt(1, p)
    ensures AllNumbered(wires[..k], before) && AllNumbered(wires[k..], SequenceAt(1, p))
  {
    k := TwoBlocks(wires, positions, p);
    SamePositionSameNumber(wires[k..], positions[k..], p);
    if p == 0 {
      before := MAX_SEQUENCE;
    } else {
      before := SequenceAt(1, p - 1);
      SequenceAtNext(1, p - 1);
      SamePositionSameNumber(wires[..k], positions[..k], p - 1);
    }
  }

  /** The chunks in flight: a block with the number before the sender's current one,
      then a block with the current one. */
  lemma InFlightBlocks(order: AckOrder, events: seq<LinkEvent>) returns (k: nat, before: Sequence)
    requires Possible(order, START, events)
    ensures
      var l := After(order, START, events);
      && k <= |l.chunks|
      && Next(before) == l.sender.txSequence
      && AllNumbered(l.chunks[..k], before)
      && AllNumbered(l.chunks[k..], l.sender.txSequence)
  {
    var l := After(order, START, events);
    StartKeepsInvariant(order, events);
    PositionsRise(l.ledger);
    k, before := BlocksOfNumbers(l.chunks, l.ledger.positions, l.ledger.advanced);
  }

  lemma PositionsRise(g: Ledger)
    requires g.InOrder()
    ensures Rising(g.positions, g.advanced - 1, g.advanced)
  {
    var pipe, k := g.acks + g.positions, |g.acks|;
    if g.positions != [] {
      RisingSplit(pipe, k, g.advanced - 1, g.advanced);
      assert pipe[k..] == g.positions;
      RisingWiden(g.positions, pipe[k], g.advanced, g.advanced - 1, g.advanced);
    }
  }
}
