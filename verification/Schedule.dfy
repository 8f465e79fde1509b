/** The schedule of a link that loses nothing: each chunk written, delivered, acknowledged
    and heard before the next.  It is a run of the stop-and-wait link, and it carries the
    frame whole. */
module Schedule {
  import opened Bytes
  import opened Results
  import opened BleLink
  import opened Reassembly
  import opened StopAndWait

  const ROUND: seq<LinkEvent> := [Send(Write), DeliverChunk, DeliverAck, Send(Acked)]

  /** A round for each of n chunks. */
  function Rounds(n: nat): seq<LinkEvent> {
    if n == 0 then [] else ROUND + Rounds(n - 1)
  }

  function LossFreeRun(frame: Frame, attempts: nat): seq<LinkEvent> {
    [Send(Begin(frame, attempts))] + Rounds(ChunkCount(frame)) + [Send(Finished)]
  }

  /** Nothing is under way, and the receiver waits for the sender's next frame. */
  predicate Quiet(l: Link) {
    && Invariant(l) && l.sender.phase.Idle? && l.chunks == [] && l.acks == []
    && l.receiver == Assembly(l.sender.txSequence, [])
  }

  /** The sender is before its chunk, which the receiver expects, and nothing is in flight. */
  predicate AtChunk(l: Link) {
    var p := l.sender.phase;
    && Invariant(l) && p.Sending? && p.waiter.NotWritten? && l.chunks == [] && l.acks == []
    && l.receiver.expected == Key(p)
  }

  /** Two events in turn. */
  lemma RunTwo(order: AckOrder, l: Link, a: LinkEvent, b: LinkEvent)
    requires LinkEnabled(l, a) && LinkEnabled(LinkStep(order, l, a), b)
    ensures Possible(order, l, [a, b])
    ensures After(order, l, [a, b]) == LinkStep(order, LinkStep(order, l, a), b)
  {
    hide LinkStep, LinkEnabled;
    var m := LinkStep(order, l, a);
    RunThrough(order, [l, m, LinkStep(order, m, b)], [a, b]);
  }

  lemma InFlight(l: Link)
    requires Invariant(l)
    ensures |l.chunks| == |l.ledger.positions| == |l.ledger.owners| && |l.acks| == |l.ledger.acks|
  {}

  /** The chunk is written and arrives: it is accepted, and its acknowledgement is under way. */
  lemma ChunkArrives(order: AckOrder, l: Link) returns (m: Link)
    requires AtChunk(l) && InChunk(l.sender.phase)
    ensures Possible(order, l, [Send(Write), DeliverChunk])
    ensures m == After(order, l, [Send(Write), DeliverChunk]) && Invariant(m)
    ensures
      var p, a := l.sender.phase, Add(l.receiver, CurrentChunk(l.sender.phase));
      && a.1.Ok? && a.0.expected == Next(Key(p))
      && m.sender == l.sender.(phase := p.(waiter := Pending)) && m.receiver == a.0
      && m.chunks == [] && |m.acks| == 1 && ParseBleAck(m.acks[0]) == Ok(Key(p))
      && m.delivered == l.delivered + Messages([a.1]) && m.sent == l.sent
      && m.ledger.advanced == l.ledger.advanced && m.ledger.givenUp == l.ledger.givenUp
  {
    hide Invariant, Possible, After, Chunks, ChunkCount, SequenceAt;
    var p := l.sender.phase;
    var w := LinkStep(order, l, Send(Write));
    StepKeepsInvariant(order, l, Send(Write));
    InFlight(w);
    ChunksParse(p.frame, p.start, p.index);
    AckRoundTrip(MakeBleAck(Key(p)).value, Key(p));
    m := LinkStep(order, w, DeliverChunk);
    StepKeepsInvariant(order, w, DeliverChunk);
    RunTwo(order, l, Send(Write), DeliverChunk);
  }

  /** The acknowledgement arrives and is heard: on to the next chunk. */
  lemma AckArrives(order: AckOrder, m: Link) returns (l': Link)
    requires Invariant(m) && InChunk(m.sender.phase) && m.sender.phase.waiter.Pending?
    requires m.chunks == [] && |m.acks| == 1 && ParseBleAck(m.acks[0]) == Ok(Key(m.sender.phase))
    ensures Possible(order, m, [DeliverAck, Send(Acked)])
    ensures l' == After(order, m, [DeliverAck, Send(Acked)]) && Invariant(l')
    ensures l'.sender == SenderStep(Resolve(m.sender, Key(m.sender.phase)), Acked)
    ensures l'.chunks == [] && l'.acks == [] && l'.receiver == m.receiver && l'.delivered == m.delivered
    ensures l'.sent == m.sent && l'.ledger.advanced == m.ledger.advanced + 1 && l'.ledger.givenUp == m.ledger.givenUp
  {
    hide Invariant, Possible, After, Chunks, ChunkCount, SequenceAt;
    InFlight(m);
    var h := LinkStep(order, m, DeliverAck);
    StepKeepsInvariant(order, m, DeliverAck);
    l' := LinkStep(order, h, Send(Acked));
    StepKeepsInvariant(order, h, Send(Acked));
    RunTwo(order, m, DeliverAck, Send(Acked));
  }

  /** What m has that l had not: n more chunks of the call acknowledged, these messages
      delivered, and nothing else. */
  predicate Onward(l: Link, m: Link, n: nat, messages: seq<bytes>) {
    && m.delivered == l.delivered + messages && m.sent == l.sent
    && m.ledger.advanced == l.ledger.advanced + n && m.ledger.givenUp == l.ledger.givenUp
  }

  /** A round gets one chunk through. */
  lemma RoundMade(order: AckOrder, l: Link) returns (m: Link)
    requires AtChunk(l) && InChunk(l.sender.phase)
    ensures Possible(order, l, ROUND) && m == After(order, l, ROUND) && AtChunk(m)
    ensures
      var p, (receiver, outcome) := l.sender.phase, Add(l.receiver, CurrentChunk(l.sender.phase));
      && m.sender.phase == p.(index := p.index + 1, attempt := 0)
      && m.sender.txSequence == Next(Key(p))
      && m.receiver == receiver && Onward(l, m, 1, Messages([outcome]))
  {
    hide Possible, After, Invariant, Add, CurrentChunk, SequenceAt, Next;
    var p := l.sender.phase;
    SequenceAtNext(p.start, p.index);
    var half := ChunkArrives(order, l);
    m := AckArrives(order, half);
    var first, rest := [Send(Write), DeliverChunk], [DeliverAck, Send(Acked)];
    RunOn(order, l, first, rest, ROUND);
  }

  /** Round by round all chunks of the frame from the current one on. */
  lemma {:induction false} RoundsMade(order: AckOrder, l: Link, n: nat) returns (m: Link)
    requires AtChunk(l) && l.sender.phase.index + n == ChunkCount(l.sender.phase.frame)
    requires l.sender.txSequence == Key(l.sender.phase)
    ensures Possible(order, l, Rounds(n)) && m == After(order, l, Rounds(n)) && AtChunk(m)
    ensures
      var p, chunks := l.sender.phase, Remaining(l.sender.phase);
      && m.sender.phase == p.(index := ChunkCount(p.frame), attempt := m.sender.phase.attempt)
      && m.sender.txSequence == Key(m.sender.phase)
      && m.receiver == StateAfter(l.receiver, chunks)
      && Onward(l, m, n, Messages(Outcomes(l.receiver, chunks)))
    decreases n
  {
    hide Possible, After, Invariant, Add, Chunks, SequenceAt, Next;
    var p := l.sender.phase;
    CountRemaining(p);
    if n == 0 {
      NoEvents(order, l);
      m := l;
    } else {
      var next := RoundMade(order, l);
      SequenceAtNext(p.start, p.index);
      m := RoundsMade(order, next, n - 1);
      RunOn(order, l, ROUND, Rounds(n - 1), Rounds(n));
      var outcome := Add(l.receiver, CurrentChunk(p)).1;
      MessagesConcat([outcome], Outcomes(next.receiver, Remaining(next.sender.phase)));
      assert Outcomes(l.receiver, Remaining(p)) == [outcome] + Outcomes(next.receiver, Remaining(next.sender.phase));
    }
  }

  /** The chunks of the call that are still to be written. */
  function Remaining(p: Phase): seq<bytes>
    requires p.Sending? && p.index <= ChunkCount(p.frame)
  {
    ChunksParse(p.frame, p.start, 0);
    Chunks(p.frame, p.start)[p.index..]
  }

  lemma CountRemaining(p: Phase)
    requires p.Sending? && p.index <= ChunkCount(p.frame)
    ensures |Remaining(p)| == ChunkCount(p.frame) - p.index
    ensures InChunk(p) ==>
              && Remaining(p)[0] == CurrentChunk(p)
              && Remaining(p)[1..] == Remaining(p.(index := p.index + 1, attempt := 0))
  {
    ChunksParse(p.frame, p.start, 0);
  }

  /** From a quiet link, in either acknowledgement order, the schedule is a run that ends
      with the link quiet again, the frame delivered whole, and every chunk of it
      acknowledged. */
  lemma CarriesFrame(order: AckOrder, l: Link, frame: Frame, attempts: nat)
    requires Quiet(l) && 1 <= attempts <= 2
    ensures Possible(order, l, LossFreeRun(frame, attempts))
    ensures
      var m := After(order, l, LossFreeRun(frame, attempts));
      && Quiet(m) && m.sent == l.sent + [frame] && m.delivered == l.delivered + [frame]
      && m.sender.txSequence == SequenceAt(l.sender.txSequence, ChunkCount(frame))
      && m.ledger.advanced == l.ledger.advanced + ChunkCount(frame) && m.ledger.givenUp == l.ledger.givenUp
  {
    hide Possible, After, Invariant, InStep, Chunks, ChunkCount, SequenceAt, StateAfter, Outcomes, Receipts, Rounds;
    var n, tx := ChunkCount(frame), l.sender.txSequence;
    var b := CallBegins(order, l, frame, attempts);
    var m := RoundsMade(order, b, n);
    CountRemaining(b.sender.phase);
    TakesFrame(frame, tx, []);
    MessagesOfReceipts(tx, n, [] + frame);
    assert [] + frame == frame;
    var e := CallEnds(order, m);
    var begin, rounds, end := [Send(Begin(frame, attempts))], Rounds(n), [Send(Finished)];
    RunOn(order, b, rounds, end, rounds + end);
    RunOn(order, l, begin, rounds + end, LossFreeRun(frame, attempts));
  }

  lemma CallBegins(order: AckOrder, l: Link, frame: Frame, attempts: nat) returns (b: Link)
    requires Quiet(l) && 1 <= attempts <= 2
    ensures Possible(order, l, [Send(Begin(frame, attempts))]) && b == After(order, l, [Send(Begin(frame, attempts))])
    ensures AtChunk(b) && b.sender == Sender(l.sender.txSequence, b.sender.phase)
    ensures b.sender.phase == Sending(frame, l.sender.txSequence, 0, 0, attempts, NotWritten)
    ensures Key(b.sender.phase) == l.sender.txSequence && ChunkCount(frame) > 0
    ensures b.receiver == l.receiver && b.delivered == l.delivered && b.sent == l.sent + [frame]
    ensures b.ledger.advanced == l.ledger.advanced && b.ledger.givenUp == l.ledger.givenUp
  {
    hide Invariant, Chunks;
    b := LinkStep(order, l, Send(Begin(frame, attempts)));
    StepKeepsInvariant(order, l, Send(Begin(frame, attempts)));
    SequenceAtNext(l.sender.txSequence, 0);
  }

  lemma CallEnds(order: AckOrder, m: Link) returns (e: Link)
    requires AtChunk(m) && m.sender.phase.index == ChunkCount(m.sender.phase.frame)
    requires m.receiver == Assembly(m.sender.txSequence, [])
    ensures Possible(order, m, [Send(Finished)]) && e == After(order, m, [Send(Finished)]) && Quiet(e)
    ensures e.sender.txSequence == m.sender.txSequence && Onward(m, e, 0, [])
  {
    e := LinkStep(order, m, Send(Finished));
    StepKeepsInvariant(order, m, Send(Finished));
  }
}
