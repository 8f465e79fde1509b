/** What the assembler makes of streams of chunks: intact streams, streams with a
    gap, streams with repeats, and arbitrary input. */
module Reassembly {
  import opened Bytes
  import opened Results
  import opened BleLink

  // ---- runs of the assembler ----

  function StateAfter(a: Assembly, inputs: seq<bytes>): Assembly
    decreases |inputs|
  {
    if inputs == [] then a else StateAfter(Add(a, inputs[0]).0, inputs[1..])
  }

  /** What add() gives for each input. */
  function Outcomes(a: Assembly, inputs: seq<bytes>): (r: seq<Result<Receipt>>)
    ensures |r| == |inputs|
    decreases |inputs|
  {
    if inputs == [] then [] else [Add(a, inputs[0]).1] + Outcomes(Add(a, inputs[0]).0, inputs[1..])
  }

  predicate Delivers(outcome: Result<Receipt>) {
    outcome.Ok? && outcome.value.message.Some?
  }

  /** The messages handed over, in order. */
  function Messages(outcomes: seq<Result<Receipt>>): seq<bytes> {
    if outcomes == [] then []
    else (if Delivers(outcomes[0]) then [outcomes[0].value.message.value] else []) + Messages(outcomes[1..])
  }

  lemma {:induction false} RunConcat(a: Assembly, x: seq<bytes>, y: seq<bytes>)
    ensures StateAfter(a, x + y) == StateAfter(StateAfter(a, x), y)
    ensures Outcomes(a, x + y) == Outcomes(a, x) + Outcomes(StateAfter(a, x), y)
    decreases |x|
  {
    if x == [] {
      assert x + y == y;
    } else {
      assert (x + y)[1..] == x[1..] + y;
      RunConcat(Add(a, x[0]).0, x[1..], y);
    }
  }

  lemma {:induction false} MessagesConcat(x: seq<Result<Receipt>>, y: seq<Result<Receipt>>)
    ensures Messages(x + y) == Messages(x) + Messages(y)
  {
    if x == [] {
      assert x + y == y;
    } else {
      assert (x + y)[1..] == x[1..] + y;
      MessagesConcat(x[1..], y);
    }
  }

  // ---- intact streams ----

  /** The receipts of an intact frame of n chunks: each chunk acknowledged by its
      number, the message with the last. */
  function Receipts(start: Sequence, n: nat, message: bytes): (r: seq<Result<Receipt>>)
    decreases n
  {
    if n == 0 then []
    else [Ok(Receipt(start, if n == 1 then Some(message) else None))] + Receipts(Next(start), n - 1, message)
  }

  /** The assembler expecting the next chunk of a frame takes all of it, hands it
      over whole behind whatever it had buffered, and acknowledges each chunk. */
  lemma {:induction false} TakesFrame(frame: Frame, start: Sequence, kept: bytes)
    ensures
      var a, c := Assembly(start, kept), Chunks(frame, start);
      && StateAfter(a, c) == Assembly(SequenceAt(start, |c|), [])
      && Outcomes(a, c) == Receipts(start, |c|, kept + frame)
    decreases |frame|
  {
    var c := Chunks(frame, start);
    SequenceAtNext(start, 0);
    if |frame| <= MAX_BLE_PAYLOAD {
      EncodeParse(start, true, frame);
    } else {
      var head, rest := frame[..MAX_BLE_PAYLOAD], frame[MAX_BLE_PAYLOAD..];
      EncodeParse(start, false, head);
      TakesFrame(rest, Next(start), kept + head);
      assert kept + head + rest == kept + frame;
      assert c[1..] == Chunks(rest, Next(start));
      SequenceAtNext(start, |c| - 1);
    }
  }

  lemma {:induction false} MessagesOfReceipts(start: Sequence, n: nat, message: bytes)
    requires n > 0
    ensures Messages(Receipts(start, n, message)) == [message]
    decreases n
  {
    if n > 1 {
      MessagesOfReceipts(Next(start), n - 1, message);
    }
  }

  /** Nothing raised, and the i-th outcome acknowledges the i-th number from start. */
  predicate AcksFrom(start: Sequence, outcomes: seq<Result<Receipt>>)
    decreases |outcomes|
  {
    outcomes != [] ==>
      outcomes[0].Ok? && outcomes[0].value.acknowledged == start && AcksFrom(Next(start), outcomes[1..])
  }

  lemma {:induction false} AcksOfReceipts(start: Sequence, n: nat, message: bytes)
    ensures AcksFrom(start, Receipts(start, n, message))
    ensures |Receipts(start, n, message)| == n
    decreases n
  {
    if n > 0 {
      AcksOfReceipts(Next(start), n - 1, message);
    }
  }

  lemma {:induction false} AcksConcat(start: Sequence, x: seq<Result<Receipt>>, y: seq<Result<Receipt>>)
    requires AcksFrom(start, x) && AcksFrom(SequenceAt(start, |x|), y)
    ensures AcksFrom(start, x + y)
    decreases |x|
  {
    SequenceAtNext(start, 0);
    if x == [] {
      assert x + y == y;
    } else {
      assert (x + y)[1..] == x[1..] + y;
      SequenceAtNext(start, |x| - 1);
      AcksConcat(Next(start), x[1..], y);
    }
  }

  /** All chunks of the frames, sent back to back. */
  function Stream(frames: seq<Frame>, start: Sequence): seq<bytes>
    decreases |frames|
  {
    if frames == [] then []
    else Chunks(frames[0], start) + Stream(frames[1..], SequenceAt(start, |Chunks(frames[0], start)|))
  }

  lemma SequenceAtAdd(start: Sequence, m: nat, n: nat)
    ensures SequenceAt(SequenceAt(start, m), n) == SequenceAt(start, m + n)
    decreases n
  {
    SequenceAtNext(SequenceAt(start, m), 0);
    if n > 0 {
      SequenceAtAdd(start, m, n - 1);
      SequenceAtNext(SequenceAt(start, m), n - 1);
      SequenceAtNext(start, m + n - 1);
    }
  }

  /** Frames sent back to back from any number come out whole and in order; every
      chunk is acknowledged by its own number. */
  lemma {:induction false} DeliversStream(frames: seq<Frame>, start: Sequence)
    ensures
      var a, c := Assembly(start, []), Stream(frames, start);
      && StateAfter(a, c) == Assembly(SequenceAt(start, |c|), [])
      && Messages(Outcomes(a, c)) == frames
      && AcksFrom(start, Outcomes(a, c))
    decreases |frames|
  {
    var a := Assembly(start, []);
    SequenceAtNext(start, 0);
    if frames != [] {
      var x := Chunks(frames[0], start);
      var next := SequenceAt(start, |x|);
      var y := Stream(frames[1..], next);
      var b := Assembly(next, []);
      TakesFrame(frames[0], start, []);
      assert [] + frames[0] == frames[0];
      MessagesOfReceipts(start, |x|, frames[0]);
      AcksOfReceipts(start, |x|, frames[0]);
      DeliversStream(frames[1..], next);
      RunConcat(a, x, y);
      MessagesConcat(Outcomes(a, x), Outcomes(b, y));
      AcksConcat(start, Outcomes(a, x), Outcomes(b, y));
      SequenceAtAdd(start, |x|, |y|);
      assert frames == [frames[0]] + frames[1..];
    }
  }

  // ---- streams with a gap ----

  lemma {:induction false} MessagesPrefix(outcomes: seq<Result<Receipt>>, n: nat)
    requires n <= |outcomes|
    ensures Messages(outcomes[..n]) <= Messages(outcomes)
  {
    assert outcomes == outcomes[..n] + outcomes[n..];
    MessagesConcat(outcomes[..n], outcomes[n..]);
  }

  /** All numbers of a stream are consecutive. */
  lemma {:induction false} StreamParse(frames: seq<Frame>, start: Sequence, k: nat)
    requires k < |Stream(frames, start)|
    ensures
      var p := ParseBleChunk(Stream(frames, start)[k]);
      p.Ok? && !p.value.forBluetoothLayer && p.value.sequence == SequenceAt(start, k)
    decreases |frames|
  {
    var x := Chunks(frames[0], start);
    ChunksParse(frames[0], start, 0);
    if k < |x| {
      ChunksParse(frames[0], start, k);
    } else {
      SequenceAtAdd(start, |x|, k - |x|);
      StreamParse(frames[1..], SequenceAt(start, |x|), k - |x|);
    }
  }

  /** The first n chunks of a stream arrive and the next to arrive is the m-th: up
      to the gap, what has been handed over is a prefix of the frames; and the gap
      is noticed, and the buffer dropped, unless it is a multiple of 63 chunks. */
  lemma GapNoticed(frames: seq<Frame>, start: Sequence, n: nat, m: nat)
    requires n <= m < |Stream(frames, start)|
    ensures
      var a, c := Assembly(start, []), Stream(frames, start);
      var before := StateAfter(a, c[..n]);
      && Messages(Outcomes(a, c[..n])) <= frames
      && (Add(before, c[m]).1.Err? <==> (m - n) % MAX_SEQUENCE != 0)
      && (Add(before, c[m]).1.Err? ==> Add(before, c[m]).0 == Assembly(SequenceAt(start, n), []))
  {
    var a, c := Assembly(start, []), Stream(frames, start);
    DeliversStream(frames, start);
    assert c == c[..n] + c[n..];
    RunConcat(a, c[..n], c[n..]);
    assert Outcomes(a, c)[..n] == Outcomes(a, c[..n]);
    MessagesPrefix(Outcomes(a, c), n);
    StreamParse(frames, start, m);
    ExpectedAfter(frames, start, n);
    SequenceAtSame(start, n, m);
  }

  lemma {:induction false} ExpectedAfter(frames: seq<Frame>, start: Sequence, n: nat)
    requires n <= |Stream(frames, start)|
    ensures StateAfter(Assembly(start, []), Stream(frames, start)[..n]).expected == SequenceAt(start, n)
  {
    SequenceAtNext(start, 0);
    var a, c := Assembly(start, []), Stream(frames, start);
    if n > 0 {
      ExpectedAfter(frames, start, n - 1);
      StreamParse(frames, start, n - 1);
      assert c[..n] == c[..n - 1] + [c[n - 1]];
      RunConcat(a, c[..n - 1], [c[n - 1]]);
      SequenceAtNext(start, n - 1);
    }
  }

  // ---- streams with repeats ----

  /** The chunks of a frame where each chunk k with repeat[k] arrives twice, as when
      its acknowledgement is lost and the sender tries again. */
  function Repeated(frame: Frame, start: Sequence, repeat: seq<bool>): seq<bytes>
    requires |repeat| == ChunkCount(frame)
    decreases |frame|
  {
    var c := Chunks(frame, start)[0];
    var here := if repeat[0] then [c, c] else [c];
    if |frame| <= MAX_BLE_PAYLOAD then here
    else here + Repeated(frame[MAX_BLE_PAYLOAD..], Next(start), repeat[1..])
  }

  /** What is handed over: a repeat of a chunk before the last drops the buffer. */
  function Survivor(frame: Frame, kept: bytes, repeat: seq<bool>): bytes
    requires |repeat| == ChunkCount(frame)
    decreases |frame|
  {
    if |frame| <= MAX_BLE_PAYLOAD then kept + frame
    else Survivor(frame[MAX_BLE_PAYLOAD..], if repeat[0] then [] else kept + frame[..MAX_BLE_PAYLOAD], repeat[1..])
  }

  lemma {:induction false} DeliversSurvivor(frame: Frame, start: Sequence, kept: bytes, repeat: seq<bool>)
    requires |repeat| == ChunkCount(frame)
    ensures
      var a, c := Assembly(start, kept), Repeated(frame, start, repeat);
      && Messages(Outcomes(a, c)) == [Survivor(frame, kept, repeat)]
      && StateAfter(a, c) == Assembly(SequenceAt(start, ChunkCount(frame)), [])
    decreases |frame|
  {
    hide Add, ParseBleChunk, SequenceAt, StateAfter, Outcomes, Messages;
    var a, c := Assembly(start, kept), Chunks(frame, start)[0];
    var end := |frame| <= MAX_BLE_PAYLOAD;
    var head := if end then frame else frame[..MAX_BLE_PAYLOAD];
    EncodeParse(start, end, head);
    var b := Assembly(Next(start), if end || repeat[0] then [] else kept + head);
    var here := if repeat[0] then [c, c] else [c];
    FirstChunk(a, c, head, end, repeat[0]);
    SequenceAtNext(start, 0);
    if !end {
      var rest := frame[MAX_BLE_PAYLOAD..];
      var y := Repeated(rest, Next(start), repeat[1..]);
      DeliversSurvivor(rest, Next(start), b.buffer, repeat[1..]);
      RunConcat(a, here, y);
      MessagesConcat(Outcomes(a, here), Outcomes(b, y));
      SequenceAtNext(start, ChunkCount(rest));
    }
  }

  /** The expected chunk, once or twice: the second time it is refused. */
  lemma FirstChunk(a: Assembly, c: bytes, head: bytes, end: bool, again: bool)
    requires ParseBleChunk(c) == Ok(BleChunk(a.expected, end, false, head))
    ensures
      var here := if again then [c, c] else [c];
      && StateAfter(a, here) == Assembly(Next(a.expected), if end || again then [] else a.buffer + head)
      && Messages(Outcomes(a, here)) == if end then [a.buffer + head] else []
  {
    var b := Add(a, c).0;
    assert [c, c][1..] == [c];
    assert Outcomes(b, []) == [];
    if again {
      assert Outcomes(b, [c]) == [Add(b, c).1];
      assert StateAfter(a, [c, c]) == StateAfter(b, [c]) == Add(b, c).0;
      assert Messages([Add(b, c).1]) == [];
      assert Outcomes(a, [c, c]) == [Add(a, c).1, Add(b, c).1];
      assert Outcomes(a, [c, c])[1..] == [Add(b, c).1];
    } else {
      assert Outcomes(a, [c]) == [Add(a, c).1];
    }
  }

  lemma {:induction false} SurvivorLength(frame: Frame, kept: bytes, repeat: seq<bool>)
    requires |repeat| == ChunkCount(frame)
    ensures |Survivor(frame, kept, repeat)| <= |kept| + |frame|
    ensures Survivor(frame, kept, repeat) == kept + frame <==>
            forall k :: 0 <= k < |repeat| - 1 ==> !repeat[k]
    decreases |frame|
  {
    if |frame| > MAX_BLE_PAYLOAD {
      var head, rest := frame[..MAX_BLE_PAYLOAD], frame[MAX_BLE_PAYLOAD..];
      assert kept + head + rest == kept + frame;
      SurvivorLength(rest, if repeat[0] then [] else kept + head, repeat[1..]);
      if forall k :: 0 <= k < |repeat| - 1 ==> !repeat[k] {
        assert !repeat[0];
        assert forall k :: 0 <= k < |repeat[1..]| - 1 ==> !repeat[1..][k];
      } else if !repeat[0] {
        var k :| 0 <= k < |repeat| - 1 && repeat[k];
        assert repeat[1..][k - 1];
      }
    }
  }

  /** Delivered does not mean complete: under retries a frame arrives whole just
      when no chunk before its last was repeated.  A frame of one chunk always does. */
  lemma WholeUnlessRepeated(frame: Frame, start: Sequence, repeat: seq<bool>)
    requires |repeat| == ChunkCount(frame)
    ensures Messages(Outcomes(Assembly(start, []), Repeated(frame, start, repeat))) == [frame] <==>
            forall k :: 0 <= k < ChunkCount(frame) - 1 ==> !repeat[k]
  {
    DeliversSurvivor(frame, start, [], repeat);
    SurvivorLength(frame, [], repeat);
    assert [] + frame == frame;
  }

  /** A frame of two chunks whose first is repeated loses its first 18 bytes. */
  lemma TruncationExample()
    ensures
      var frame: Frame := seq(20, i requires 0 <= i < 20 => i);
      Messages(Outcomes(Assembly(1, []), Repeated(frame, 1, [true, false]))) == [[18, 19]]
  {
    var frame: Frame := seq(20, i requires 0 <= i < 20 => i);
    DeliversSurvivor(frame, 1, [], [true, false]);
    var rest: Frame := [18, 19];
    assert frame[18..] == rest;
    assert [true, false][1..] == [false];
    assert Survivor(rest, [], [false]) == [] + rest == rest;
  }

  // ---- arbitrary input ----

  /** One number follows the other, and the first does not end a message. */
  predicate Follows(c: BleChunk, d: BleChunk) {
    NextSequence(c.sequence) == Ok(d.sequence) && !c.endOfMessage
  }

  ghost predicate Consecutive(run: seq<BleChunk>) {
    forall i, j :: 0 <= i && j == i + 1 && j < |run| ==> Follows(run[i], run[j])
  }

  function Joined(run: seq<BleChunk>): bytes {
    if run == [] then [] else Joined(run[..|run| - 1]) + run[|run| - 1].payload
  }

  /** What becomes of the run of accepted chunks at an input: a chunk accepted in the
      middle of a message joins it; a delivery and a sequence error empty it; anything
      malformed, and a Bluetooth-layer command, leaves it. */
  function RunAfter(run: seq<BleChunk>, data: bytes, outcome: Result<Receipt>): seq<BleChunk> {
    match ParseBleChunk(data)
    case Err(_) => run
    case Ok(chunk) =>
      if chunk.forBluetoothLayer then run
      else if outcome.Err? || outcome.value.message.Some? then []
      else run + [chunk]
  }

  /** The chunks accepted since the last delivery or sequence error. */
  function AcceptedSince(a: Assembly, inputs: seq<bytes>): seq<BleChunk>
    decreases |inputs|
  {
    if inputs == [] then []
    else
      var n := |inputs| - 1;
      RunAfter(AcceptedSince(a, inputs[..n]), inputs[n], Outcomes(a, inputs)[n])
  }

  /** The buffer is what an unbroken run of chunks carried. */
  ghost predicate Explains(a: Assembly, run: seq<BleChunk>) {
    && Consecutive(run)
    && Joined(run) == a.buffer
    && (run != [] ==>
          var last := run[|run| - 1];
          !last.endOfMessage && NextSequence(last.sequence) == Ok(a.expected))
  }

  lemma ExplainMore(a: Assembly, run: seq<BleChunk>, c: BleChunk)
    requires Explains(a, run) && c.sequence == a.expected
    ensures Consecutive(run + [c]) && Joined(run + [c]) == a.buffer + c.payload
  {
    assert (run + [c])[..|run|] == run;
  }

  lemma ExplainStep(a: Assembly, run: seq<BleChunk>, data: bytes)
    requires Explains(a, run)
    ensures Explains(Add(a, data).0, RunAfter(run, data, Add(a, data).1))
  {
    var p := ParseBleChunk(data);
    if p.Ok? && !p.value.forBluetoothLayer && p.value.sequence == a.expected {
      ExplainMore(a, run, p.value);
    }
  }

  lemma LastOutcome(a: Assembly, inputs: seq<bytes>, d: bytes)
    ensures StateAfter(a, inputs + [d]) == Add(StateAfter(a, inputs), d).0
    ensures Outcomes(a, inputs + [d]) == Outcomes(a, inputs) + [Add(StateAfter(a, inputs), d).1]
  {
    RunConcat(a, inputs, [d]);
    assert [d][1..] == [];
  }

  /** The buffer always holds exactly the payloads accepted since the last delivery or
      sequence error. */
  lemma {:induction false} BufferExplained(start: Sequence, inputs: seq<bytes>)
    ensures Explains(StateAfter(Assembly(start, []), inputs), AcceptedSince(Assembly(start, []), inputs))
  {
    var a := Assembly(start, []);
    if inputs != [] {
      hide Add, RunAfter, Explains;
      var n := |inputs| - 1;
      BufferExplained(start, inputs[..n]);
      assert inputs == inputs[..n] + [inputs[n]];
      LastOutcome(a, inputs[..n], inputs[n]);
      ExplainStep(StateAfter(a, inputs[..n]), AcceptedSince(a, inputs[..n]), inputs[n]);
    }
  }

  /** Whatever arrives: a message handed over is the concatenation of the payloads
      accepted since the last delivery or sequence error, up to and including the chunk
      that completes it, and their numbers are consecutive. */
  lemma DeliveryExplained(start: Sequence, inputs: seq<bytes>, d: bytes)
    requires Delivers(Add(StateAfter(Assembly(start, []), inputs), d).1)
    ensures
      var run := AcceptedSince(Assembly(start, []), inputs) + [ParseBleChunk(d).value];
      && Consecutive(run)
      && Add(StateAfter(Assembly(start, []), inputs), d).1.value.message == Some(Joined(run))
  {
    BufferExplained(start, inputs);
    ExplainMore(StateAfter(Assembly(start, []), inputs), AcceptedSince(Assembly(start, []), inputs),
                ParseBleChunk(d).value);
  }
}
