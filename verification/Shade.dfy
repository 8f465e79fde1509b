/** The shade of the test harness: what it answers and how it moves. */
module Shade {
  import opened Bytes
  import opened Results
  import opened BleLink
  import opened Ctr
  import C = CryptoFrames
  import opened AppCodec
  import opened Ids
  import opened Status
  import opened Requests
  import opened StopAndWait

  /** What a shade is set up with.  proofKey differs from key for a wrong pairing. */
  datatype Setup = Setup(
    cipher: Cipher, mac: C.Mac, key: bytes, proofKey: bytes, nonce: Nonce, versions: bytes, travelFraction: real)
  {
    /** What a client that holds the shade's key and nonce uses. */
    function Open(): Channel {
      Channel(cipher, key, nonce)
    }
  }

  type Percent = p: int | 0 <= p <= 100

  datatype ShadeState = ShadeState(position: Percent, battery: byte, setPositionCalls: nat)

  // ---- movement ----

  /** round() to the nearest integer, halves to even. */
  function Round(x: real): int {
    var down := x.Floor;
    if x - down as real < 0.5 then down
    else if x - down as real > 0.5 then down + 1
    else if down % 2 == 0 then down
    else down + 1
  }

  function Clamp(p: int): Percent {
    if p < 0 then 0 else if p > 100 then 100 else p
  }

  function Scale(d: real, fraction: real): real {
    d * fraction
  }

  function Destination(position: Percent, target: int, fraction: real): real {
    position as real + Scale((target - position) as real, fraction)
  }

  /** Where a move to target ends before the next status read. */
  function Travel(position: Percent, target: int, fraction: real): Percent {
    Clamp(Round(Destination(position, target, fraction)))
  }

  lemma RoundBounds(x: real, n: int)
    ensures x <= n as real ==> Round(x) <= n
    ensures x >= n as real ==> Round(x) >= n
  {}

  lemma ProductOfPositives(a: real, b: real)
    requires a >= 0.0 && b >= 0.0
    ensures a * b >= 0.0
  {}

  lemma ScaledUp(d: real, fraction: real)
    requires d >= 0.0
    ensures fraction >= 0.0 ==> Scale(d, fraction) >= 0.0
    ensures fraction <= 1.0 ==> Scale(d, fraction) <= d
    ensures fraction <= 0.0 ==> Scale(d, fraction) <= 0.0
  {
    if fraction >= 0.0 {
      ProductOfPositives(d, fraction);
    }
    if fraction <= 0.0 {
      ProductOfPositives(d, 0.0 - fraction);
      assert d * (0.0 - fraction) == 0.0 - d * fraction;
    }
    if fraction <= 1.0 {
      ProductOfPositives(d, 1.0 - fraction);
      assert d * (1.0 - fraction) == d - d * fraction;
    }
  }

  lemma ScaledDown(d: real, fraction: real)
    requires d <= 0.0
    ensures fraction >= 0.0 ==> Scale(d, fraction) <= 0.0
    ensures fraction <= 1.0 ==> Scale(d, fraction) >= d
    ensures fraction <= 0.0 ==> Scale(d, fraction) >= 0.0
  {
    var e := 0.0 - d;
    ScaledUp(e, fraction);
    assert Scale(e, fraction) == 0.0 - Scale(d, fraction);
  }

  lemma DestinationBounds(position: Percent, target: Percent, fraction: real)
    ensures
      var x, p, t := Destination(position, target, fraction), position as real, target as real;
      && (fraction == 1.0 ==> x == t)
      && (fraction <= 0.0 ==> (p <= t ==> x <= p) && (p >= t ==> x >= p))
      && (0.0 <= fraction <= 1.0 ==> (p <= t ==> p <= x <= t) && (p >= t ==> t <= x <= p))
  {
    var d := (target - position) as real;
    assert Scale(d, 1.0) == d;
    hide Scale;
    if d >= 0.0 {
      ScaledUp(d, fraction);
    }
    if d <= 0.0 {
      ScaledDown(d, fraction);
    }
  }

  /** A full travel arrives; none, or one backwards, does not come nearer; and no travel
      up to a full one overshoots. */
  lemma TravelEnds(position: Percent, target: Percent, fraction: real)
    ensures fraction == 1.0 ==> Travel(position, target, fraction) == target
    ensures fraction <= 0.0 && position < target ==> Travel(position, target, fraction) <= position
    ensures fraction <= 0.0 && position > target ==> Travel(position, target, fraction) >= position
    ensures 0.0 <= fraction <= 1.0 && position <= target ==> position <= Travel(position, target, fraction) <= target
    ensures 0.0 <= fraction <= 1.0 && position >= target ==> target <= Travel(position, target, fraction) <= position
  {
    hide Round, Destination;
    DestinationBounds(position, target, fraction);
    RoundBounds(Destination(position, target, fraction), position);
    RoundBounds(Destination(position, target, fraction), target);
  }

  /** Where a move ends: at the nearest whole percent of the way travelled, of two equally
      near the even one, and never beyond either end. */
  lemma TravelIsNearest(position: Percent, target: int, fraction: real)
    ensures
      var x, t := position as real + (target - position) as real * fraction, Travel(position, target, fraction);
      && (x <= 0.0 ==> t == 0) && (x >= 100.0 ==> t == 100)
      && (0.0 <= x <= 100.0 ==>
            && -0.5 <= t as real - x <= 0.5
            && (t as real - x == 0.5 || t as real - x == -0.5 ==> t % 2 == 0))
  {
    var x := Destination(position, target, fraction);
    assert x == position as real + (target - position) as real * fraction;
    RoundBounds(x, 0);
    RoundBounds(x, 100);
  }

  // ---- what the shade answers ----

  function VersionsBody(versions: bytes): Result<bytes> {
    if |versions| < 256 then Ok([|versions|] + versions) else Err(Other)
  }

  function HandleCrypto(setup: Setup, frame: bytes): Result<bytes> {
    var request :- ParseCrypto(frame);
    match request.command
    case RequestProtocolVersions =>
      var body :- VersionsBody(setup.versions);
      Ok(C.CryptoFrame(C.RequestProtocolVersions, body))
    case SelectProtocolVersion =>
      if request.payload == [] then Err(Other)
      else Ok(C.CryptoFrame(C.SelectProtocolVersion, [request.payload[0]]))
    case RequestNonce =>
      var proof :- C.PairingKeyProof(setup.mac, setup.proofKey);
      Ok(C.CryptoFrame(C.RequestNonce, setup.nonce + proof))
    case Ack => Err(Other)
  }

  function ParseCrypto(frame: bytes): Result<C.CryptoResponse> {
    C.ParseCryptoResponse(frame)
  }

  function HandleApp(setup: Setup, state: ShadeState, frame: bytes): (ShadeState, Result<bytes>) {
    match DecryptAppRequest(setup.cipher, frame, setup.key, setup.nonce)
    case Err(e) => (state, Err(e))
    case Ok(request) =>
      var (state', body) := Obey(setup, state, request);
      if body.Err? then (state', body)
      else
        (state', Ok(EncodeAppResponse(setup.cipher, request.command, body.value, setup.key, setup.nonce,
                                      request.counter % 0x8000, request.messageId % 16)))
  }

  /** The command itself. */
  function Obey(setup: Setup, state: ShadeState, request: ApplicationRequest): (ShadeState, Result<bytes>) {
    match request.command
    case SetPosition =>
      if |request.payload| < 2 then (state, Err(Other))
      else
        var target := FromLe16(request.payload[..2]) / 10;
        (state.(position := Travel(state.position, target, setup.travelFraction),
                setPositionCalls := state.setPositionCalls + 1), Ok([]))
    case GetStatus => (state, Ok(StatusPayload(state.position * 10, state.battery, 0, 1)))
    case GetBattery => (state, Ok([state.battery, 0]))
    case _ => (state, Err(Other))
  }

  function Handle(setup: Setup, state: ShadeState, frame: bytes): (ShadeState, Result<bytes>) {
    if |frame| >= 1 && frame[0] >= 128 then (state, HandleCrypto(setup, frame)) else HandleApp(setup, state, frame)
  }

  // ---- one request ----

  /** The shade answers a well-formed request under the request's own pair. */
  lemma AnswersRequest(setup: Setup, state: ShadeState, command: ShadeCommand, payload: bytes, k: nat)
    requires |setup.key| == 32 && command.IsRuntime()
    ensures
      var ids := PairAt(k);
      var frame := EncodeApplicationRequest(setup.cipher, command, payload, setup.key, setup.nonce,
                                            ids.counter, ids.messageId);
      var (state', body) := Obey(setup, state, ApplicationRequest(ids.counter, ids.messageId, command, payload));
      && frame.Ok?
      && Handle(setup, state, frame.value) ==
         (state', if body.Err? then body
                  else Ok(EncodeAppResponse(setup.cipher, command, body.value, setup.key, setup.nonce,
                                            ids.counter, ids.messageId)))
  {
    hide EncodeApplicationRequest, EncodeAppResponse, DecryptAppRequest, Obey, CounterAt, MessageIdAt;
    var ids := PairAt(k);
    RequestHeader(setup, command, payload, ids.counter, ids.messageId);
    RequestRoundTrip(setup.cipher, command, payload, setup.key, setup.nonce, ids.counter, ids.messageId);
  }

  lemma RequestHeader(setup: Setup, command: ShadeCommand, payload: bytes, counter: Counter, messageId: MessageId)
    requires |setup.key| == 32 && command.IsRuntime()
    ensures
      var frame := EncodeApplicationRequest(setup.cipher, command, payload, setup.key, setup.nonce, counter, messageId);
      frame.Ok? && |frame.value| >= 1 && frame.value[0] < 128
  {}

  /** A status read reports exactly the shade's position and battery, or fails when the
      battery is out of range. */
  lemma ReadReports(setup: Setup, state: ShadeState, k: nat)
    requires |setup.key| == 32
    ensures
      var c, frame := setup.Open(), setup.Open().ReadRequest(GetStatus, k);
      && frame.Ok?
      && var (state', reply) := Handle(setup, state, frame.value);
      && state' == state && reply.Ok? && reply.value != []
      && c.StatusFrom(k, Ok(reply.value)) ==
         if state.battery <= 100 then Ok(ShadeStatus(10 * state.position, state.battery, 0, true)) else Err(Protocol)
    ensures RoundTenth(10 * state.position) == state.position
  {
    hide EncodeApplicationRequest, ResponseFrame, DecodeApplicationResponse, Handle, CounterAt, MessageIdAt;
    var ids := PairAt(k);
    var payload := StatusPayload(state.position * 10, state.battery, 0, 1);
    AnswersRequest(setup, state, GetStatus, [], k);
    ResponseHeader(setup.cipher, false, GetStatus, payload, setup.key, setup.nonce, ids.counter, ids.messageId);
    ResponseRoundTrip(setup.cipher, setup.key, setup.nonce, GetStatus, payload, ids.counter, ids.messageId, GetStatus);
    StatusBack(ApplicationResponse(GetStatus, ids.messageId, ids.counter, payload), state);
  }

  lemma StatusBack(r: ApplicationResponse, state: ShadeState)
    requires r.command.GetStatus? && r.payload == StatusPayload(state.position * 10, state.battery, 0, 1)
    ensures ParseStatus(r) ==
            if state.battery <= 100 then Ok(ShadeStatus(10 * state.position, state.battery, 0, true)) else Err(Protocol)
  {
    var payload := r.payload;
    assert payload[..2] == Le16(state.position * 10);
  }

  /** A movement is obeyed once and acknowledged. */
  lemma MoveObeyed(setup: Setup, state: ShadeState, target: Percent, k: nat)
    requires |setup.key| == 32
    ensures
      var c, frame := setup.Open(), setup.Open().PositionRequest(target, k);
      && frame.Ok?
      && var (state', reply) := Handle(setup, state, frame.value);
      && state' == state.(position := Travel(state.position, target, setup.travelFraction),
                          setPositionCalls := state.setPositionCalls + 1)
      && reply.Ok? && reply.value != [] && c.Obeyed(k, Ok(reply.value)) == Ok(())
  {
    hide EncodeApplicationRequest, ResponseFrame, DecodeApplicationResponse, Handle, Travel, CounterAt, MessageIdAt;
    var ids := PairAt(k);
    var payload := Le16(target * 10) + [100];
    assert payload[..2] == Le16(target * 10);
    AnswersRequest(setup, state, SetPosition, payload, k);
    ResponseHeader(setup.cipher, false, SetPosition, [], setup.key, setup.nonce, ids.counter, ids.messageId);
    ResponseRoundTrip(setup.cipher, setup.key, setup.nonce, SetPosition, [], ids.counter, ids.messageId, SetPosition);
  }

  // ---- the device ----

  /** The shade as an object: what is written to it, what it notifies, how it is set. */
  class FakeShadeClient {
    const setup: Setup
    const battery: byte
    const assembler: BleMessageAssembler
    var position: Percent
    var setPositionCalls: nat
    var txSeq: Sequence
    var ackWaiters: map<Sequence, bool> // whether the acknowledgement has come
    var emitted: seq<bytes>
    ghost var sent: seq<bytes>          // the chunks of its own frames among those emitted

    function State(): ShadeState
      reads this
    {
      ShadeState(position, battery, setPositionCalls)
    }

    constructor (setup: Setup, position: Percent, battery: byte)
      ensures State() == ShadeState(position, battery, 0) && this.setup == setup
      ensures txSeq == 1 && ackWaiters == map[] && emitted == [] && sent == []
      ensures fresh(assembler) && assembler.State() == Assembly(1, [])
    {
      this.setup, this.battery, this.position := setup, battery, position;
      setPositionCalls, txSeq, ackWaiters, emitted, sent := 0, 1, map[], [], [];
      assembler := new BleMessageAssembler(1);
    }

    /** _handle_request: only SET_POSITION changes the shade. */
    method HandleRequest(frame: bytes) returns (r: Result<bytes>)
      modifies this`position, this`setPositionCalls
      ensures (State(), r) == Handle(setup, old(State()), frame)
    {
      hide DecryptAppRequest, HandleCrypto, EncodeAppResponse, Travel;
      if |frame| >= 1 && frame[0] >= 128 {
        r := HandleCrypto(setup, frame);
        return;
      }
      var request :- DecryptAppRequest(setup.cipher, frame, setup.key, setup.nonce);
      var body: bytes := [];
      match request.command {
        case SetPosition =>
          if |request.payload| < 2 {
            return Err(Other);
          }
          var target := FromLe16(request.payload[..2]) / 10;
          position := Travel(position, target, setup.travelFraction);
          setPositionCalls := setPositionCalls + 1;
        case GetStatus => body := StatusPayload(position * 10, battery, 0, 1);
        case GetBattery => body := [battery, 0];
        case _ => return Err(Other);
      }
      r := Ok(EncodeAppResponse(setup.cipher, request.command, body, setup.key, setup.nonce,
                                request.counter % 0x8000, request.messageId % 16));
    }

    /** write_gatt_char: an acknowledgement resolves its waiter; any other well-formed
        chunk is acknowledged first and then goes to the assembler, which may refuse it
        or complete a message. */
    method WriteGattChar(data: bytes) returns (r: Result<Option<bytes>>)
      modifies this`ackWaiters, this`emitted, assembler
      ensures
        var chunk, ack := ParseBleChunk(data), ParseBleAck(data);
        if chunk.Err? || chunk.value.forBluetoothLayer then
          && emitted == old(emitted) && assembler.State() == old(assembler.State())
          && (if chunk.Ok? && ack.Ok? then
                r == Ok(None) && ackWaiters == MarkHeard(old(ackWaiters), ack.value)
              else r.Err? && ackWaiters == old(ackWaiters))
        else
          var (state, outcome) := Add(old(assembler.State()), data);
          && AckFor(data).Ok? && emitted == old(emitted) + [AckFor(data).value]
          && assembler.State() == state && ackWaiters == old(ackWaiters)
          && r == if outcome.Ok? then Ok(outcome.value.message) else Err(outcome.error)
    {
      var chunk :- ParseBleChunk(data);
      if chunk.forBluetoothLayer {
        var seqNumber :- ParseBleAck(data);
        if seqNumber in ackWaiters && !ackWaiters[seqNumber] {
          ackWaiters := ackWaiters[seqNumber := true];
        }
        return Ok(None);
      }
      emitted := emitted + [MakeBleAck(chunk.sequence).value];
      var receipt :- assembler.AddChunk(data);
      r := Ok(receipt.message);
    }

    /** The wait for an acknowledgement: any writes arrive meanwhile. */
    method AwaitAck(sequence: Sequence, timesOut: bool) returns (acked: bool)
      requires sequence in ackWaiters
      modifies this`ackWaiters, this`emitted, assembler
      ensures sequence in ackWaiters && acked == (!timesOut && ackWaiters[sequence])
      ensures old(emitted) <= emitted
    {
      var writes: nat := *;
      while writes > 0
        invariant sequence in ackWaiters && old(emitted) <= emitted
      {
        writes := writes - 1;
        var data: bytes := *;
        var _ := WriteGattChar(data);
      }
      acked := !timesOut && ackWaiters[sequence];
    }

    /** _send_frame: one chunk at a time, once each; it stops at the first that is not
        acknowledged. */
    method SendFrame(frame: Frame) returns (r: Result<()>, ghost heard: seq<bool>)
      modifies this`ackWaiters, this`emitted, this`txSeq, this`sent, assembler
      ensures 0 < |heard| <= ChunkCount(frame) == |Chunks(frame, old(txSeq))|
      ensures forall i :: 0 <= i < |heard| - 1 ==> heard[i]
      ensures sent == old(sent) + Chunks(frame, old(txSeq))[..|heard|]
      ensures
        if heard[|heard| - 1] then
          |heard| == ChunkCount(frame) && r == Ok(()) && txSeq == SequenceAt(old(txSeq), |heard|)
        else r == Err(Timeout) && txSeq == SequenceAt(old(txSeq), |heard| - 1)
      ensures old(emitted) <= emitted
    {
      hide Chunks, ChunkCount, SequenceAt, Next;
      var cut := ChunkForBle(frame, txSeq);
      var chunks := cut.value;
      CountOf(frame, txSeq);
      heard := [];
      var i := 0;
      while i < |chunks|
        invariant |heard| == i <= |chunks| && forall j :: 0 <= j < i ==> heard[j]
        invariant txSeq == SequenceAt(old(txSeq), i)
        invariant sent == old(sent) + chunks[..i] && old(emitted) <= emitted
      {
        NumberOf(frame, old(txSeq), i);
        var seqNumber: Sequence := chunks[i][1] % 64;
        ackWaiters := ackWaiters[seqNumber := false];
        emitted := emitted + [chunks[i]];
        sent := sent + [chunks[i]];
        var timesOut: bool := *;
        var acked := AwaitAck(seqNumber, timesOut);
        heard := heard + [acked];
        if !acked {
          return Err(Timeout), heard;
        }
        txSeq := Next(seqNumber);
        i := i + 1;
      }
      assert chunks[..|chunks|] == chunks;
      r := Ok(());
    }
  }

  function MarkHeard(waiters: map<Sequence, bool>, sequence: Sequence): map<Sequence, bool> {
    if sequence in waiters then waiters[sequence := true] else waiters
  }

  lemma CountOf(frame: Frame, start: Sequence)
    ensures |Chunks(frame, start)| == ChunkCount(frame) > 0
    ensures SequenceAt(start, 0) == start
  {
    ChunksParse(frame, start, 0);
    SequenceAtNext(start, 0);
  }

  lemma NumberOf(frame: Frame, start: Sequence, i: nat)
    requires i < ChunkCount(frame)
    ensures |Chunks(frame, start)| == ChunkCount(frame) && |Chunks(frame, start)[i]| >= 2
    ensures Chunks(frame, start)[i][1] % 64 == SequenceAt(start, i)
    ensures SequenceAt(start, i + 1) == Next(SequenceAt(start, i))
  {
    ChunksParse(frame, start, i);
    SequenceAtNext(start, i);
  }
}
