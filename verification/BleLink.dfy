/** The BLE link layer: chunks, acknowledgements and the message assembler. */
module BleLink {
  import opened Bytes
  import opened Results

  const MAX_BLE_PAYLOAD := 18
  const MAX_SEQUENCE := 63

  type Sequence = s: int | 1 <= s <= MAX_SEQUENCE witness 1

  datatype BleChunk = BleChunk(sequence: nat, endOfMessage: bool, forBluetoothLayer: bool, payload: bytes)

  function Next(s: Sequence): Sequence {
    if s == MAX_SEQUENCE then 1 else s + 1
  }

  function NextSequence(sequence: int): Result<Sequence> {
    if 1 <= sequence <= MAX_SEQUENCE then Ok(Next(sequence)) else Err(Protocol)
  }

  /** The k-th number after start, cycling through 1..63. */
  function SequenceAt(start: Sequence, k: nat): Sequence {
    1 + (start - 1 + k) % MAX_SEQUENCE
  }

  lemma SequenceAtNext(start: Sequence, k: nat)
    ensures SequenceAt(start, k) == 1 + (start - 1 + k) % 63
    ensures SequenceAt(start, 0) == start
    ensures SequenceAt(Next(start), k) == SequenceAt(start, k + 1) == Next(SequenceAt(start, k))
  {
    var q, m := (start - 1 + k) / MAX_SEQUENCE, (start - 1 + k) % MAX_SEQUENCE;
    assert start - 1 + k == MAX_SEQUENCE * q + m;
    if m == MAX_SEQUENCE - 1 {
      assert start + k == MAX_SEQUENCE * (q + 1);
    } else {
      assert start + k == MAX_SEQUENCE * q + (m + 1);
    }
  }

  /** Positions carry the same number just when they are a multiple of 63 apart. */
  lemma SequenceAtSame(start: Sequence, m: nat, n: nat)
    requires m <= n
    ensures SequenceAt(start, m) == SequenceAt(start, n) <==> (n - m) % MAX_SEQUENCE == 0
  {}

  // ---- chunks ----

  /** Flag bits 0x80, 0x40 and 0x3F of the second header byte. */
  function ParseBleChunk(data: bytes): Result<BleChunk> {
    if |data| < 2 || data[0] != 0 then Err(Protocol)
    else if |data| > MAX_BLE_PAYLOAD + 2 then Err(Protocol)
    else
      var flags := data[1];
      var sequence := flags % 64;
      var forBluetoothLayer := flags >= 128;
      if sequence == 0 && !forBluetoothLayer then Err(Protocol)
      else Ok(BleChunk(sequence, flags / 64 % 2 == 1, forBluetoothLayer, data[2..]))
  }

  function MakeBleAck(sequence: int): Result<bytes> {
    if 1 <= sequence <= MAX_SEQUENCE then Ok([0, 0xC0, 0x01, sequence]) else Err(Protocol)
  }

  function ParseBleAck(data: bytes): Result<Sequence> {
    var chunk :- ParseBleChunk(data);
    if !chunk.forBluetoothLayer || !chunk.endOfMessage then Err(Protocol)
    else if |chunk.payload| != 2 || chunk.payload[0] != 0x01 then Err(Protocol)
    else if !(1 <= chunk.payload[1] <= MAX_SEQUENCE) then Err(Protocol)
    else Ok(chunk.payload[1])
  }

  /** A chunk is parsed just when it has a zero byte, a byte of end flag, link flag and
      number, and up to 18 more; the number of a data chunk is not zero. */
  lemma ParseChunkExact(data: bytes, c: BleChunk)
    ensures ParseBleChunk(data) == Ok(c) <==>
            && |data| <= 20 && c.sequence < 64 && (c.sequence > 0 || c.forBluetoothLayer)
            && data == [0, c.sequence + (if c.endOfMessage then 0x40 else 0) + if c.forBluetoothLayer then 0x80 else 0]
                       + c.payload
    ensures ParseBleChunk(data).Err? ==> ParseBleChunk(data) == Err(Protocol)
  {
    if |data| >= 2 {
      assert data == [data[0], data[1]] + data[2..];
    }
  }

  /** Parsing accepts exactly the acknowledgement of each sequence number, up to
      the six sequence bits of its header, which it does not inspect. */
  lemma AckRoundTrip(data: bytes, s: Sequence)
    ensures ParseBleAck(data) == Ok(s) <==>
            |data| == 4 && data[0] == 0 && data[1] >= 0xC0 && data[2] == 0x01 && data[3] == s
    ensures MakeBleAck(s) == Ok([0, 0xC0, 0x01, s as int])
    ensures ParseBleAck(data).Err? ==> ParseBleAck(data) == Err(Protocol)
  {
    if |data| == 4 {
      assert data[2..] == [data[2], data[3]];
    }
  }

  function EncodeChunk(sequence: Sequence, end: bool, payload: bytes): bytes {
    [0, if end then sequence + 64 else sequence] + payload
  }

  type Frame = f: bytes | f != [] witness [0]

  /** The chunks of a frame: full ones of 18 bytes, then the last one, marked. */
  function Chunks(frame: Frame, start: Sequence): seq<bytes>
  {
    if |frame| <= MAX_BLE_PAYLOAD then [EncodeChunk(start, true, frame)]
    else [EncodeChunk(start, false, frame[..MAX_BLE_PAYLOAD])] + Chunks(frame[MAX_BLE_PAYLOAD..], Next(start))
  }

  function ChunkCount(frame: Frame): nat {
    (|frame| + MAX_BLE_PAYLOAD - 1) / MAX_BLE_PAYLOAD
  }

  /** The bytes of the frame that its k-th chunk carries. */
  function Slice(frame: Frame, k: nat): bytes
    requires k < ChunkCount(frame)
  {
    if k + 1 == ChunkCount(frame) then frame[MAX_BLE_PAYLOAD * k..]
    else frame[MAX_BLE_PAYLOAD * k..MAX_BLE_PAYLOAD * (k + 1)]
  }

  lemma SliceOfRest(frame: Frame, k: nat)
    requires |frame| > MAX_BLE_PAYLOAD && 1 <= k < ChunkCount(frame)
    ensures ChunkCount(frame[MAX_BLE_PAYLOAD..]) == ChunkCount(frame) - 1
    ensures Slice(frame[MAX_BLE_PAYLOAD..], k - 1) == Slice(frame, k)
  {
    assert MAX_BLE_PAYLOAD * k < |frame|;
  }

  lemma EncodeParse(sequence: Sequence, end: bool, payload: bytes)
    requires |payload| <= MAX_BLE_PAYLOAD
    ensures ParseBleChunk(EncodeChunk(sequence, end, payload)) == Ok(BleChunk(sequence, end, false, payload))
  {
    assert EncodeChunk(sequence, end, payload)[2..] == payload;
  }

  /** Every chunk fits the link, and parses to its position, its end mark and its
      slice of the frame. */
  lemma {:induction false} ChunksParse(frame: Frame, start: Sequence, k: nat)
    requires k < ChunkCount(frame)
    ensures |Chunks(frame, start)| == ChunkCount(frame)
    ensures |Chunks(frame, start)[k]| == if k + 1 == ChunkCount(frame) then |frame| - 18 * k + 2 else 20
    ensures |Chunks(frame, start)[k]| <= 20
    ensures ParseBleChunk(Chunks(frame, start)[k]) ==
            Ok(BleChunk(SequenceAt(start, k), k + 1 == ChunkCount(frame), false, Slice(frame, k)))
    decreases |frame|
  {
    SequenceAtNext(start, 0);
    if |frame| <= MAX_BLE_PAYLOAD {
      EncodeParse(start, true, frame);
    } else {
      var rest := frame[MAX_BLE_PAYLOAD..];
      assert ChunkCount(rest) + 1 == ChunkCount(frame);
      EncodeParse(start, false, frame[..MAX_BLE_PAYLOAD]);
      ChunksParse(rest, Next(start), if k > 0 then k - 1 else 0);
      if k > 0 {
        SequenceAtNext(start, k - 1);
        SliceOfRest(frame, k);
      }
    }
  }

  /** chunk_for_ble: cut the frame at multiples of 18, numbering as it goes. */
  method ChunkForBle(frame: bytes, startSequence: int) returns (r: Result<seq<bytes>>)
    ensures r.Ok? <==> frame != [] && 1 <= startSequence <= MAX_SEQUENCE
    ensures r.Ok? ==> r.value == Chunks(frame, startSequence)
    ensures r.Err? ==> r.error == Protocol
  {
    if frame == [] {
      return Err(Protocol);
    }
    if !(1 <= startSequence <= MAX_SEQUENCE) {
      return Err(Protocol);
    }
    var chunks: seq<bytes> := [];
    var sequence: Sequence := startSequence;
    var offset := 0;
    while offset < |frame|
      invariant 0 <= offset
      invariant offset < |frame| ==> Chunks(frame, startSequence) == chunks + Chunks(frame[offset..], sequence)
      invariant offset >= |frame| ==> Chunks(frame, startSequence) == chunks
    {
      var end := offset + MAX_BLE_PAYLOAD >= |frame|;
      var payload := if end then frame[offset..] else frame[offset..offset + MAX_BLE_PAYLOAD];
      if !end {
        assert frame[offset..][MAX_BLE_PAYLOAD..] == frame[offset + MAX_BLE_PAYLOAD..];
        assert frame[offset..][..MAX_BLE_PAYLOAD] == payload;
      }
      chunks := chunks + [EncodeChunk(sequence, end, payload)];
      sequence := Next(sequence);
      offset := offset + MAX_BLE_PAYLOAD;
    }
    return Ok(chunks);
  }

  // ---- the assembler ----

  /** What add() returns: the acknowledged sequence and, at the end of a message,
      the message. */
  datatype Receipt = Receipt(acknowledged: Sequence, message: Option<bytes>)

  datatype Assembly = Assembly(expected: Sequence, buffer: bytes)

  /** One chunk through the assembler: its new state and what add() returns or raises. */
  function Add(a: Assembly, data: bytes): (r: (Assembly, Result<Receipt>))
    ensures r.1.Err? ==> r.1 == Err(Protocol)
  {
    match ParseBleChunk(data)
    case Err(e) => (a, Err(e))
    case Ok(chunk) =>
      if chunk.forBluetoothLayer then (a, Err(Protocol))
      else if chunk.sequence != a.expected then (Assembly(a.expected, []), Err(Protocol))
      else
        var buffer := a.buffer + chunk.payload;
        if !chunk.endOfMessage then (Assembly(Next(a.expected), buffer), Ok(Receipt(a.expected, None)))
        else (Assembly(Next(a.expected), []), Ok(Receipt(a.expected, Some(buffer))))
  }

  class BleMessageAssembler {
    var expectedSequence: Sequence
    var buffer: bytes

    function State(): Assembly
      reads this
    {
      Assembly(expectedSequence, buffer)
    }

    constructor (expectedSequence: Sequence)
      ensures State() == Assembly(expectedSequence, [])
    {
      this.expectedSequence := expectedSequence;
      buffer := [];
    }

    /** add: parse, check the number, extend the buffer, hand over a whole message. */
    method AddChunk(data: bytes) returns (r: Result<Receipt>)
      modifies this
      ensures (State(), r) == Add(old(State()), data)
    {
      var chunk :- ParseBleChunk(data);
      if chunk.forBluetoothLayer {
        return Err(Protocol);
      }
      if chunk.sequence != expectedSequence {
        buffer := [];
        return Err(Protocol);
      }
      var acknowledged := expectedSequence;
      expectedSequence := Next(acknowledged);
      buffer := buffer + chunk.payload;
      if !chunk.endOfMessage {
        return Ok(Receipt(acknowledged, None));
      }
      var message := buffer;
      buffer := [];
      return Ok(Receipt(acknowledged, Some(message)));
    }
  }
}
