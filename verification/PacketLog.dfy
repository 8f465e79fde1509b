/** The records of a PacketLogger file. */
module PacketLog {
  import opened Bytes

  /** Little-endian length, eight bytes of time, a type, and the payload. */
  datatype Record = Record(time: bytes, ptype: byte, payload: bytes)
  {
    predicate Fits() {
      |time| == 8 && |payload| + 9 < 0x1_0000_0000
    }
  }

  /** What records yields of a record. */
  datatype Packet = Packet(ptype: byte, payload: bytes)

  function Le32(n: nat): (r: bytes)
    requires n < 0x1_0000_0000
    ensures |r| == 4
  {
    Le16(n % 0x1_0000) + Le16(n / 0x1_0000)
  }

  function FromLe32(b: bytes): nat
    requires |b| == 4
  {
    FromLe16(b[..2]) + 0x1_0000 * FromLe16(b[2..])
  }

  lemma Le32RoundTrip(n: nat)
    requires n < 0x1_0000_0000
    ensures FromLe32(Le32(n)) == n
  {
    assert Le32(n)[..2] == Le16(n % 0x1_0000) && Le32(n)[2..] == Le16(n / 0x1_0000);
  }

  lemma Le32Inverse(b: bytes)
    requires |b| == 4
    ensures FromLe32(b) < 0x1_0000_0000 && Le32(FromLe32(b)) == b
  {
    var lo, hi := FromLe16(b[..2]), FromLe16(b[2..]);
    Le16Inverse(b[..2]);
    Le16Inverse(b[2..]);
    assert FromLe32(b) % 0x1_0000 == lo && FromLe32(b) / 0x1_0000 == hi;
    assert b == b[..2] + b[2..];
  }

  function Serialized(r: Record): bytes
    requires r.Fits()
  {
    Le32(|r.payload| + 9) + r.time + [r.ptype] + r.payload
  }

  predicate AllFit(log: seq<Record>) {
    log != [] ==> log[0].Fits() && AllFit(log[1..])
  }

  function SerializedAll(log: seq<Record>): bytes
    requires AllFit(log)
  {
    if log == [] then [] else Serialized(log[0]) + SerializedAll(log[1..])
  }

  function Packets(log: seq<Record>): seq<Packet> {
    if log == [] then [] else [Packet(log[0].ptype, log[0].payload)] + Packets(log[1..])
  }

  /** A whole record starts the buffer. */
  predicate StartsRecord(buf: bytes) {
    |buf| >= 13 && FromLe32(buf[..4]) >= 9 && 4 + FromLe32(buf[..4]) <= |buf|
  }

  function RecordSize(buf: bytes): (n: nat)
    requires StartsRecord(buf)
    ensures 13 <= n <= |buf|
  {
    4 + FromLe32(buf[..4])
  }

  function FirstRecord(buf: bytes): Record
    requires StartsRecord(buf)
  {
    Record(buf[4..12], buf[12], buf[13..RecordSize(buf)])
  }

  /** The whole records at the start of a buffer. */
  function Tiled(buf: bytes): (log: seq<Record>) {
    if StartsRecord(buf) then [FirstRecord(buf)] + Tiled(buf[RecordSize(buf)..]) else []
  }

  lemma EmptyLog(buf: bytes)
    ensures AllFit([]) && SerializedAll([]) == [] && Packets([]) == []
    ensures Tiled(buf) == [] + Tiled(buf[0..])
  {
    assert buf[0..] == buf;
  }

  /** The tests of the loop find whether a whole record starts at pos. */
  lemma StartsAt(buf: bytes, pos: nat)
    requires pos <= |buf|
    ensures StartsRecord(buf[pos..]) <==>
            && pos + 13 <= |buf|
            && var length := FromLe32(buf[pos..pos + 4]); length >= 9 && pos + 4 + length <= |buf|
    ensures !StartsRecord(buf[pos..]) ==> Tiled(buf[pos..]) == []
  {
    hide FromLe32;
    if pos + 13 <= |buf| {
      assert buf[pos..][..4] == buf[pos..pos + 4];
    }
  }

  lemma SerializesFirst(buf: bytes)
    requires StartsRecord(buf)
    ensures FirstRecord(buf).Fits() && Serialized(FirstRecord(buf)) == buf[..RecordSize(buf)]
  {
    hide FromLe32, Le32;
    var n := RecordSize(buf);
    Le32Inverse(buf[..4]);
    assert buf[..n] == buf[..4] + buf[4..12] + [buf[12]] + buf[13..n];
  }

  lemma TilesFirst(buf: bytes)
    requires StartsRecord(buf)
    ensures Tiled(buf) == [FirstRecord(buf)] + Tiled(buf[RecordSize(buf)..])
  {
    hide StartsRecord;
  }

  /** The record at pos: what is yielded of it, where the next one starts, and that its
      bytes are its serialization. */
  lemma TakesRecord(buf: bytes, pos: nat)
    requires pos <= |buf| && StartsRecord(buf[pos..])
    ensures
      var r, next := FirstRecord(buf[pos..]), pos + 4 + FromLe32(buf[pos..pos + 4]);
      && pos + 13 <= next <= |buf| && r.Fits()
      && r.ptype == buf[pos + 12] && r.payload == buf[pos + 13..next]
      && Tiled(buf[pos..]) == [r] + Tiled(buf[next..])
      && Serialized(r) == buf[pos..next]
  {
    hide FromLe32, Le32, Serialized, Tiled;
    var rest := buf[pos..];
    var n := RecordSize(rest);
    assert rest[..4] == buf[pos..pos + 4];
    assert rest[n..] == buf[pos + n..] && rest[..n] == buf[pos..pos + n];
    assert rest[13..n] == buf[pos + 13..pos + n];
    TilesFirst(rest);
    SerializesFirst(rest);
  }

  lemma {:induction false} LogGrows(log: seq<Record>, r: Record)
    requires AllFit(log) && r.Fits()
    ensures AllFit(log + [r]) && SerializedAll(log + [r]) == SerializedAll(log) + Serialized(r)
    ensures Packets(log + [r]) == Packets(log) + [Packet(r.ptype, r.payload)]
  {
    if log == [] {
      assert log + [r] == [r] && [r][1..] == [];
    } else {
      assert (log + [r])[1..] == log[1..] + [r];
      LogGrows(log[1..], r);
    }
  }

  /** records: advance over the buffer while a whole record follows.  What it yields tiles
      a prefix of the buffer, and no whole record follows that prefix. */
  method Records(buf: bytes) returns (packets: seq<Packet>, ghost end: nat)
    ensures packets == Packets(Tiled(buf))
    ensures end <= |buf| && !StartsRecord(buf[end..])
    ensures AllFit(Tiled(buf)) && SerializedAll(Tiled(buf)) == buf[..end]
  {
    hide Tiled, StartsRecord, FromLe32, AllFit, SerializedAll, Packets;
    var pos := 0;
    packets := [];
    ghost var log: seq<Record> := [];
    EmptyLog(buf);
    while pos + 13 <= |buf|
      invariant pos <= |buf|
      invariant Tiled(buf) == log + Tiled(buf[pos..])
      invariant packets == Packets(log)
      invariant AllFit(log) && SerializedAll(log) == buf[..pos]
    {
      var length := FromLe32(buf[pos..pos + 4]);
      StartsAt(buf, pos);
      if length < 9 || pos + 4 + length > |buf| {
        break;
      }
      TakesRecord(buf, pos);
      LogGrows(log, FirstRecord(buf[pos..]));
      assert buf[..pos + 4 + length] == buf[..pos] + buf[pos..pos + 4 + length];
      log := log + [FirstRecord(buf[pos..])];
      packets := packets + [Packet(buf[pos + 12], buf[pos + 13..pos + 4 + length])];
      pos := pos + 4 + length;
    }
    end := pos;
    StartsAt(buf, pos);
    assert log + [] == log;
  }

  lemma SerializedFirst(r: Record, rest: bytes)
    requires r.Fits()
    ensures
      var buf := Serialized(r) + rest;
      StartsRecord(buf) && FirstRecord(buf) == r && RecordSize(buf) == |Serialized(r)| && buf[RecordSize(buf)..] == rest
  {
    hide FromLe32, Le32;
    var head := Le32(|r.payload| + 9);
    var buf := Serialized(r) + rest;
    Le32RoundTrip(|r.payload| + 9);
    assert buf == head + (r.time + [r.ptype] + r.payload + rest);
    assert buf[..4] == head;
    assert buf[4..12] == r.time && buf[12] == r.ptype && buf[13..13 + |r.payload|] == r.payload;
  }

  lemma TiledFirst(r: Record, rest: bytes)
    requires r.Fits()
    ensures Tiled(Serialized(r) + rest) == [r] + Tiled(rest)
  {
    hide Serialized;
    SerializedFirst(r, rest);
  }

  /** Reading undoes writing: the records written come back, followed by whatever can be
      read of what follows them. */
  lemma {:induction false} TiledInverts(log: seq<Record>, rest: bytes)
    requires AllFit(log)
    ensures Tiled(SerializedAll(log) + rest) == log + Tiled(rest)
  {
    hide Tiled, Serialized;
    if log == [] {
      assert SerializedAll(log) + rest == rest;
    } else {
      var tail := SerializedAll(log[1..]) + rest;
      TiledFirst(log[0], tail);
      assert SerializedAll(log) + rest == Serialized(log[0]) + tail;
      TiledInverts(log[1..], rest);
      assert log == [log[0]] + log[1..];
    }
  }
}
