/** Reassembly of L2CAP PDUs from the ACL fragments of a trace. */
module Acl {
  import opened Bytes
  import opened Results

  const ATT_CID := 0x0004
  const SMP_CID := 0x0006

  /** What tells an SMP PDU from an ATT PDU: a zero byte, then "SMP:". */
  const SMP_TAG: bytes := [0x00, 0x53, 0x4D, 0x50, 0x3A]

  /** A PDU under way: its channel, its length, and what has arrived of it. */
  datatype Partial = Partial(cid: nat, need: nat, data: bytes)

  datatype Fragment = Fragment(connection: nat, continuation: bool, data: bytes)

  // ---- one fragment ----

  /** The ACL header: handle and flags, then the length of the data. */
  function ParseFragment(payload: bytes): Option<Fragment> {
    if |payload| < 4 then None
    else
      var handleFlags, aclLen := FromLe16(payload[..2]), FromLe16(payload[2..4]);
      var end := if 4 + aclLen < |payload| then 4 + aclLen else |payload|;
      Some(Fragment(handleFlags % 0x1000, handleFlags / 0x1000 % 4 == 1, payload[4..end]))
  }

  /** The PDU handed over when it is complete: only ATT and SMP are. */
  function Finished(p: Partial): Option<bytes>
    requires |p.data| >= p.need
  {
    if p.cid == ATT_CID then Some(p.data[..p.need])
    else if p.cid == SMP_CID then Some(SMP_TAG + p.data[..p.need])
    else None
  }

  /** One fragment on its own connection: the PDU under way before and after it, and the
      PDU it completes. */
  function Take(under: Option<Partial>, f: Fragment): (Option<Partial>, Option<bytes>) {
    if f.continuation && under.None? then (None, None)
    else if !f.continuation && |f.data| < 4 then (under, None)
    else
      var p := if f.continuation then under.value.(data := under.value.data + f.data)
               else Partial(FromLe16(f.data[2..4]), FromLe16(f.data[..2]), f.data[4..]);
      if |p.data| >= p.need then (None, Finished(p)) else (Some(p), None)
  }

  function UnderWay(reasm: map<nat, Partial>, connection: nat): Option<Partial> {
    if connection in reasm then Some(reasm[connection]) else None
  }

  function Updated(reasm: map<nat, Partial>, connection: nat, under: Option<Partial>): map<nat, Partial> {
    if under.Some? then reasm[connection := under.value] else reasm - {connection}
  }

  /** att_from_acl as a function of the dictionary. */
  function Reassemble(reasm: map<nat, Partial>, payload: bytes): (map<nat, Partial>, Option<bytes>) {
    match ParseFragment(payload)
    case None => (reasm, None)
    case Some(f) =>
      var (under, pdu) := Take(UnderWay(reasm, f.connection), f);
      (Updated(reasm, f.connection, under), pdu)
  }

  class Reassembler {
    var reasm: map<nat, Partial>

    constructor ()
      ensures reasm == map[]
    {
      reasm := map[];
    }

    /** att_from_acl: insert at a start, extend at a continuation, pop when complete. */
    method AttFromAcl(payload: bytes) returns (pdu: Option<bytes>)
      modifies this
      ensures (reasm, pdu) == Reassemble(old(reasm), payload)
    {
      if |payload| < 4 {
        return None;
      }
      var handleFlags, aclLen := FromLe16(payload[..2]), FromLe16(payload[2..4]);
      var conn := handleFlags % 0x1000;
      var pb := handleFlags / 0x1000 % 4;
      var data := payload[4..if 4 + aclLen < |payload| then 4 + aclLen else |payload|];
      if pb == 1 {
        if conn !in reasm {
          assert reasm - {conn} == reasm;
          return None;
        }
        reasm := reasm[conn := reasm[conn].(data := reasm[conn].data + data)];
      } else {
        if |data| < 4 {
          assert Updated(reasm, conn, UnderWay(reasm, conn)) == reasm;
          return None;
        }
        reasm := reasm[conn := Partial(FromLe16(data[2..4]), FromLe16(data[..2]), data[4..])];
      }
      var buf := reasm[conn];
      if |buf.data| >= buf.need {
        if buf.cid == ATT_CID {
          pdu := Some(buf.data[..buf.need]);
        } else if buf.cid == SMP_CID {
          pdu := Some(SMP_TAG + buf.data[..buf.need]);
        } else {
          pdu := None;
        }
        reasm := reasm - {conn};
        assert reasm == old(reasm) - {conn};
        return;
      }
      pdu := None;
    }
  }

  // ---- connections do not disturb each other ----

  /** The fragments of one connection, in order. */
  function On(payloads: seq<bytes>, connection: nat): seq<Fragment> {
    if payloads == [] then []
    else
      var f := ParseFragment(payloads[0]);
      (if f.Some? && f.value.connection == connection then [f.value] else []) + On(payloads[1..], connection)
  }

  /** The PDUs handed over while a trace is read, of one connection. */
  function Pdus(reasm: map<nat, Partial>, payloads: seq<bytes>, connection: nat): seq<bytes>
    decreases |payloads|
  {
    if payloads == [] then []
    else
      var (reasm', pdu) := Reassemble(reasm, payloads[0]);
      var f := ParseFragment(payloads[0]);
      (if f.Some? && f.value.connection == connection && pdu.Some? then [pdu.value] else [])
      + Pdus(reasm', payloads[1..], connection)
  }

  /** The PDUs that the fragments of one connection alone make. */
  function Alone(under: Option<Partial>, fragments: seq<Fragment>): seq<bytes>
    decreases |fragments|
  {
    if fragments == [] then []
    else
      var (under', pdu) := Take(under, fragments[0]);
      (if pdu.Some? then [pdu.value] else []) + Alone(under', fragments[1..])
  }

  function AloneAfter(under: Option<Partial>, fragments: seq<Fragment>): Option<Partial>
    decreases |fragments|
  {
    if fragments == [] then under else AloneAfter(Take(under, fragments[0]).0, fragments[1..])
  }

  /** However fragments of connections are interleaved, and whatever else is in the trace,
      a connection gets exactly the PDUs it would get alone. */
  lemma {:induction false} ConnectionsIndependent(reasm: map<nat, Partial>, payloads: seq<bytes>, connection: nat)
    ensures Pdus(reasm, payloads, connection) == Alone(UnderWay(reasm, connection), On(payloads, connection))
    decreases |payloads|
  {
    hide Take, ParseFragment;
    if payloads != [] {
      var f, reasm' := ParseFragment(payloads[0]), Reassemble(reasm, payloads[0]).0;
      ConnectionsIndependent(reasm', payloads[1..], connection);
      if f.Some? && f.value.connection == connection {
        var (under, pdu) := Take(UnderWay(reasm, connection), f.value);
        assert UnderWay(reasm', connection) == under;
        AloneFirst(UnderWay(reasm, connection), f.value, On(payloads[1..], connection));
      } else {
        assert UnderWay(reasm', connection) == UnderWay(reasm, connection);
        assert On(payloads, connection) == On(payloads[1..], connection);
      }
    }
  }

  // ---- fragmentation ----

  /** An L2CAP PDU: its length and channel, then its body. */
  datatype Pdu = Pdu(cid: nat, body: bytes)
  {
    predicate Fits() {
      cid < 0x1_0000 && |body| < 0x1_0000
    }

    function Frame(): bytes
      requires Fits()
    {
      Le16(|body|) + Le16(cid) + body
    }

    /** What the reassembly makes of it. */
    function Output(): seq<bytes> {
      if cid == 4 then [body] else if cid == 6 then [[0x00, 0x53, 0x4D, 0x50, 0x3A] + body] else []
    }
  }

  function Joined(pieces: seq<bytes>): bytes {
    if pieces == [] then [] else pieces[0] + Joined(pieces[1..])
  }

  /** pieces cut the frame of pdu, with its header whole in the first. */
  predicate Cuts(pieces: seq<bytes>, pdu: Pdu) {
    pdu.Fits() && pieces != [] && |pieces[0]| >= 4 && Joined(pieces) == pdu.Frame()
  }

  function Continuations(connection: nat, pieces: seq<bytes>): seq<Fragment> {
    if pieces == [] then [] else [Fragment(connection, true, pieces[0])] + Continuations(connection, pieces[1..])
  }

  function Fragments(connection: nat, pieces: seq<bytes>): seq<Fragment>
    requires pieces != []
  {
    [Fragment(connection, false, pieces[0])] + Continuations(connection, pieces[1..])
  }

  /** The fragments of PDUs, one after the other. */
  function Stream(connection: nat, cuts: seq<seq<bytes>>): seq<Fragment> {
    if cuts == [] then []
    else (if cuts[0] == [] then [] else Fragments(connection, cuts[0])) + Stream(connection, cuts[1..])
  }

  function Outputs(pdus: seq<Pdu>): seq<bytes> {
    if pdus == [] then [] else pdus[0].Output() + Outputs(pdus[1..])
  }

  predicate CutsAll(cuts: seq<seq<bytes>>, pdus: seq<Pdu>) {
    && |cuts| == |pdus|
    && (cuts != [] ==> Cuts(cuts[0], pdus[0]) && CutsAll(cuts[1..], pdus[1..]))
  }

  lemma {:induction false} AloneConcat(under: Option<Partial>, x: seq<Fragment>, y: seq<Fragment>)
    ensures Alone(under, x + y) == Alone(under, x) + Alone(AloneAfter(under, x), y)
    decreases |x|
  {
    hide Take;
    if x == [] {
      assert x + y == y;
    } else {
      assert (x + y)[1..] == x[1..] + y;
      AloneConcat(Take(under, x[0]).0, x[1..], y);
    }
  }

  /** Nothing more comes of fragments after a PDU is complete. */
  lemma {:induction false} NothingUnderWay(connection: nat, pieces: seq<bytes>)
    ensures Alone(None, Continuations(connection, pieces)) == []
    ensures AloneAfter(None, Continuations(connection, pieces)) == None
  {
    if pieces != [] {
      assert Continuations(connection, pieces)[1..] == Continuations(connection, pieces[1..]);
      NothingUnderWay(connection, pieces[1..]);
    }
  }

  lemma AloneFirst(under: Option<Partial>, f: Fragment, rest: seq<Fragment>)
    ensures
      var (under', pdu) := Take(under, f);
      && Alone(under, [f] + rest) == (if pdu.Some? then [pdu.value] else []) + Alone(under', rest)
      && AloneAfter(under, [f] + rest) == AloneAfter(under', rest)
  {
    hide Take;
    assert ([f] + rest)[1..] == rest;
  }

  /** What is missing of a PDU completes it. */
  lemma {:induction false} Completes(connection: nat, pdu: Pdu, data: bytes, pieces: seq<bytes>)
    requires data + Joined(pieces) == pdu.body && |data| < |pdu.body|
    ensures
      var under := Some(Partial(pdu.cid, |pdu.body|, data));
      && Alone(under, Continuations(connection, pieces)) == pdu.Output()
      && AloneAfter(under, Continuations(connection, pieces)) == None
    decreases |pieces|
  {
    if pieces != [] {
      var under, f := Some(Partial(pdu.cid, |pdu.body|, data)), Fragment(connection, true, pieces[0]);
      AloneFirst(under, f, Continuations(connection, pieces[1..]));
      assert data + Joined(pieces) == (data + pieces[0]) + Joined(pieces[1..]);
      if |data + pieces[0]| < |pdu.body| {
        Completes(connection, pdu, data + pieces[0], pieces[1..]);
      } else {
        hide Alone, AloneAfter;
        NothingUnderWay(connection, pieces[1..]);
        assert data + pieces[0] == pdu.body;
      }
    }
  }

  /** One PDU, however it is cut, comes out once and whole, whatever was under way. */
  lemma CutPdu(connection: nat, pdu: Pdu, pieces: seq<bytes>, under: Option<Partial>)
    requires Cuts(pieces, pdu)
    ensures Alone(under, Fragments(connection, pieces)) == pdu.Output()
    ensures AloneAfter(under, Fragments(connection, pieces)) == None
  {
    var first, rest := pieces[0], Continuations(connection, pieces[1..]);
    var body := first[4..];
    FirstPiece(pdu, first, Joined(pieces[1..]));
    assert Fragments(connection, pieces)[1..] == rest;
    if |body| < |pdu.body| {
      Completes(connection, pdu, body, pieces[1..]);
    } else {
      NothingUnderWay(connection, pieces[1..]);
      assert body[..|pdu.body|] == pdu.body;
    }
  }

  lemma FirstPiece(pdu: Pdu, first: bytes, rest: bytes)
    requires pdu.Fits() && |first| >= 4 && first + rest == pdu.Frame()
    ensures FromLe16(first[..2]) == |pdu.body| && FromLe16(first[2..4]) == pdu.cid
    ensures first[4..] + rest == pdu.body
  {
    var frame := first + rest;
    assert frame[..2] == first[..2] && frame[2..4] == first[2..4] && frame[4..] == first[4..] + rest;
    assert frame == Le16(|pdu.body|) + (Le16(pdu.cid) + pdu.body);
    assert frame[..2] == Le16(|pdu.body|) && frame[2..4] == Le16(pdu.cid) && frame[4..] == pdu.body;
  }

  lemma {:induction false} CutPdus(connection: nat, pdus: seq<Pdu>, cuts: seq<seq<bytes>>, under: Option<Partial>)
    requires CutsAll(cuts, pdus)
    ensures Alone(under, Stream(connection, cuts)) == Outputs(pdus)
    decreases |cuts|
  {
    if cuts != [] {
      CutPdu(connection, pdus[0], cuts[0], under);
      CutPdus(connection, pdus[1..], cuts[1..], None);
      AloneConcat(under, Fragments(connection, cuts[0]), Stream(connection, cuts[1..]));
    }
  }

  /** Take any trace in which the fragments of some connection cut a series of PDUs, each
      with its header whole in its first fragment, and in which anything else is
      interleaved: the connection's ATT and SMP PDUs come out, each once, whole, in
      order, and nothing else. */
  lemma EachPduOnce(payloads: seq<bytes>, connection: nat, pdus: seq<Pdu>, cuts: seq<seq<bytes>>,
      reasm: map<nat, Partial>)
    requires CutsAll(cuts, pdus) && On(payloads, connection) == Stream(connection, cuts)
    ensures Pdus(reasm, payloads, connection) == Outputs(pdus)
  {
    ConnectionsIndependent(reasm, payloads, connection);
    CutPdus(connection, pdus, cuts, UnderWay(reasm, connection));
  }

  // ---- the ACL header ----

  /** A fragment as a controller sends it: packet boundary flag 1 for a continuation, 2
      (or 0) for a start; the two broadcast bits are not inspected. */
  function Packet(connection: nat, boundary: nat, broadcast: nat, data: bytes): bytes
    requires connection < 0x1000 && boundary < 4 && broadcast < 4 && |data| < 0x1_0000
  {
    Le16(connection + 0x1000 * boundary + 0x4000 * broadcast) + Le16(|data|) + data
  }

  lemma HandleBits(connection: nat, boundary: nat, broadcast: nat)
    requires connection < 0x1000 && boundary < 4 && broadcast < 4
    ensures
      var n := connection + 0x1000 * boundary + 0x4000 * broadcast;
      n < 0x1_0000 && n % 0x1000 == connection && n / 0x1000 % 4 == boundary
  {
    var n := connection + 0x1000 * boundary + 0x4000 * broadcast;
    assert n == 0x1000 * (boundary + 4 * broadcast) + connection;
    assert n / 0x1000 == boundary + 4 * broadcast;
  }

  /** Whatever follows the data is ignored. */
  lemma ParsePacket(connection: nat, boundary: nat, broadcast: nat, data: bytes, more: bytes)
    requires connection < 0x1000 && boundary < 4 && broadcast < 4 && |data| < 0x1_0000
    ensures ParseFragment(Packet(connection, boundary, broadcast, data) + more) ==
            Some(Fragment(connection, boundary == 1, data))
  {
    var n := connection + 0x1000 * boundary + 0x4000 * broadcast;
    HandleBits(connection, boundary, broadcast);
    var payload := Packet(connection, boundary, broadcast, data) + more;
    assert payload == Le16(n) + (Le16(|data|) + data + more);
    assert payload[..2] == Le16(n) && payload[2..4] == Le16(|data|) && payload[4..4 + |data|] == data;
  }

  /** A start shorter than the PDU's header is dropped, but not what was under way: the
      rest of the PDU goes into that, or is dropped too when nothing was.  So the
      requirement on the first fragment is needed. */
  lemma SplitHeader(connection: nat, pieces: seq<bytes>, under: Option<Partial>)
    requires pieces != [] && |pieces[0]| < 4
    ensures Alone(under, Fragments(connection, pieces)) == Alone(under, Continuations(connection, pieces[1..]))
    ensures Alone(None, Fragments(connection, pieces)) == []
  {
    AloneFirst(under, Fragment(connection, false, pieces[0]), Continuations(connection, pieces[1..]));
    AloneFirst(None, Fragment(connection, false, pieces[0]), Continuations(connection, pieces[1..]));
    NothingUnderWay(connection, pieces[1..]);
  }
}
