/** Whole sessions with the shade over a link that loses nothing: when the handshake
    succeeds, and that requests then behave as if made on the shade itself. */
module LossFree {
  import opened Bytes
  import opened Results
  import opened BleLink
  import C = CryptoFrames
  import opened AppCodec
  import opened Handshake
  import opened Status
  import opened Requests
  import opened Shade
  import opened StopAndWait
  import opened Schedule
  import Session

  // ---- one exchange ----

  /** The shade, and the link in either direction: the shade acknowledges a chunk before
      it adds it, the central's worker after. */
  datatype World = World(state: ShadeState, down: Link, up: Link)

  predicate Calm(w: World) {
    Quiet(w.down) && Quiet(w.up)
  }

  /** A frame sent by the loss-free schedule, and what the other end was handed. */
  function Carried(order: AckOrder, l: Link, frame: Frame, attempts: Attempts): (Link, seq<bytes>)
    requires Quiet(l)
  {
    CarriesFrame(order, l, frame, attempts);
    var m := After(order, l, LossFreeRun(frame, attempts));
    (m, m.delivered[|l.delivered|..])
  }

  lemma CarriedWhole(order: AckOrder, l: Link, frame: Frame, attempts: Attempts)
    requires Quiet(l)
    ensures Quiet(Carried(order, l, frame, attempts).0) && Carried(order, l, frame, attempts).1 == [frame]
  {
    hide Quiet;
    CarriesFrame(order, l, frame, attempts);
  }

  /** A request to the shade and its answer back.  Where the shade does not answer, the
      central times out. */
  function Exchanged(setup: Setup, w: World, frame: Frame, attempts: Attempts): (r: (World, Answer))
    requires Calm(w)
    ensures Calm(r.0)
  {
    CarriedWhole(AckThenAdd, w.down, frame, attempts);
    var (down, inbox) := Carried(AckThenAdd, w.down, frame, attempts);
    var (state, reply) := Handle(setup, w.state, inbox[0]);
    if reply.Err? || reply.value == [] then (World(state, down, w.up), Err(BleTimeout))
    else
      CarriedWhole(AddThenAck, w.up, reply.value, 1);
      var (up, answers) := Carried(AddThenAck, w.up, reply.value, 1);
      (World(state, down, up), Ok(answers[0]))
  }

  /** An exchange leaves both directions quiet and carries what the shade handles. */
  lemma ExchangeCarries(setup: Setup, w: World, frame: Frame, attempts: Attempts)
    requires Calm(w)
    ensures
      var (w', answer) := Exchanged(setup, w, frame, attempts);
      var (state, reply) := Handle(setup, w.state, frame);
      && Calm(w') && w'.state == state
      && answer == if reply.Ok? && reply.value != [] then Ok(reply.value) else Err(BleTimeout)
  {
    hide Handle, Carried, Quiet;
    CarriedWhole(AckThenAdd, w.down, frame, attempts);
    var (state, reply) := Handle(setup, w.state, frame);
    if reply.Ok? && reply.value != [] {
      CarriedWhole(AddThenAck, w.up, reply.value, 1);
    }
  }

  // ---- a program against the shade ----

  /** The program from these answers on, with the shade: the world after it, all the
      answers, and the result. */
  ghost function Play<T(!new)>(setup: Setup, w: World, p: Program<T>, answers: seq<Answer>)
    : (r: (World, seq<Answer>, Result<T>))
    requires Calm(w) && Brief(p)
    ensures Calm(r.0)
    decreases if |answers| <= 3 then 3 - |answers| else 0
  {
    match p(answers)
    case Return(result) => (w, answers, result)
    case Ask(frame, attempts) =>
      var (w', answer) := Exchanged(setup, w, frame, attempts);
      Play(setup, w', p, answers + [answer])
  }

  /** The exchanges of a session were answered as this world answers them. */
  ghost predicate Served(setup: Setup, w: World, x: seq<Session.Exchange>)
    requires Calm(w)
    decreases |x|
  {
    x != [] ==>
      var (w', answer) := Exchanged(setup, w, x[0].call.frame, x[0].call.attempts);
      x[0].answer == answer && Served(setup, w', x[1..])
  }

  /** A session that follows a program to its result, and is served by this world, has the
      exchanges and the result of the program played with the shade. */
  lemma ServedSession<T(!new)>(setup: Setup, w: World, p: Program<T>, x: seq<Session.Exchange>)
    requires Calm(w) && Brief(p) && Session.Follows(p, x) && Served(setup, w, x)
    requires p(Session.AnswersOf(x)).Return?
    ensures
      var (_, answers, r) := Play(setup, w, p, []);
      answers == Session.AnswersOf(x) && Return(r) == p(answers)
  {
    assert x[0..] == x && Session.AnswersOf(x[..0]) == [];
    ServedFrom(setup, w, p, x, 0);
  }

  lemma {:induction false} ServedFrom<T(!new)>(setup: Setup, w: World, p: Program<T>, x: seq<Session.Exchange>, i: nat)
    requires i <= |x| && Calm(w) && Brief(p) && Session.Follows(p, x) && Served(setup, w, x[i..])
    requires p(Session.AnswersOf(x)).Return?
    ensures
      var (_, answers, r) := Play(setup, w, p, Session.AnswersOf(x[..i]));
      answers == Session.AnswersOf(x) && Return(r) == p(answers)
    decreases |x| - i
  {
    hide Exchanged;
    if i == |x| {
      assert x[..i] == x;
    } else {
      var (w', answer) := Exchanged(setup, w, x[i].call.frame, x[i].call.attempts);
      assert x[i..][1..] == x[i + 1..];
      assert Session.AnswersOf(x[..i]) + [answer] == Session.AnswersOf(x[..i + 1]);
      ServedFrom(setup, w', p, x, i + 1);
    }
  }

  // ---- the handshake ----

  /** What the shade makes of a crypto frame. */
  lemma HandlesCrypto(setup: Setup, state: ShadeState, command: C.CryptoCommand, payload: bytes)
    ensures C.ParseCryptoResponse(C.CryptoFrame(command, payload)) == Ok(C.CryptoResponse(command, payload))
    ensures Handle(setup, state, C.CryptoFrame(command, payload)) ==
            (state, HandleCrypto(setup, C.CryptoFrame(command, payload)))
  {
    C.ParseCryptoExact(C.CryptoFrame(command, payload), C.CryptoResponse(command, payload));
    CryptoHeader(command, payload);
  }

  lemma CryptoHeader(command: C.CryptoCommand, payload: bytes)
    ensures |C.CryptoFrame(command, payload)| >= 1 && C.CryptoFrame(command, payload)[0] == 128
  {}

  /** Every answer of the shade to a crypto frame: its version list, the echo of a selection,
      its nonce with the proof of its key.  It stays silent on anything else. */
  lemma AnswersCrypto(setup: Setup, state: ShadeState, command: C.CryptoCommand, payload: bytes)
    requires |setup.proofKey| == 32 && |setup.versions| < 256
    ensures
      Handle(setup, state, C.CryptoFrame(command, payload)) ==
      (state,
       match command
       case RequestProtocolVersions => Ok(ListFrame(setup.versions, []))
       case SelectProtocolVersion =>
         if payload == [] then Err(Other) else Ok(C.CryptoFrame(C.SelectProtocolVersion, [payload[0]]))
       case RequestNonce =>
         Ok(C.CryptoFrame(C.RequestNonce, setup.nonce + setup.mac(setup.proofKey, C.Ascii(C.PROOF_MESSAGE))))
       case Ack => Err(Other))
  {
    hide C.CryptoFrame, C.Ascii;
    HandlesCrypto(setup, state, command, payload);
    assert [|setup.versions|] + setup.versions + [] == [|setup.versions|] + setup.versions;
  }

  lemma VersionsReply(setup: Setup, state: ShadeState)
    requires |setup.versions| < 256
    ensures
      var (state', reply) := Handle(setup, state, VERSIONS_REQUEST);
      && state' == state && reply.Ok? && reply.value != []
      && ChooseVersion(reply.value) ==
         if 2 in setup.versions then Ok(2) else if 1 in setup.versions then Ok(1) else Err(Protocol)
  {
    var body := [|setup.versions|] + setup.versions;
    HandlesCrypto(setup, state, C.RequestProtocolVersions, []);
    HandlesCrypto(setup, state, C.RequestProtocolVersions, body);
    CryptoHeader(C.RequestProtocolVersions, body);
    C.ParseVersionsExact(C.CryptoResponse(C.RequestProtocolVersions, body), setup.versions);
  }

  lemma SelectionReply(setup: Setup, state: ShadeState, version: byte)
    ensures
      var (state', reply) := Handle(setup, state, SelectionRequest(version));
      state' == state && reply.Ok? && reply.value != [] && CheckSelection(reply.value, version) == Ok(())
  {
    HandlesCrypto(setup, state, C.SelectProtocolVersion, [version]);
    CryptoHeader(C.SelectProtocolVersion, [version]);
  }

  lemma NonceReply(setup: Setup, state: ShadeState, key: bytes)
    requires |key| == |setup.proofKey| == 32
    ensures
      var (state', reply) := Handle(setup, state, NONCE_REQUEST);
      && state' == state && reply.Ok? && reply.value != []
      && CheckNonce(setup.mac, key, reply.value) ==
         if C.PairingKeyProof(setup.mac, key) == C.PairingKeyProof(setup.mac, setup.proofKey) then Ok(setup.nonce)
         else Err(Authentication)
  {
    var proof := C.PairingKeyProof(setup.mac, setup.proofKey).value;
    HandlesCrypto(setup, state, C.RequestNonce, []);
    HandlesCrypto(setup, state, C.RequestNonce, setup.nonce + proof);
    CryptoHeader(C.RequestNonce, setup.nonce + proof);
    C.ParseNonceExact(C.CryptoResponse(C.RequestNonce, setup.nonce + proof), C.NonceResponse(setup.nonce, proof));
  }

  /** The handshake succeeds just when the shade's version list has 2 or 1 and the two
      keys have the same proof; it leaves the link quiet and the shade as it was. */
  lemma AuthenticatesExactly(setup: Setup, w: World, key: bytes)
    requires Calm(w) && |key| == |setup.proofKey| == 32 && |setup.versions| < 256
    ensures
      var (w', _, r) := Play(setup, w, Handshaking(setup.mac, key), []);
      && w'.state == w.state && Calm(w')
      && r == (if 2 !in setup.versions && 1 !in setup.versions then Err(Protocol)
               else if C.PairingKeyProof(setup.mac, key) == C.PairingKeyProof(setup.mac, setup.proofKey) then
                 Ok(setup.nonce)
               else Err(Authentication))
  {
    hide Handle, Exchanged, ChooseVersion, CheckSelection, CheckNonce, C.PairingKeyProof, C.CryptoFrame, Quiet;
    var p := Handshaking(setup.mac, key);
    var (w1, versions) := Exchanged(setup, w, VERSIONS_REQUEST, 2);
    ExchangeCarries(setup, w, VERSIONS_REQUEST, 2);
    VersionsReply(setup, w.state);
    assert [] + [versions] == [versions];
    assert Play(setup, w, p, []) == Play(setup, w1, p, [versions]);
    var selected := ChooseVersion(versions.value);
    if selected.Ok? {
      var (w2, selection) := Exchanged(setup, w1, SelectionRequest(selected.value), 2);
      ExchangeCarries(setup, w1, SelectionRequest(selected.value), 2);
      SelectionReply(setup, w1.state, selected.value);
      assert [versions] + [selection] == [versions, selection];
      assert Play(setup, w1, p, [versions]) == Play(setup, w2, p, [versions, selection]);
      var (w3, answer) := Exchanged(setup, w2, NONCE_REQUEST, 2);
      ExchangeCarries(setup, w2, NONCE_REQUEST, 2);
      NonceReply(setup, w2.state, key);
      assert [versions, selection] + [answer] == [versions, selection, answer];
      assert Play(setup, w2, p, [versions, selection]) == Play(setup, w3, p, [versions, selection, answer]);
    }
  }

  // ---- operations ----

  datatype Operation = Read | Move(target: Percent)

  datatype Outcome = Status(status: Result<ShadeStatus>) | Movement(moved: Result<(ShadeStatus, bool)>)

  /** The outcomes of a series of operations, from request k on, with all of link, cipher
      and codec. */
  ghost function OverLink(setup: Setup, w: World, k: nat, operations: seq<Operation>): seq<Outcome>
    requires Calm(w)
    decreases |operations|
  {
    if operations == [] then []
    else
      match operations[0]
      case Read =>
        var (w', answers, status) := Play(setup, w, Reading(setup.Open(), k), []);
        [Status(status)] + OverLink(setup, w', k + |answers|, operations[1..])
      case Move(target) =>
        var (w', answers, moved) := Play(setup, w, Moving(setup.Open(), k, target), []);
        [Movement(moved)] + OverLink(setup, w', k + |answers|, operations[1..])
  }

  // ---- the same on the shade itself ----

  function StatusOf(state: ShadeState): ShadeStatus {
    ShadeStatus(10 * state.position, state.battery, 0, true)
  }

  function Travelled(setup: Setup, state: ShadeState, target: Percent): ShadeState {
    state.(position := Travel(state.position, target, setup.travelFraction),
           setPositionCalls := state.setPositionCalls + 1)
  }

  function Directly(setup: Setup, state: ShadeState, operations: seq<Operation>): seq<Outcome>
    decreases |operations|
  {
    if operations == [] then []
    else
      match operations[0]
      case Read => [Status(Ok(StatusOf(state)))] + Directly(setup, state, operations[1..])
      case Move(target) =>
        if state.position == target then
          [Movement(Ok((StatusOf(state), false)))] + Directly(setup, state, operations[1..])
        else
          var state' := Travelled(setup, state, target);
          [Movement(Verdict(StatusOf(state), StatusOf(state'), target))]
          + Directly(setup, state', operations[1..])
  }

  /** The answer to a read, as request k, is the shade's status. */
  lemma ReadsDirectly(setup: Setup, w: World, k: nat)
    requires Calm(w) && |setup.key| == 32 && w.state.battery <= 100
    ensures
      var c := setup.Open();
      && c.ReadRequest(GetStatus, k).Ok?
      && var (w', answer) := Exchanged(setup, w, c.ReadRequest(GetStatus, k).value, 2);
         Calm(w') && w'.state == w.state && c.StatusFrom(k, answer) == Ok(StatusOf(w.state))
    ensures PositionPercent(StatusOf(w.state)) == w.state.position
  {
    hide Handle, Exchanged, Channel.ReadRequest, Channel.StatusFrom, RoundTenth, Quiet;
    ReadReports(setup, w.state, k);
    ExchangeCarries(setup, w, setup.Open().ReadRequest(GetStatus, k).value, 2);
  }

  lemma MovesDirectly(setup: Setup, w: World, target: Percent, k: nat)
    requires Calm(w) && |setup.key| == 32
    ensures
      var c := setup.Open();
      && c.PositionRequest(target, k).Ok?
      && var (w', answer) := Exchanged(setup, w, c.PositionRequest(target, k).value, 1);
         Calm(w') && w'.state == Travelled(setup, w.state, target) && c.Obeyed(k, answer) == Ok(())
  {
    hide Handle, Exchanged, Channel.PositionRequest, Channel.Obeyed, Travel, Quiet;
    MoveObeyed(setup, w.state, target, k);
    ExchangeCarries(setup, w, setup.Open().PositionRequest(target, k).value, 1);
  }

  lemma BatteryKept(setup: Setup, state: ShadeState, target: Percent)
    ensures Travelled(setup, state, target).battery == state.battery
  {}

  lemma ReadPlayed(setup: Setup, w: World, k: nat)
    requires Calm(w) && |setup.key| == 32 && w.state.battery <= 100
    ensures
      var (w', answers, r) := Play(setup, w, Reading(setup.Open(), k), []);
      Calm(w') && w'.state == w.state && r == Ok(StatusOf(w.state))
  {
    hide Exchanged, Channel.ReadRequest, Channel.StatusFrom, Quiet;
    ReadsDirectly(setup, w, k);
  }

  /** A movement to another position: the shade moves once, and is judged by its status
      before and after. */
  lemma MovePlayed(setup: Setup, w: World, k: nat, target: Percent)
    requires Calm(w) && |setup.key| == 32 && w.state.battery <= 100
    ensures
      var (w', answers, r) := Play(setup, w, Moving(setup.Open(), k, target), []);
      && Calm(w')
      && (if w.state.position == target then w'.state == w.state && r == Ok((StatusOf(w.state), false))
          else
            && w'.state == Travelled(setup, w.state, target)
            && r == Verdict(StatusOf(w.state), StatusOf(w'.state), target))
  {
    hide Exchanged, Channel.ReadRequest, Channel.PositionRequest, Channel.StatusFrom, Channel.Obeyed, Quiet,
      PositionPercent, Verdict, Travelled, StatusOf;
    var c, p := setup.Open(), Moving(setup.Open(), k, target);
    ReadsDirectly(setup, w, k);
    var (w1, a0) := Exchanged(setup, w, c.ReadRequest(GetStatus, k).value, 2);
    assert [] + [a0] == [a0];
    assert Play(setup, w, p, []) == Play(setup, w1, p, [a0]);
    if w.state.position != target {
      MovesDirectly(setup, w1, target, k + 1);
      var (w2, a1) := Exchanged(setup, w1, c.PositionRequest(target, k + 1).value, 1);
      assert [a0] + [a1] == [a0, a1];
      assert Play(setup, w1, p, [a0]) == Play(setup, w2, p, [a0, a1]);
      BatteryKept(setup, w.state, target);
      ReadsDirectly(setup, w2, k + 2);
      var (w3, a2) := Exchanged(setup, w2, c.ReadRequest(GetStatus, k + 2).value, 2);
      assert [a0, a1] + [a2] == [a0, a1, a2];
      assert Play(setup, w2, p, [a0, a1]) == Play(setup, w3, p, [a0, a1, a2]);
    }
  }

  /** Over a link that loses nothing, any series of reads and movements has exactly the
      outcomes it would have if made on the shade itself. */
  lemma {:induction false} SessionRefinesShade(setup: Setup, w: World, k: nat, operations: seq<Operation>)
    requires Calm(w) && |setup.key| == 32 && w.state.battery <= 100
    ensures OverLink(setup, w, k, operations) == Directly(setup, w.state, operations)
    decreases |operations|
  {
    hide Play, Verdict, Travelled, StatusOf, Calm, Reading, Moving, Brief;
    if operations != [] {
      match operations[0] {
        case Read =>
          ReadPlayed(setup, w, k);
          var (w', answers, _) := Play(setup, w, Reading(setup.Open(), k), []);
          SessionRefinesShade(setup, w', k + |answers|, operations[1..]);
        case Move(target) =>
          MovePlayed(setup, w, k, target);
          BatteryKept(setup, w.state, target);
          var (w', answers, _) := Play(setup, w, Moving(setup.Open(), k, target), []);
          SessionRefinesShade(setup, w', k + |answers|, operations[1..]);
      }
    }
  }

  /** With a shade that completes its travel, a movement to any other target is reported
      as made, at the target; with one that stands still, as pending. */
  lemma MovementOutcome(setup: Setup, state: ShadeState, target: Percent)
    requires state.position != target
    ensures
      var outcome := Directly(setup, state, [Move(target)]);
      && (setup.travelFraction == 1.0 ==>
            outcome == [Movement(Ok((StatusOf(state.(position := target)), true)))])
      && (setup.travelFraction <= 0.0 ==>
            outcome == [Movement(Err(VerificationPending(StatusOf(Travelled(setup, state, target)))))])
  {
    hide Travel;
    var after := Travelled(setup, state, target);
    TravelEnds(state.position, target, setup.travelFraction);
    PercentLeftInverse(state.position);
    PercentLeftInverse(after.position);
    assert PositionPercent(StatusOf(state)) == state.position && PositionPercent(StatusOf(after)) == after.position;
    assert Directly(setup, after, []) == [];
    assert StatusOf(state.(position := target)) == StatusOf(after.(position := target));
  }
}
