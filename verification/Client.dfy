/** The client of one shade: reading its status, and moving it once. */
module Client {
  import opened Bytes
  import opened Results
  import opened BleLink
  import opened Ctr
  import CryptoFrames
  import opened AppCodec
  import opened Handshake
  import opened Status
  import opened Requests
  import opened Session

  /** How an operation ended: with its program's result, or cancelled in its one pause,
      which is before its third request. */
  predicate Ended<T(==)>(turn: Turn<T>, asked: nat, cancelled: bool, r: Result<T>) {
    match turn
    case Ask(_, _) => r == Err(Cancelled) && cancelled && asked == 2
    case Return(result) => r == result
  }

  /** A movement's pause is made when it was accepted, and is to settle; if it is cancelled,
      no third request is made. */
  predicate Settled(c: Channel, k: nat, answers: seq<Answer>, asks: bool, settles: bool, cancelled: bool) {
    && (asks ==> settles && |answers| == 2 && c.Obeyed(k + 1, answers[1]).Ok?)
    && (settles && cancelled && |answers| == 3 ==> c.Obeyed(k + 1, answers[1]).Err?)
  }

  lemma AtMostThree<T(!new)>(p: Program<T>, x: seq<Exchange>)
    requires Follows(p, x) && Brief(p)
    ensures |x| <= 3
  {
    if x != [] {
      var i := if |x| > 3 then 3 else 0;
      assert p(AnswersOf(x[..i])).Ask? && |AnswersOf(x[..i])| == i;
    }
  }

  /** The read after a movement, after a pause if there is one; a pause that is cancelled is
      the end. */
  method ReadBack(session: TiltBleSession, settles: bool, cancelled: bool)
    returns (r: Attempt<ShadeStatus>, ghost answer: Answer)
    requires session.Ready() && session.nonce.Some?
    modifies session, session.assembler
    ensures session.Ready() && session.nonce == old(session.nonce)
    ensures
      var c := session.Over(session.nonce.value);
      if settles && cancelled then r == Err(Cancelled) && session.exchanges == old(session.exchanges)
      else
        && r == c.StatusFrom(old(session.takes), answer)
        && Made(old(session.exchanges), session.exchanges, c.ReadRequest(GetStatus, old(session.takes)), 2, answer)
  {
    hide TiltBleSession.Ready, Channel.StatusFrom, Channel.ReadRequest, Responded, Made;
    answer := Err(Cancelled);
    if settles {
      var _ :- session.Sleep(cancelled);
    }
    var _, ending := TiltBleSession.Choose();
    r, answer := session.ReadStatus(ending);
  }

  /** Everything after the first read: the movement, and the read that judges it. */
  method MoveAndJudge(session: TiltBleSession, before: ShadeStatus, positionPercent: int, settles: bool,
      cancelled: bool, ghost k: nat, ghost i: nat, ghost a0: Answer) returns (r: Result<(ShadeStatus, bool)>)
    requires session.Ready() && session.nonce.Some? && session.takes == k + 1 && i <= |session.exchanges|
    requires
      var c, x := session.Over(session.nonce.value), session.exchanges[i..];
      && c.StatusFrom(k, a0) == Ok(before) && Elsewhere(c, k, positionPercent, a0)
      && Follows(Moving(c, k, positionPercent), x) && AnswersOf(x) == [a0]
    modifies session, session.assembler
    ensures session.Ready() && session.nonce == old(session.nonce)
    ensures old(session.exchanges) <= session.exchanges
    ensures
      var c, x := session.Over(session.nonce.value), session.exchanges[i..];
      var p := Moving(c, k, positionPercent);
      && Follows(p, x) && Ended(p(AnswersOf(x)), |x|, cancelled, r)
      && Settled(c, k, AnswersOf(x), p(AnswersOf(x)).Ask?, settles, cancelled)
  {
    hide Channel.StatusFrom, Channel.Obeyed, Channel.ReadRequest, Channel.PositionRequest;
    hide TiltBleSession.Ready, Verdict, ReadbackError, Follows, Brief, Exchange.InOrder, Responded, Made, MoveNext;
    ghost var c := session.Over(session.nonce.value);
    ghost var p, x1 := Moving(c, k, positionPercent), session.exchanges;
    AfterRead(c, k, positionPercent, a0);
    var _, ending := TiltBleSession.Choose();
    var moved, a1 := session.SetPosition(positionPercent, ending);
    ghost var x2 := session.exchanges;
    Continues(p, i, x1, x2, c.PositionRequest(positionPercent, k + 1), 1, a1);
    FramesFit(c, GetStatus, positionPercent, 1, k + 1);
    FramesFit(c, GetStatus, positionPercent, 1, k + 2);
    AfterMovement(c, k, positionPercent, a0, a1, AnswersOf(x2[i..]));
    if moved.Err? && moved.error != BleTimeout {
      return Err(moved.error);
    }
    var after, a2 := ReadBack(session, moved.Ok? && settles, cancelled);
    if moved.Ok? && settles && cancelled {
      return Err(Cancelled);
    }
    Continues(p, i, x2, session.exchanges, c.ReadRequest(GetStatus, k + 2), 2, a2);
    AfterReadback(c, k, positionPercent, a0, a1, a2, AnswersOf(session.exchanges[i..]));
    if after.Err? {
      return Err(ReadbackError(moved, after.error));
    }
    r := Verdict(before, after.value, positionPercent);
  }

  /** The operation of set_position_and_read_status within a session: read, move, settle
      and read, as the program says. */
  method MoveOnce(session: TiltBleSession, positionPercent: int, settles: bool, cancelled: bool)
    returns (r: Result<(ShadeStatus, bool)>)
    requires session.Ready() && session.nonce.Some?
    modifies session, session.assembler
    ensures session.Ready() && session.nonce == old(session.nonce)
    ensures old(session.exchanges) <= session.exchanges
    ensures
      var c, k := session.Over(session.nonce.value), old(session.takes);
      var p, x := Moving(c, k, positionPercent), session.exchanges[|old(session.exchanges)|..];
      && Follows(p, x) && Ended(p(AnswersOf(x)), |x|, cancelled, r)
      && Settled(c, k, AnswersOf(x), p(AnswersOf(x)).Ask?, settles, cancelled)
  {
    hide Channel.StatusFrom, Channel.Obeyed, Channel.ReadRequest, Channel.PositionRequest;
    hide TiltBleSession.Ready, PositionPercent, Follows, Brief, Exchange.InOrder, Responded, Made;
    ghost var c, k, i := session.Over(session.nonce.value), session.takes, |session.exchanges|;
    ghost var p, x0 := Moving(c, k, positionPercent), session.exchanges;
    assert x0[i..] == [];
    FollowsNone(p);
    var _, ending := TiltBleSession.Choose();
    var first, a0 := session.ReadStatus(ending);
    NoAnswer(c, k, a0);
    Continues(p, i, x0, session.exchanges, c.ReadRequest(GetStatus, k), 2, a0);
    var before :- first;
    assert AnswersOf(session.exchanges[i..]) == [a0];
    if PositionPercent(before) == positionPercent {
      return Ok((before, false));
    }
    r := MoveAndJudge(session, before, positionPercent, settles, cancelled, k, i, a0);
  }

  lemma NoneOrOne(chunks: seq<bytes>, tries: seq<Tries>)
    requires |tries| <= 1 && AllTried(tries, 1)
    ensures |Times(chunks, Counts(tries))| <= 1
  {
    var counts := Counts(tries);
    if |counts| == 1 && chunks != [] {
      assert WellTried(tries[0], 1);
      assert counts[..0] == [];
      assert Copies(chunks[0], 1) == Copies(chunks[0], 0) + [chunks[0]];
    }
  }

  /** Among the exchanges of one movement, at most three, only the second can have a
      movement's frame (nine bytes, one chunk), and it writes that chunk at most once. */
  lemma AtMostOneMovement(c: Channel, k: nat, target: int, x: seq<Exchange>, j: nat)
    requires Follows(Moving(c, k, target), x) && j < |x|
    ensures |x| <= 3
    ensures |x[j].call.frame| == 9 <==> j == 1
    ensures j == 1 ==> |x[j].call.Writes()| <= 1
  {
    hide Channel.StatusFrom, Channel.ReadRequest, Channel.PositionRequest, Chunks, Times, MoveNext, Brief;
    var last := |x| - 1;
    MoveAsks(c, k, target, AnswersOf(x[..last]));
    MoveAsks(c, k, target, AnswersOf(x[..j]));
    FramesFit(c, GetStatus, target, 1, k + j);
    if j == 1 {
      NoneOrOne(Chunks(x[j].call.frame, x[j].call.start), x[j].call.tries);
    }
  }

  // ---- the client ----

  /** How the factory and connecting go.  A factory may hand over a client that is connected
      already; otherwise connect() raises, or leaves it connected or not; and then beginning
      the notifications may raise. */
  datatype Connecting =
    | NoClient(error: Fault)
    | Handed(connected: bool, connects: Attempt<bool>, starts: Option<Fault>)

  /** How the cleanup goes: the client is proven disconnected, or not, or a cancellation is
      raised once it is over. */
  datatype Closing = Closed | Unproven | Interrupted

  /** What is made of one session from outside: how connecting goes, which pause of the
      handshake is cancelled if any, and how the cleanup goes. */
  datatype Visit = Visit(connecting: Connecting, cancelAt: Option<nat>, closing: Closing)

  /** What connecting comes to before a session is made. */
  function Connected(c: Connecting): Attempt<()> {
    match c
    case NoClient(e) => Err(e)
    case Handed(connected, connects, _) =>
      if connected then Ok(())
      else if connects.Err? then Err(connects.error)
      else if !connects.value then Err(Ble)
      else Ok(())
  }

  /** An account of one visit: its session, how many exchanges its handshake made, what the
      operation came to, and what the caller got. */
  datatype Account<T> = Account(session: TiltBleSession?, handshake: nat, outcome: Result<T>, result: Result<T>)

  /** What a session did: the handshake, and if that ended with a nonce and was not
      cancelled in its last pause, the operation's program under it; and nothing else. */
  ghost predicate Ran<T(!new)>(session: TiltBleSession, visit: Visit, cancelled: bool, handshake: nat,
      program: Nonce -> Program<T>, outcome: Result<T>)
    requires visit.connecting.Handed?
    reads session
  {
    var x, h := session.exchanges, Handshaking(session.mac, session.pairingKey);
    && handshake <= |x| && Follows(h, x[..handshake]) && (visit.cancelAt.Some? ==> handshake <= visit.cancelAt.value)
    && if visit.connecting.starts.Some? then x == [] && outcome == Err(visit.connecting.starts.value)
       else
         match h(AnswersOf(x[..handshake]))
         case Ask(_, _) => |x| == handshake && outcome == Err(Cancelled) && visit.cancelAt == Some(handshake)
         case Return(Err(e)) => |x| == handshake && outcome == Err(e)
         case Return(Ok(n)) =>
           && session.nonce == Some(n) && handshake == 3
           && (if visit.cancelAt == Some(3) then |x| == 3 && outcome == Err(Cancelled)
               else
                 && Follows(program(n), x[3..])
                 && Ended(program(n)(AnswersOf(x[3..])), |x| - 3, cancelled, outcome))
  }

  /** The account is what the visit allows: without a client there is nothing to clean up;
      otherwise the cleanup's own error replaces the outcome; and there is a session just
      when the client is connected. */
  ghost predicate Told<T(!new)>(visit: Visit, cancelled: bool, program: Nonce -> Program<T>, a: Account<T>)
    reads if a.session == null then {} else {a.session}
  {
    && (if visit.connecting.NoClient? then a.result == a.outcome
        else
          a.result == match visit.closing
                      case Closed => a.outcome
                      case Unproven => Err(Cleanup)
                      case Interrupted => Err(Cancelled))
    && (if Connected(visit.connecting).Err? then
          a.session == null && a.outcome == Err(Connected(visit.connecting).error)
        else a.session != null && Ran(a.session, visit, cancelled, a.handshake, program, a.outcome))
  }

  /** How many exchanges a session made, if there is one: all of them. */
  ghost function Tally(session: TiltBleSession?): (n: nat)
    reads if session == null then {} else {session}
    ensures session != null ==> n == |session.exchanges| && session.exchanges[..n] == session.exchanges
  {
    if session == null then 0 else |session.exchanges|
  }

  lemma ThreeExchanges(mac: CryptoFrames.Mac, key: bytes, x: seq<Exchange>, n: Nonce)
    requires Follows(Handshaking(mac, key), x) && HandshakeNext(mac, key, AnswersOf(x)) == Return(Ok(n))
    ensures |x| == 3
  {
    hide ChooseVersion, CheckSelection, CheckNonce, CryptoFrames.CryptoFrame, Offers;
    HandshakeAgrees(mac, key, AnswersOf(x), n);
    AtMostThree(Handshaking(mac, key), x);
  }

  /** A status read as a session's first request. */
  function Reads(cipher: Cipher, key: bytes): Nonce -> Program<ShadeStatus> {
    n => Reading(Channel(cipher, key, n), 0)
  }

  /** A movement as its first requests. */
  function Moves(cipher: Cipher, key: bytes, target: int): Nonce -> Program<(ShadeStatus, bool)> {
    n => Moving(Channel(cipher, key, n), 0, target)
  }

  class TiltShadeClient {
    const cipher: Cipher
    const mac: CryptoFrames.Mac
    const pairingKey: bytes
    const allowPositionWrites: bool

    constructor (cipher: Cipher, mac: CryptoFrames.Mac, pairingKey: bytes, allowPositionWrites: bool)
      requires |pairingKey| == 32
    {
      this.cipher, this.mac, this.pairingKey, this.allowPositionWrites := cipher, mac, pairingKey, allowPositionWrites;
    }

    /** A session of this client's. */
    ghost predicate Mine(session: TiltBleSession)
      reads session
    {
      session.cipher == cipher && session.mac == mac && session.pairingKey == pairingKey
    }

    /** The first half of _run_session, with a client in hand: connect, start, authenticate.
        A connected client whose handshake ends with a nonce gives a session, unless the last
        pause is cancelled. */
    method Open(connecting: Connecting, cancelAt: Option<nat>)
      returns (r: Attempt<TiltBleSession>, ghost session: TiltBleSession?)
      requires connecting.Handed?
      ensures session == null <==> Connected(connecting).Err?
      ensures session == null ==> r.Err? && Err(r.error) == Connected(connecting)
      ensures session != null ==> fresh(session) && fresh(session.assembler) && Mine(session) && session.Ready()
      ensures session != null && connecting.starts.Some? ==>
                session.exchanges == [] && r == Err(connecting.starts.value)
      ensures session != null ==>
                && Follows(Handshaking(mac, pairingKey), session.exchanges)
                && (cancelAt.Some? ==> |session.exchanges| <= cancelAt.value)
      ensures session != null && connecting.starts.None? ==>
                match Handshaking(mac, pairingKey)(AnswersOf(session.exchanges))
                case Ask(_, _) => r == Err(Cancelled) && cancelAt == Some(|session.exchanges|)
                case Return(Err(e)) => r == Err(e)
                case Return(Ok(n)) =>
                  && session.nonce == Some(n) && session.takes == 0 && |session.exchanges| == 3
                  && r == if cancelAt == Some(3) then Err(Cancelled) else Ok(session)
    {
      hide TiltBleSession.Ready, Follows, HandshakeNext, Brief;
      session := null;
      var isConnected := connecting.connected;
      if !isConnected {
        isConnected :- connecting.connects;
      }
      if !isConnected {
        return Err(Ble), null;
      }
      var made := new TiltBleSession(cipher, mac, pairingKey);
      session := made;
      FollowsNone(Handshaking(mac, pairingKey));
      if connecting.starts.Some? {
        return Err(connecting.starts.value), session;
      }
      made.Start();
      assert made.exchanges[0..] == made.exchanges;
      var authenticated := made.Authenticate(cancelAt);
      assert made.exchanges[0..] == made.exchanges;
      if made.nonce.Some? {
        ThreeExchanges(mac, pairingKey, made.exchanges, made.nonce.value);
      }
      if authenticated.Err? {
        return Err(authenticated.error), session;
      }
      r := Ok(made);
    }

    /** Its other half, the finally clause: an error of the cleanup replaces the outcome. */
    method Close<T>(outcome: Result<T>, closing: Closing) returns (r: Result<T>)
      ensures r == match closing case Closed => outcome case Unproven => Err(Cleanup) case Interrupted => Err(Cancelled)
    {
      match closing {
        case Closed => r := outcome;
        case Unproven => r := Err(Cleanup);
        case Interrupted => r := Err(Cancelled);
      }
    }

    /** One session that reads the status. */
    method ReadOnce(visit: Visit) returns (r: Result<ShadeStatus>, ghost account: Account<ShadeStatus>)
      ensures Told(visit, false, Reads(cipher, pairingKey), account) && account.result == r
      ensures account.session != null ==> fresh(account.session) && Mine(account.session)
    {
      hide TiltBleSession.Ready, Channel.StatusFrom, Channel.ReadRequest, HandshakeNext, Follows, Brief;
      if visit.connecting.NoClient? {
        r := Err(visit.connecting.error);
        return r, Account(null, 0, r, r);
      }
      ghost var p := Reads(cipher, pairingKey);
      var connection, session := Open(visit.connecting, visit.cancelAt);
      if connection.Err? {
        r := Close(Err(connection.error), visit.closing);
        account := Account(session, Tally(session), Err(connection.error), r);
        return;
      }
      ghost var c, x := session.Over(session.nonce.value), session.exchanges;
      assert x[3..] == [] && x[..3] == x;
      FollowsNone(p(session.nonce.value));
      var _, ending := TiltBleSession.Choose();
      var status, answer := connection.value.ReadStatus(ending);
      NoAnswer(c, 0, answer);
      Continues(p(session.nonce.value), 3, x, session.exchanges, c.ReadRequest(GetStatus, 0), 2, answer);
      assert session.exchanges[..3] == x;
      r := Close(status, visit.closing);
      account := Account(session, 3, status, r);
    }

    /** read_status: a second session, once, after an error that may be transient.  An
        authentication error is not one, nor is a failed cleanup or a cancellation. */
    method ReadStatus(first: Visit, pauseCancelled: bool, second: Visit)
      returns (r: Result<ShadeStatus>, ghost accounts: seq<Account<ShadeStatus>>)
      ensures 1 <= |accounts| <= 2 && Told(first, false, Reads(cipher, pairingKey), accounts[0])
      ensures |accounts| == 2 ==> Told(second, false, Reads(cipher, pairingKey), accounts[1])
      ensures forall a | a in accounts && a.session != null :: fresh(a.session) && Mine(a.session)
      ensures
        var once := accounts[0].result;
        if once.Err? && (|| once.error in {Protocol, UnsafeCommand, Ble, BleTimeout, AmbiguousWrite, Transport, Timeout}
                         || once.error.VerificationPending?)
        then
          if pauseCancelled then |accounts| == 1 && r == Err(Cancelled)
          else |accounts| == 2 && r == accounts[1].result
        else |accounts| == 1 && r == once
    {
      hide Told;
      ghost var account: Account<ShadeStatus>;
      r, account := ReadOnce(first);
      accounts := [account];
      if r.Err? && Retryable(r.error) {
        if pauseCancelled {
          return Err(Cancelled), accounts;
        }
        r, account := ReadOnce(second);
        accounts := accounts + [account];
      }
    }

    /** set_position_and_read_status. */
    method SetPositionAndReadStatus(positionPercent: int, settles: bool, cancelled: bool, visit: Visit)
      returns (r: Result<(ShadeStatus, bool)>, ghost account: Option<Account<(ShadeStatus, bool)>>)
      ensures !allowPositionWrites ==> r == Err(Ble) && account == None
      ensures allowPositionWrites && !(0 <= positionPercent <= 100) ==> r == Err(Protocol) && account == None
      ensures allowPositionWrites && 0 <= positionPercent <= 100 ==>
                && account.Some? && account.value.result == r
                && Told(visit, cancelled, Moves(cipher, pairingKey, positionPercent), account.value)
                && (account.value.session != null ==> fresh(account.value.session) && Mine(account.value.session))
    {
      hide TiltBleSession.Ready, Channel.StatusFrom, Channel.ReadRequest, Channel.Obeyed, Channel.PositionRequest,
        HandshakeNext, MoveNext, Follows, Brief;
      account := None;
      if !allowPositionWrites {
        return Err(Ble), None;
      }
      if !(0 <= positionPercent <= 100) {
        return Err(Protocol), None;
      }
      if visit.connecting.NoClient? {
        r := Err(visit.connecting.error);
        return r, Some(Account(null, 0, r, r));
      }
      var connection, session := Open(visit.connecting, visit.cancelAt);
      if connection.Err? {
        r := Close(Err(connection.error), visit.closing);
        account := Some(Account(session, Tally(session), Err(connection.error), r));
        return;
      }
      ghost var x := session.exchanges;
      var outcome := MoveOnce(connection.value, positionPercent, settles, cancelled);
      assert session.exchanges[..3] == x[..3] == x;
      r := Close(outcome, visit.closing);
      account := Some(Account(session, 3, outcome, r));
    }
  }

  /** The errors after which a status read is tried once more. */
  predicate Retryable(e: Error) {
    e.Protocol? || e.UnsafeCommand? || e.Ble? || e.BleTimeout? || e.AmbiguousWrite? || e.VerificationPending?
    || e.Transport? || e.Timeout?
  }
}
