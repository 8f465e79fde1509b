/** What a client asks a shade for, as programs: given the answers so far, the next
    request or the result.  The handshake, a status read, and a movement. */
module Requests {
  import opened Bytes
  import opened Results
  import opened BleLink
  import opened Ctr
  import opened CryptoFrames
  import opened AppCodec
  import opened Handshake
  import opened Ids
  import opened Status

  /** What a request gave: the frame that answered it, or what it raised. */
  type Answer = Attempt<bytes>

  /** How often a chunk of a request is tried: twice with retry_chunks. */
  type Attempts = n: nat | 1 <= n <= 2 witness 1

  datatype Turn<+T> = Ask(frame: Frame, attempts: Attempts) | Return(r: Result<T>)

  type Program<!T> = seq<Answer> -> Turn<T>

  /** A program that asks three times at most. */
  ghost predicate Brief<T(!new)>(p: Program<T>) {
    forall answers: seq<Answer> :: |answers| >= 3 ==> p(answers).Return?
  }

  /** The next request, if it can be built. */
  function Asking<T>(frame: Attempt<Frame>, attempts: Attempts): Turn<T> {
    if frame.Err? then Return(Err(frame.error)) else Ask(frame.value, attempts)
  }

  // ---- the handshake ----

  const VERSIONS_REQUEST: Frame := CryptoFrame(RequestProtocolVersions, [])
  const NONCE_REQUEST: Frame := CryptoFrame(RequestNonce, [])

  function SelectionRequest(version: byte): Frame {
    CryptoFrame(SelectProtocolVersion, [version])
  }

  /** The encoders allow exactly these three requests (with version 2 or 1). */
  lemma HandshakeRequests(command: CryptoCommand, payload: bytes, version: int)
    ensures
      var r := EncodeCryptoRequest(command, payload);
      if command.RequestProtocolVersions? && payload == [] then r == Ok(VERSIONS_REQUEST)
      else if command.RequestNonce? && payload == [] then r == Ok(NONCE_REQUEST)
      else if command.SelectProtocolVersion? && (payload == [1] || payload == [2]) then
        r == Ok(SelectionRequest(payload[0]))
      else r == Err(UnsafeCommand)
    ensures
      EncodeProtocolSelection(version) ==
      if version == 1 || version == 2 then Ok(SelectionRequest(version)) else Err(UnsafeCommand)
  {
    hide CryptoFrame;
    if |payload| == 1 {
      assert payload == [payload[0]];
    }
  }

  /** A version list, a selection from it, and a nonce, each once the answer before it
      was good. */
  function HandshakeNext(mac: Mac, key: bytes, answers: seq<Answer>): Turn<Nonce> {
    if answers == [] then Ask(VERSIONS_REQUEST, 2)
    else if answers[0].Err? then Return(Err(answers[0].error))
    else
      var selected := ChooseVersion(answers[0].value);
      if selected.Err? then Return(Err(selected.error))
      else if |answers| == 1 then Ask(SelectionRequest(selected.value), 2)
      else if answers[1].Err? then Return(Err(answers[1].error))
      else
        var confirmed := CheckSelection(answers[1].value, selected.value);
        if confirmed.Err? then Return(Err(confirmed.error))
        else if |answers| == 2 then Ask(NONCE_REQUEST, 2)
        else if answers[2].Err? then Return(Err(answers[2].error))
        else Return(CheckNonce(mac, key, answers[2].value))
  }

  lemma HandshakeReturns(mac: Mac, key: bytes)
    ensures forall answers: seq<Answer> :: |answers| >= 3 ==> HandshakeNext(mac, key, answers).Return?
  {
    hide ChooseVersion, CheckSelection, CheckNonce, CryptoFrame;
  }

  /** Once two answers were good the third decides. */
  lemma NonceDecides(mac: Mac, key: bytes, answers: seq<Answer>, last: Answer)
    requires |answers| == 2 && HandshakeNext(mac, key, answers).Ask?
    ensures HandshakeNext(mac, key, answers + [last]) ==
            Return(if last.Err? then Err(last.error) else CheckNonce(mac, key, last.value))
  {
    hide ChooseVersion, CheckSelection, CheckNonce, CryptoFrame;
  }

  function Handshaking(mac: Mac, key: bytes): (p: Program<Nonce>)
    ensures Brief(p)
  {
    HandshakeReturns(mac, key);
    answers => HandshakeNext(mac, key, answers)
  }

  /** v is 2 if the list has it, else 1 if it has that. */
  ghost predicate Offers(reply: bytes, v: byte) {
    exists versions: bytes :: Lists(reply, versions) && v == (if 2 in versions then 2 else 1) && v in versions
  }

  /** The handshake ends with a nonce just when three answers agree on it: a version list
      that offers some version, that version's echo or an ACK of the selection, and the
      nonce with the proof of this key. */
  lemma HandshakeAgrees(mac: Mac, key: bytes, answers: seq<Answer>, n: Nonce)
    ensures HandshakeNext(mac, key, answers) == Return(Ok(n)) <==>
            && |answers| >= 3 && answers[0].Ok? && answers[1].Ok? && |key| == 32
            && (exists v: byte ::
                  && Offers(answers[0].value, v)
                  && (|| answers[1] == Ok(CryptoFrame(SelectProtocolVersion, [v]))
                      || answers[1] == Ok(CryptoFrame(CryptoCommand.Ack, [0x03]))))
            && answers[2] == Ok(CryptoFrame(RequestNonce, n + mac(key, Ascii(PROOF_MESSAGE))))
  {
    hide ChooseVersion, CheckSelection, CheckNonce, CryptoFrame, Lists, Ascii;
    if |answers| >= 3 && answers[0].Ok? && answers[1].Ok? && answers[2].Ok? {
      forall v: byte
        ensures ChooseVersion(answers[0].value) == Ok(v) <==> Offers(answers[0].value, v)
      {
        ChoosesVersion(answers[0].value, v);
      }
      var selected := ChooseVersion(answers[0].value);
      if selected.Ok? {
        ConfirmsSelection(answers[1].value, selected.value);
        TakesNonce(mac, key, answers[2].value, n);
      }
    }
  }

  /** What the handshake asks for, and that each answer before it was good. */
  lemma HandshakeAsks(mac: Mac, key: bytes, answers: seq<Answer>)
    requires HandshakeNext(mac, key, answers).Ask?
    ensures
      var n, ask := |answers|, HandshakeNext(mac, key, answers);
      && n <= 2 && ask.attempts == 2
      && (n == 0 ==> ask.frame == CryptoFrame(RequestProtocolVersions, []))
      && (n >= 1 ==>
            && answers[0].Ok?
            && exists v: byte ::
                 && Offers(answers[0].value, v)
                 && (n == 1 ==> ask.frame == CryptoFrame(SelectProtocolVersion, [v]))
                 && (n == 2 ==>
                       && (|| answers[1] == Ok(CryptoFrame(SelectProtocolVersion, [v]))
                           || answers[1] == Ok(CryptoFrame(CryptoCommand.Ack, [0x03])))
                       && ask.frame == CryptoFrame(RequestNonce, [])))
  {
    hide ChooseVersion, CheckSelection, CheckNonce, CryptoFrame, Lists;
    if answers != [] {
      var v := ChooseVersion(answers[0].value).value;
      ChoosesVersion(answers[0].value, v);
      assert Offers(answers[0].value, v);
      if |answers| == 2 {
        ConfirmsSelection(answers[1].value, v);
      }
    }
  }

  // ---- an authenticated session ----

  /** What application requests are protected with. */
  datatype Channel = Channel(cipher: Cipher, key: bytes, nonce: Nonce) {

    function ReadRequest(command: ShadeCommand, k: nat): Attempt<Frame> {
      var ids := PairAt(k);
      RequestsFit(cipher, key, nonce, ids.counter, ids.messageId, 0, 100, command);
      EncodeErrors(cipher, command, 0, key, nonce, ids.counter, ids.messageId);
      EncodeReadRequest(cipher, command, key, nonce, ids.counter, ids.messageId)
    }

    function PositionRequest(percent: int, k: nat): Attempt<Frame> {
      var ids := PairAt(k);
      RequestsFit(cipher, key, nonce, ids.counter, ids.messageId, percent, 100, GetStatus);
      EncodeErrors(cipher, GetStatus, percent, key, nonce, ids.counter, ids.messageId);
      EncodePositionRequest(cipher, percent, key, nonce, ids.counter, ids.messageId, 100)
    }

    /** What request k, of this command, makes of its answer. */
    function Accepted(command: ShadeCommand, k: nat, answer: Answer): Attempt<ApplicationResponse> {
      var reply :- answer;
      var ids := PairAt(k);
      DecodeErrors(cipher, reply, key, nonce, command, ids.messageId, Some(ids.counter));
      DecodeApplicationResponse(cipher, reply, key, nonce, command, ids.messageId, Some(ids.counter))
    }

    function StatusFrom(k: nat, answer: Answer): Attempt<ShadeStatus> {
      var response :- Accepted(GetStatus, k, answer);
      ParseStatus(response)
    }

    function Obeyed(k: nat, answer: Answer): Attempt<()> {
      var _ :- Accepted(SetPosition, k, answer);
      Ok(())
    }
  }

  /** A request that got no answer raises what the asking raised. */
  lemma NoAnswer(c: Channel, k: nat, answer: Answer)
    ensures answer.Err? ==> c.StatusFrom(k, answer) == Err(answer.error) && c.Obeyed(k, answer) == Err(answer.error)
  {}

  /** Every frame that a session can send fits in one chunk of the link. */
  lemma FramesFit(c: Channel, command: ShadeCommand, percent: int, version: byte, k: nat)
    ensures |VERSIONS_REQUEST| == |NONCE_REQUEST| == 5 && |SelectionRequest(version)| == 6
    ensures c.ReadRequest(command, k).Ok? ==> |c.ReadRequest(command, k).value| == 6
    ensures c.ReadRequest(command, k).Ok? <==> command.IsRead() && |c.key| == 32
    ensures c.PositionRequest(percent, k).Ok? ==> |c.PositionRequest(percent, k).value| == 9
    ensures c.PositionRequest(percent, k).Ok? <==> 0 <= percent <= 100 && |c.key| == 32
    ensures c.PositionRequest(percent, k) != Err(BleTimeout)
  {
    hide EncodeReadRequest, EncodePositionRequest, CounterAt, MessageIdAt;
    var ids := PairAt(k);
    RequestsFit(c.cipher, c.key, c.nonce, ids.counter, ids.messageId, percent, 100, command);
    EncodeErrors(c.cipher, command, percent, c.key, c.nonce, ids.counter, ids.messageId);
  }

  /** What the shade reads in request k: the pair of that call, and of a movement ten times
      the percent at full speed. */
  lemma RequestsRead(c: Channel, command: ShadeCommand, percent: int, k: nat)
    ensures c.ReadRequest(command, k).Ok? ==>
              DecryptAppRequest(c.cipher, c.ReadRequest(command, k).value, c.key, c.nonce) ==
              Ok(ApplicationRequest(PairAt(k).counter, PairAt(k).messageId, command, []))
    ensures c.PositionRequest(percent, k).Ok? ==>
              var read := DecryptAppRequest(c.cipher, c.PositionRequest(percent, k).value, c.key, c.nonce);
              && read.Ok? && read.value.counter == PairAt(k).counter && read.value.messageId == PairAt(k).messageId
              && read.value.command == SetPosition && |read.value.payload| == 3
              && read.value.payload[0] + 256 * (read.value.payload[1] as int) == 10 * percent
              && read.value.payload[2] == 100
  {
    hide DecryptAppRequest, EncodeReadRequest, EncodePositionRequest, CounterAt, MessageIdAt;
    var ids := PairAt(k);
    if c.ReadRequest(command, k).Ok? {
      ReadRequestRead(c.cipher, command, c.key, c.nonce, ids.counter, ids.messageId);
    }
    if c.PositionRequest(percent, k).Ok? {
      PositionRequestRead(c.cipher, percent, c.key, c.nonce, ids.counter, ids.messageId, 100);
    }
  }

  /** A status that request k returns came in a frame that carries the pair of request k,
      under this channel's key and nonce. */
  lemma StatusOwnPair(c: Channel, k: nat, reply: bytes)
    requires |c.key| == 32
    ensures c.StatusFrom(k, Ok(reply)).Ok? ==>
              exists r: ApplicationResponse ::
                && r.counter == PairAt(k).counter && r.messageId == PairAt(k).messageId && r.command == GetStatus
                && Encodes(c.cipher, reply, r, c.key, c.nonce)
                && ParseStatus(r) == c.StatusFrom(k, Ok(reply))
  {
    hide Encodes, DecodeApplicationResponse, CounterAt, MessageIdAt;
    if c.StatusFrom(k, Ok(reply)).Ok? {
      var r := c.Accepted(GetStatus, k, Ok(reply)).value;
      DecodeExact(c.cipher, reply, c.key, c.nonce, GetStatus, PairAt(k).messageId, PairAt(k).counter, r);
      assert Encodes(c.cipher, reply, r, c.key, c.nonce);
    }
  }

  // ---- a status read ----

  function ReadNext(c: Channel, k: nat, answers: seq<Answer>): Turn<ShadeStatus> {
    if answers == [] then Asking(c.ReadRequest(GetStatus, k), 2) else Return(c.StatusFrom(k, answers[0]))
  }

  /** A status read as request k. */
  function Reading(c: Channel, k: nat): (p: Program<ShadeStatus>)
    ensures Brief(p)
  {
    answers => ReadNext(c, k, answers)
  }

  // ---- a movement ----

  /** _moved_toward, on percents: changed in the direction of the target. */
  predicate MovedToward(before: ShadeStatus, after: ShadeStatus, target: int) {
    if target > PositionPercent(before) then PositionPercent(after) > PositionPercent(before)
    else PositionPercent(after) < PositionPercent(before)
  }

  /** What is made of a movement's readback: arrived or on its way, or neither. */
  function Verdict(before: ShadeStatus, after: ShadeStatus, target: int): Result<(ShadeStatus, bool)> {
    if PositionPercent(after) == target then Ok((after, true))
    else if !MovedToward(before, after, target) then Err(VerificationPending(after))
    else Ok((after, true))
  }

  /** From a position other than the target, the verdict is positive just when the shade
      is strictly nearer the target's side than before. */
  lemma VerdictExact(before: ShadeStatus, after: ShadeStatus, target: int)
    requires PositionPercent(before) != target
    ensures Verdict(before, after, target) ==
            if MovedToward(before, after, target) then Ok((after, true)) else Err(VerificationPending(after))
    ensures MovedToward(before, after, target) <==>
            (PositionPercent(after) - PositionPercent(before)) * (target - PositionPercent(before)) > 0
  {
    var d, t := PositionPercent(after) - PositionPercent(before), target - PositionPercent(before);
    if t > 0 {
      assert d > 0 <==> d * t > 0;
    } else {
      assert d < 0 <==> d * t > 0;
    }
  }

  /** What a failed readback raises: after a movement that timed out nobody knows whether
      the shade moves, unless the failure is a cancellation. */
  function ReadbackError(moved: Attempt<()>, e: Fault): Error {
    if moved.Ok? || e.Cancelled? then e else AmbiguousWrite
  }

  /** A read, the movement, and a read; only a movement that timed out may go on. */
  function MoveNext(c: Channel, k: nat, target: int, answers: seq<Answer>): Turn<(ShadeStatus, bool)> {
    if answers == [] then Asking(c.ReadRequest(GetStatus, k), 2)
    else
      var before := c.StatusFrom(k, answers[0]);
      if before.Err? then Return(Err(before.error))
      else if PositionPercent(before.value) == target then Return(Ok((before.value, false)))
      else if |answers| == 1 then Asking(c.PositionRequest(target, k + 1), 1)
      else
        var moved := c.Obeyed(k + 1, answers[1]);
        if moved.Err? && moved.error != BleTimeout then Return(Err(moved.error))
        else if |answers| == 2 then
          var frame := c.ReadRequest(GetStatus, k + 2);
          if frame.Err? then Return(Err(ReadbackError(moved, frame.error))) else Ask(frame.value, 2)
        else
          var after := c.StatusFrom(k + 2, answers[2]);
          Return(if after.Err? then Err(ReadbackError(moved, after.error))
                 else Verdict(before.value, after.value, target))
  }

  lemma MoveReturns(c: Channel, k: nat, target: int)
    ensures forall answers: seq<Answer> :: |answers| >= 3 ==> MoveNext(c, k, target, answers).Return?
  {
    hide Channel.StatusFrom, Channel.Obeyed, Channel.ReadRequest, Channel.PositionRequest, PositionPercent, Verdict;
  }

  /** A movement to target as requests k to k + 2. */
  function Moving(c: Channel, k: nat, target: int): (p: Program<(ShadeStatus, bool)>)
    ensures Brief(p)
  {
    MoveReturns(c, k, target);
    answers => MoveNext(c, k, target, answers)
  }

  /** From another position: the movement is asked for. */
  predicate Elsewhere(c: Channel, k: nat, target: int, a0: Answer) {
    c.StatusFrom(k, a0).Ok? && PositionPercent(c.StatusFrom(k, a0).value) != target
  }

  lemma AfterRead(c: Channel, k: nat, target: int, a0: Answer)
    requires Elsewhere(c, k, target, a0)
    ensures MoveNext(c, k, target, [a0]) == Asking(c.PositionRequest(target, k + 1), 1)
  {}

  /** After the movement, which was answered if it could be built: an error ends the
      program, unless the movement timed out. */
  lemma AfterMovement(c: Channel, k: nat, target: int, a0: Answer, a1: Answer, answers: seq<Answer>)
    requires Elsewhere(c, k, target, a0)
    requires
      var frame := c.PositionRequest(target, k + 1);
      answers == [a0] + (if frame.Ok? then [a1] else []) && (frame.Err? ==> a1 == frame)
    ensures
      var moved, frame, turn := c.Obeyed(k + 1, a1), c.ReadRequest(GetStatus, k + 2), MoveNext(c, k, target, answers);
      if moved.Err? && moved.error != BleTimeout then turn == Return(Err(moved.error))
      else
        && answers == [a0, a1]
        && turn == if frame.Ok? then Ask(frame.value, 2) else Return(Err(ReadbackError(moved, frame.error)))
  {
    hide Channel.StatusFrom, Channel.Obeyed, Channel.ReadRequest, Channel.PositionRequest, PositionPercent;
    NoAnswer(c, k + 1, a1);
    FramesFit(c, GetStatus, target, 1, k + 1);
  }

  /** After the read that follows, if that could be built. */
  lemma AfterReadback(c: Channel, k: nat, target: int, a0: Answer, a1: Answer, a2: Answer, answers: seq<Answer>)
    requires Elsewhere(c, k, target, a0)
    requires c.Obeyed(k + 1, a1).Ok? || c.Obeyed(k + 1, a1).error.BleTimeout?
    requires
      var frame := c.ReadRequest(GetStatus, k + 2);
      answers == [a0, a1] + (if frame.Ok? then [a2] else []) && (frame.Err? ==> a2 == frame)
    ensures
      var after := c.StatusFrom(k + 2, a2);
      MoveNext(c, k, target, answers) ==
      Return(if after.Err? then Err(ReadbackError(c.Obeyed(k + 1, a1), after.error))
             else Verdict(c.StatusFrom(k, a0).value, after.value, target))
  {
    hide Channel.StatusFrom, Channel.Obeyed, Channel.ReadRequest, Channel.PositionRequest, PositionPercent, Verdict;
    NoAnswer(c, k + 2, a2);
  }

  /** What a movement asks for: at most a read, the movement, and a read. */
  lemma MoveAsks(c: Channel, k: nat, target: int, answers: seq<Answer>)
    requires MoveNext(c, k, target, answers).Ask?
    ensures
      var n, ask := |answers|, MoveNext(c, k, target, answers);
      && n <= 2 && ask.attempts == (if n == 1 then 1 else 2)
      && Ok(ask.frame) == if n == 1 then c.PositionRequest(target, k + 1) else c.ReadRequest(GetStatus, k + n)
  {
    hide Channel.StatusFrom, Channel.Obeyed, Channel.ReadRequest, Channel.PositionRequest, PositionPercent, Verdict;
  }

  /** The movement was tried: accepted, or timed out, from another position. */
  predicate Tried(c: Channel, k: nat, target: int, answers: seq<Answer>) {
    && |answers| >= 2
    && var before, moved := c.StatusFrom(k, answers[0]), c.Obeyed(k + 1, answers[1]);
       before.Ok? && PositionPercent(before.value) != target && (moved.Ok? || moved.error.BleTimeout?)
  }

  /** Not moved means already there, by the one read; moved means a strict move toward the
      target between two reads around the movement, and pending that there was none. */
  lemma MovedExactly(c: Channel, k: nat, target: int, answers: seq<Answer>, seen: ShadeStatus)
    ensures MoveNext(c, k, target, answers) == Return(Ok((seen, false))) <==>
            |answers| >= 1 && c.StatusFrom(k, answers[0]) == Ok(seen) && PositionPercent(seen) == target
    ensures
      var after := |answers| >= 3 && Tried(c, k, target, answers) && c.StatusFrom(k + 2, answers[2]) == Ok(seen);
      && (MoveNext(c, k, target, answers) == Return(Ok((seen, true))) <==>
            after && MovedToward(c.StatusFrom(k, answers[0]).value, seen, target))
      && (MoveNext(c, k, target, answers) == Return(Err(VerificationPending(seen))) <==>
            after && !MovedToward(c.StatusFrom(k, answers[0]).value, seen, target))
  {
    hide Channel.StatusFrom, Channel.Obeyed, Channel.ReadRequest, Channel.PositionRequest, MovedToward;
    if |answers| >= 3 && Tried(c, k, target, answers) && c.StatusFrom(k + 2, answers[2]).Ok? {
      VerdictExact(c.StatusFrom(k, answers[0]).value, c.StatusFrom(k + 2, answers[2]).value, target);
    }
  }

  /** A movement is reported as ambiguous just when it timed out and the read after it
      failed otherwise than by a cancellation. */
  lemma AmbiguousExactly(c: Channel, k: nat, target: int, answers: seq<Answer>)
    requires |c.key| == 32
    ensures MoveNext(c, k, target, answers) == Return(Err(AmbiguousWrite)) <==>
            && |answers| >= 3 && Tried(c, k, target, answers) && c.Obeyed(k + 1, answers[1]).Err?
            && var after := c.StatusFrom(k + 2, answers[2]);
               after.Err? && !after.error.Cancelled?
  {
    hide Channel.StatusFrom, Channel.Obeyed, Channel.ReadRequest, Channel.PositionRequest, MovedToward;
    FramesFit(c, GetStatus, target, 1, k);
    FramesFit(c, GetStatus, target, 1, k + 2);
  }

  /** Any other error of a movement is the first read's; or the movement's own, other than a
      time-out; or the second read's, if the movement was accepted or that read was
      cancelled. */
  lemma RaisedExactly(c: Channel, k: nat, target: int, answers: seq<Answer>, e: Fault)
    requires |c.key| == 32 && 0 <= target <= 100 && answers != []
    ensures MoveNext(c, k, target, answers) == Return(Err(e)) <==>
            || c.StatusFrom(k, answers[0]) == Err(e)
            || (&& |answers| >= 2 && Elsewhere(c, k, target, answers[0])
                && c.Obeyed(k + 1, answers[1]) == Err(e) && e != BleTimeout)
            || (&& |answers| >= 3 && Tried(c, k, target, answers) && c.StatusFrom(k + 2, answers[2]) == Err(e)
                && (c.Obeyed(k + 1, answers[1]).Ok? || e == Cancelled))
  {
    hide Channel.StatusFrom, Channel.Obeyed, Channel.ReadRequest, Channel.PositionRequest, MovedToward;
    FramesFit(c, GetStatus, target, 1, k);
    FramesFit(c, GetStatus, target, 1, k + 1);
    FramesFit(c, GetStatus, target, 1, k + 2);
  }
}
