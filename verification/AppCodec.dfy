/** The encrypted application layer: requests of the central, responses of the shade,
    and what each side accepts. */
module AppCodec {
  import opened Bytes
  import opened Results
  import opened CrcDetection
  import opened Ctr
  import opened CryptoFrames

  const MAX_COUNTER := 0x7FFF

  datatype ShadeCommand = Ack | GetVersion | GetName | GetStatus | GetPosition | SetPosition | GetBattery {
    function Code(): byte {
      match this
      case Ack => 0x01
      case GetVersion => 0x04
      case GetName => 0x05
      case GetStatus => 0x10
      case GetPosition => 0x12
      case SetPosition => 0x13
      case GetBattery => 0x16
    }

    predicate IsRead() {
      GetVersion? || GetName? || GetStatus? || GetPosition? || GetBattery?
    }

    predicate IsRuntime() {
      IsRead() || SetPosition?
    }
  }

  function ShadeCommandOf(code: byte): (r: Option<ShadeCommand>)
    ensures forall c: ShadeCommand :: r == Some(c) <==> c.Code() == code
  {
    if code == 0x01 then Some(ShadeCommand.Ack)
    else if code == 0x04 then Some(GetVersion)
    else if code == 0x05 then Some(GetName)
    else if code == 0x10 then Some(GetStatus)
    else if code == 0x12 then Some(GetPosition)
    else if code == 0x13 then Some(SetPosition)
    else if code == 0x16 then Some(GetBattery)
    else None
  }

  datatype ApplicationResponse =
    ApplicationResponse(command: ShadeCommand, messageId: nat, counter: nat, payload: bytes)

  /** What the shade makes of a request. */
  datatype ApplicationRequest =
    ApplicationRequest(counter: nat, messageId: nat, command: ShadeCommand, payload: bytes)

  // ---- one encrypted message ----

  /** The header that the receive direction puts in the initial block. */
  function ReceiveHeader(header: bytes): bytes
    requires |header| == 2
  {
    [if header[0] < 128 then header[0] + 128 else header[0], header[1]]
  }

  /** header, then the presentation bytes and their checksum under the mask of iv. */
  function Protect(cipher: Cipher, key: bytes, iv: Block, header: bytes, presentation: bytes): bytes {
    header + AesCtr(cipher, presentation + Trailer(header + presentation), key, iv)
  }

  function Unprotect(cipher: Cipher, key: bytes, iv: Block, header: bytes, masked: bytes): Result<bytes> {
    VerifyChecksum(header, AesCtr(cipher, masked, key, iv))
  }

  lemma AppendedTail(header: bytes, presentation: bytes)
    ensures AppendChecksum(header, presentation) == header + (presentation + Trailer(header + presentation))
  {
    hide Trailer;
  }

  /** The two are inverse to each other: what unprotects to some presentation bytes is
      what they are protected to. */
  lemma UnprotectExact(cipher: Cipher, key: bytes, iv: Block, header: bytes, masked: bytes, presentation: bytes)
    ensures Unprotect(cipher, key, iv, header, masked) == Ok(presentation) <==>
            presentation != [] && header + masked == Protect(cipher, key, iv, header, presentation)
  {
    hide AesCtr, Trailer, AppendChecksum;
    var plain, sealed := AesCtr(cipher, masked, key, iv), presentation + Trailer(header + presentation);
    CtrInvolution(cipher, masked, key, iv);
    CtrInvolution(cipher, sealed, key, iv);
    VerifyAppend(header, plain, presentation);
    AppendedTail(header, presentation);
    SameTail(header, plain, sealed);
    SameTail(header, masked, AesCtr(cipher, sealed, key, iv));
  }

  lemma UnprotectProtected(cipher: Cipher, key: bytes, iv: Block, header: bytes, presentation: bytes)
    requires presentation != []
    ensures
      var frame, n := Protect(cipher, key, iv, header, presentation), |header|;
      && |frame| == n + |presentation| + 2 && frame[..n] == header
      && Unprotect(cipher, key, iv, header, frame[n..]) == Ok(presentation)
  {
    var frame, n := Protect(cipher, key, iv, header, presentation), |header|;
    assert frame == header + frame[n..];
    UnprotectExact(cipher, key, iv, header, frame[n..], presentation);
  }

  lemma SameTail(header: bytes, a: bytes, b: bytes)
    ensures header + a == header + b <==> a == b
  {
    assert (header + a)[|header|..] == a && (header + b)[|header|..] == b;
  }

  // ---- requests ----

  function RequireKeyAndNonce(key: bytes, nonce: bytes): Result<Nonce> {
    if |key| != 32 then Err(Protocol) else if |nonce| != 12 then Err(Protocol) else Ok(nonce)
  }

  function CounterHeader(counter: int): Result<bytes> {
    if 1 <= counter <= MAX_COUNTER then Ok(Be16(counter)) else Err(Protocol)
  }

  /** The presentation byte of a request: bit 6, the response flag, is clear. */
  function MessageIdByte(messageId: int): Result<byte> {
    if 0 <= messageId <= 15 then Ok(messageId) else Err(Protocol)
  }

  function EncodeApplicationRequest(cipher: Cipher, command: ShadeCommand, payload: bytes,
      key: bytes, nonce: bytes, counter: int, messageId: int): Result<bytes>
  {
    if !command.IsRuntime() then Err(UnsafeCommand)
    else
      var n :- RequireKeyAndNonce(key, nonce);
      var header :- CounterHeader(counter);
      var id :- MessageIdByte(messageId);
      Ok(Protect(cipher, key, Iv(n, header), header, [id, command.Code()] + payload))
  }

  function EncodeReadRequest(cipher: Cipher, command: ShadeCommand,
      key: bytes, nonce: bytes, counter: int, messageId: int): Result<bytes>
  {
    if !command.IsRead() then Err(UnsafeCommand)
    else EncodeApplicationRequest(cipher, command, [], key, nonce, counter, messageId)
  }

  function EncodePositionRequest(cipher: Cipher, positionPercent: int,
      key: bytes, nonce: bytes, counter: int, messageId: int, speed: int): Result<bytes>
  {
    if !(0 <= positionPercent <= 100) then Err(Protocol)
    else if !(1 <= speed <= 100) then Err(Protocol)
    else
      EncodeApplicationRequest(cipher, SetPosition, Le16(positionPercent * 10) + [speed],
                               key, nonce, counter, messageId)
  }

  /** The shade's side.  Its own errors, which the source does not catch, are all
      Protocol here. */
  function DecryptAppRequest(cipher: Cipher, frame: bytes, key: bytes, nonce: Nonce): Result<ApplicationRequest> {
    if |frame| < 2 then Err(Protocol)
    else
      var header := frame[..2];
      var presentation :- Unprotect(cipher, key, Iv(nonce, header), header, frame[2..]);
      ReadPresentation(header, presentation)
  }

  function ReadPresentation(header: bytes, presentation: bytes): Result<ApplicationRequest>
    requires |header| == 2
  {
    if |presentation| < 2 then Err(Protocol)
    else
      match ShadeCommandOf(presentation[1])
      case None => Err(Protocol)
      case Some(command) =>
        Ok(ApplicationRequest(FromBe16(header) % 0x8000, presentation[0] % 16, command, presentation[2..]))
  }

  lemma ReadBack(counter: nat, messageId: byte, command: ShadeCommand, payload: bytes)
    requires counter <= MAX_COUNTER && messageId <= 15
    ensures ReadPresentation(Be16(counter), [messageId, command.Code()] + payload) ==
            Ok(ApplicationRequest(counter, messageId, command, payload))
  {
    assert ([messageId, command.Code()] + payload)[2..] == payload;
  }

  /** The shade recovers exactly what the central asked for. */
  lemma RequestRoundTrip(cipher: Cipher, command: ShadeCommand, payload: bytes,
      key: bytes, nonce: Nonce, counter: int, messageId: int)
    requires EncodeApplicationRequest(cipher, command, payload, key, nonce, counter, messageId).Ok?
    ensures
      DecryptAppRequest(cipher,
        EncodeApplicationRequest(cipher, command, payload, key, nonce, counter, messageId).value, key, nonce) ==
      Ok(ApplicationRequest(counter, messageId, command, payload))
  {
    var header, presentation := Be16(counter), [messageId as byte, command.Code()] + payload;
    UnprotectProtected(cipher, key, Iv(nonce, header), header, presentation);
    ReadBack(counter, messageId, command, payload);
  }

  /** What the bytes of a request are: the counter in clear, then message id, command,
      payload and checksum, each under its mask. */
  lemma RequestBytes(cipher: Cipher, command: ShadeCommand, payload: bytes,
      key: bytes, nonce: Nonce, counter: int, messageId: int, i: nat, j: nat)
    requires EncodeApplicationRequest(cipher, command, payload, key, nonce, counter, messageId).Ok?
    requires counter + i / 0x1_0000 < 0x1_0000 && j < 16 && 16 * i + j < |payload| + 4
    ensures
      var frame := EncodeApplicationRequest(cipher, command, payload, key, nonce, counter, messageId).value;
      var plain := Be16(counter) + [messageId, command.Code()] + payload;
      var block := nonce + Be16(counter + i / 0x1_0000) + Be16(i % 0x1_0000);
      && frame[..2] == Be16(counter) && |frame| == |payload| + 6
      && frame[2 + 16 * i + j] == Xor((plain + Trailer(plain))[2 + 16 * i + j], cipher(key[..16], block)[j])
  {
    hide Trailer, Xor, AesCtr;
    var header := Be16(counter);
    ProtectedByte(cipher, key, nonce, header, header, [messageId as byte, command.Code()] + payload, i, j);
    assert header + ([messageId as byte, command.Code()] + payload) ==
           header + [messageId as byte, command.Code()] + payload;
  }

  lemma ProtectedByte(cipher: Cipher, key: bytes, nonce: Nonce, ivHeader: bytes, header: bytes, presentation: bytes,
      i: nat, j: nat)
    requires |key| >= 16 && |header| == |ivHeader| == 2 && FromBe16(ivHeader) + i / 0x1_0000 < 0x1_0000
    requires j < 16 && 16 * i + j < |presentation| + 2
    ensures
      var frame, plain := Protect(cipher, key, Iv(nonce, ivHeader), header, presentation), header + presentation;
      var block := nonce + Be16(FromBe16(ivHeader) + i / 0x1_0000) + Be16(i % 0x1_0000);
      && frame[..2] == header && |frame| == |presentation| + 4
      && frame[2 + 16 * i + j] == Xor((plain + Trailer(plain))[2 + 16 * i + j], cipher(key[..16], block)[j])
  {
    hide Trailer, Xor, AesCtr;
    AesCtrMasks(cipher, presentation + Trailer(header + presentation), key, nonce, ivHeader, i, j);
  }

  /** What the shade reads in a movement: ten times the percent, and the speed. */
  lemma PositionRequestRead(cipher: Cipher, percent: int, key: bytes, nonce: Nonce, counter: int, messageId: int,
      speed: int)
    requires EncodePositionRequest(cipher, percent, key, nonce, counter, messageId, speed).Ok?
    ensures
      var frame := EncodePositionRequest(cipher, percent, key, nonce, counter, messageId, speed).value;
      var read := DecryptAppRequest(cipher, frame, key, nonce);
      && read.Ok? && read.value == ApplicationRequest(counter, messageId, SetPosition, read.value.payload)
      && var p := read.value.payload;
         |p| == 3 && p[0] + 256 * (p[1] as int) == 10 * percent && p[2] == speed
  {
    hide DecryptAppRequest, EncodeApplicationRequest;
    RequestRoundTrip(cipher, SetPosition, Le16(percent * 10) + [speed], key, nonce, counter, messageId);
  }

  /** And in a read: the command alone. */
  lemma ReadRequestRead(cipher: Cipher, command: ShadeCommand, key: bytes, nonce: Nonce, counter: int, messageId: int)
    requires EncodeReadRequest(cipher, command, key, nonce, counter, messageId).Ok?
    ensures
      DecryptAppRequest(cipher, EncodeReadRequest(cipher, command, key, nonce, counter, messageId).value, key, nonce) ==
      Ok(ApplicationRequest(counter, messageId, command, []))
  {
    hide DecryptAppRequest, EncodeApplicationRequest;
    RequestRoundTrip(cipher, command, [], key, nonce, counter, messageId);
  }

  /** The shade reads any protected frame: of the counter its low fifteen bits, of the
      presentation byte its low four. */
  lemma DecryptExact(cipher: Cipher, key: bytes, nonce: Nonce, header: bytes, flags: byte, code: byte, payload: bytes)
    requires |header| == 2
    ensures
      DecryptAppRequest(cipher, Protect(cipher, key, Iv(nonce, header), header, [flags, code] + payload), key, nonce) ==
      match ShadeCommandOf(code)
      case None => Err(Protocol)
      case Some(command) => Ok(ApplicationRequest(FromBe16(header) % 0x8000, flags % 16, command, payload))
  {
    hide Protect, Unprotect;
    UnprotectProtected(cipher, key, Iv(nonce, header), header, [flags, code] + payload);
    assert ([flags, code] + payload)[2..] == payload;
  }

  /** When a request can be built, and that one chunk of the link holds it. */
  lemma RequestsFit(cipher: Cipher, key: bytes, nonce: bytes, counter: int, messageId: int, position: int, speed: int,
      command: ShadeCommand)
    ensures
      var read := EncodeReadRequest(cipher, command, key, nonce, counter, messageId);
      && (read.Ok? ==> |read.value| == 6)
      && (read.Err? ==> read.error == if command.IsRead() then Protocol else UnsafeCommand)
      && (read.Ok? <==>
            command.IsRead() && |key| == 32 && |nonce| == 12 && 1 <= counter <= 0x7FFF && 0 <= messageId <= 15)
    ensures
      var write := EncodePositionRequest(cipher, position, key, nonce, counter, messageId, speed);
      && (write.Ok? ==> |write.value| == 9)
      && (write.Ok? <==>
            && 0 <= position <= 100 && 1 <= speed <= 100
            && |key| == 32 && |nonce| == 12 && 1 <= counter <= 0x7FFF && 0 <= messageId <= 15)
      && (write.Err? ==> write.error == Protocol)
  {}

  /** What building a request can raise. */
  lemma EncodeErrors(cipher: Cipher, command: ShadeCommand, position: int,
      key: bytes, nonce: bytes, counter: int, messageId: int)
    ensures
      var read := EncodeReadRequest(cipher, command, key, nonce, counter, messageId);
      read.Err? ==> read.error in {Protocol, UnsafeCommand}
    ensures
      var write := EncodePositionRequest(cipher, position, key, nonce, counter, messageId, 100);
      write.Err? ==> write.error in {Protocol, UnsafeCommand}
  {
    hide Protect;
  }

  // ---- responses ----

  /** A response, with bit 7 of its presentation byte set or clear. */
  function ResponseFrame(cipher: Cipher, high: bool, command: ShadeCommand, payload: bytes,
      key: bytes, nonce: Nonce, counter: nat, messageId: nat): bytes
    requires counter <= MAX_COUNTER && messageId <= 15
  {
    var header := Be16(counter);
    Protect(cipher, key, Iv(nonce, ReceiveHeader(header)), header,
      [messageId + 64 + (if high then 128 else 0), command.Code()] + payload)
  }

  function EncodeAppResponse(cipher: Cipher, command: ShadeCommand, payload: bytes,
      key: bytes, nonce: Nonce, counter: nat, messageId: nat): bytes
    requires counter <= MAX_COUNTER && messageId <= 15
  {
    ResponseFrame(cipher, false, command, payload, key, nonce, counter, messageId)
  }

  /** What the bytes of a response are: the shade's counter in clear, then message id with
      the response flag, command, payload and checksum, under masks whose blocks carry the
      counter with its top bit set. */
  lemma ResponseBytes(cipher: Cipher, command: ShadeCommand, payload: bytes,
      key: bytes, nonce: Nonce, counter: nat, messageId: nat, i: nat, j: nat)
    requires |key| == 32 && counter <= MAX_COUNTER && messageId <= 15
    requires 0x8000 + counter + i / 0x1_0000 < 0x1_0000 && j < 16 && 16 * i + j < |payload| + 4
    ensures
      var frame := EncodeAppResponse(cipher, command, payload, key, nonce, counter, messageId);
      var plain := Be16(counter) + [0x40 + messageId, command.Code()] + payload;
      var block := nonce + Be16(0x8000 + counter + i / 0x1_0000) + Be16(i % 0x1_0000);
      && frame[..2] == Be16(counter) && |frame| == |payload| + 6
      && frame[2 + 16 * i + j] == Xor((plain + Trailer(plain))[2 + 16 * i + j], cipher(key[..16], block)[j])
  {
    hide Trailer, Xor, AesCtr;
    var header := Be16(counter);
    assert FromBe16(ReceiveHeader(header)) == 0x8000 + counter;
    ProtectedByte(cipher, key, nonce, ReceiveHeader(header), header, [messageId + 64, command.Code()] + payload, i, j);
    assert header + ([messageId + 64, command.Code()] + payload) ==
           header + [0x40 + messageId, command.Code()] + payload;
  }

  /** The checks on the presentation bytes, in order. */
  function CheckPresentation(presentation: bytes, counter: nat, expectedCommand: ShadeCommand, expectedId: int):
    Result<ApplicationResponse>
  {
    if |presentation| < 2 then Err(Protocol)
    else
      var flags := presentation[0];
      if flags / 64 % 2 == 0 then Err(Protocol)
      else if flags / 16 % 4 != 0 then Err(Protocol)
      else if flags % 16 != expectedId then Err(Protocol)
      else
        match ShadeCommandOf(presentation[1])
        case None => Err(Protocol)
        case Some(command) =>
          var payload := presentation[2..];
          if command.Ack? && (payload == [] || payload[0] != expectedCommand.Code()) then Err(Protocol)
          else if !command.Ack? && command != expectedCommand then Err(Protocol)
          else Ok(ApplicationResponse(command, flags % 16, counter, payload))
  }

  /** The checks before decryption. */
  function CheckHeader(frame: bytes, expectedCounter: Option<int>): (r: Result<bytes>)
    ensures r.Ok? ==> |r.value| == 2 <= |frame|
  {
    if |frame| < 6 then Err(Protocol)
    else
      var header := frame[..2];
      if header[0] >= 128 then Err(Protocol)
      else
        var counter := FromBe16(header) % 0x8000;
        var _ :- CounterHeader(counter);
        if expectedCounter.Some? && counter != expectedCounter.value then Err(Protocol) else Ok(header)
  }

  function DecodeApplicationResponse(cipher: Cipher, frame: bytes, key: bytes, nonce: bytes,
      expectedCommand: ShadeCommand, expectedId: int, expectedCounter: Option<int>): Result<ApplicationResponse>
  {
    var n :- RequireKeyAndNonce(key, nonce);
    if !expectedCommand.IsRuntime() then Err(UnsafeCommand)
    else
      var header :- CheckHeader(frame, expectedCounter);
      DecodeBody(cipher, header, frame[2..], key, n, expectedCommand, expectedId)
  }

  function DecodeBody(cipher: Cipher, header: bytes, masked: bytes, key: bytes, nonce: Nonce,
      expectedCommand: ShadeCommand, expectedId: int): Result<ApplicationResponse>
    requires |header| == 2
  {
    var presentation :- Unprotect(cipher, key, Iv(nonce, ReceiveHeader(header)), header, masked);
    CheckPresentation(presentation, FromBe16(header), expectedCommand, expectedId)
  }

  /** What decoding can raise. */
  lemma DecodeErrors(cipher: Cipher, frame: bytes, key: bytes, nonce: bytes,
      expectedCommand: ShadeCommand, expectedId: int, expectedCounter: Option<int>)
    ensures
      var d := DecodeApplicationResponse(cipher, frame, key, nonce, expectedCommand, expectedId, expectedCounter);
      && (d.Err? ==> d.error in {Protocol, UnsafeCommand, Authentication})
      && (|key| != 32 || |nonce| != 12 ==> d == Err(Protocol))
      && (|key| == 32 && |nonce| == 12 ==> (d == Err(UnsafeCommand) <==> !expectedCommand.IsRuntime()))
  {
    hide AesCtr, Trailer;
  }

  /** The command asked for, or an ACK that names it. */
  predicate Answers(command: ShadeCommand, payload: bytes, expected: ShadeCommand) {
    if command.Ack? then payload != [] && payload[0] == expected.Code() else command == expected
  }

  lemma PresentationExact(presentation: bytes, counter: nat, expectedCommand: ShadeCommand, expectedId: int,
      r: ApplicationResponse)
    requires expectedCommand.IsRuntime()
    ensures CheckPresentation(presentation, counter, expectedCommand, expectedId) == Ok(r) <==>
            && r.counter == counter && r.messageId == expectedId && 0 <= expectedId <= 15
            && Answers(r.command, r.payload, expectedCommand)
            && (presentation == [expectedId + 64, r.command.Code()] + r.payload
                || presentation == [expectedId + 192, r.command.Code()] + r.payload)
  {
    if |presentation| >= 2 {
      assert presentation == [presentation[0], presentation[1]] + presentation[2..];
    }
    if 0 <= expectedId <= 15 {
      assert ([expectedId + 64, r.command.Code()] + r.payload)[2..] == r.payload;
      assert ([expectedId + 192, r.command.Code()] + r.payload)[2..] == r.payload;
    }
  }

  /** frame encodes r, whichever way bit 7 of its presentation byte is. */
  predicate Encodes(cipher: Cipher, frame: bytes, r: ApplicationResponse, key: bytes, nonce: Nonce)
    requires r.counter <= MAX_COUNTER && r.messageId <= 15
  {
    || frame == ResponseFrame(cipher, false, r.command, r.payload, key, nonce, r.counter, r.messageId)
    || frame == ResponseFrame(cipher, true, r.command, r.payload, key, nonce, r.counter, r.messageId)
  }

  lemma EncodesUnprotects(cipher: Cipher, masked: bytes, key: bytes, nonce: Nonce, r: ApplicationResponse)
    requires r.counter <= MAX_COUNTER && r.messageId <= 15
    ensures
      var header := Be16(r.counter);
      var p := Unprotect(cipher, key, Iv(nonce, ReceiveHeader(header)), header, masked);
      Encodes(cipher, header + masked, r, key, nonce) <==>
      || p == Ok([r.messageId + 64, r.command.Code()] + r.payload)
      || p == Ok([r.messageId + 192, r.command.Code()] + r.payload)
  {
    var header := Be16(r.counter);
    var iv := Iv(nonce, ReceiveHeader(header));
    UnprotectExact(cipher, key, iv, header, masked, [r.messageId + 64, r.command.Code()] + r.payload);
    UnprotectExact(cipher, key, iv, header, masked, [r.messageId + 192, r.command.Code()] + r.payload);
  }

  lemma CheckedExact(p: Result<bytes>, counter: nat, expectedCommand: ShadeCommand, expectedId: int,
      r: ApplicationResponse)
    requires expectedCommand.IsRuntime()
    ensures p.Ok? && CheckPresentation(p.value, counter, expectedCommand, expectedId) == Ok(r) <==>
            && r.counter == counter && 0 <= r.messageId == expectedId <= 15
            && Answers(r.command, r.payload, expectedCommand)
            && (|| p == Ok([r.messageId + 64, r.command.Code()] + r.payload)
                || p == Ok([r.messageId + 192, r.command.Code()] + r.payload))
  {
    if p.Ok? {
      PresentationExact(p.value, counter, expectedCommand, expectedId, r);
    }
  }

  lemma BodyExact(cipher: Cipher, masked: bytes, key: bytes, nonce: Nonce,
      expectedCommand: ShadeCommand, expectedId: int, counter: nat, r: ApplicationResponse)
    requires expectedCommand.IsRuntime() && counter <= MAX_COUNTER
    ensures
      DecodeBody(cipher, Be16(counter), masked, key, nonce, expectedCommand, expectedId) == Ok(r) <==>
      && r.counter == counter && 0 <= r.messageId == expectedId <= 15
      && Answers(r.command, r.payload, expectedCommand)
      && Encodes(cipher, Be16(counter) + masked, r, key, nonce)
  {
    var header := Be16(counter);
    CheckedExact(Unprotect(cipher, key, Iv(nonce, ReceiveHeader(header)), header, masked),
      counter, expectedCommand, expectedId, r);
    if r.counter == counter && 0 <= r.messageId == expectedId <= 15 {
      EncodesUnprotects(cipher, masked, key, nonce, r);
    }
  }

  lemma HeaderExact(frame: bytes, expectedCounter: int)
    ensures CheckHeader(frame, Some(expectedCounter)) ==
            if |frame| >= 6 && 1 <= expectedCounter <= MAX_COUNTER && frame[..2] == Be16(expectedCounter) then
              Ok(Be16(expectedCounter))
            else Err(Protocol)
  {
    if |frame| >= 6 {
      Be16Inverse(frame[..2]);
    }
  }

  /** Decoding, header first. */
  lemma DecodeHeader(cipher: Cipher, frame: bytes, key: bytes, nonce: Nonce,
      expectedCommand: ShadeCommand, expectedId: int, expectedCounter: int)
    requires |key| == 32 && expectedCommand.IsRuntime()
    ensures
      var d := DecodeApplicationResponse(cipher, frame, key, nonce, expectedCommand, expectedId, Some(expectedCounter));
      if |frame| >= 6 && 1 <= expectedCounter <= MAX_COUNTER && frame[..2] == Be16(expectedCounter) then
        d == DecodeBody(cipher, Be16(expectedCounter), frame[2..], key, nonce, expectedCommand, expectedId)
      else d == Err(Protocol)
  {
    HeaderExact(frame, expectedCounter);
  }

  lemma ResponseHeader(cipher: Cipher, high: bool, command: ShadeCommand, payload: bytes,
      key: bytes, nonce: Nonce, counter: nat, messageId: nat)
    requires counter <= MAX_COUNTER && messageId <= 15
    ensures
      var frame := ResponseFrame(cipher, high, command, payload, key, nonce, counter, messageId);
      |frame| == |payload| + 6 && frame[..2] == Be16(counter)
  {}

  /** With an expected counter, decoding accepts exactly the shade's encodings of the
      expected pair that answer the expected command, up to bit 7 of the presentation
      byte, which it does not inspect. */
  lemma DecodeExact(cipher: Cipher, frame: bytes, key: bytes, nonce: Nonce,
      expectedCommand: ShadeCommand, expectedId: int, expectedCounter: int, r: ApplicationResponse)
    requires |key| == 32 && expectedCommand.IsRuntime()
    ensures
      DecodeApplicationResponse(cipher, frame, key, nonce, expectedCommand, expectedId, Some(expectedCounter)) == Ok(r)
      <==>
      && 1 <= r.counter == expectedCounter <= MAX_COUNTER && 0 <= r.messageId == expectedId <= 15
      && Answers(r.command, r.payload, expectedCommand)
      && Encodes(cipher, frame, r, key, nonce)
  {
    hide ResponseFrame, DecodeBody, DecodeApplicationResponse, Answers;
    DecodeHeader(cipher, frame, key, nonce, expectedCommand, expectedId, expectedCounter);
    if |frame| >= 6 && 1 <= expectedCounter <= MAX_COUNTER && frame[..2] == Be16(expectedCounter) {
      assert frame == Be16(expectedCounter) + frame[2..];
      BodyExact(cipher, frame[2..], key, nonce, expectedCommand, expectedId, expectedCounter, r);
    } else if 1 <= r.counter == expectedCounter <= MAX_COUNTER && r.messageId <= 15 {
      ResponseHeader(cipher, false, r.command, r.payload, key, nonce, r.counter, r.messageId);
      ResponseHeader(cipher, true, r.command, r.payload, key, nonce, r.counter, r.messageId);
    }
  }

  /** The one authentication error: a frame of the expected counter whose checksum does
      not fit once it is unmasked. */
  lemma DecodeAuthenticates(cipher: Cipher, frame: bytes, key: bytes, nonce: Nonce,
      expectedCommand: ShadeCommand, expectedId: int, counter: int)
    requires |key| == 32 && expectedCommand.IsRuntime()
    ensures
      DecodeApplicationResponse(cipher, frame, key, nonce, expectedCommand, expectedId, Some(counter)) ==
      Err(Authentication) <==>
      && |frame| >= 6 && 1 <= counter <= 0x7FFF && frame[..2] == Be16(counter)
      && !Sealed(frame[..2] + AesCtr(cipher, frame[2..], key, Iv(nonce, Be16(0x8000 + counter))))
  {
    hide AesCtr, Sealed, DecodeApplicationResponse;
    DecodeHeader(cipher, frame, key, nonce, expectedCommand, expectedId, counter);
    if |frame| >= 6 && 1 <= counter <= 0x7FFF && frame[..2] == Be16(counter) {
      assert ReceiveHeader(Be16(counter)) == Be16(0x8000 + counter);
      VerifySealed(frame[..2], AesCtr(cipher, frame[2..], key, Iv(nonce, Be16(0x8000 + counter))));
    }
  }

  /** Without a counter to expect, any is taken, as if it had been expected. */
  lemma DecodeAnyCounter(cipher: Cipher, frame: bytes, key: bytes, nonce: Nonce,
      expectedCommand: ShadeCommand, expectedId: int, r: ApplicationResponse)
    ensures
      DecodeApplicationResponse(cipher, frame, key, nonce, expectedCommand, expectedId, None) == Ok(r) <==>
      DecodeApplicationResponse(cipher, frame, key, nonce, expectedCommand, expectedId, Some(r.counter)) == Ok(r)
  {
    hide Unprotect, ShadeCommandOf;
  }

  // ---- what corruption and delay cannot do ----

  /** received is sent with one to three bits changed (up to 4095 bytes), or with any odd
      number of bits changed. */
  predicate Corrupted(sent: bytes, received: bytes) {
    && |sent| == |received| && sent != received
    && (BitErrors(sent, received) % 2 == 1 || (|sent| <= 4095 && BitErrors(sent, received) <= 3))
  }

  /** The checksum rejects corruption of what it covers, masked or not. */
  lemma SealedCorrupted(sent: bytes, received: bytes)
    requires Corrupted(sent, received) && Sealed(sent)
    ensures !Sealed(received)
  {
    if Sealed(received) {
      OddErrorsDetected(sent, received);
      if |sent| <= 4095 {
        MinimumDistanceFour(sent, received);
      }
    }
  }

  lemma UnmaskedCorrupted(cipher: Cipher, key: bytes, iv: Block, header: bytes, a: bytes, b: bytes)
    requires |a| == |b| && Corrupted(header + a, header + b)
    ensures Corrupted(header + AesCtr(cipher, a, key, iv), header + AesCtr(cipher, b, key, iv))
  {
    var p, q := AesCtr(cipher, a, key, iv), AesCtr(cipher, b, key, iv);
    CtrCarriesErrors(cipher, a, b, key, iv);
    PrefixAddsNoErrors(header, a, b);
    PrefixAddsNoErrors(header, p, q);
    CtrInvolution(cipher, a, key, iv);
    CtrInvolution(cipher, b, key, iv);
    SameTail(header, p, q);
  }

  lemma CorruptedBody(cipher: Cipher, sent: bytes, received: bytes, key: bytes, nonce: Nonce,
      expectedCommand: ShadeCommand, expectedId: int, header: bytes)
    requires Corrupted(sent, received)
    requires |sent| >= 2 && sent[..2] == header && received[..2] == header
    requires DecodeBody(cipher, header, sent[2..], key, nonce, expectedCommand, expectedId).Ok?
    ensures DecodeBody(cipher, header, received[2..], key, nonce, expectedCommand, expectedId).Err?
  {
    var a, b, iv := sent[2..], received[2..], Iv(nonce, ReceiveHeader(header));
    assert sent == header + a && received == header + b;
    VerifySealed(header, AesCtr(cipher, a, key, iv));
    VerifySealed(header, AesCtr(cipher, b, key, iv));
    UnmaskedCorrupted(cipher, key, iv, header, a, b);
    SealedCorrupted(header + AesCtr(cipher, a, key, iv), header + AesCtr(cipher, b, key, iv));
  }

  lemma DecodeOk(cipher: Cipher, frame: bytes, key: bytes, nonce: Nonce,
      expectedCommand: ShadeCommand, expectedId: int, expectedCounter: int)
    requires |key| == 32 && expectedCommand.IsRuntime()
    requires DecodeApplicationResponse(cipher, frame, key, nonce, expectedCommand, expectedId,
                                       Some(expectedCounter)).Ok?
    ensures |frame| >= 6 && 1 <= expectedCounter <= MAX_COUNTER && frame[..2] == Be16(expectedCounter)
    ensures DecodeBody(cipher, Be16(expectedCounter), frame[2..], key, nonce, expectedCommand, expectedId).Ok?
  {
    DecodeHeader(cipher, frame, key, nonce, expectedCommand, expectedId, expectedCounter);
  }

  /** With a counter to expect, a corrupted form of an acceptable response is never
      accepted, wherever in the frame the changed bits are. */
  lemma CorruptedResponseRejected(cipher: Cipher, sent: bytes, received: bytes, key: bytes, nonce: Nonce,
      expectedCommand: ShadeCommand, expectedId: int, expectedCounter: int)
    requires |key| == 32 && expectedCommand.IsRuntime()
    ensures
      Corrupted(sent, received)
      && DecodeApplicationResponse(cipher, sent, key, nonce, expectedCommand, expectedId, Some(expectedCounter)).Ok? ==>
        DecodeApplicationResponse(cipher, received, key, nonce, expectedCommand, expectedId, Some(expectedCounter)).Err?
  {
    hide Corrupted, DecodeApplicationResponse, DecodeBody;
    if Corrupted(sent, received)
       && DecodeApplicationResponse(cipher, sent, key, nonce, expectedCommand, expectedId, Some(expectedCounter)).Ok?
       && DecodeApplicationResponse(cipher, received, key, nonce, expectedCommand, expectedId,
                                    Some(expectedCounter)).Ok? {
      DecodeOk(cipher, sent, key, nonce, expectedCommand, expectedId, expectedCounter);
      DecodeOk(cipher, received, key, nonce, expectedCommand, expectedId, expectedCounter);
      CorruptedBody(cipher, sent, received, key, nonce, expectedCommand, expectedId, Be16(expectedCounter));
    }
  }

  /** A late response, to a request with another counter or another message id, is
      rejected however it was meant. */
  lemma LateResponseRejected(cipher: Cipher, key: bytes, nonce: Nonce,
      command: ShadeCommand, payload: bytes, counter: nat, messageId: nat,
      expectedCommand: ShadeCommand, expectedId: int, expectedCounter: int)
    requires |key| == 32 && expectedCommand.IsRuntime() && counter <= MAX_COUNTER && messageId <= 15
    requires counter != expectedCounter || messageId != expectedId
    ensures
      var late := EncodeAppResponse(cipher, command, payload, key, nonce, counter, messageId);
      DecodeApplicationResponse(cipher, late, key, nonce, expectedCommand, expectedId, Some(expectedCounter)) ==
      Err(Protocol)
  {
    var late := EncodeAppResponse(cipher, command, payload, key, nonce, counter, messageId);
    ResponseHeader(cipher, false, command, payload, key, nonce, counter, messageId);
    DecodeHeader(cipher, late, key, nonce, expectedCommand, expectedId, expectedCounter);
    assert FromBe16(Be16(counter)) == counter;
    if counter == expectedCounter {
      BodyOfResponse(cipher, key, nonce, command, payload, counter, messageId, expectedCommand, expectedId);
    }
  }

  lemma PresentationOfResponse(messageId: byte, command: ShadeCommand, payload: bytes, counter: nat,
      expectedCommand: ShadeCommand, expectedId: int)
    requires messageId <= 15
    ensures CheckPresentation([messageId + 64, command.Code()] + payload, counter, expectedCommand, expectedId) ==
            if messageId == expectedId && Answers(command, payload, expectedCommand) then
              Ok(ApplicationResponse(command, messageId, counter, payload))
            else Err(Protocol)
  {
    assert ([messageId + 64, command.Code()] + payload)[2..] == payload;
  }

  lemma BodyOfResponse(cipher: Cipher, key: bytes, nonce: Nonce,
      command: ShadeCommand, payload: bytes, counter: nat, messageId: nat,
      expectedCommand: ShadeCommand, expectedId: int)
    requires counter <= MAX_COUNTER && messageId <= 15
    ensures
      var frame := EncodeAppResponse(cipher, command, payload, key, nonce, counter, messageId);
      |frame| >= 2 && DecodeBody(cipher, Be16(counter), frame[2..], key, nonce, expectedCommand, expectedId) ==
      if messageId == expectedId && Answers(command, payload, expectedCommand) then
        Ok(ApplicationResponse(command, messageId, counter, payload))
      else Err(Protocol)
  {
    var header, presentation := Be16(counter), [messageId + 64, command.Code()] + payload;
    UnprotectProtected(cipher, key, Iv(nonce, ReceiveHeader(header)), header, presentation);
    PresentationOfResponse(messageId, command, payload, counter, expectedCommand, expectedId);
  }

  /** The shade's answer to a request is accepted, and comes back as it was sent, just
      when it answers the command with the request's own pair. */
  lemma ResponseRoundTrip(cipher: Cipher, key: bytes, nonce: Nonce,
      command: ShadeCommand, payload: bytes, counter: nat, messageId: nat, expectedCommand: ShadeCommand)
    requires |key| == 32 && expectedCommand.IsRuntime() && 1 <= counter <= MAX_COUNTER && messageId <= 15
    ensures
      var d := DecodeApplicationResponse(cipher,
                 EncodeAppResponse(cipher, command, payload, key, nonce, counter, messageId),
                 key, nonce, expectedCommand, messageId, Some(counter));
      if Answers(command, payload, expectedCommand) then
        d == Ok(ApplicationResponse(command, messageId, counter, payload))
      else d == Err(Protocol)
  {
    var frame := EncodeAppResponse(cipher, command, payload, key, nonce, counter, messageId);
    ResponseHeader(cipher, false, command, payload, key, nonce, counter, messageId);
    DecodeHeader(cipher, frame, key, nonce, expectedCommand, messageId, counter);
    BodyOfResponse(cipher, key, nonce, command, payload, counter, messageId, expectedCommand, messageId);
  }
}
