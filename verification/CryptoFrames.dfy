/** The checksum around a frame, and the unencrypted crypto-layer messages of the
    handshake. */
module CryptoFrames {
  import opened Bytes
  import opened Results
  import opened CrcDetection

  // ---- the checksum around a frame ----

  function AppendChecksum(header: bytes, payload: bytes): bytes {
    header + payload + Trailer(header + payload)
  }

  function VerifyChecksum(header: bytes, payloadWithChecksum: bytes): Result<bytes> {
    if |payloadWithChecksum| < 3 then Err(Protocol)
    else
      var n := |payloadWithChecksum| - 2;
      var payload := payloadWithChecksum[..n];
      if payloadWithChecksum[n..] != Trailer(header + payload) then Err(Authentication) else Ok(payload)
  }

  /** Verification accepts exactly the non-empty payloads that were given a checksum. */
  lemma VerifyAppend(header: bytes, data: bytes, payload: bytes)
    ensures VerifyChecksum(header, data) == Ok(payload) <==>
            payload != [] && header + data == AppendChecksum(header, payload)
  {
    var whole := AppendChecksum(header, payload);
    assert whole[|header|..] == payload + Trailer(header + payload);
    assert (header + data)[|header|..] == data;
    if |data| >= 3 {
      var n := |data| - 2;
      assert data == data[..n] + data[n..];
      if data[..n] == payload && data[n..] == Trailer(header + payload) {
        assert header + data == whole;
      }
      if header + data == whole {
        assert data == payload + Trailer(header + payload);
        assert data[..n] == payload && data[n..] == Trailer(header + payload);
      }
    }
  }

  lemma VerifySealed(header: bytes, data: bytes)
    ensures VerifyChecksum(header, data).Ok? <==> |data| >= 3 && Sealed(header + data)
    ensures |data| >= 3 && !Sealed(header + data) ==> VerifyChecksum(header, data) == Err(Authentication)
    ensures |data| < 3 ==> VerifyChecksum(header, data) == Err(Protocol)
  {
    if |data| >= 3 {
      var frame := header + data;
      assert frame[..|frame| - 2] == header + data[..|data| - 2] && frame[|frame| - 2..] == data[|data| - 2..];
    }
  }

  // ---- the crypto layer ----

  const CRYPTO_HEADER: bytes := [0x80, 0]

  datatype CryptoCommand = Ack | RequestProtocolVersions | SelectProtocolVersion | RequestNonce {
    function Code(): byte {
      match this
      case Ack => 0x01
      case RequestProtocolVersions => 0x02
      case SelectProtocolVersion => 0x03
      case RequestNonce => 0x0A
    }
  }

  function CryptoCommandOf(code: byte): Option<CryptoCommand> {
    if code == 0x01 then Some(CryptoCommand.Ack)
    else if code == 0x02 then Some(RequestProtocolVersions)
    else if code == 0x03 then Some(SelectProtocolVersion)
    else if code == 0x0A then Some(RequestNonce)
    else None
  }

  datatype CryptoResponse = CryptoResponse(command: CryptoCommand, payload: bytes)

  datatype NonceResponse = NonceResponse(nonce: bytes, keyProof: bytes)

  /** SUPPORTED_CRYPTO_PROTOCOLS, the preferred one first. */
  const SUPPORTED: bytes := [2, 1]

  /** A crypto-layer message, as either side builds it. */
  function CryptoFrame(command: CryptoCommand, payload: bytes): bytes {
    AppendChecksum(CRYPTO_HEADER, [command.Code()] + payload)
  }

  /** The bytes of the four messages: the layer's header, the command, the payload, and
      their checksum. */
  lemma CryptoFrameBytes(payload: bytes)
    ensures CryptoFrame(Ack, payload) == [0x80, 0, 0x01] + payload + Trailer([0x80, 0, 0x01] + payload)
    ensures CryptoFrame(RequestProtocolVersions, payload) ==
            [0x80, 0, 0x02] + payload + Trailer([0x80, 0, 0x02] + payload)
    ensures CryptoFrame(SelectProtocolVersion, payload) ==
            [0x80, 0, 0x03] + payload + Trailer([0x80, 0, 0x03] + payload)
    ensures CryptoFrame(RequestNonce, payload) == [0x80, 0, 0x0A] + payload + Trailer([0x80, 0, 0x0A] + payload)
  {
    hide Trailer;
    forall code: byte ensures CRYPTO_HEADER + ([code] + payload) == [0x80, 0, code] + payload {
    }
  }

  function EncodeCryptoRequest(command: CryptoCommand, payload: bytes): Result<bytes> {
    match command
    case RequestProtocolVersions => if payload != [] then Err(UnsafeCommand) else Ok(CryptoFrame(command, payload))
    case SelectProtocolVersion =>
      if |payload| != 1 || payload[0] !in SUPPORTED then Err(UnsafeCommand) else Ok(CryptoFrame(command, payload))
    case RequestNonce => if payload != [] then Err(UnsafeCommand) else Ok(CryptoFrame(command, payload))
    case Ack => Err(UnsafeCommand)
  }

  function EncodeProtocolSelection(version: int): Result<bytes> {
    if 0 <= version < 256 then EncodeCryptoRequest(SelectProtocolVersion, [version]) else Err(UnsafeCommand)
  }

  function ParseCryptoResponse(frame: bytes): Result<CryptoResponse> {
    if |frame| < 5 then Err(Protocol)
    else if frame[..2] != CRYPTO_HEADER then Err(Protocol)
    else
      var payload :- VerifyChecksum(frame[..2], frame[2..]);
      if payload == [] then Err(Protocol)
      else
        match CryptoCommandOf(payload[0])
        case None => Err(Protocol)
        case Some(command) => Ok(CryptoResponse(command, payload[1..]))
  }

  /** Parsing accepts exactly the crypto frames: it is both a left and a right inverse
      of building them. */
  lemma ParseCryptoExact(frame: bytes, r: CryptoResponse)
    ensures ParseCryptoResponse(frame) == Ok(r) <==> frame == CryptoFrame(r.command, r.payload)
  {
    var payload := [r.command.Code()] + r.payload;
    assert payload[1..] == r.payload;
    if |frame| >= 2 {
      assert frame == frame[..2] + frame[2..];
      VerifyAppend(CRYPTO_HEADER, frame[2..], payload);
      if ParseCryptoResponse(frame) == Ok(r) {
        var p := VerifyChecksum(frame[..2], frame[2..]).value;
        assert p == [p[0]] + p[1..];
      }
    }
    if frame == CryptoFrame(r.command, r.payload) {
      assert frame[..2] == CRYPTO_HEADER;
    }
  }

  /** A frame of the crypto layer whose checksum does not fit is not authentic; anything
      else that is not parsed breaks the protocol. */
  lemma ParseCryptoErrors(frame: bytes)
    ensures ParseCryptoResponse(frame).Err? ==>
              ParseCryptoResponse(frame).error ==
              if |frame| >= 5 && frame[0] == 0x80 && frame[1] == 0 && !Sealed(frame) then Authentication else Protocol
    ensures |frame| >= 5 && frame[0] == 0x80 && frame[1] == 0 && !Sealed(frame) ==> ParseCryptoResponse(frame).Err?
  {
    hide Sealed;
    if |frame| >= 5 {
      assert frame[..2] == [frame[0], frame[1]] && frame == frame[..2] + frame[2..];
      VerifySealed(frame[..2], frame[2..]);
    }
  }

  function ParseProtocolVersions(r: CryptoResponse): Result<bytes> {
    if !r.command.RequestProtocolVersions? then Err(Protocol)
    else if r.payload == [] then Err(Protocol)
    else
      var count := r.payload[0] as int;
      if |r.payload| < 1 + count then Err(Protocol) else Ok(r.payload[1..1 + count])
  }

  /** The list is taken from a count and that many bytes; what follows is ignored. */
  lemma ParseVersionsExact(r: CryptoResponse, versions: bytes)
    ensures ParseProtocolVersions(r) == Ok(versions) <==>
            && r.command.RequestProtocolVersions? && |versions| < 256
            && [|versions|] + versions <= r.payload
  {
    if |versions| < 256 && [|versions|] + versions <= r.payload {
      assert r.payload[0] == ([|versions|] + versions)[0];
      assert r.payload[1..1 + |versions|] == ([|versions|] + versions)[1..];
    }
  }

  function ParseNonceResponse(r: CryptoResponse): Result<NonceResponse> {
    if !r.command.RequestNonce? then Err(Protocol)
    else if |r.payload| != 44 then Err(Protocol)
    else Ok(NonceResponse(r.payload[..12], r.payload[12..]))
  }

  lemma ParseNonceExact(r: CryptoResponse, n: NonceResponse)
    ensures ParseNonceResponse(r) == Ok(n) <==>
            r.command.RequestNonce? && |n.nonce| == 12 && |n.keyProof| == 32 && r.payload == n.nonce + n.keyProof
  {}

  // ---- the pairing key ----

  type Proof = b: bytes | |b| == 32 witness seq(32, _ => 0)

  /** HMAC-SHA256 of a message under a key. */
  type Mac = (bytes, bytes) -> Proof

  /** The text that both sides sign, as ASCII. */
  const PROOF_MESSAGE := "Signed Trogdor string, by Ryjan."

  function Ascii(s: string): bytes {
    seq(|s|, i requires 0 <= i < |s| => if s[i] < 128 as char then s[i] as int else 0)
  }

  function PairingKeyProof(mac: Mac, key: bytes): Result<Proof> {
    if |key| != 32 then Err(Protocol) else Ok(mac(key, Ascii(PROOF_MESSAGE)))
  }

  /** The proof is the shade's and the central's signature of the same 32 bytes. */
  lemma ProofSigns(mac: Mac, key: bytes)
    ensures PairingKeyProof(mac, key) ==
            if |key| == 32 then
              Ok(mac(key, [83, 105, 103, 110, 101, 100, 32, 84, 114, 111, 103, 100, 111, 114, 32, 115, 116, 114, 105,
                           110, 103, 44, 32, 98, 121, 32, 82, 121, 106, 97, 110, 46]))
            else Err(Protocol)
  {
    assert Ascii(PROOF_MESSAGE) ==
           [83, 105, 103, 110, 101, 100, 32, 84, 114, 111, 103, 100, 111, 114, 32, 115, 116, 114, 105,
            110, 103, 44, 32, 98, 121, 32, 82, 121, 106, 97, 110, 46];
  }

  function PairingKeyMatchesProof(mac: Mac, key: bytes, proof: bytes): Result<bool> {
    if |proof| != 32 then Ok(false)
    else
      var expected :- PairingKeyProof(mac, key);
      Ok(expected == proof)
  }

  /** Only the key's own proof matches; a proof of another length does not, whatever the
      key, and for one of 32 bytes the key has to have as many. */
  lemma ProofMatches(mac: Mac, key: bytes, proof: bytes)
    ensures PairingKeyMatchesProof(mac, key, proof) ==
            if |proof| == 32 && |key| != 32 then Err(Protocol)
            else Ok(|key| == 32 && proof == mac(key, Ascii(PROOF_MESSAGE)))
  {
    hide Ascii;
  }
}
