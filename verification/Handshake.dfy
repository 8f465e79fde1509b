/** What the central makes of the three replies of the handshake. */
module Handshake {
  import opened Bytes
  import opened Results
  import opened Ctr
  import opened CryptoFrames

  /** The version selected from the shade's list: 2 if it is there, else 1. */
  function ChooseVersion(reply: bytes): Result<byte> {
    var response :- ParseCryptoResponse(reply);
    var versions :- ParseProtocolVersions(response);
    if SUPPORTED[0] in versions then Ok(SUPPORTED[0])
    else if SUPPORTED[1] in versions then Ok(SUPPORTED[1])
    else Err(Protocol)
  }

  /** The selection is confirmed by its echo, or by an ACK of the selection command. */
  function CheckSelection(reply: bytes, selected: byte): Result<()> {
    var selection :- ParseCryptoResponse(reply);
    match selection.command
    case SelectProtocolVersion => if selection.payload != [selected] then Err(Protocol) else Ok(())
    case Ack => if selection.payload != [SelectProtocolVersion.Code()] then Err(Protocol) else Ok(())
    case _ => Err(Protocol)
  }

  function CheckNonce(mac: Mac, key: bytes, reply: bytes): Result<Nonce> {
    var response :- ParseCryptoResponse(reply);
    var answer :- ParseNonceResponse(response);
    var matches :- PairingKeyMatchesProof(mac, key, answer.keyProof);
    if matches then Ok(answer.nonce) else Err(Authentication)
  }

  /** reply is a version list with these versions; what follows them is ignored. */
  ghost predicate Lists(reply: bytes, versions: bytes) {
    && |versions| < 256
    && exists ignored: bytes :: reply == ListFrame(versions, ignored)
  }

  function ListFrame(versions: bytes, ignored: bytes): bytes
    requires |versions| < 256
  {
    CryptoFrame(RequestProtocolVersions, [|versions|] + versions + ignored)
  }

  /** A version list is parsed into its versions, and nothing else is. */
  lemma ListParsed(reply: bytes, versions: bytes)
    ensures Lists(reply, versions) <==>
            ParseCryptoResponse(reply).Ok? && ParseProtocolVersions(ParseCryptoResponse(reply).value) == Ok(versions)
  {
    hide CryptoFrame, ParseCryptoResponse;
    var parsed := ParseCryptoResponse(reply);
    if parsed.Ok? && ParseProtocolVersions(parsed.value) == Ok(versions) {
      ParseVersionsExact(parsed.value, versions);
      ParseCryptoExact(reply, parsed.value);
      var ignored := parsed.value.payload[1 + |versions|..];
      assert parsed.value.payload == [|versions|] + versions + ignored;
      assert reply == ListFrame(versions, ignored);
    }
    if Lists(reply, versions) {
      var ignored: bytes :| reply == ListFrame(versions, ignored);
      var r := CryptoResponse(RequestProtocolVersions, [|versions|] + versions + ignored);
      ParseCryptoExact(reply, r);
      ParseVersionsExact(r, versions);
    }
  }

  /** Version 2 is chosen from any list that has it, 1 from any other that has that, and
      from nothing else any. */
  lemma ChoosesVersion(reply: bytes, v: byte)
    ensures ChooseVersion(reply) == Ok(v) <==>
            exists versions: bytes :: Lists(reply, versions) && v == (if 2 in versions then 2 else 1) && v in versions
  {
    hide Lists, ParseCryptoResponse, ParseProtocolVersions;
    var parsed := ParseCryptoResponse(reply);
    if parsed.Ok? && ParseProtocolVersions(parsed.value).Ok? {
      ListParsed(reply, ParseProtocolVersions(parsed.value).value);
    }
    forall versions: bytes | Lists(reply, versions)
      ensures parsed.Ok? && ParseProtocolVersions(parsed.value) == Ok(versions)
    {
      ListParsed(reply, versions);
    }
  }

  /** The selection of v is confirmed by its echo and by an ACK that names the command
      0x03, and by nothing else. */
  lemma ConfirmsSelection(reply: bytes, v: byte)
    ensures CheckSelection(reply, v) == Ok(()) <==>
            reply == CryptoFrame(SelectProtocolVersion, [v]) || reply == CryptoFrame(CryptoCommand.Ack, [0x03])
    ensures CheckSelection(reply, v).Ok? ==> CheckSelection(reply, v) == Ok(())
  {
    hide CryptoFrame, ParseCryptoResponse;
    ParseCryptoExact(reply, CryptoResponse(SelectProtocolVersion, [v]));
    ParseCryptoExact(reply, CryptoResponse(CryptoCommand.Ack, [0x03]));
  }

  /** The nonce is taken from a reply that carries it with the proof of this key, and from
      nothing else. */
  lemma TakesNonce(mac: Mac, key: bytes, reply: bytes, n: Nonce)
    ensures CheckNonce(mac, key, reply) == Ok(n) <==>
            |key| == 32 && reply == CryptoFrame(RequestNonce, n + mac(key, Ascii(PROOF_MESSAGE)))
  {
    hide CryptoFrame, ParseCryptoResponse, Ascii;
    var proof := mac(key, Ascii(PROOF_MESSAGE));
    ParseCryptoExact(reply, CryptoResponse(RequestNonce, n + proof));
    ParseNonceExact(CryptoResponse(RequestNonce, n + proof), NonceResponse(n, proof));
    if CheckNonce(mac, key, reply) == Ok(n) {
      var r := ParseCryptoResponse(reply).value;
      ParseNonceExact(r, ParseNonceResponse(r).value);
      assert r.payload == n + proof;
    }
  }

  /** A wrong proof, or a checksum that does not fit, is not authentic; any other reply
      that is refused breaks the protocol. */
  lemma HandshakeRefuses(mac: Mac, key: bytes, reply: bytes, v: byte)
    requires |key| == 32
    ensures
      var parsed := ParseCryptoResponse(reply);
      && (parsed.Err? ==>
            ChooseVersion(reply) == Err(parsed.error) && CheckSelection(reply, v) == Err(parsed.error)
            && CheckNonce(mac, key, reply) == Err(parsed.error))
      && (parsed.Ok? ==>
            && (ChooseVersion(reply).Err? ==> ChooseVersion(reply) == Err(Protocol))
            && (CheckSelection(reply, v).Err? ==> CheckSelection(reply, v) == Err(Protocol))
            && (CheckNonce(mac, key, reply).Err? ==>
                  CheckNonce(mac, key, reply) ==
                  Err(if parsed.value.command.RequestNonce? && |parsed.value.payload| == 44 then Authentication
                      else Protocol)))
  {
    hide ParseCryptoResponse, Ascii;
  }

  /** What the replies can make the handshake raise. */
  lemma HandshakeErrors(mac: Mac, key: bytes, reply: bytes, selected: byte)
    ensures ChooseVersion(reply).Err? ==> ChooseVersion(reply).error in {Protocol, Authentication}
    ensures CheckSelection(reply, selected).Err? ==> CheckSelection(reply, selected).error in {Protocol, Authentication}
    ensures CheckNonce(mac, key, reply).Err? ==> CheckNonce(mac, key, reply).error in {Protocol, Authentication}
  {}
}
