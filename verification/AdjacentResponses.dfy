/** Two neighbouring bytes of a response changed: what gets past the checksum, and what a
    status read makes of it. */
module AdjacentResponses {
  import opened Bytes
  import opened Results
  import opened CrcDetection
  import opened AdjacentBytes
  import opened CryptoFrames
  import opened Ctr
  import opened AppCodec
  import opened Status

  /** Verification rejects every such change of a good frame but the one that slips. */
  lemma VerifyAdjacent(f: bytes, g: bytes, k: nat, headerSize: nat)
    requires SameBut(f, g, k) && f != g && headerSize + 3 <= |f|
    requires VerifyChecksum(f[..headerSize], f[headerSize..]).Ok?
    ensures VerifyChecksum(g[..headerSize], g[headerSize..]).Ok? <==> Slips(f, g, k)
  {
    hide Sealed, Xor;
    VerifySealed(f[..headerSize], f[headerSize..]);
    VerifySealed(g[..headerSize], g[headerSize..]);
    assert f == f[..headerSize] + f[headerSize..] && g == g[..headerSize] + g[headerSize..];
    AdjacentChange(f, g, k);
  }

  // ---- under the mask ----

  lemma MaskKeepsDifference(a: byte, b: byte, m: byte)
    ensures Xor(Xor(a, m), Xor(b, m)) == Xor(a, b)
  {
    XorPattern(a, m);
    XorPattern(b, m);
    XorPattern(a, b);
    XorPattern(Xor(a, m), Xor(b, m));
    MaskedWords(Pattern(a), Pattern(b), Pattern(m));
    PatternInjective(Xor(Xor(a, m), Xor(b, m)), Xor(a, b));
  }

  lemma MaskedWords(a: bv8, b: bv8, m: bv8)
    ensures (a ^ m) ^ (b ^ m) == a ^ b
  {}

  lemma MaskedDifference(cipher: Cipher, a: bytes, b: bytes, key: bytes, iv: Block)
    requires |a| == |b|
    ensures
      var p, q := AesCtr(cipher, a, key, iv), AesCtr(cipher, b, key, iv);
      forall i :: 0 <= i < |a| ==> Xor(p[i], q[i]) == Xor(a[i], b[i]) && (a[i] == b[i] ==> p[i] == q[i])
  {
    hide Xor;
    var p, q := AesCtr(cipher, a, key, iv), AesCtr(cipher, b, key, iv);
    forall i | 0 <= i < |a|
      ensures Xor(p[i], q[i]) == Xor(a[i], b[i]) && (a[i] == b[i] ==> p[i] == q[i])
    {
      MaskKeepsDifference(a[i], b[i], KeystreamByte(cipher, AesKey(key), iv, i));
    }
  }

  /** Masking changes neither where two frames differ nor how. */
  lemma MaskedSameBut(cipher: Cipher, header: bytes, a: bytes, b: bytes, key: bytes, iv: Block, k: nat)
    requires SameBut(header + a, header + b, k) && a != b
    ensures
      var p, q := AesCtr(cipher, a, key, iv), AesCtr(cipher, b, key, iv);
      && SameBut(header + p, header + q, k) && p != q
      && (Slips(header + p, header + q, k) <==> Slips(header + a, header + b, k))
  {
    hide AesCtr, Xor;
    var p, q := AesCtr(cipher, a, key, iv), AesCtr(cipher, b, key, iv);
    var h := |header|;
    assert |header + a| == h + |a| && |header + b| == h + |b|;
    MaskedDifference(cipher, a, b, key, iv);
    forall i | 0 <= i < |a| && i + h != k && i + h != k + 1
      ensures p[i] == q[i]
    {
      Elsewhere(header + a, header + b, k, h + i);
    }
    assert (header + p)[..k] == (header + q)[..k] && (header + p)[k + 2..] == (header + q)[k + 2..];
    DifferentUnmasked(cipher, a, b, key, iv);
    if k + 3 == h + |a| && k < h {
      HeaderByte(header, a, b, k);
    }
  }

  lemma Elsewhere(f: bytes, g: bytes, k: nat, i: nat)
    requires SameBut(f, g, k) && i < |f| && i != k && i != k + 1
    ensures f[i] == g[i]
  {
    if i < k {
      assert f[i] == f[..k][i] && g[i] == g[..k][i];
    } else {
      assert f[i] == f[k + 2..][i - k - 2] && g[i] == g[k + 2..][i - k - 2];
    }
  }

  lemma HeaderByte(header: bytes, a: bytes, b: bytes, k: nat)
    requires k < |header|
    ensures (header + a)[k] == header[k] == (header + b)[k]
  {}

  lemma DifferentUnmasked(cipher: Cipher, a: bytes, b: bytes, key: bytes, iv: Block)
    requires a != b
    ensures AesCtr(cipher, a, key, iv) != AesCtr(cipher, b, key, iv)
  {
    hide AesCtr;
    CtrInvolution(cipher, a, key, iv);
    CtrInvolution(cipher, b, key, iv);
  }

  // ---- what the codec makes of the one change that slips ----

  lemma XorSolved(a: byte, b: byte, w: byte)
    requires Xor(a, b) == w
    ensures b == Xor(a, w)
  {
    XorTwice(a, b);
  }

  lemma ReadCodesSpoiled()
    ensures Xor(0x04, 0x89) == 0x8D && Xor(0x05, 0x89) == 0x8C && Xor(0x10, 0x89) == 0x99
  {}

  lemma OtherCodesSpoiled()
    ensures Xor(0x12, 0x89) == 0x9B && Xor(0x13, 0x89) == 0x9A && Xor(0x16, 0x89) == 0x9F
  {}

  /** A command byte changed by 0x89 is no command. */
  lemma CommandSpoiled(command: ShadeCommand, code: byte)
    requires command.IsRuntime() && Xor(command.Code(), code) == 0x89
    ensures ShadeCommandOf(code) == None
  {
    XorSolved(command.Code(), code, 0x89);
    ReadCodesSpoiled();
    OtherCodesSpoiled();
    hide Xor;
  }

  lemma ByteSpoiled(a: byte, b: byte)
    requires Xor(a, b) == 0x89
    ensures a != b
  {
    XorSame(a);
  }

  /** two is one with its last byte changed by 0x89. */
  predicate LastSpoiled(one: bytes, two: bytes) {
    var n := |one| - 1;
    |two| == |one| > 0 && two[..n] == one[..n] && Xor(one[n], two[n]) == 0x89
  }

  /** Whether the payload is long enough to hide a changed last byte: it is not the command
      itself, nor the command that an ACK names. */
  predicate Hides(r: ApplicationResponse) {
    r.payload != [] && (r.command.Ack? ==> |r.payload| >= 2)
  }

  lemma PresentationSpoiled(one: bytes, two: bytes, counter: nat, command: ShadeCommand, id: int,
      r: ApplicationResponse)
    requires command.IsRuntime() && LastSpoiled(one, two)
    requires CheckPresentation(one, counter, command, id) == Ok(r)
    ensures CheckPresentation(two, counter, command, id) ==
            if Hides(r) then Ok(r.(payload := two[2..])) else Err(Protocol)
    ensures Hides(r) ==> LastSpoiled(r.payload, two[2..])
  {
    var n := |one| - 1;
    assert forall i :: 0 <= i < n ==> one[i] == one[..n][i] == two[..n][i] == two[i];
    hide Xor;
    ByteSpoiled(one[n], two[n]);
    if |one| == 2 {
      CommandSpoiled(command, two[1]);
    } else {
      assert one[2..][..n - 2] == one[..n][2..] && two[2..][..n - 2] == two[..n][2..];
    }
  }

  /** An acceptable response with two neighbouring bytes changed at most: it is accepted
      only if the last byte of the payload and the first of the checksum changed by 0x89
      and 0xA1, and that byte is not the command or the one command an ACK names; then the
      payload comes out with that change. */
  lemma AdjacentResponse(cipher: Cipher, sent: bytes, received: bytes, key: bytes, nonce: Nonce,
      command: ShadeCommand, id: int, counter: int, k: nat)
    requires |key| == 32 && command.IsRuntime() && SameBut(sent, received, k) && sent != received
    ensures
      var s := DecodeApplicationResponse(cipher, sent, key, nonce, command, id, Some(counter));
      var d := DecodeApplicationResponse(cipher, received, key, nonce, command, id, Some(counter));
      s.Ok? ==>
        && (d.Ok? <==> Slips(sent, received, k) && Hides(s.value))
        && (d.Ok? ==> d.value == s.value.(payload := d.value.payload) && LastSpoiled(s.value.payload, d.value.payload))
  {
    hide DecodeApplicationResponse, DecodeBody, Slips, Hides, LastSpoiled;
    if DecodeApplicationResponse(cipher, sent, key, nonce, command, id, Some(counter)).Ok? {
      DecodeOk(cipher, sent, key, nonce, command, id, counter);
      DecodeHeader(cipher, sent, key, nonce, command, id, counter);
      DecodeHeader(cipher, received, key, nonce, command, id, counter);
      var header := Be16(counter);
      if received[..2] == header {
        assert sent == header + sent[2..] && received == header + received[2..];
        AdjacentBody(cipher, header, sent[2..], received[2..], key, nonce, command, id, k);
      } else {
        SlipsBehindHeader(sent, received, k);
      }
    }
  }

  lemma SlipsBehindHeader(sent: bytes, received: bytes, k: nat)
    requires SameBut(sent, received, k) && |sent| >= 6
    ensures Slips(sent, received, k) ==> received[..2] == sent[..2]
  {
    if Slips(sent, received, k) {
      assert sent[..2] == sent[..k][..2] && received[..2] == received[..k][..2];
    }
  }

  lemma AdjacentBody(cipher: Cipher, header: bytes, a: bytes, b: bytes, key: bytes, nonce: Nonce,
      command: ShadeCommand, id: int, k: nat)
    requires |header| == 2 && command.IsRuntime() && SameBut(header + a, header + b, k) && a != b && |a| >= 4
    requires DecodeBody(cipher, header, a, key, nonce, command, id).Ok?
    ensures
      var s := DecodeBody(cipher, header, a, key, nonce, command, id);
      var d := DecodeBody(cipher, header, b, key, nonce, command, id);
      && (d.Ok? <==> Slips(header + a, header + b, k) && Hides(s.value))
      && (d.Ok? ==> d.value == s.value.(payload := d.value.payload) && LastSpoiled(s.value.payload, d.value.payload))
  {
    hide AesCtr, Xor, CheckPresentation, Hides;
    var iv := Iv(nonce, ReceiveHeader(header));
    var p, q := AesCtr(cipher, a, key, iv), AesCtr(cipher, b, key, iv);
    MaskedSameBut(cipher, header, a, b, key, iv, k);
    VerifyMasked(header, p, q, k);
    if Slips(header + p, header + q, k) {
      PresentationSpoiled(p[..|p| - 2], q[..|q| - 2], FromBe16(header), command, id,
        DecodeBody(cipher, header, a, key, nonce, command, id).value);
    }
  }

  lemma VerifyMasked(header: bytes, p: bytes, q: bytes, k: nat)
    requires |header| == 2 && SameBut(header + p, header + q, k) && p != q && |p| >= 4
    requires VerifyChecksum(header, p).Ok?
    ensures |q| == |p| && VerifyChecksum(header, p) == Ok(p[..|p| - 2])
    ensures VerifyChecksum(header, q).Ok? <==> Slips(header + p, header + q, k)
    ensures VerifyChecksum(header, q).Ok? ==> VerifyChecksum(header, q) == Ok(q[..|q| - 2])
    ensures Slips(header + p, header + q, k) ==> LastSpoiled(p[..|p| - 2], q[..|q| - 2])
  {
    hide Trailer, Xor;
    var f, g := header + p, header + q;
    assert f[..2] == header && f[2..] == p && g[..2] == header && g[2..] == q;
    VerifyAdjacent(f, g, k, 2);
    if Slips(f, g, k) {
      var m := |p| - 3;
      assert p[..|p| - 2][..m] == f[..k][2..] && q[..|q| - 2][..m] == g[..k][2..];
    }
  }

  // ---- a status read ----

  lemma FlagsSpoiled()
    ensures Xor(0, 0x89) == 0x89 && Xor(1, 0x89) == 0x88
  {}

  /** The one change that slips spoils the calibration flag of a status, which then is no
      flag: two neighbouring bytes changed never turn one status into another. */
  lemma AdjacentStatus(cipher: Cipher, sent: bytes, received: bytes, key: bytes, nonce: Nonce,
      id: int, counter: int, k: nat)
    requires |key| == 32 && SameBut(sent, received, k) && sent != received
    ensures
      var s := DecodeApplicationResponse(cipher, sent, key, nonce, GetStatus, id, Some(counter));
      var d := DecodeApplicationResponse(cipher, received, key, nonce, GetStatus, id, Some(counter));
      s.Ok? && ParseStatus(s.value).Ok? ==> d.Err? || ParseStatus(d.value).Err?
  {
    hide DecodeApplicationResponse, ParseRawPosition, Xor;
    AdjacentResponse(cipher, sent, received, key, nonce, GetStatus, id, counter, k);
    var s := DecodeApplicationResponse(cipher, sent, key, nonce, GetStatus, id, Some(counter));
    var d := DecodeApplicationResponse(cipher, received, key, nonce, GetStatus, id, Some(counter));
    if s.Ok? && ParseStatus(s.value).Ok? && d.Ok? {
      XorSolved(s.value.payload[4], d.value.payload[4], 0x89);
      FlagsSpoiled();
    }
  }
}
