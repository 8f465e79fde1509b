/** AES-CTR as section 6.5 of NIST SP 800-38A defines it, over an arbitrary block
    function: the counter block is a 128-bit big-endian integer, one up for each block. */
module Ctr {
  import opened Bytes
  import opened Crc16
  import opened CrcDetection

  const BLOCK := 16

  type Block = b: bytes | |b| == BLOCK witness seq(BLOCK, _ => 0)

  /** The block function of AES-128: a 16-byte key and a block to a block. */
  type Cipher = (bytes, Block) -> Block

  // ---- big-endian integers ----

  function BeValue(b: bytes): nat {
    if b == [] then 0 else 256 * BeValue(b[..|b| - 1]) + b[|b| - 1]
  }

  /** The lowest width bytes of n: what is above them is cut off. */
  function BeBytes(width: nat, n: nat): (b: bytes)
    ensures |b| == width
  {
    if width == 0 then [] else BeBytes(width - 1, n / 256) + [n % 256]
  }

  lemma {:induction false} BeRoundTrip(b: bytes)
    ensures BeBytes(|b|, BeValue(b)) == b
  {
    if b != [] {
      BeRoundTrip(b[..|b| - 1]);
      assert b == b[..|b| - 1] + [b[|b| - 1]];
    }
  }

  lemma BeValueSnoc(b: bytes, x: byte)
    ensures BeValue(b + [x]) == 256 * BeValue(b) + x
  {
    assert (b + [x])[..|b|] == b;
  }

  // ---- counter blocks ----

  type Nonce = b: bytes | |b| == 12 witness seq(12, _ => 0)

  function Iv(nonce: Nonce, header: bytes): Block
    requires |header| == 2
  {
    nonce + header + [0, 0]
  }

  /** The counter block of the i-th block after the initial one. */
  function CounterBlock(iv: Block, i: nat): Block {
    BeBytes(BLOCK, BeValue(iv) + i)
  }

  lemma LowFourBytes(nonce: Nonce, n: nat)
    requires n < 0x1_0000_0000
    ensures BeBytes(BLOCK, 0x1_0000_0000 * BeValue(nonce) + n) ==
            nonce + Be16(n / 0x1_0000) + Be16(n % 0x1_0000)
  {
    var v := 0x1_0000_0000 * BeValue(nonce) + n;
    var n1, n2, n3 := n / 0x100, n / 0x1_0000, n / 0x100_0000;
    assert v / 256 == 0x100_0000 * BeValue(nonce) + n1;
    assert v / 256 / 256 == 0x1_0000 * BeValue(nonce) + n2;
    assert v / 256 / 256 / 256 == 0x100 * BeValue(nonce) + n3;
    assert v / 256 / 256 / 256 / 256 == BeValue(nonce);
    BeRoundTrip(nonce);
    assert BeBytes(13, v / 256 / 256 / 256) == nonce + [n3];
    assert BeBytes(14, v / 256 / 256) == nonce + [n3] + [n2 % 256];
    assert BeBytes(15, v / 256) == nonce + [n3] + [n2 % 256] + [n1 % 256];
    assert Be16(n2) == [n3, n2 % 256];
    assert Be16(n % 0x1_0000) == [n1 % 256, n % 256];
  }

  lemma IvValue(nonce: Nonce, header: bytes)
    requires |header| == 2
    ensures BeValue(Iv(nonce, header)) == 0x1_0000_0000 * BeValue(nonce) + 0x1_0000 * FromBe16(header)
  {
    var a, b, c := nonce + [header[0]], nonce + [header[0]] + [header[1]], nonce + [header[0]] + [header[1]] + [0];
    BeValueSnoc(nonce, header[0]);
    BeValueSnoc(a, header[1]);
    BeValueSnoc(b, 0);
    BeValueSnoc(c, 0);
    assert Iv(nonce, header) == c + [0];
  }

  /** The initial block ends in 0x0000, so the block number runs in the last two bytes
      and, past 65536 blocks, spills into the header's number. */
  lemma CounterBlockShape(nonce: Nonce, header: bytes, i: nat)
    requires |header| == 2 && FromBe16(header) + i / 0x1_0000 < 0x1_0000
    ensures CounterBlock(Iv(nonce, header), i) ==
            nonce + Be16(FromBe16(header) + i / 0x1_0000) + Be16(i % 0x1_0000)
  {
    IvValue(nonce, header);
    var n := 0x1_0000 * FromBe16(header) + i;
    assert n / 0x1_0000 == FromBe16(header) + i / 0x1_0000 && n % 0x1_0000 == i % 0x1_0000;
    LowFourBytes(nonce, n);
  }

  /** Frames under different headers share no counter block, as long as both have at
      most 65536 blocks. */
  lemma CounterBlocksDisjoint(nonce: Nonce, h1: bytes, i: nat, h2: bytes, j: nat)
    requires |h1| == |h2| == 2 && i < 0x1_0000 && j < 0x1_0000
    ensures CounterBlock(Iv(nonce, h1), i) == CounterBlock(Iv(nonce, h2), j) <==> h1 == h2 && i == j
  {
    CounterBlockShape(nonce, h1, i);
    CounterBlockShape(nonce, h2, j);
    Be16Inverse(h1);
    Be16Inverse(h2);
    var a, b := CounterBlock(Iv(nonce, h1), i), CounterBlock(Iv(nonce, h2), j);
    assert a[12..14] == h1 && b[12..14] == h2;
    assert a[14..] == Be16(i) && b[14..] == Be16(j);
  }

  /** The bound is sharp: block 65536 of one header is block 0 of the next. */
  lemma CounterBlocksMeet(nonce: Nonce, h: nat)
    requires h < 0xFFFF
    ensures CounterBlock(Iv(nonce, Be16(h)), 0x1_0000) == CounterBlock(Iv(nonce, Be16(h + 1)), 0)
  {
    CounterBlockShape(nonce, Be16(h), 0x1_0000);
    CounterBlockShape(nonce, Be16(h + 1), 0);
  }

  // ---- the mode ----

  function KeystreamByte(cipher: Cipher, key: bytes, iv: Block, k: nat): byte {
    cipher(key, CounterBlock(iv, k / BLOCK))[k % BLOCK]
  }

  /** key[:16] is the AES key. */
  function AesKey(key: bytes): bytes {
    if |key| <= 16 then key else key[..16]
  }

  function AesCtr(cipher: Cipher, data: bytes, key: bytes, iv: Block): (r: bytes)
    ensures |r| == |data|
  {
    seq(|data|, k requires 0 <= k < |data| => Xor(data[k], KeystreamByte(cipher, AesKey(key), iv, k)))
  }

  /** What the mask is: byte j of block i goes under that byte of what the block function
      makes, with the first 16 bytes of the key, of a block of three fields: the nonce, the
      header's number (one more for each 65536 blocks), and i modulo 65536. */
  lemma AesCtrMasks(cipher: Cipher, data: bytes, key: bytes, nonce: Nonce, header: bytes, i: nat, j: nat)
    requires |key| >= 16 && |header| == 2 && FromBe16(header) + i / 0x1_0000 < 0x1_0000
    requires j < 16 && 16 * i + j < |data|
    ensures
      var block := nonce + Be16(FromBe16(header) + i / 0x1_0000) + Be16(i % 0x1_0000);
      && |block| == 16
      && AesCtr(cipher, data, key, Iv(nonce, header))[16 * i + j] == Xor(data[16 * i + j], cipher(key[..16], block)[j])
  {
    hide Xor, CounterBlock, Be16;
    CounterBlockShape(nonce, header, i);
    assert (16 * i + j) / 16 == i && (16 * i + j) % 16 == j;
    assert AesKey(key) == key[..16];
  }

  lemma CtrInvolution(cipher: Cipher, data: bytes, key: bytes, iv: Block)
    ensures AesCtr(cipher, AesCtr(cipher, data, key, iv), key, iv) == data
  {
    var masked := AesCtr(cipher, data, key, iv);
    forall k | 0 <= k < |data|
      ensures AesCtr(cipher, masked, key, iv)[k] == data[k]
    {
      XorInvolution(data[k], KeystreamByte(cipher, AesKey(key), iv, k));
    }
  }

  // ---- bit errors pass through unchanged ----

  lemma HalvePlus(u: Register, v: Register)
    ensures Halve(u.Plus(v)) == Halve(u).Plus(Halve(v))
  {}

  lemma {:induction false} WordOfDifferences(a: seq<bool>, b: seq<bool>)
    requires |a| == |b|
    ensures Word(Differences(a, b)) == Word(a).Plus(Word(b))
  {
    if a == [] {
      PlusZero(ZERO);
    } else {
      WordOfDifferences(a[1..], b[1..]);
      assert Differences(a, b)[1..] == Differences(a[1..], b[1..]);
      HalvePlus(Word(a[1..]), Word(b[1..]));
      TopBitDifference(a[0], b[0]);
      PlusRegroups(TopBit(a[0]), TopBit(b[0]), Halve(Word(a[1..])), Halve(Word(b[1..])));
    }
  }

  lemma PlusItself(v: Register)
    ensures v.Plus(v) == ZERO
  {}

  lemma WordInjective(a: seq<bool>, b: seq<bool>)
    requires |a| == |b| <= 16 && Word(a) == Word(b)
    ensures a == b
  {
    WordOfDifferences(a, b);
    PlusItself(Word(a));
    WordZero(Differences(a, b));
    SameBits(a, b);
  }

  function Up8(b: bv8): Register {
    Register((b as bv16) << 8)
  }

  lemma Up8Xor(a: bv8, b: bv8)
    ensures Up8(a ^ b) == Up8(a).Plus(Up8(b))
  {}

  lemma WordOfPatterns(p: bv8, m: bv8)
    ensures Word(BitsOf(p ^ m)) == Word(BitsOf(p)).Plus(Word(BitsOf(m)))
  {
    ByteWord(p);
    ByteWord(m);
    ByteWord(p ^ m);
    Up8Xor(p, m);
  }

  lemma WordOfXor(a: byte, mask: byte)
    ensures Word(BitsOf(Pattern(Xor(a, mask)))) == Word(BitsOf(Pattern(a))).Plus(Word(BitsOf(Pattern(mask))))
  {
    XorPattern(a, mask);
    WordOfPatterns(Pattern(a), Pattern(mask));
  }

  lemma MaskTwice(a: Register, b: Register, m: Register)
    ensures a.Plus(m).Plus(b.Plus(m)) == a.Plus(b)
  {}

  /** The same mask on two bytes leaves their difference. */
  lemma MaskCancels(a: byte, b: byte, mask: byte)
    ensures Differences(BitsOf(Pattern(Xor(a, mask))), BitsOf(Pattern(Xor(b, mask)))) ==
            Differences(BitsOf(Pattern(a)), BitsOf(Pattern(b)))
  {
    var x, y := BitsOf(Pattern(Xor(a, mask))), BitsOf(Pattern(Xor(b, mask)));
    var p, q := BitsOf(Pattern(a)), BitsOf(Pattern(b));
    WordOfXor(a, mask);
    WordOfXor(b, mask);
    MaskTwice(Word(p), Word(q), Word(BitsOf(Pattern(mask))));
    WordOfDifferences(x, y);
    WordOfDifferences(p, q);
    WordInjective(Differences(x, y), Differences(p, q));
  }

  lemma BitErrorsSnoc(a: bytes, b: bytes, x: byte, y: byte)
    requires |a| == |b|
    ensures BitErrors(a + [x], b + [y]) == BitErrors(a, b) + Weight(Differences(BitsOf(Pattern(x)), BitsOf(Pattern(y))))
  {
    assert (a + [x])[..|a|] == a && (b + [y])[..|b|] == b;
    LastByte(a + [x]);
    LastByte(b + [y]);
    WeightOfDifferences(MessageBits(a), BitsOf(Pattern(x)), MessageBits(b), BitsOf(Pattern(y)));
  }

  lemma AesCtrSnoc(cipher: Cipher, a: bytes, x: byte, key: bytes, iv: Block)
    ensures AesCtr(cipher, a + [x], key, iv) ==
            AesCtr(cipher, a, key, iv) + [Xor(x, KeystreamByte(cipher, AesKey(key), iv, |a|))]
  {}

  lemma CtrErrorsSnoc(cipher: Cipher, a: bytes, b: bytes, x: byte, y: byte, key: bytes, iv: Block)
    requires |a| == |b|
    ensures BitErrors(AesCtr(cipher, a + [x], key, iv), AesCtr(cipher, b + [y], key, iv)) ==
            BitErrors(AesCtr(cipher, a, key, iv), AesCtr(cipher, b, key, iv))
            + Weight(Differences(BitsOf(Pattern(x)), BitsOf(Pattern(y))))
  {
    var mask := KeystreamByte(cipher, AesKey(key), iv, |a|);
    AesCtrSnoc(cipher, a, x, key, iv);
    AesCtrSnoc(cipher, b, y, key, iv);
    MaskCancels(x, y, mask);
    BitErrorsSnoc(AesCtr(cipher, a, key, iv), AesCtr(cipher, b, key, iv), Xor(x, mask), Xor(y, mask));
  }

  /** A masked frame with some bits flipped unmasks to the frame with the same number of
      bits flipped. */
  lemma {:induction false} CtrCarriesErrors(cipher: Cipher, a: bytes, b: bytes, key: bytes, iv: Block)
    requires |a| == |b|
    ensures BitErrors(AesCtr(cipher, a, key, iv), AesCtr(cipher, b, key, iv)) == BitErrors(a, b)
  {
    if a != [] {
      var p, q, x, y := a[..|a| - 1], b[..|a| - 1], a[|a| - 1], b[|a| - 1];
      assert a == p + [x] && b == q + [y];
      CtrCarriesErrors(cipher, p, q, key, iv);
      CtrErrorsSnoc(cipher, p, q, x, y, key, iv);
      BitErrorsSnoc(p, q, x, y);
    }
  }

  lemma SameHasNoErrors(a: bytes)
    ensures BitErrors(a, a) == 0
  {
    NoWeight(Differences(MessageBits(a), MessageBits(a)));
  }

  /** A common prefix adds no errors. */
  lemma {:induction false} PrefixAddsNoErrors(p: bytes, a: bytes, b: bytes)
    requires |a| == |b|
    ensures BitErrors(p + a, p + b) == BitErrors(a, b)
  {
    if a == [] {
      assert p + a == p && p + b == p && a == b;
      SameHasNoErrors(p);
      SameHasNoErrors(a);
    } else {
      var n := |a| - 1;
      PrefixAddsNoErrors(p, a[..n], b[..n]);
      BitErrorsSnoc(a[..n], b[..n], a[n], b[n]);
      BitErrorsSnoc(p + a[..n], p + b[..n], a[n], b[n]);
      assert a == a[..n] + [a[n]] && b == b[..n] + [b[n]];
      assert p + a == (p + a[..n]) + [a[n]] && p + b == (p + b[..n]) + [b[n]];
    }
  }
}
