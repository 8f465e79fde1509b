/** What the checksum detects: frames of up to 4095 bytes that both carry a valid
    checksum differ in at least four bits; frames of any length differ in an even
    number of bits; and a burst of sixteen bits in a message changes its checksum.  In a
    frame a burst can go unnoticed only across the start of the trailer: see module
    AdjacentBytes. */
module CrcDetection {
  import opened Bytes
  import opened Crc16
  import opened CrcOrder

  /** The number of set bits. */
  function Weight(bits: seq<bool>): nat {
    if bits == [] then 0 else (if bits[0] then 1 else 0) + Weight(bits[1..])
  }

  lemma {:induction false} WeightConcat(a: seq<bool>, b: seq<bool>)
    ensures Weight(a + b) == Weight(a) + Weight(b)
  {
    if a == [] {
      assert a + b == b;
    } else {
      assert (a + b)[1..] == a[1..] + b;
      WeightConcat(a[1..], b);
    }
  }

  // ---- remainders of sparse bit streams ----

  const TOP := Register(0x8000)

  lemma {:induction false} DivideNothing(v: Register, bits: seq<bool>)
    requires Weight(bits) == 0
    ensures Divide(v, bits) == TimesXPower(|bits|, v)
    decreases |bits|
  {
    if bits != [] {
      assert TopBit(false) == ZERO;
      PlusZero(v);
      DivideNothing(v.TimesX(), bits[1..]);
    }
  }

  /** Adding a register before dividing adds its power afterwards. */
  lemma DivideFrom(v: Register, bits: seq<bool>)
    ensures Divide(v, bits) == TimesXPower(|bits|, v).Plus(Divide(ZERO, bits))
  {
    var zeros := seq(|bits|, _ => false);
    NoWeight(zeros);
    DivideNothing(v, zeros);
    DivideDifference(v, ZERO, zeros, bits);
    assert Differences(zeros, bits) == bits;
    PlusZero(v);
  }

  lemma {:induction false} NoWeight(bits: seq<bool>)
    requires forall i :: 0 <= i < |bits| ==> !bits[i]
    ensures Weight(bits) == 0
  {
    if bits != [] {
      NoWeight(bits[1..]);
    }
  }

  lemma {:induction false} OneBit(bits: seq<bool>) returns (k: nat)
    requires Weight(bits) == 1
    ensures 1 <= k <= |bits| && Divide(ZERO, bits) == TimesXPower(k, TOP)
    decreases |bits|
  {
    PlusZero(TopBit(bits[0]));
    if bits[0] {
      k := |bits|;
      DivideNothing(TOP.TimesX(), bits[1..]);
    } else {
      PowerZero(1);
      assert TimesXPower(1, ZERO) == ZERO.TimesX();
      k := OneBit(bits[1..]);
    }
  }

  lemma {:induction false} TwoBits(bits: seq<bool>) returns (j: nat, k: nat)
    requires Weight(bits) == 2
    ensures 1 <= j < k <= |bits|
    ensures Divide(ZERO, bits) == TimesXPower(k, TOP).Plus(TimesXPower(j, TOP))
    decreases |bits|
  {
    PlusZero(TopBit(bits[0]));
    if bits[0] {
      k := |bits|;
      j := OneBit(bits[1..]);
      DivideFrom(TOP.TimesX(), bits[1..]);
    } else {
      PowerZero(1);
      assert TimesXPower(1, ZERO) == ZERO.TimesX();
      j, k := TwoBits(bits[1..]);
    }
  }

  lemma TopIsPower()
    ensures TimesXPower(15, ONE) == TOP
  {
    assert TimesXPower(7, Register(0x0100)) == TOP by {
      assert TimesXPower(7, Register(0x0100)) == TimesXPower(6, Register(0x0200)) == TimesXPower(5, Register(0x0400));
      assert TimesXPower(5, Register(0x0400)) == TimesXPower(4, Register(0x0800)) == TimesXPower(3, Register(0x1000));
      assert TimesXPower(3, Register(0x1000)) == TimesXPower(2, Register(0x2000)) == TimesXPower(1, Register(0x4000));
    }
    SmallPowers();
    PowerAdd(7, 8, ONE);
  }

  /** Two different powers of x, less than the order apart, never cancel. */
  lemma PowersDiffer(j: nat, k: nat)
    requires j < k && k - j < ORDER
    ensures TimesXPower(j, TOP) != TimesXPower(k, TOP)
  {
    if TimesXPower(j, TOP) == TimesXPower(k, TOP) {
      TopIsPower();
      PowerAdd(j, 15, ONE);
      PowerAdd(k, 15, ONE);
      PowerAdd(j + 15, k - j, ONE);
      PowerInjective(j + 15, ONE, TimesXPower(k - j, ONE));
      OrderOfX(k - j);
    }
  }

  lemma PlusCancels(a: Register, b: Register)
    ensures a.Plus(b) == ZERO <==> a == b
  {}

  /** One or two set bits leave a remainder. */
  lemma SparseRemainder(bits: seq<bool>)
    requires 1 <= Weight(bits) <= 2 && |bits| <= ORDER
    ensures Divide(ZERO, bits) != ZERO
  {
    if Weight(bits) == 1 {
      var k := OneBit(bits);
      if TimesXPower(k, TOP) == ZERO {
        PowerZero(k);
        PowerInjective(k, TOP, ZERO);
      }
    } else {
      var j, k := TwoBits(bits);
      PowersDiffer(j, k);
      PlusCancels(TimesXPower(k, TOP), TimesXPower(j, TOP));
    }
  }

  // ---- parity ----

  function Right8(v: Register): Register { Register(v.word >> 8) }
  function Right4(v: Register): Register { Register(v.word >> 4) }
  function Right2(v: Register): Register { Register(v.word >> 2) }
  function Right1(v: Register): Register { Register(v.word >> 1) }
  function Low(v: Register): Register { Register(v.word & 1) }

  /** 1 if an odd number of bits of the word are set, else 0: the value of the
      polynomial at x = 1. */
  function Parity(v: Register): Register {
    var v8 := v.Plus(Right8(v));
    var v4 := v8.Plus(Right4(v8));
    var v2 := v4.Plus(Right2(v4));
    Low(v2.Plus(Right1(v2)))
  }

  lemma Right8Plus(a: Register, b: Register)
    ensures Right8(a.Plus(b)) == Right8(a).Plus(Right8(b))
  {}

  lemma Right4Plus(a: Register, b: Register)
    ensures Right4(a.Plus(b)) == Right4(a).Plus(Right4(b))
  {}

  lemma Right2Plus(a: Register, b: Register)
    ensures Right2(a.Plus(b)) == Right2(a).Plus(Right2(b))
  {}

  lemma Right1Plus(a: Register, b: Register)
    ensures Right1(a.Plus(b)) == Right1(a).Plus(Right1(b))
  {}

  lemma LowPlus(a: Register, b: Register)
    ensures Low(a.Plus(b)) == Low(a).Plus(Low(b))
  {}

  lemma ParityPlus(a: Register, b: Register)
    ensures Parity(a.Plus(b)) == Parity(a).Plus(Parity(b))
  {
    var a8, b8 := a.Plus(Right8(a)), b.Plus(Right8(b));
    var a4, b4 := a8.Plus(Right4(a8)), b8.Plus(Right4(b8));
    var a2, b2 := a4.Plus(Right2(a4)), b4.Plus(Right2(b4));
    Right8Plus(a, b);
    PlusRegroups(a, b, Right8(a), Right8(b));
    Right4Plus(a8, b8);
    PlusRegroups(a8, b8, Right4(a8), Right4(b8));
    Right2Plus(a4, b4);
    PlusRegroups(a4, b4, Right2(a4), Right2(b4));
    Right1Plus(a2, b2);
    PlusRegroups(a2, b2, Right1(a2), Right1(b2));
    LowPlus(a2.Plus(Right1(a2)), b2.Plus(Right1(b2)));
  }

  lemma ParityNibble3(v: Register)
    requires v.word & 0x0FFF == 0
    ensures Parity(v.TimesX()) == Parity(v)
  {}

  lemma ParityNibble2(v: Register)
    requires v.word & 0xF0FF == 0
    ensures Parity(v.TimesX()) == Parity(v)
  {}

  lemma ParityNibble10(v: Register)
    requires v.word & 0xFF00 == 0
    ensures Parity(v.TimesX()) == Parity(v)
  {}

  /** x + 1 divides the generator, so multiplication by x keeps the parity. */
  lemma ParityTimesX(v: Register)
    ensures Parity(v.TimesX()) == Parity(v)
  {
    var n3, n2, n10 := Register(v.word & 0xF000), Register(v.word & 0x0F00), Register(v.word & 0x00FF);
    SplitWord(v);
    ParityNibble3(n3);
    ParityNibble2(n2);
    ParityNibble10(n10);
    TimesXLinear(n3, n2);
    TimesXLinear(n3.Plus(n2), n10);
    ParityPlus(n3, n2);
    ParityPlus(n3.Plus(n2), n10);
    ParityPlus(n3.TimesX(), n2.TimesX());
    ParityPlus(n3.TimesX().Plus(n2.TimesX()), n10.TimesX());
  }

  predicate Odd(bits: seq<bool>) {
    Weight(bits) % 2 == 1
  }

  function OddBit(b: bool): Register {
    Register(if b then 1 else 0)
  }

  lemma OddBits(a: bool, b: bool, v: Register)
    ensures v.Plus(OddBit(a)).Plus(OddBit(b)) == v.Plus(OddBit(a != b))
  {}

  lemma ParityOfTopBit(b: bool)
    ensures Parity(TopBit(b)) == OddBit(b)
  {}

  lemma ParityStep(v: Register, b: bool)
    ensures Parity(v.Plus(TopBit(b)).TimesX()) == Parity(v).Plus(OddBit(b))
  {
    ParityTimesX(v.Plus(TopBit(b)));
    ParityPlus(v, TopBit(b));
    ParityOfTopBit(b);
  }

  /** The remainder has as many set bits as the stream, modulo two. */
  lemma {:induction false} DivideParity(v: Register, bits: seq<bool>)
    ensures Parity(Divide(v, bits)) == Parity(v).Plus(OddBit(Odd(bits)))
    decreases |bits|
  {
    if bits == [] {
      PlusZero(Parity(v));
    } else {
      var u := v.Plus(TopBit(bits[0])).TimesX();
      assert Odd(bits) == (bits[0] != Odd(bits[1..]));
      ParityStep(v, bits[0]);
      DivideParity(u, bits[1..]);
      OddBits(bits[0], Odd(bits[1..]), Parity(v));
    }
  }

  /** The checksum has as many set bits as the message, modulo two. */
  lemma ChecksumParity(data: bytes)
    ensures Parity(Register(Crc(data))) == OddBit(Odd(MessageBits(data)))
  {
    DivideParity(PRESET, MessageBits(data));
    assert Parity(PRESET) == ZERO;
    PlusZero(OddBit(Odd(MessageBits(data))));
  }

  /** The checksum is affine over xor: how the checksums of two messages of one length
      differ depends only on where the messages differ. */
  lemma ChecksumDifference(a: bytes, b: bytes)
    requires |a| == |b|
    ensures Register(Crc(a)).Plus(Register(Crc(b))) == Divide(ZERO, Differences(MessageBits(a), MessageBits(b)))
  {
    DivideDifference(PRESET, PRESET, MessageBits(a), MessageBits(b));
    assert PRESET.Plus(PRESET) == ZERO;
  }

  lemma OddRemainder(bits: seq<bool>)
    requires Odd(bits)
    ensures Divide(ZERO, bits) != ZERO
  {
    DivideParity(ZERO, bits);
    assert Parity(ZERO) == ZERO;
    PlusZero(OddBit(true));
  }

  /** One, two or three set bits leave a remainder. */
  lemma FewBitsRemainder(bits: seq<bool>)
    requires 1 <= Weight(bits) <= 3 && |bits| <= ORDER
    ensures Divide(ZERO, bits) != ZERO
  {
    if Weight(bits) == 3 {
      OddRemainder(bits);
    } else {
      SparseRemainder(bits);
    }
  }

  // ---- frames that end in their checksum, low byte first ----

  /** The two trailer bytes, in wire order. */
  function Trailer(data: bytes): (r: bytes)
    ensures |r| == 2
  {
    [FromPattern(LowByte(Crc(data))), FromPattern(HighByte(Crc(data)))]
  }

  function LowByte(c: bv16): bv8 {
    (c & 0xFF) as bv8
  }

  function HighByte(c: bv16): bv8 {
    (c >> 8) as bv8
  }

  predicate Sealed(frame: bytes) {
    |frame| >= 2 && frame[|frame| - 2..] == Trailer(frame[..|frame| - 2])
  }

  /** The bits of a frame with the trailer turned back to high byte first. */
  function CodeBits(frame: bytes): (r: seq<bool>)
    requires |frame| >= 2
    ensures |r| == 8 * |frame|
  {
    MessageBits(frame[..|frame| - 2]) + BitsOf(Pattern(frame[|frame| - 1])) + BitsOf(Pattern(frame[|frame| - 2]))
  }

  /** x^8 moves a low byte up and loses nothing. */
  lemma LowByteUp(b: bv8)
    ensures TimesXPower(8, Register(b as bv16)) == Register((b as bv16) << 8)
  {
    EightSteps(Register(b as bv16));
  }

  /** Dividing two bytes is sixteen steps on the register plus the word they form. */
  lemma DivideTwoBytes(v: Register, hi: bv8, lo: bv8)
    ensures Divide(v, BitsOf(hi) + BitsOf(lo)) ==
            TimesXPower(16, v.Plus(Register((hi as bv16) << 8)).Plus(Register(lo as bv16)))
  {
    var u := v.Plus(Register((hi as bv16) << 8));
    var l := Register(lo as bv16);
    DivideConcat(v, BitsOf(hi), BitsOf(lo));
    DivideWord(v, BitsOf(hi));
    ByteWord(hi);
    DivideWord(TimesXPower(8, u), BitsOf(lo));
    ByteWord(lo);
    LowByteUp(lo);
    PowerLinear(8, u, l);
    PowerAdd(8, 8, u.Plus(l));
  }

  lemma TrailerMatches(c: bv16, hi: bv8, lo: bv8)
    ensures lo == LowByte(c) && hi == HighByte(c) <==>
            Register(c).Plus(Register((hi as bv16) << 8)).Plus(Register(lo as bv16)) == ZERO
  {}

  /** A word of data followed by two trailer bytes divides out just when the
      remainder of the data is the word the two bytes form. */
  lemma TrailerDividesOut(c: Register, hi: bv8, lo: bv8)
    ensures Divide(c, BitsOf(hi) + BitsOf(lo)) == ZERO <==>
            lo == LowByte(c.word) && hi == HighByte(c.word)
  {
    var sum := c.Plus(Register((hi as bv16) << 8)).Plus(Register(lo as bv16));
    DivideTwoBytes(c, hi, lo);
    TrailerMatches(c.word, hi, lo);
    PowerZero(16);
    if TimesXPower(16, sum) == ZERO {
      PowerInjective(16, sum, ZERO);
    }
  }

  /** A frame is sealed just when its code bits divide without remainder. */
  lemma SealedDividesOut(frame: bytes)
    requires |frame| >= 2
    ensures Sealed(frame) <==> Divide(PRESET, CodeBits(frame)) == ZERO
  {
    var n := |frame| - 2;
    var lo, hi := Pattern(frame[n]), Pattern(frame[n + 1]);
    var bits := MessageBits(frame[..n]);
    var c := Divide(PRESET, bits);
    assert CodeBits(frame) == bits + (BitsOf(hi) + BitsOf(lo));
    DivideConcat(PRESET, bits, BitsOf(hi) + BitsOf(lo));
    TrailerDividesOut(c, hi, lo);
    TrailerBytes(frame, c.word);
  }

  lemma TrailerBytes(frame: bytes, c: bv16)
    requires |frame| >= 2 && c == Crc(frame[..|frame| - 2])
    ensures Sealed(frame) <==>
            Pattern(frame[|frame| - 2]) == LowByte(c) && Pattern(frame[|frame| - 1]) == HighByte(c)
  {
    var n := |frame| - 2;
    SameTrailer(frame[n], LowByte(c));
    SameTrailer(frame[n + 1], HighByte(c));
    assert frame[n..] == [frame[n], frame[n + 1]];
  }

  lemma SameTrailer(b: byte, w: bv8)
    ensures b == FromPattern(w) <==> Pattern(b) == w
  {
    PatternOfFromPattern(w);
    FromPatternOfPattern(b);
  }

  // ---- bit errors between two frames of the same length ----

  /** The Hamming distance in bits. */
  function BitErrors(a: bytes, b: bytes): nat
    requires |a| == |b|
  {
    Weight(Differences(MessageBits(a), MessageBits(b)))
  }

  lemma WeightOfDifferences(a1: seq<bool>, a2: seq<bool>, b1: seq<bool>, b2: seq<bool>)
    requires |a1| == |b1| && |a2| == |b2|
    ensures Weight(Differences(a1 + a2, b1 + b2)) == Weight(Differences(a1, b1)) + Weight(Differences(a2, b2))
  {
    assert Differences(a1 + a2, b1 + b2) == Differences(a1, b1) + Differences(a2, b2);
    WeightConcat(Differences(a1, b1), Differences(a2, b2));
  }

  /** The order of the trailer bytes does not matter to the distance. */
  lemma SwappedWeight(a: seq<bool>, a1: seq<bool>, a2: seq<bool>, b: seq<bool>, b1: seq<bool>, b2: seq<bool>)
    requires |a| == |b| && |a1| == |b1| && |a2| == |b2|
    ensures |a + a1 + a2| == |b + b1 + b2| && |a + a2 + a1| == |b + b2 + b1|
    ensures Weight(Differences(a + a1 + a2, b + b1 + b2)) == Weight(Differences(a + a2 + a1, b + b2 + b1))
  {
    WeightOfDifferences(a, a1, b, b1);
    WeightOfDifferences(a + a1, a2, b + b1, b2);
    WeightOfDifferences(a, a2, b, b2);
    WeightOfDifferences(a + a2, a1, b + b2, b1);
  }

  lemma LastByte(f: bytes)
    requires |f| >= 1
    ensures MessageBits(f) == MessageBits(f[..|f| - 1]) + BitsOf(Pattern(f[|f| - 1]))
  {}

  lemma LastTwoBytes(f: bytes)
    requires |f| >= 2
    ensures MessageBits(f) == MessageBits(f[..|f| - 2]) + BitsOf(Pattern(f[|f| - 2])) + BitsOf(Pattern(f[|f| - 1]))
  {
    var g := f[..|f| - 1];
    LastByte(f);
    LastByte(g);
    assert g[..|g| - 1] == f[..|f| - 2] && g[|g| - 1] == f[|f| - 2];
  }

  lemma CodeErrors(f: bytes, g: bytes)
    requires |f| == |g| >= 2
    ensures Weight(Differences(CodeBits(f), CodeBits(g))) == BitErrors(f, g)
  {
    var n := |f| - 2;
    LastTwoBytes(f);
    LastTwoBytes(g);
    SwappedWeight(
      MessageBits(f[..n]), BitsOf(Pattern(f[n])), BitsOf(Pattern(f[n + 1])),
      MessageBits(g[..n]), BitsOf(Pattern(g[n])), BitsOf(Pattern(g[n + 1])));
  }

  lemma SameBitsSameByte(a: byte, b: byte)
    requires BitsOf(Pattern(a)) == BitsOf(Pattern(b))
    ensures a == b
  {
    ByteWord(Pattern(a));
    ByteWord(Pattern(b));
    SameHighByte(Pattern(a), Pattern(b));
    PatternInjective(a, b);
  }

  lemma SameHighByte(a: bv8, b: bv8)
    requires (a as bv16) << 8 == (b as bv16) << 8
    ensures a == b
  {}

  lemma {:induction false} SameBits(a: seq<bool>, b: seq<bool>)
    requires |a| == |b| && Weight(Differences(a, b)) == 0
    ensures a == b
  {
    if a != [] {
      assert Differences(a, b)[1..] == Differences(a[1..], b[1..]);
      SameBits(a[1..], b[1..]);
      assert a == [a[0]] + a[1..] && b == [b[0]] + b[1..];
    }
  }

  lemma {:induction false} SameBitsSameBytes(a: bytes, b: bytes)
    requires |a| == |b| && MessageBits(a) == MessageBits(b)
    ensures a == b
  {
    hide BitsOf, Pattern;
    if a != [] {
      var m := |a| - 1;
      var p, q := MessageBits(a[..m]), MessageBits(b[..m]);
      LastByte(a);
      LastByte(b);
      assert p == MessageBits(a)[..8 * m] && q == MessageBits(b)[..8 * m];
      assert BitsOf(Pattern(a[m])) == MessageBits(a)[8 * m..] && BitsOf(Pattern(b[m])) == MessageBits(b)[8 * m..];
      SameBitsSameBytes(a[..m], b[..m]);
      SameBitsSameByte(a[m], b[m]);
      assert a == a[..m] + [a[m]] && b == b[..m] + [b[m]];
    }
  }

  lemma NoErrorsSame(a: bytes, b: bytes)
    requires |a| == |b| && BitErrors(a, b) == 0
    ensures a == b
  {
    SameBits(MessageBits(a), MessageBits(b));
    SameBitsSameBytes(a, b);
  }

  // ---- the detection theorems ----

  lemma SealedDifference(f: bytes, g: bytes)
    requires |f| == |g| && Sealed(f) && Sealed(g)
    ensures Divide(ZERO, Differences(CodeBits(f), CodeBits(g))) == ZERO
  {
    SealedDividesOut(f);
    SealedDividesOut(g);
    DivideDifference(PRESET, PRESET, CodeBits(f), CodeBits(g));
    assert PRESET.Plus(PRESET) == ZERO;
    assert ZERO.Plus(ZERO) == ZERO;
  }

  /** Up to 4095 bytes, two different sealed frames are at least four bits apart:
      every change of one, two or three bits, trailer included, is detected. */
  lemma MinimumDistanceFour(f: bytes, g: bytes)
    requires |f| == |g| <= 4095 && Sealed(f) && Sealed(g) && f != g
    ensures BitErrors(f, g) >= 4
  {
    SealedDifference(f, g);
    CodeErrors(f, g);
    if BitErrors(f, g) == 0 {
      NoErrorsSame(f, g);
    } else if BitErrors(f, g) <= 3 {
      FewBitsRemainder(Differences(CodeBits(f), CodeBits(g)));
    }
  }

  /** At any length, an odd number of changed bits is detected. */
  lemma OddErrorsDetected(f: bytes, g: bytes)
    requires |f| == |g| && Sealed(f) && Sealed(g)
    ensures BitErrors(f, g) % 2 == 0
  {
    SealedDifference(f, g);
    CodeErrors(f, g);
    if BitErrors(f, g) % 2 == 1 {
      OddRemainder(Differences(CodeBits(f), CodeBits(g)));
    }
  }

  lemma {:induction false} WordZero(w: seq<bool>)
    requires |w| <= 16 && Word(w) == ZERO
    ensures Weight(w) == 0
  {
    if w != [] {
      TopOfSum(w[0], Word(w[1..]));
      WordIsHigh(w[1..]);
      LowOnesOdd(|w| - 1);
      LostNothing(Word(w[1..]), LowOnes(|w| - 1));
      WordZero(w[1..]);
    }
  }

  lemma TopOfSum(b: bool, v: Register)
    requires TopBit(b).Plus(Halve(v)) == ZERO
    ensures !b && Halve(v) == ZERO
  {}

  lemma LostNothing(v: Register, m: bv16)
    requires Halve(v) == ZERO && v.word & m == 0 && m & 1 == 1
    ensures v == ZERO
  {}

  /** Set bits, all in one window of sixteen, leave a remainder. */
  lemma WindowRemainder(d: seq<bool>, p: nat)
    requires p + 16 <= |d| && Weight(d) > 0
    requires Weight(d[..p]) == 0 && Weight(d[p + 16..]) == 0
    ensures Divide(ZERO, d) != ZERO
  {
    hide Weight, Divide, Word, TimesXPower;
    var w, tail := d[p..p + 16], d[p + 16..];
    assert w + tail == d[p..];
    assert d == d[..p] + (w + tail);
    WeightConcat(d[..p], w + tail);
    WeightConcat(w, tail);
    DivideConcat(ZERO, d[..p], w + tail);
    DivideConcat(ZERO, w, tail);
    DivideNothing(ZERO, d[..p]);
    PowerZero(p);
    DivideWord(ZERO, w);
    PlusZero(Word(w));
    DivideNothing(Divide(ZERO, w), tail);
    if Divide(ZERO, d) == ZERO {
      PowerZero(|tail|);
      PowerInjective(|tail|, TimesXPower(16, Word(w)), ZERO);
      PowerZero(16);
      PowerInjective(16, Word(w), ZERO);
      WordZero(w);
    }
  }

  /** Changes confined to sixteen consecutive bits of a message, at any bit offset
      and in a message of any length, change the checksum. */
  lemma BurstDetected(a: bytes, b: bytes, p: nat)
    requires |a| == |b| && a != b && p + 16 <= 8 * |a|
    requires MessageBits(a)[..p] == MessageBits(b)[..p]
    requires MessageBits(a)[p + 16..] == MessageBits(b)[p + 16..]
    ensures Crc(a) != Crc(b)
  {
    var d := Differences(MessageBits(a), MessageBits(b));
    NoDifference(MessageBits(a), MessageBits(b), d, p);
    if Weight(d) == 0 {
      NoErrorsSame(a, b);
    }
    WindowRemainder(d, p);
    ChecksumDifference(a, b);
    PlusCancels(Divide(PRESET, MessageBits(a)), Divide(PRESET, MessageBits(b)));
  }

  /** So a burst of sixteen bits that stays within the payload of a frame is noticed. */
  lemma PayloadBurstDetected(f: bytes, g: bytes, p: nat)
    requires |f| == |g| >= 2 && f != g && Sealed(f)
    requires
      var n := |f| - 2;
      && f[n..] == g[n..] && p + 16 <= 8 * n
      && MessageBits(f[..n])[..p] == MessageBits(g[..n])[..p]
      && MessageBits(f[..n])[p + 16..] == MessageBits(g[..n])[p + 16..]
    ensures !Sealed(g)
  {
    hide LowByte, HighByte, Crc, MessageBits, Pattern;
    var n := |f| - 2;
    assert f == f[..n] + f[n..] && g == g[..n] + g[n..];
    BurstDetected(f[..n], g[..n], p);
    TrailerBytes(f, Crc(f[..n]));
    TrailerBytes(g, Crc(g[..n]));
    assert f[n] == f[n..][0] == g[n] && f[n + 1] == f[n..][1] == g[n + 1];
    if Sealed(g) {
      SameBytesSameWord(Crc(f[..n]), Crc(g[..n]));
    }
  }

  lemma SameBytesSameWord(c: bv16, c': bv16)
    requires LowByte(c) == LowByte(c') && HighByte(c) == HighByte(c')
    ensures c == c'
  {}

  lemma NoDifference(a: seq<bool>, b: seq<bool>, d: seq<bool>, p: nat)
    requires |a| == |b| && d == Differences(a, b) && p + 16 <= |a|
    requires a[..p] == b[..p] && a[p + 16..] == b[p + 16..]
    ensures Weight(d[..p]) == 0 && Weight(d[p + 16..]) == 0
  {
    forall i | 0 <= i < p
      ensures !d[i]
    {
      assert a[..p][i] == b[..p][i];
    }
    forall i | p + 16 <= i < |a|
      ensures !d[i]
    {
      assert a[p + 16..][i - p - 16] == b[p + 16..][i - p - 16];
    }
    NoWeight(d[..p]);
    NoWeight(d[p + 16..]);
  }
}
