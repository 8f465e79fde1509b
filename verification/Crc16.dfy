/** The checksum of the Tilt protocol: the shift-and-xor byte step of the code,
    proved equal to bit-at-a-time division by x^16 + x^12 + x^5 + 1, and the
    algebra of that division. */
module Crc16 {
  import opened Bytes

  /** The remainder register.  The word is wrapped so that the lemmas below reason
      about registers by their laws, not bit by bit. */
  datatype Register = Register(word: bv16) {
    function Plus(that: Register): Register {
      Register(word ^ that.word)
    }

    /** Multiplication by x modulo x^16 + x^12 + x^5 + 1: the coefficient m shifted
        out at the top comes back as m * (x^12 + x^5 + 1). */
    function TimesX(): Register {
      var m := word >> 15;
      Register((word << 1) ^ m ^ (m << 5) ^ (m << 12))
    }
  }

  const ZERO := Register(0)
  const PRESET := Register(0xFFFF)

  function TopBit(b: bool): Register {
    Register(if b then 0x8000 else 0)
  }

  /** Multiplication by x^n. */
  function TimesXPower(n: nat, v: Register): Register {
    if n == 0 then v else TimesXPower(n - 1, v.TimesX())
  }

  /** Long division: shift message bits, first bit first, through the register v. */
  function Divide(v: Register, bits: seq<bool>): Register
    decreases |bits|
  {
    if bits == [] then v else Divide(v.Plus(TopBit(bits[0])).TimesX(), bits[1..])
  }

  /** The n top bits of a register, topmost first. */
  function TopBits(n: nat, v: Register): (r: seq<bool>)
    ensures |r| == n
  {
    if n == 0 then [] else [v.word & 0x8000 != 0] + TopBits(n - 1, Register(v.word << 1))
  }

  function BitsOf(w: bv8): (r: seq<bool>)
    ensures |r| == 8
  {
    TopBits(8, Register((w as bv16) << 8))
  }

  function MessageBits(data: bytes): (r: seq<bool>)
    ensures |r| == 8 * |data|
  {
    if data == [] then [] else MessageBits(data[..|data| - 1]) + BitsOf(Pattern(data[|data| - 1]))
  }

  /** The checksum as the protocol defines it: preset 0xFFFF, no reflection, no
      final complement. */
  function Crc(data: bytes): bv16 {
    Divide(PRESET, MessageBits(data)).word
  }

  // ---- the algebra of division ----

  /** The step in its usual form, with the generator as a mask. */
  lemma TimesXSubtractsGenerator(v: Register)
    ensures v.TimesX().word == if v.word & 0x8000 != 0 then (v.word << 1) ^ 0x1021 else v.word << 1
  {
    if v.word & 0x8000 != 0 {
      assert v.word >> 15 == 1;
    } else {
      assert v.word >> 15 == 0;
    }
  }

  lemma TimesXLinear(a: Register, b: Register)
    ensures a.Plus(b).TimesX() == a.TimesX().Plus(b.TimesX())
  {}

  lemma TimesXInjective(a: Register, b: Register)
    requires a.TimesX() == b.TimesX()
    ensures a == b
  {}

  lemma {:induction false} PowerAdd(m: nat, n: nat, v: Register)
    ensures TimesXPower(m, TimesXPower(n, v)) == TimesXPower(m + n, v)
    decreases n
  {
    if n > 0 {
      PowerAdd(m, n - 1, v.TimesX());
    }
  }

  lemma {:induction false} PowerLinear(n: nat, a: Register, b: Register)
    ensures TimesXPower(n, a.Plus(b)) == TimesXPower(n, a).Plus(TimesXPower(n, b))
  {
    if n > 0 {
      TimesXLinear(a, b);
      PowerLinear(n - 1, a.TimesX(), b.TimesX());
    }
  }

  lemma {:induction false} PowerInjective(n: nat, a: Register, b: Register)
    requires TimesXPower(n, a) == TimesXPower(n, b)
    ensures a == b
  {
    if n > 0 {
      PowerInjective(n - 1, a.TimesX(), b.TimesX());
      TimesXInjective(a, b);
    }
  }

  lemma {:induction false} PowerZero(n: nat)
    ensures TimesXPower(n, ZERO) == ZERO
  {
    if n > 0 {
      assert ZERO.TimesX() == ZERO;
      PowerZero(n - 1);
    }
  }

  lemma {:induction false} DivideConcat(v: Register, a: seq<bool>, b: seq<bool>)
    ensures Divide(v, a + b) == Divide(Divide(v, a), b)
    decreases |a|
  {
    if a == [] {
      assert a + b == b;
    } else {
      assert (a + b)[1..] == a[1..] + b;
      DivideConcat(v.Plus(TopBit(a[0])).TimesX(), a[1..], b);
    }
  }

  function Differences(a: seq<bool>, b: seq<bool>): (d: seq<bool>)
    requires |a| == |b|
    ensures |d| == |a|
  {
    seq(|a|, i requires 0 <= i < |a| => a[i] != b[i])
  }

  lemma PlusAssociative(a: Register, b: Register, c: Register)
    ensures a.Plus(b).Plus(c) == a.Plus(b.Plus(c))
  {}

  lemma PlusZero(v: Register)
    ensures v.Plus(ZERO) == v && ZERO.Plus(v) == v
  {}

  lemma PlusRegroups(a: Register, b: Register, c: Register, d: Register)
    ensures a.Plus(b).Plus(c.Plus(d)) == a.Plus(c).Plus(b.Plus(d))
  {}

  lemma TopBitDifference(a: bool, b: bool)
    ensures TopBit(a != b) == TopBit(a).Plus(TopBit(b))
  {}

  /** Two registers fed two streams differ by what the difference of the registers
      makes of the difference of the streams: division is affine over xor. */
  lemma {:induction false} DivideDifference(u: Register, v: Register, a: seq<bool>, b: seq<bool>)
    requires |a| == |b|
    ensures Divide(u, a).Plus(Divide(v, b)) == Divide(u.Plus(v), Differences(a, b))
    decreases |a|
  {
    if a != [] {
      var d := Differences(a, b);
      var p, q := TopBit(a[0]), TopBit(b[0]);
      assert d[1..] == Differences(a[1..], b[1..]);
      TopBitDifference(a[0], b[0]);
      PlusRegroups(u, p, v, q);
      TimesXLinear(u.Plus(p), v.Plus(q));
      DivideDifference(u.Plus(p).TimesX(), v.Plus(q).TimesX(), a[1..], b[1..]);
    }
  }

  // ---- up to sixteen bits at once ----

  function Halve(v: Register): Register {
    Register(v.word >> 1)
  }

  /** The bits of w, first bit topmost. */
  function Word(w: seq<bool>): Register {
    if w == [] then ZERO else TopBit(w[0]).Plus(Halve(Word(w[1..])))
  }

  /** 0xFFFF >> n. */
  function LowOnes(n: nat): (r: bv16)
    ensures (r >> 1) & r == r >> 1
  {
    if n == 0 then 0xFFFF else LowOnes(n - 1) >> 1
  }

  lemma {:induction false} LowOnesOdd(n: nat)
    requires n <= 15
    ensures LowOnes(n) & 1 == 1
    decreases 15 - n
  {
    if n == 15 {
      assert LowOnes(15) == 1;
    } else {
      LowOnesOdd(n + 1);
    }
  }

  /** Nothing is set in the word of w below its first |w| bits. */
  lemma {:induction false} WordIsHigh(w: seq<bool>)
    ensures Word(w).word & LowOnes(|w|) == 0
  {
    if w != [] {
      WordIsHigh(w[1..]);
    }
  }

  function Left1(v: Register): Register {
    Register(v.word << 1)
  }

  predicate TopSet(v: Register) {
    v.word & 0x8000 != 0
  }

  /** Only the n top bits of the word can be set. */
  predicate High(n: nat, v: Register) {
    v.word & LowOnes(n) == 0
  }

  lemma ShiftedOut(v: bv16, m: bv16)
    requires v & (m >> 1) == 0
    ensures (v << 1) & m == 0
  {}

  lemma HighShifted(n: nat, v: Register)
    requires n > 0 && High(n, v)
    ensures High(n - 1, Left1(v))
  {
    ShiftedOut(v.word, LowOnes(n - 1));
  }

  lemma AllOnes(v: bv16)
    ensures v & 0xFFFF == v
  {}

  lemma NoneHigh(v: Register)
    requires High(0, v)
    ensures v == ZERO
  {
    AllOnes(v.word);
  }

  lemma TopBitBack(v: Register)
    ensures TopBit(TopSet(v)).Plus(Halve(Left1(v))) == v
  {}

  lemma TopBitsFirst(n: nat, v: Register)
    requires n > 0
    ensures TopBits(n, v) == [TopSet(v)] + TopBits(n - 1, Left1(v))
  {}

  lemma WordFirst(b: bool, w: seq<bool>)
    ensures Word([b] + w) == TopBit(b).Plus(Halve(Word(w)))
  {
    assert ([b] + w)[1..] == w;
  }

  /** The bits of a word that is only as long as its bits, put back together. */
  lemma {:induction false} WordOfTopBits(n: nat, v: Register)
    requires High(n, v)
    ensures Word(TopBits(n, v)) == v
  {
    hide High, TopBit, TopSet, Left1, Halve;
    if n == 0 {
      NoneHigh(v);
    } else {
      hide TopBits, Word;
      HighShifted(n, v);
      WordOfTopBits(n - 1, Left1(v));
      TopBitsFirst(n, v);
      WordFirst(TopSet(v), TopBits(n - 1, Left1(v)));
      TopBitBack(v);
    }
  }

  lemma ByteShiftedUp(b: bv8)
    ensures ((b as bv16) << 8) & 0x00FF == 0
  {}

  lemma ByteIsHigh(b: bv8)
    ensures High(8, Register((b as bv16) << 8))
  {
    ByteShiftedUp(b);
    assert LowOnes(8) == 0x00FF;
  }

  lemma ByteWord(b: bv8)
    ensures Word(BitsOf(b)) == Register((b as bv16) << 8)
  {
    ByteIsHigh(b);
    WordOfTopBits(8, Register((b as bv16) << 8));
  }

  lemma HalveTimesX(v: Register)
    requires v.word & 1 == 0
    ensures Halve(v).TimesX() == v
  {}

  lemma WordTail(w: seq<bool>)
    requires |w| <= 15
    ensures Halve(Word(w)).TimesX() == Word(w)
  {
    WordIsHigh(w);
    LowOnesOdd(|w|);
    assert Word(w).word & 1 == 0;
    HalveTimesX(Word(w));
  }

  /** Dividing up to sixteen bits is one multiplication. */
  lemma {:induction false} DivideWord(v: Register, w: seq<bool>)
    requires |w| <= 16
    ensures Divide(v, w) == TimesXPower(|w|, v.Plus(Word(w)))
    decreases |w|
  {
    if w == [] {
      PlusZero(v);
    } else {
      var u, t := v.Plus(TopBit(w[0])), Word(w[1..]);
      WordTail(w[1..]);
      DivideWord(u.TimesX(), w[1..]);
      TimesXLinear(u, Halve(t));
      PlusAssociative(v, TopBit(w[0]), Halve(t));
    }
  }

  // ---- the code's loop ----

  function SwapHalves(v: Register): Register {
    Register((v.word << 8) | (v.word >> 8))
  }

  function Down4(v: Register): Register {
    Register((v.word & 0xFF) >> 4)
  }

  function Up12(v: Register): Register {
    Register(v.word << 12)
  }

  function Up5(v: Register): Register {
    Register((v.word & 0xFF) << 5)
  }

  function Folds(v: Register): Register {
    var v1 := v.Plus(Down4(v));
    var v2 := v1.Plus(Up12(v1));
    v2.Plus(Up5(v2))
  }

  /** One iteration of the loop in crc16: swap the halves, add the byte, and fold. */
  function ByteStep(v: Register, b: bv8): Register {
    Folds(SwapHalves(v).Plus(Register(b as bv16)))
  }

  lemma SwapHalvesLinear(a: Register, b: Register)
    ensures SwapHalves(a.Plus(b)) == SwapHalves(a).Plus(SwapHalves(b))
  {}

  lemma Down4Linear(a: Register, b: Register)
    ensures Down4(a.Plus(b)) == Down4(a).Plus(Down4(b))
  {}

  lemma Up12Linear(a: Register, b: Register)
    ensures Up12(a.Plus(b)) == Up12(a).Plus(Up12(b))
  {}

  lemma Up5Linear(a: Register, b: Register)
    ensures Up5(a.Plus(b)) == Up5(a).Plus(Up5(b))
  {}

  lemma FoldsLinear(a: Register, b: Register)
    ensures Folds(a.Plus(b)) == Folds(a).Plus(Folds(b))
  {
    var a1, b1 := a.Plus(Down4(a)), b.Plus(Down4(b));
    var a2, b2 := a1.Plus(Up12(a1)), b1.Plus(Up12(b1));
    Down4Linear(a, b);
    PlusRegroups(a, b, Down4(a), Down4(b));
    Up12Linear(a1, b1);
    PlusRegroups(a1, b1, Up12(a1), Up12(b1));
    Up5Linear(a2, b2);
    PlusRegroups(a2, b2, Up5(a2), Up5(b2));
  }

  lemma FoldsSwapLinear(a: Register, b: Register)
    ensures Folds(SwapHalves(a.Plus(b))) == Folds(SwapHalves(a)).Plus(Folds(SwapHalves(b)))
  {
    SwapHalvesLinear(a, b);
    FoldsLinear(SwapHalves(a), SwapHalves(b));
  }

  lemma EightSteps(v: Register)
    ensures TimesXPower(8, v) == v.TimesX().TimesX().TimesX().TimesX().TimesX().TimesX().TimesX().TimesX()
  {
    var v2 := v.TimesX().TimesX();
    var v4 := v2.TimesX().TimesX();
    var v6 := v4.TimesX().TimesX();
    assert TimesXPower(8, v) == TimesXPower(7, v.TimesX()) == TimesXPower(6, v2);
    assert TimesXPower(6, v2) == TimesXPower(5, v2.TimesX()) == TimesXPower(4, v4);
    assert TimesXPower(4, v4) == TimesXPower(3, v4.TimesX()) == TimesXPower(2, v6);
    assert TimesXPower(2, v6) == TimesXPower(1, v6.TimesX());
  }

  lemma Nibble3(v: Register)
    requires v.word & 0x0FFF == 0
    ensures Folds(SwapHalves(v)) == TimesXPower(8, v)
  {
    EightSteps(v);
  }

  lemma Nibble2(v: Register)
    requires v.word & 0xF0FF == 0
    ensures Folds(SwapHalves(v)) == TimesXPower(8, v)
  {
    EightSteps(v);
  }

  lemma Nibble10(v: Register)
    requires v.word & 0xFF00 == 0
    ensures Folds(SwapHalves(v)) == TimesXPower(8, v)
  {
    EightSteps(v);
  }

  lemma ByteEntersAtTheTop(v: Register, b: bv8)
    ensures SwapHalves(v).Plus(Register(b as bv16)) == SwapHalves(v.Plus(Register((b as bv16) << 8)))
  {}

  lemma SplitWord(v: Register)
    ensures v == Register(v.word & 0xF000).Plus(Register(v.word & 0x0F00)).Plus(Register(v.word & 0x00FF))
  {}

  lemma FoldsAreEightSteps(v: Register)
    ensures Folds(SwapHalves(v)) == TimesXPower(8, v)
  {
    var n3, n2, n10 := Register(v.word & 0xF000), Register(v.word & 0x0F00), Register(v.word & 0x00FF);
    SplitWord(v);
    Nibble3(n3);
    Nibble2(n2);
    Nibble10(n10);
    FoldsSwapLinear(n3, n2);
    FoldsSwapLinear(n3.Plus(n2), n10);
    PowerLinear(8, n3, n2);
    PowerLinear(8, n3.Plus(n2), n10);
  }

  /** The shift trick is eight steps of bitwise division. */
  lemma ByteStepDivides(v: Register, b: bv8)
    ensures ByteStep(v, b) == Divide(v, BitsOf(b))
  {
    ByteEntersAtTheTop(v, b);
    FoldsAreEightSteps(v.Plus(Register((b as bv16) << 8)));
    ByteWord(b);
    DivideWord(v, BitsOf(b));
  }

  /** One more byte of a message, in known registers. */
  lemma CrcMore(data: bytes, b: byte, before: Register, after: Register)
    requires Divide(PRESET, MessageBits(data)) == before && ByteStep(before, Pattern(b)) == after
    ensures Divide(PRESET, MessageBits(data + [b])) == after
  {
    hide Divide, BitsOf, Pattern;
    assert (data + [b])[..|data|] == data;
    DivideConcat(PRESET, MessageBits(data), BitsOf(Pattern(b)));
    ByteStepDivides(before, Pattern(b));
  }

  lemma StepsOfVector()
    ensures ByteStep(Register(0xFFFF), Pattern(0x31)) == Register(0xC782)
    ensures ByteStep(Register(0xC782), Pattern(0x32)) == Register(0x3DBA)
    ensures ByteStep(Register(0x3DBA), Pattern(0x33)) == Register(0x5BCE)
    ensures ByteStep(Register(0x5BCE), Pattern(0x34)) == Register(0x5349)
    ensures ByteStep(Register(0x5349), Pattern(0x35)) == Register(0x4560)
    ensures ByteStep(Register(0x4560), Pattern(0x36)) == Register(0x2EF4)
    ensures ByteStep(Register(0x2EF4), Pattern(0x37)) == Register(0x7718)
    ensures ByteStep(Register(0x7718), Pattern(0x38)) == Register(0xA12B)
    ensures ByteStep(Register(0xA12B), Pattern(0x39)) == Register(0x29B1)
  {}

  /** The checksum of no bytes, and the check value of CRC-16/CCITT-FALSE: that of the
      text "123456789". */
  lemma CheckVector()
    ensures Crc([]) == 0xFFFF
    ensures Crc([0x31, 0x32, 0x33, 0x34, 0x35, 0x36, 0x37, 0x38, 0x39]) == 0x29B1
  {
    assert MessageBits([]) == [] && Divide(PRESET, []) == Register(0xFFFF);
    hide ByteStep, MessageBits, Pattern, Divide;
    StepsOfVector();
    var text: bytes := [];
    CrcMore(text, 0x31, Register(0xFFFF), Register(0xC782));
    text := text + [0x31];
    CrcMore(text, 0x32, Register(0xC782), Register(0x3DBA));
    text := text + [0x32];
    CrcMore(text, 0x33, Register(0x3DBA), Register(0x5BCE));
    text := text + [0x33];
    CrcMore(text, 0x34, Register(0x5BCE), Register(0x5349));
    text := text + [0x34];
    CrcMore(text, 0x35, Register(0x5349), Register(0x4560));
    text := text + [0x35];
    CrcMore(text, 0x36, Register(0x4560), Register(0x2EF4));
    text := text + [0x36];
    CrcMore(text, 0x37, Register(0x2EF4), Register(0x7718));
    text := text + [0x37];
    CrcMore(text, 0x38, Register(0x7718), Register(0xA12B));
    text := text + [0x38];
    CrcMore(text, 0x39, Register(0xA12B), Register(0x29B1));
    text := text + [0x39];
    assert text == [0x31, 0x32, 0x33, 0x34, 0x35, 0x36, 0x37, 0x38, 0x39];
  }

  /** crc16: the loop as the code runs it, against the reference. */
  method Crc16(data: bytes) returns (value: bv16)
    ensures value == Crc(data)
  {
    var v := PRESET;
    for i := 0 to |data|
      invariant v == Divide(PRESET, MessageBits(data[..i]))
    {
      ghost var before := MessageBits(data[..i]);
      assert data[..i + 1][..i] == data[..i];
      assert MessageBits(data[..i + 1]) == before + BitsOf(Pattern(data[i]));
      DivideConcat(PRESET, before, BitsOf(Pattern(data[i])));
      ByteStepDivides(v, Pattern(data[i]));
      v := ByteStep(v, Pattern(data[i]));
    }
    assert data[..|data|] == data;
    value := v.word;
  }
}
