/** Changes confined to two neighbouring bytes of a frame with its checksum.  The
    little-endian trailer leaves one gap: the last byte before it and its first byte. */
module AdjacentBytes {
  import opened Bytes
  import opened Crc16
  import opened CrcDetection

  // ---- one more byte ----

  lemma CrcSnoc(data: bytes, x: byte)
    ensures Register(Crc(data + [x])) == ByteStep(Register(Crc(data)), Pattern(x))
  {
    hide Divide, ByteStep, BitsOf, Pattern;
    assert (data + [x])[..|data|] == data;
    DivideConcat(PRESET, MessageBits(data), BitsOf(Pattern(x)));
    ByteStepDivides(Register(Crc(data)), Pattern(x));
  }

  lemma ByteDifference(a: bv8, b: bv8)
    ensures Register(a as bv16).Plus(Register(b as bv16)) == Register((a ^ b) as bv16)
  {}

  lemma SameHalfCancels(h: Register, a: Register, b: Register)
    ensures h.Plus(a).Plus(h.Plus(b)) == a.Plus(b)
  {
    PlusRegroups(h, a, h, b);
    PlusItself(h);
    PlusZero(a.Plus(b));
  }

  lemma PlusItself(v: Register)
    ensures v.Plus(v) == ZERO
  {}

  /** Two last bytes make the checksums differ by the folded difference of the bytes. */
  lemma LastByteDifference(v: Register, a: bv8, b: bv8)
    ensures ByteStep(v, a).Plus(ByteStep(v, b)) == Folds(Register((a ^ b) as bv16))
  {
    hide Folds, SwapHalves;
    var h := SwapHalves(v);
    FoldsLinear(h.Plus(Register(a as bv16)), h.Plus(Register(b as bv16)));
    SameHalfCancels(h, Register(a as bv16), Register(b as bv16));
    ByteDifference(a, b);
  }

  /** Only the difference 0x89 folds into the low byte alone, where it becomes 0xA1. */
  lemma FoldsOfByte(d: bv8)
    ensures Folds(Register(d as bv16)).word & 0xFF00 == 0 <==> d == 0 || d == 0x89
  {}

  lemma FoldsOf89()
    ensures Folds(Register(0x89)).word == 0x00A1
  {}

  // ---- bits of joined messages ----

  lemma {:induction false} MessageConcat(a: bytes, b: bytes)
    ensures MessageBits(a + b) == MessageBits(a) + MessageBits(b)
  {
    hide BitsOf, Pattern;
    if b == [] {
      assert a + b == a;
    } else {
      var n := |b| - 1;
      MessageConcat(a, b[..n]);
      assert (a + b)[..|a + b| - 1] == a + b[..n] && (a + b)[|a + b| - 1] == b[n];
    }
  }

  /** Two different bytes in the middle of a message, next to each other, are noticed. */
  lemma MiddleDetected(p: bytes, m: bytes, m': bytes, s: bytes)
    requires |m| == |m'| == 2 && m != m'
    ensures Crc(p + m + s) != Crc(p + m' + s)
  {
    hide Crc, MessageBits;
    var a, b := p + m + s, p + m' + s;
    MessageConcat(p + m, s);
    MessageConcat(p, m);
    MessageConcat(p + m', s);
    MessageConcat(p, m');
    var k := 8 * |p|;
    assert MessageBits(a)[..k] == MessageBits(p) == MessageBits(b)[..k];
    assert MessageBits(a)[k + 16..] == MessageBits(s) == MessageBits(b)[k + 16..];
    assert a[|p|..|p| + 2] == m && b[|p|..|p| + 2] == m';
    BurstDetected(a, b, k);
  }

  // ---- frames ----

  /** f and g have the same bytes, but perhaps for bytes k and k + 1. */
  predicate SameBut(f: bytes, g: bytes, k: nat) {
    |f| == |g| && k + 2 <= |f| && f[..k] == g[..k] && f[k + 2..] == g[k + 2..]
  }

  /** The one pair of changes that goes unnoticed, at the end of the payload. */
  predicate Slips(f: bytes, g: bytes, k: nat)
    requires SameBut(f, g, k)
  {
    k + 3 == |f| && Xor(f[k], g[k]) == 0x89 && Xor(f[k + 1], g[k + 1]) == 0xA1
  }

  function Difference(a: byte, b: byte): bv8 {
    Pattern(a) ^ Pattern(b)
  }

  function Folded(d: bv8): Register {
    Folds(Register(d as bv16))
  }

  lemma SamePatternDifference(a: byte, b: byte, w: byte)
    ensures Xor(a, b) == w <==> Pattern(a) ^ Pattern(b) == Pattern(w)
  {
    XorPattern(a, b);
    if Pattern(a) ^ Pattern(b) == Pattern(w) {
      PatternInjective(Xor(a, b), w);
    }
  }

  lemma Halves(c: bv16, c': bv16)
    ensures HighByte(c) == HighByte(c') <==> (c ^ c') & 0xFF00 == 0
  {}

  lemma LowHalves(c: bv16, c': bv16, lo: bv8, lo': bv8)
    requires LowByte(c) == lo
    ensures c ^ c' == 0x00A1 ==> (LowByte(c') == lo' <==> lo ^ lo' == 0xA1)
  {}

  lemma EqualWords(c: bv16, c': bv16)
    requires c ^ c' == 0
    ensures c == c'
  {}

  lemma FoldsOfNothing()
    ensures Folds(Register(0)).word == 0
  {}

  lemma FoldedFacts(d: bv8)
    ensures Folded(d).word & 0xFF00 == 0 <==> d == 0 || d == 0x89
    ensures Folded(0).word == 0 && Folded(0x89).word == 0x00A1
  {
    hide Folds;
    FoldsOfByte(d);
    FoldsOfNothing();
    FoldsOf89();
  }

  lemma PlusWord(c: bv16, c': bv16, v: Register)
    requires Register(c).Plus(Register(c')) == v
    ensures c ^ c' == v.word
  {}

  lemma FoldedHigh(d: bv8, c: bv16, c': bv16)
    requires Register(c).Plus(Register(c')) == Folded(d)
    ensures HighByte(c) == HighByte(c') <==> d == 0 || d == 0x89
    ensures d == 0 ==> c == c'
    ensures d == 0x89 ==> c ^ c' == 0x00A1
  {
    PlusWord(c, c', Folded(d));
    hide HighByte, Folded, Register.Plus;
    FoldedFacts(d);
    Halves(c, c');
    if d == 0 {
      EqualWords(c, c');
    }
  }

  /** The second checksum has the same high byte and this low byte just for the one
      difference d of the last bytes and the one difference of the low bytes. */
  lemma StraddlingWords(c: bv16, c': bv16, d: bv8, lo: bv8, lo': bv8)
    requires Register(c).Plus(Register(c')) == Folded(d)
    requires LowByte(c) == lo && (d != 0 || lo != lo')
    ensures LowByte(c') == lo' && HighByte(c') == HighByte(c) <==> d == 0x89 && lo ^ lo' == 0xA1
  {
    hide Folded, LowByte, HighByte;
    FoldedHigh(d, c, c');
    if d == 0x89 {
      LowHalves(c, c', lo, lo');
    }
  }

  lemma Constants()
    ensures Pattern(0x89) == 0x89 && Pattern(0xA1) == 0xA1
  {}

  lemma SameWords(a: bv8, b: bv8)
    ensures a ^ b == 0 <==> a == b
  {}

  lemma Is89(a: byte, b: byte)
    ensures Xor(a, b) == 0x89 <==> Difference(a, b) == 0x89
  {
    Constants();
    SamePatternDifference(a, b, 0x89);
  }

  lemma IsA1(a: byte, b: byte)
    ensures Xor(a, b) == 0xA1 <==> Difference(a, b) == 0xA1
  {
    Constants();
    SamePatternDifference(a, b, 0xA1);
  }

  lemma IsZero(a: byte, b: byte)
    ensures Difference(a, b) == 0 <==> a == b
    ensures Difference(a, b) == 0 <==> Pattern(a) == Pattern(b)
  {
    SameWords(Pattern(a), Pattern(b));
    if Pattern(a) == Pattern(b) {
      PatternInjective(a, b);
    }
  }

  /** The same on bytes: x and y the last of the payload, lo and lo' the first of the
      trailer. */
  lemma StraddlingBytes(c: bv16, c': bv16, x: byte, y: byte, lo: byte, lo': byte)
    requires Register(c).Plus(Register(c')) == Folded(Difference(x, y))
    requires LowByte(c) == Pattern(lo) && (x != y || lo != lo')
    ensures LowByte(c') == Pattern(lo') && HighByte(c') == HighByte(c) <==> Xor(x, y) == 0x89 && Xor(lo, lo') == 0xA1
  {
    hide Folds, LowByte, HighByte, Pattern, Xor;
    IsZero(x, y);
    IsZero(lo, lo');
    Is89(x, y);
    IsA1(lo, lo');
    StraddlingWords(c, c', Difference(x, y), Pattern(lo), Pattern(lo'));
  }

  /** The last byte before the trailer and the trailer's first. */
  lemma StraddlingPair(f: bytes, g: bytes)
    requires |f| >= 3 && SameBut(f, g, |f| - 3) && Sealed(f) && f != g
    ensures Sealed(g) <==> Slips(f, g, |f| - 3)
  {
    hide Crc, Folded, LowByte, HighByte, Sealed, Pattern, Xor, Difference;
    var n := |f| - 2;
    LastBytes(f, g);
    TrailerBytes(f, Crc(f[..n]));
    TrailerBytes(g, Crc(g[..n]));
    StraddlingBytes(Crc(f[..n]), Crc(g[..n]), f[n - 1], g[n - 1], f[n], g[n]);
  }

  lemma LastBytes(f: bytes, g: bytes)
    requires |f| >= 3 && SameBut(f, g, |f| - 3)
    ensures
      var n := |f| - 2;
      && f[n + 1] == g[n + 1]
      && (f != g ==> f[n - 1] != g[n - 1] || f[n] != g[n])
      && Register(Crc(f[..n])).Plus(Register(Crc(g[..n]))) == Folded(Difference(f[n - 1], g[n - 1]))
  {
    hide Crc, Folds, ByteStep, Pattern;
    var n := |f| - 2;
    var data := f[..n - 1];
    assert f[..n] == data + [f[n - 1]] && g[..n] == data + [g[n - 1]];
    assert f[n + 1] == f[n + 1..][0] && g[n + 1] == g[n + 1..][0];
    CrcSnoc(data, f[n - 1]);
    CrcSnoc(data, g[n - 1]);
    LastByteDifference(Register(Crc(data)), Pattern(f[n - 1]), Pattern(g[n - 1]));
    if f[n - 1] == g[n - 1] && f[n] == g[n] {
      assert f == data + [f[n - 1], f[n]] + f[n + 1..] && g == data + [f[n - 1], f[n]] + g[n + 1..];
    }
  }

  lemma PayloadPair(f: bytes, g: bytes, k: nat)
    requires SameBut(f, g, k) && k + 4 <= |f| && Sealed(f) && f != g
    ensures !Sealed(g)
  {
    hide Crc, Trailer;
    var n := |f| - 2;
    var p, m, m', s := f[..k], f[k..k + 2], g[k..k + 2], f[k + 2..n];
    assert g[k + 2..n] == g[k + 2..][..n - k - 2] == f[k + 2..][..n - k - 2] == s;
    assert f[..n] == p + m + s && g[..n] == p + m' + s;
    assert f[n..] == f[k + 2..][n - k - 2..] == g[n..];
    assert f == f[..n] + f[n..] && g == g[..n] + g[n..];
    MiddleDetected(p, m, m', s);
    if Sealed(g) {
      SameTrailerSameCrc(f[..n], g[..n]);
    }
  }

  lemma FromPatternInjective(v: bv8, w: bv8)
    requires FromPattern(v) == FromPattern(w)
    ensures v == w
  {
    PatternOfFromPattern(v);
    PatternOfFromPattern(w);
  }

  lemma SameTrailerSameCrc(a: bytes, b: bytes)
    requires Trailer(a) == Trailer(b)
    ensures Crc(a) == Crc(b)
  {
    hide Crc, LowByte, HighByte, Pattern, FromPattern;
    var l, h, l', h' := LowByte(Crc(a)), HighByte(Crc(a)), LowByte(Crc(b)), HighByte(Crc(b));
    assert [FromPattern(l), FromPattern(h)] == [FromPattern(l'), FromPattern(h')];
    assert [FromPattern(l), FromPattern(h)][0] == [FromPattern(l'), FromPattern(h')][0];
    assert [FromPattern(l), FromPattern(h)][1] == [FromPattern(l'), FromPattern(h')][1];
    FromPatternInjective(l, l');
    FromPatternInjective(h, h');
    SameBytesSameWord(Crc(a), Crc(b));
  }

  lemma TrailerPair(f: bytes, g: bytes)
    requires |f| >= 2 && SameBut(f, g, |f| - 2) && Sealed(f) && f != g
    ensures !Sealed(g)
  {
    hide Trailer;
    var n := |f| - 2;
    assert f == f[..n] + f[n..] && g == g[..n] + g[n..];
  }

  /** Of two different frames of one length that differ in two neighbouring bytes at most,
      both carry a valid checksum just when the bytes are the last of the payload and the
      first of the trailer, changed by 0x89 and by 0xA1. */
  lemma AdjacentChange(f: bytes, g: bytes, k: nat)
    requires SameBut(f, g, k) && Sealed(f) && f != g
    ensures Sealed(g) <==> Slips(f, g, k)
  {
    hide Sealed, Xor;
    if k + 3 == |f| {
      StraddlingPair(f, g);
    } else if k + 2 == |f| {
      TrailerPair(f, g);
    } else {
      PayloadPair(f, g, k);
    }
  }

  /** Every frame with a payload has such a twin: the changes that slip through. */
  lemma UndetectedTwin(f: bytes) returns (g: bytes)
    requires |f| >= 3 && Sealed(f)
    ensures g == f[|f| - 3 := Xor(f[|f| - 3], 0x89)][|f| - 2 := Xor(f[|f| - 2], 0xA1)]
    ensures g != f && Sealed(g)
  {
    var k := |f| - 3;
    g := f[k := Xor(f[k], 0x89)][k + 1 := Xor(f[k + 1], 0xA1)];
    XorTwice(f[k], 0x89);
    XorTwice(f[k + 1], 0xA1);
    assert g[..k] == f[..k] && g[k + 2..] == f[k + 2..];
    assert f != g by {
      XorSame(f[k]);
    }
    AdjacentChange(f, g, k);
  }

  lemma XorTwice(a: byte, w: byte)
    ensures Xor(a, Xor(a, w)) == w
  {
    XorPattern(a, w);
    XorPattern(a, Xor(a, w));
    CancelWord(Pattern(a), Pattern(w));
    PatternInjective(Xor(a, Xor(a, w)), w);
  }

  lemma CancelWord(a: bv8, w: bv8)
    ensures a ^ (a ^ w) == w
  {}

  lemma XorSame(a: byte)
    ensures Xor(a, a) == 0
  {}
}
