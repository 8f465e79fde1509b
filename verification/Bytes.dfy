/** Bytes as small integers, their bit patterns, and the fixed-width integer
    encodings that the protocol uses. */
module Bytes {

  type byte = x: int | 0 <= x < 256

  type bytes = seq<byte>

  /** The bit pattern of a byte. */
  function Pattern(b: byte): bv8 {
    b as bv8
  }

  /** The byte with a given bit pattern. */
  function FromPattern(w: bv8): byte {
    w as int
  }

  function Xor(a: byte, b: byte): byte {
    FromPattern(Pattern(a) ^ Pattern(b))
  }

  lemma PatternOfFromPattern(w: bv8)
    ensures Pattern(FromPattern(w)) == w
  {}

  lemma FromPatternSuccessor(w: bv8)
    requires w != 0xFF
    ensures FromPattern(w + 1) == FromPattern(w) + 1
  {}

  lemma {:induction false} PatternExists(b: byte) returns (w: bv8)
    ensures FromPattern(w) == b
  {
    if b == 0 {
      w := 0;
    } else {
      var v := PatternExists(b - 1);
      FromPatternSuccessor(v);
      w := v + 1;
    }
  }

  lemma FromPatternOfPattern(b: byte)
    ensures FromPattern(Pattern(b)) == b
  {
    var w := PatternExists(b);
    PatternOfFromPattern(w);
  }

  lemma PatternInjective(a: byte, b: byte)
    requires Pattern(a) == Pattern(b)
    ensures a == b
  {
    FromPatternOfPattern(a);
    FromPatternOfPattern(b);
  }

  lemma XorPattern(a: byte, b: byte)
    ensures Pattern(Xor(a, b)) == Pattern(a) ^ Pattern(b)
  {
    PatternOfFromPattern(Pattern(a) ^ Pattern(b));
  }

  /** Masking a byte twice with the same key byte gives it back. */
  lemma XorInvolution(a: byte, key: byte)
    ensures Xor(Xor(a, key), key) == a
  {
    XorPattern(a, key);
    XorPattern(Xor(a, key), key);
    assert Pattern(Xor(Xor(a, key), key)) == Pattern(a);
    PatternInjective(Xor(Xor(a, key), key), a);
  }

  // ---- integers in two bytes ----

  function Be16(n: nat): (r: bytes)
    requires n < 0x1_0000
    ensures |r| == 2 && FromBe16(r) == n
  {
    [n / 256, n % 256]
  }

  function FromBe16(b: bytes): (n: nat)
    requires |b| == 2
    ensures n < 0x1_0000
  {
    256 * (b[0] as int) + b[1]
  }

  function Le16(n: nat): (r: bytes)
    requires n < 0x1_0000
    ensures |r| == 2 && FromLe16(r) == n
  {
    [n % 256, n / 256]
  }

  function FromLe16(b: bytes): (n: nat)
    requires |b| == 2
    ensures n < 0x1_0000
  {
    b[0] + 256 * (b[1] as int)
  }

  lemma Be16Inverse(b: bytes)
    requires |b| == 2
    ensures Be16(FromBe16(b)) == b
  {}

  lemma Le16Inverse(b: bytes)
    requires |b| == 2
    ensures Le16(FromLe16(b)) == b
  {}
}
