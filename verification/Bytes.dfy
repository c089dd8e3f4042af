/** Bytes, big-endian numbers and the four-byte XOR mask: the arithmetic both codecs share. */
module Bytes {

  type Byte = b: int | 0 <= b < 256

  type Opcode = b: int | 0 <= b < 16

  /** A masking key (section 5.3 of RFC 6455). */
  type Key = k: seq<Byte> | |k| == 4 witness [0, 0, 0, 0]

  datatype Option<+T> = None | Some(value: T)

  // ---- sequences and sets ---------------------------------------------------------------------

  function Flatten<T>(parts: seq<seq<T>>): seq<T> {
    if parts == [] then [] else parts[0] + Flatten(parts[1..])
  }

  lemma {:induction false} Assoc<T>(a: seq<T>, b: seq<T>, c: seq<T>)
    ensures a + (b + c) == a + b + c
  {}

  lemma {:induction false} SubsetIsSmaller<T>(a: set<T>, b: set<T>)
    requires a <= b
    ensures |a| <= |b|
  {
    assert b == a + (b - a);
  }

  // ---- single bits ----------------------------------------------------------------------------

  /** The flag bit 0x80 over a seven-bit value: FIN over an opcode, MASK over a length code. */
  function Flagged(flag: bool, low: Byte): Byte
    requires low < 128
  {
    if flag then 128 + low else low
  }

  predicate Flag(b: Byte) { b >= 128 }

  function Low7(b: Byte): Byte { if b >= 128 then b - 128 else b }

  function Low4(b: Byte): Opcode { b % 16 }

  predicate HasReserved(b: Byte) { Low7(b) >= 16 }

  predicate IsControl(opcode: Opcode) { opcode >= 8 }

  /** The definitions above are the bit operations of the two programs. */
  lemma {:induction false} BitOperations(b: bv8)
    ensures Flag(b as int) <==> b & 0x80 != 0
    ensures Low7(b as int) == (b & 0x7F) as int
    ensures Low4(b as int) == (b & 0x0F) as int
    ensures HasReserved(b as int) <==> b & 0x70 != 0
    ensures b < 0x80 ==> Flagged(true, b as int) == (0x80 | b) as int
    ensures b < 0x10 ==> (IsControl(b as int) <==> b & 0x8 != 0)
  {
    FlagBits(b);
    LowBits(b);
    ReservedBits(b);
  }

  lemma {:induction false} FlagBits(b: bv8)
    ensures Flag(b as int) <==> b & 0x80 != 0
    ensures b < 0x80 ==> Flagged(true, b as int) == (0x80 | b) as int
  {}

  lemma {:induction false} LowBits(b: bv8)
    ensures Low7(b as int) == (b & 0x7F) as int
    ensures Low4(b as int) == (b & 0x0F) as int
  {}

  lemma {:induction false} ReservedBits(b: bv8)
    ensures HasReserved(b as int) <==> b & 0x70 != 0
    ensures b < 0x10 ==> (IsControl(b as int) <==> b & 0x8 != 0)
  {}

  // ---- big-endian numbers ---------------------------------------------------------------------

  /** `byte(v)`: keeps the low eight bits. */
  function LowByte(n: nat): Byte { n % 256 }

  /** `PutUint16`, `PutUint64`, `pack('n')` and `pack('Q>')`, for any width in bytes. */
  function PutBE(n: nat, width: nat): (s: seq<Byte>)
    ensures |s| == width
  {
    if width == 0 then [] else PutBE(n / 256, width - 1) + [LowByte(n)]
  }

  /** `Uint16`, `Uint64`, `unpack1('n')` and `unpack1('Q>')`. */
  function GetBE(s: seq<Byte>): nat
  {
    if s == [] then 0 else GetBE(s[..|s| - 1]) * 256 + s[|s| - 1]
  }

  function Pow256(width: nat): (p: nat)
    ensures p > 0
  {
    if width == 0 then 1 else 256 * Pow256(width - 1)
  }

  lemma {:induction false} GetAfterPut(n: nat, width: nat)
    requires n < Pow256(width)
    ensures GetBE(PutBE(n, width)) == n
  {
    if width == 0 {
    } else {
      GetAfterPut(n / 256, width - 1);
      assert PutBE(n, width)[..width - 1] == PutBE(n / 256, width - 1);
    }
  }

  lemma {:induction false} PutAfterGet(s: seq<Byte>)
    ensures GetBE(s) < Pow256(|s|)
    ensures PutBE(GetBE(s), |s|) == s
  {
    if s == [] {
    } else {
      PutAfterGet(s[..|s| - 1]);
      assert s == s[..|s| - 1] + [s[|s| - 1]];
    }
  }

  lemma {:induction false} WidthBounds()
    ensures Pow256(2) == 0x1_0000
    ensures Pow256(8) == 0x1_0000_0000_0000_0000
  {
    assert Pow256(4) == 0x1_0000_0000;
  }

  // ---- masking --------------------------------------------------------------------------------

  /** Exclusive or of the low `width` bits. */
  function XorBits(a: nat, b: nat, width: nat): (r: nat)
    ensures r < Pow2(width)
  {
    if width == 0 then 0 else (if a % 2 == b % 2 then 0 else 1) + 2 * XorBits(a / 2, b / 2, width - 1)
  }

  function Pow2(width: nat): (p: nat)
    ensures p > 0
  {
    if width == 0 then 1 else 2 * Pow2(width - 1)
  }

  function Xor(a: Byte, b: Byte): (r: Byte) {
    assert Pow2(4) == 16 && Pow2(8) == 256;
    XorBits(a, b, 8)
  }

  lemma {:induction false} XorBitsTwice(a: nat, b: nat, width: nat)
    requires a < Pow2(width)
    ensures XorBits(XorBits(a, b, width), b, width) == a
  {
    if width == 0 {
    } else {
      XorBitsTwice(a / 2, b / 2, width - 1);
    }
  }

  /** Byte `i` is combined with key byte `i % 4` by exclusive or. */
  function Mask(p: seq<Byte>, key: Key): (m: seq<Byte>)
    ensures |m| == |p|
  {
    seq(|p|, i requires 0 <= i < |p| => Xor(p[i], key[i % 4]))
  }

  lemma {:induction false} MaskTwice(p: seq<Byte>, key: Key)
    ensures Mask(Mask(p, key), key) == p
  {
    forall i | 0 <= i < |p|
      ensures Mask(Mask(p, key), key)[i] == p[i]
    {
      assert Pow2(4) == 16 && Pow2(8) == 256;
      XorBitsTwice(p[i], key[i % 4], 8);
    }
  }

  // ---- masking is bitwise -----------------------------------------------------------------------

  predicate IsBit(m: bv8) {
    m == 1 || m == 2 || m == 4 || m == 8 || m == 16 || m == 32 || m == 64 || m == 128
  }

  /** The bit of `b` that `m` selects. */
  function Bit(b: bv8, m: bv8): (r: nat)
    ensures r < 2
  {
    if b & m != 0 then 1 else 0
  }

  function Select(k: nat): (m: bv8)
    requires k < 8
    ensures IsBit(m)
  {
    if k == 0 then 1 else if k == 1 then 2 else if k == 2 then 4 else if k == 3 then 8
    else if k == 4 then 16 else if k == 5 then 32 else if k == 6 then 64 else 128
  }

  /** The eight bits, lowest first. */
  function Bits(b: bv8): (p: seq<nat>)
    ensures |p| == 8 && forall k :: 0 <= k < 8 ==> p[k] == Bit(b, Select(k))
  {
    seq(8, k requires 0 <= k < 8 => Bit(b, Select(k)))
  }

  function FromBits(p: seq<nat>): nat {
    if p == [] then 0 else p[0] + 2 * FromBits(p[1..])
  }

  lemma {:induction false} BitsMakeByte(b: bv8)
    ensures b as int == Bit(b, 1) + 2 * (Bit(b, 2) + 2 * (Bit(b, 4) + 2 * (Bit(b, 8)
      + 2 * (Bit(b, 16) + 2 * (Bit(b, 32) + 2 * (Bit(b, 64) + 2 * Bit(b, 128)))))))
  {}

  lemma {:induction false} FromEightBits(a: nat, b: nat, c: nat, d: nat, e: nat, f: nat, g: nat, h: nat)
    ensures FromBits([a, b, c, d, e, f, g, h]) ==
      a + 2 * (b + 2 * (c + 2 * (d + 2 * (e + 2 * (f + 2 * (g + 2 * h))))))
  {
    assert FromBits([h]) == h;
    assert FromBits([g, h]) == g + 2 * h;
    assert FromBits([f, g, h]) == f + 2 * (g + 2 * h);
    assert FromBits([e, f, g, h]) == e + 2 * (f + 2 * (g + 2 * h));
    assert FromBits([d, e, f, g, h]) == d + 2 * (e + 2 * (f + 2 * (g + 2 * h)));
    assert FromBits([c, d, e, f, g, h]) == c + 2 * (d + 2 * (e + 2 * (f + 2 * (g + 2 * h))));
    assert FromBits([b, c, d, e, f, g, h]) == b + 2 * (c + 2 * (d + 2 * (e + 2 * (f + 2 * (g + 2 * h)))));
  }

  lemma {:induction false} ByteFromBits(b: bv8)
    ensures FromBits(Bits(b)) == b as int
  {
    hide Bit, FromBits;
    BitsMakeByte(b);
    assert Bits(b) == [Bit(b, 1), Bit(b, 2), Bit(b, 4), Bit(b, 8), Bit(b, 16), Bit(b, 32), Bit(b, 64), Bit(b, 128)];
    FromEightBits(Bit(b, 1), Bit(b, 2), Bit(b, 4), Bit(b, 8), Bit(b, 16), Bit(b, 32), Bit(b, 64), Bit(b, 128));
  }

  lemma {:induction false} BitOfXor(a: bv8, b: bv8, m: bv8)
    requires IsBit(m)
    ensures Bit(a ^ b, m) == if Bit(a, m) == Bit(b, m) then 0 else 1
  {}

  /** Bit by bit: zero where the two agree. */
  ghost predicate Differences(p: seq<nat>, q: seq<nat>, r: seq<nat>) {
    |p| == |q| == |r| && forall i :: 0 <= i < |p| ==> p[i] < 2 && q[i] < 2 && r[i] == if p[i] == q[i] then 0 else 1
  }

  lemma {:induction false} BitsOfXor(a: bv8, b: bv8)
    ensures Differences(Bits(a), Bits(b), Bits(a ^ b))
  {
    hide Bit, Bits, Select;
    forall k | 0 <= k < 8
      ensures Bits(a ^ b)[k] == if Bits(a)[k] == Bits(b)[k] then 0 else 1
    {
      BitOfXor(a, b, Select(k));
    }
  }

  lemma {:induction false} XorOfBits(p: seq<nat>, q: seq<nat>, r: seq<nat>)
    requires Differences(p, q, r)
    ensures XorBits(FromBits(p), FromBits(q), |p|) == FromBits(r)
  {
    if p == [] {
    } else {
      XorOfBits(p[1..], q[1..], r[1..]);
    }
  }

  /** `Xor` is the exclusive or of the two programs. */
  lemma {:induction false} XorIsBitwise(a: bv8, b: bv8)
    ensures Xor(a as int, b as int) == (a ^ b) as int
  {
    hide Bit, FromBits, XorBits, Differences;
    ByteFromBits(a);
    ByteFromBits(b);
    ByteFromBits(a ^ b);
    BitsOfXor(a, b);
    XorOfBits(Bits(a), Bits(b), Bits(a ^ b));
  }

  lemma {:induction false} NextByte(b: bv8)
    requires b < 255
    ensures (b + 1) as int == b as int + 1
  {}

  /** Every byte is some eight bits. */
  lemma {:induction false} ByteAsBits(n: Byte) returns (b: bv8)
    ensures b as int == n
    decreases n
  {
    if n == 0 {
      b := 0;
    } else {
      b := ByteAsBits(n - 1);
      NextByte(b);
      b := b + 1;
    }
  }

  /** Byte `i` of what is sent is byte `i` of the payload, combined bit by bit with key byte `i % 4`. */
  lemma {:induction false} MaskIsBitwise(p: seq<Byte>, key: Key, i: nat) returns (a: bv8, b: bv8)
    requires i < |p|
    ensures a as int == p[i] && b as int == key[i % 4] && Mask(p, key)[i] == (a ^ b) as int
  {
    a := ByteAsBits(p[i]);
    b := ByteAsBits(key[i % 4]);
    XorIsBitwise(a, b);
  }
}
