/** Octets, big-endian words and bitwise exclusive or, over the integers. */
module Bytes {

  type Octet = x: nat | x < 0x100
  type Octets = seq<Octet>

  /** The number some octets stand for, most significant octet first. */
  function Value(octets: Octets): nat {
    if octets == [] then 0 else Value(octets[..|octets| - 1]) * 0x100 + octets[|octets| - 1]
  }

  lemma ValueOfTwo(hi: Octet, lo: Octet)
    ensures Value([hi, lo]) == hi * 0x100 + lo
  {
    assert [hi, lo][..1] == [hi] && [hi][..0] == [];
    assert Value([hi]) == hi;
  }

  lemma ValueOfFour(a: Octet, b: Octet, c: Octet, d: Octet)
    ensures Value([a, b, c, d]) == Value([a, b]) * 0x1_0000 + Value([c, d])
  {
    ValueOfTwo(a, b);
    ValueOfTwo(c, d);
    assert [a, b, c, d][..3] == [a, b, c] && [a, b, c][..2] == [a, b];
    assert Value([a, b, c]) == Value([a, b]) * 0x100 + c;
  }

  /** The two-octet big-endian word. */
  function Word16(hi: Octet, lo: Octet): (w: nat)
    ensures w < 0x1_0000
  {
    ValueOfTwo(hi, lo);
    Value([hi, lo])
  }

  function Word32(a: Octet, b: Octet, c: Octet, d: Octet): (w: nat)
    ensures w < 0x1_0000_0000
  {
    ValueOfFour(a, b, c, d);
    ValueOfTwo(a, b);
    ValueOfTwo(c, d);
    Value([a, b, c, d])
  }

  /** The low 16 bits of `n` in big-endian order, as a cast to 16 bits leaves them. */
  function Octets16(n: nat): (r: Octets)
    ensures |r| == 2 && Word16(r[0], r[1]) == n % 0x1_0000
  {
    LowHalf(n / 0x100, n % 0x100);
    ValueOfTwo(n / 0x100 % 0x100, n % 0x100);
    [n / 0x100 % 0x100, n % 0x100]
  }

  function Octets32(n: nat): (r: Octets)
    ensures |r| == 4 && Word32(r[0], r[1], r[2], r[3]) == n % 0x1_0000_0000
  {
    LowWord(n / 0x1_0000, n % 0x1_0000);
    var high, low := Octets16(n / 0x1_0000), Octets16(n);
    ValueOfFour(high[0], high[1], low[0], low[1]);
    high + low
  }

  /** Everything above the low 16 bits is cut off. */
  lemma LowHalf(high: nat, low: nat)
    requires low < 0x100
    ensures (0x100 * high + low) % 0x1_0000 == 0x100 * (high % 0x100) + low
  {
    var q, r := high / 0x100, high % 0x100;
    assert 0x100 * high + low == 0x1_0000 * q + (0x100 * r + low);
  }

  lemma LowWord(high: nat, low: nat)
    requires low < 0x1_0000
    ensures (0x1_0000 * high + low) % 0x1_0000_0000 == 0x1_0000 * (high % 0x1_0000) + low
  {
    var q, r := high / 0x1_0000, high % 0x1_0000;
    assert 0x1_0000 * high + low == 0x1_0000_0000 * q + (0x1_0000 * r + low);
  }

  /** Bitwise exclusive or. */
  function Xor(x: nat, y: nat): nat {
    if x == 0 && y == 0 then 0
    else 2 * Xor(x / 2, y / 2) + if x % 2 == y % 2 then 0 else 1
  }

  lemma {:induction false} XorTwice(x: nat, y: nat)
    ensures Xor(Xor(x, y), y) == x
  {
    if x != 0 || y != 0 {
      XorTwice(x / 2, y / 2);
      var z := Xor(x, y);
      assert z / 2 == Xor(x / 2, y / 2) && z % 2 == if x % 2 == y % 2 then 0 else 1;
    }
  }

  function Pow2(bits: nat): (r: nat)
    ensures r > 0
  {
    if bits == 0 then 1 else 2 * Pow2(bits - 1)
  }

  /** Exclusive or stays within the width of its operands. */
  lemma {:induction false} XorWidth(x: nat, y: nat, bits: nat)
    requires x < Pow2(bits) && y < Pow2(bits)
    ensures Xor(x, y) < Pow2(bits)
  {
    if bits > 0 && (x != 0 || y != 0) {
      XorWidth(x / 2, y / 2, bits - 1);
    }
  }

  /** Words are written most significant octet first. */
  lemma BigEndian(a: Octet, b: Octet, c: Octet, d: Octet)
    ensures Word16(a, b) == 0x100 * a + b
    ensures Word32(a, b, c, d) == 0x100_0000 * a + 0x1_0000 * b + 0x100 * c + d
    ensures Octets16(0x100 * a + b) == [a, b]
    ensures Octets32(0x100_0000 * a + 0x1_0000 * b + 0x100 * c + d) == [a, b, c, d]
  {
    ValueOfTwo(a, b);
    ValueOfTwo(c, d);
    ValueOfFour(a, b, c, d);
    var hi, lo := 0x100 * a + b, 0x100 * c + d;
    Split16(a, b);
    Split16(c, d);
    var n := 0x1_0000 * hi + lo;
    assert n / 0x1_0000 == hi;
    assert lo / 0x100 % 0x100 == n / 0x100 % 0x100 && lo % 0x100 == n % 0x100 by {
      LowOctets(hi, lo);
    }
    assert n == 0x100_0000 * a + 0x1_0000 * b + 0x100 * c + d;
  }

  lemma Split16(hi: Octet, lo: Octet)
    ensures Octets16(0x100 * hi + lo) == [hi, lo]
  {
  }

  lemma LowOctets(hi: nat, lo: nat)
    requires lo < 0x1_0000
    ensures (0x1_0000 * hi + lo) / 0x100 % 0x100 == lo / 0x100 % 0x100 && (0x1_0000 * hi + lo) % 0x100 == lo % 0x100
  {
    var n := 0x1_0000 * hi + lo;
    assert n / 0x100 == 0x100 * hi + lo / 0x100;
  }

  function Shifted(x: nat, bits: nat): nat {
    if bits == 0 then x else 2 * Shifted(x, bits - 1)
  }

  /** Exclusive or works on the high and the low part of a number separately. */
  lemma {:induction false} XorParts(h: nat, l: nat, g: nat, m: nat, bits: nat)
    requires l < Pow2(bits) && m < Pow2(bits)
    ensures Xor(Shifted(h, bits) + l, Shifted(g, bits) + m) == Shifted(Xor(h, g), bits) + Xor(l, m)
  {
    if bits == 0 {
      XorOfZeros();
    } else {
      assert l / 2 < Pow2(bits - 1) && m / 2 < Pow2(bits - 1);
      assert forall x {:trigger Shifted(x, bits)} :: Shifted(x, bits) == 2 * Shifted(x, bits - 1);
      hide Xor, Pow2, Shifted;
      XorParts(h, l / 2, g, m / 2, bits - 1);
      XorPartsStep(Shifted(h, bits - 1), l, Shifted(g, bits - 1), m, Shifted(Xor(h, g), bits - 1));
    }
  }

  lemma {:induction false} XorPartsStep(h: nat, l: nat, g: nat, m: nat, x: nat)
    requires Xor(h + l / 2, g + m / 2) == x + Xor(l / 2, m / 2)
    ensures Xor(2 * h + l, 2 * g + m) == 2 * x + Xor(l, m)
  {
    hide Xor;
    XorStep(2 * h + l, 2 * g + m);
    XorStep(l, m);
  }

  lemma Doubled(half: nat, p: nat, x: nat)
    requires p == 2 * half
    ensures p * x == 2 * (half * x)
  {
  }

  lemma XorOfZeros()
    ensures Xor(0, 0) == 0
  {
  }

  lemma {:induction false} XorStep(x: nat, y: nat)
    ensures Xor(x, y) == 2 * Xor(x / 2, y / 2) + if x % 2 == y % 2 then 0 else 1
  {
  }

  /** The `k`-th bit. */
  function Bit(x: nat, k: nat): nat {
    if k == 0 then x % 2 else Bit(x / 2, k - 1)
  }

  /** Exclusive or, bit by bit. */
  lemma {:induction false} XorBits(x: nat, y: nat, k: nat)
    ensures Bit(Xor(x, y), k) == if Bit(x, k) == Bit(y, k) then 0 else 1
    decreases k
  {
    var z := Xor(x, y);
    assert z / 2 == Xor(x / 2, y / 2) && z % 2 == if x % 2 == y % 2 then 0 else 1;
    if k > 0 {
      XorBits(x / 2, y / 2, k - 1);
    }
  }
}
