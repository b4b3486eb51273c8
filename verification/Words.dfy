/** Machine words as strings of bits, least significant bit first. */
module Words {

  type Bits = seq<bool>
  type Byte = b: Bits | |b| == 8 witness Zeros(8)
  type Word = w: Bits | |w| == 64 witness Zeros(64)

  // ---- Bitwise operations on words ----

  function Xor(a: Word, b: Word): Word { seq(64, i requires 0 <= i < 64 => a[i] != b[i]) }
  function And(a: Word, b: Word): Word { seq(64, i requires 0 <= i < 64 => a[i] && b[i]) }
  function Or(a: Word, b: Word): Word { seq(64, i requires 0 <= i < 64 => a[i] || b[i]) }
  function Not(a: Word): Word { seq(64, i requires 0 <= i < 64 => !a[i]) }

  /** Rotation towards the more significant end. */
  function Rol(a: Word, n: nat): Word
    requires n <= 64
  {
    a[64 - n..] + a[..64 - n]
  }

  function Shl(a: Word, n: nat): Word
    requires n <= 64
  {
    Zeros(n) + a[..64 - n]
  }

  function Shr(a: Word, n: nat): Word
    requires n <= 64
  {
    a[n..] + Zeros(n)
  }

  // ---- Bit strings as numbers ----

  function Pow2(n: nat): (p: nat)
    ensures p > 0
  {
    if n == 0 then 1 else 2 * Pow2(n - 1)
  }

  function Zeros(n: nat): (b: Bits)
    ensures |b| == n && forall i | 0 <= i < n :: !b[i]
  {
    seq(n, _ => false)
  }

  function NatOf(b: Bits): nat {
    if b == [] then 0 else (if b[0] then 1 else 0) + 2 * NatOf(b[1..])
  }

  function BitsOf(n: nat, len: nat): (b: Bits)
    ensures |b| == len
  {
    if len == 0 then [] else [n % 2 == 1] + BitsOf(n / 2, len - 1)
  }

  const WIDTH: nat := 64

  function FromNat(n: nat): Word { BitsOf(n, WIDTH) }

  /** Addition modulo 2^64. */
  function Add(a: Word, b: Word): Word { FromNat(NatOf(a) + NatOf(b)) }

  function Quotient(n: nat, d: nat): nat
    requires d > 0
  {
    n / d
  }

  lemma {:induction false} Pow2Sum(a: nat, b: nat)
    ensures Pow2(a + b) == Pow2(a) * Pow2(b)
  {
    if a == 0 {
    } else {
      Pow2Sum(a - 1, b);
      MulAssoc(2, Pow2(a - 1), Pow2(b));
    }
  }

  lemma MulAssoc(a: int, b: int, c: int)
    ensures a * b * c == a * (b * c)
  {
  }

  lemma Distribute(d: nat, a: nat, b: nat)
    ensures d * (a + b) == d * a + d * b
  {
  }

  /** Of n + 1 numbers below n two are equal. */
  lemma {:induction false} Pigeonhole(f: nat -> nat, n: nat) returns (i: nat, j: nat)
    requires n > 0 && forall k: nat | k <= n :: f(k) < n
    ensures i < j <= n && f(i) == f(j)
    decreases n
  {
    if n == 1 {
      i, j := 0, 1;
    } else if k: nat :| k < n && f(k) == f(n) {
      i, j := k, n;
    } else {
      var g := (k: nat) => if f(k) == n - 1 then f(n) else f(k);
      i, j := Pigeonhole(g, n - 1);
    }
  }

  lemma DivModUnique(n: nat, d: nat, q: nat, r: nat)
    requires n == r + d * q && r < d
    ensures n / d == q && n % d == r
  {
    var k: int := n / d - q;
    assert d * k == r - n % d;
    assert k >= 1 ==> d * k >= d;
    assert k <= -1 ==> d * k + d <= 0;
  }

  lemma {:induction false} NatOfBound(b: Bits)
    ensures NatOf(b) < Pow2(|b|)
  {
    if b == [] {
    } else {
      NatOfBound(b[1..]);
    }
  }

  lemma {:induction false} NatOfZeros(n: nat)
    ensures NatOf(Zeros(n)) == 0
  {
    if n == 0 {
    } else {
      assert Zeros(n)[1..] == Zeros(n - 1);
      NatOfZeros(n - 1);
    }
  }

  lemma {:induction false} NatOfConcat(a: Bits, b: Bits)
    ensures NatOf(a + b) == NatOf(a) + Pow2(|a|) * NatOf(b)
  {
    if a == [] {
      assert a + b == b;
    } else {
      assert (a + b)[1..] == a[1..] + b;
      NatOfConcat(a[1..], b);
      MulAssoc(2, Pow2(|a| - 1), NatOf(b));
    }
  }

  /** The low n bits are the remainder, the others the quotient. */
  lemma NatOfSplit(b: Bits, n: nat)
    requires n <= |b|
    ensures NatOf(b[..n]) == NatOf(b) % Pow2(n)
    ensures NatOf(b[n..]) == NatOf(b) / Pow2(n)
  {
    assert b == b[..n] + b[n..];
    NatOfConcat(b[..n], b[n..]);
    NatOfBound(b[..n]);
    DivModUnique(NatOf(b), Pow2(n), NatOf(b[n..]), NatOf(b[..n]));
  }

  lemma {:induction false} BitsOfNatOf(b: Bits)
    ensures BitsOf(NatOf(b), |b|) == b
  {
    if b == [] {
    } else {
      BitsOfNatOf(b[1..]);
      assert NatOf(b) / 2 == NatOf(b[1..]);
      assert b == [b[0]] + b[1..];
    }
  }

  lemma {:induction false} LowBits(n: nat, len: nat) returns (q: nat)
    ensures n == NatOf(BitsOf(n, len)) + Pow2(len) * q
  {
    if len == 0 {
      q := n;
    } else {
      q := LowBits(n / 2, len - 1);
      assert BitsOf(n, len)[1..] == BitsOf(n / 2, len - 1);
      MulAssoc(2, Pow2(len - 1), q);
    }
  }

  lemma NatOfBitsOf(n: nat, len: nat)
    ensures NatOf(BitsOf(n, len)) == n % Pow2(len)
    ensures n < Pow2(len) ==> NatOf(BitsOf(n, len)) == n
  {
    var q := LowBits(n, len);
    NatOfBound(BitsOf(n, len));
    DivModUnique(n, Pow2(len), q, NatOf(BitsOf(n, len)));
    if n < Pow2(len) {
      DivModUnique(n, Pow2(len), 0, n);
    }
  }

  lemma Pow2Of8()
    ensures Pow2(1) == 2 && Pow2(2) == 4 && Pow2(4) == 16 && Pow2(8) == 0x100
  {
  }

  lemma Pow2Of16()
    ensures Pow2(16) == 0x1_0000
  {
    Pow2Of8();
    hide Pow2;
    Pow2Sum(8, 8);
  }

  lemma Pow2Of32()
    ensures Pow2(32) == 0x1_0000_0000
  {
    Pow2Of16();
    hide Pow2;
    Pow2Sum(16, 16);
  }

  lemma Pow2Of64()
    ensures Pow2(64) == 0x1_0000_0000_0000_0000
  {
    Pow2Of32();
    hide Pow2;
    Pow2Sum(32, 32);
  }

  lemma Pow2Of63()
    ensures Pow2(63) == 0x8000_0000_0000_0000
  {
    Pow2Of64();
    Pow2Sum(1, 63);
    Pow2Of8();
    hide Pow2;
  }

  /** What is left of a number in 64 bits. */
  function Wrap(n: int): nat {
    n % Pow2(WIDTH)
  }

  lemma WrapIsModulo(n: int)
    ensures Wrap(n) == n % 0x1_0000_0000_0000_0000
  {
    Pow2Of64();
  }

  lemma AddWraps(a: Word, b: Word)
    ensures NatOf(Add(a, b)) == Wrap(NatOf(a) + NatOf(b))
  {
    hide NatOf;
    hide Pow2;
    hide BitsOf;
    NatOfBitsOf(NatOf(a) + NatOf(b), WIDTH);
  }

  /** Numbers without a common bit add up without carries. */
  lemma {:induction false} DisjointSum(a: Bits, b: Bits, c: Bits)
    requires |a| == |b| == |c|
    requires forall i | 0 <= i < |a| :: !(a[i] && b[i]) && c[i] == (a[i] || b[i])
    ensures NatOf(a) + NatOf(b) == NatOf(c)
  {
    if a == [] {
    } else {
      DisjointSum(a[1..], b[1..], c[1..]);
    }
  }

  /** The more significant halves decide a comparison unless they are equal. */
  lemma CompareHalves(a: Bits, b: Bits, c: Bits, d: Bits)
    requires |a| == |c|
    ensures NatOf(b) < NatOf(d) ==> NatOf(a + b) < NatOf(c + d)
    ensures NatOf(b) == NatOf(d) ==> (NatOf(a + b) < NatOf(c + d) <==> NatOf(a) < NatOf(c))
  {
    NatOfConcat(a, b);
    NatOfConcat(c, d);
    NatOfBound(a);
    HighPartDecides(NatOf(a), NatOf(b), NatOf(c), NatOf(d), Pow2(|a|));
    hide NatOf;
  }

  lemma HighPartDecides(a: nat, b: nat, c: nat, d: nat, p: nat)
    requires a < p
    ensures b < d ==> a + p * b < c + p * d
    ensures b == d ==> p * b == p * d
  {
    if b < d {
      MulGrows(p, b, d);
    }
  }

  lemma {:induction false} MulGrows(p: nat, b: nat, d: nat)
    requires b < d
    ensures p * d >= p * b + p
    decreases d
  {
    if d > b + 1 {
      MulGrows(p, b, d - 1);
    }
    assert p * d == p * (d - 1) + p;
  }

  lemma {:induction false} NatOfInjective(a: Bits, b: Bits)
    requires |a| == |b| && NatOf(a) == NatOf(b)
    ensures a == b
  {
    BitsOfNatOf(a);
    BitsOfNatOf(b);
  }

  lemma ShlAt(a: Word, n: nat, i: nat)
    requires n <= 64 && i < 64
    ensures Shl(a, n)[i] == (i >= n && a[i - n])
  {
  }

  lemma ShrAt(a: Word, n: nat, i: nat)
    requires n <= 64 && i < 64
    ensures Shr(a, n)[i] == (i + n < 64 && a[i + n])
  {
  }

  // ---- Bytes from nibbles ----

  function OrByte(a: Byte, b: Byte): Byte {
    seq(8, i requires 0 <= i < 8 => a[i] || b[i])
  }

  lemma PackedNibbles(hi: nat, lo: nat)
    requires hi <= 15 && lo <= 15
    ensures OrByte(BitsOf(hi * 16, 8), BitsOf(lo, 8)) == BitsOf(16 * hi + lo, 8)
  {
    var h, l := BitsOf(hi, 4), BitsOf(lo, 4);
    NibblePair(hi, 0);
    NibblePair(0, lo);
    NibblePair(hi, lo);
    NatOfZeros(4);
    BitsOfNatOf(Zeros(4));
    hide NatOf;
    hide BitsOf;
    OrOfNibbles(h, l);
    hide OrByte;
  }

  lemma OrOfNibbles(h: Bits, l: Bits)
    requires |h| == |l| == 4
    ensures OrByte(Zeros(4) + h, l + Zeros(4)) == l + h
  {
  }

  lemma NibblePair(hi: nat, lo: nat)
    requires hi <= 15 && lo <= 15
    ensures BitsOf(16 * hi + lo, 8) == BitsOf(lo, 4) + BitsOf(hi, 4)
  {
    var b := BitsOf(lo, 4) + BitsOf(hi, 4);
    NatOfConcat(BitsOf(lo, 4), BitsOf(hi, 4));
    Pow2Of8();
    NatOfBitsOf(hi, 4);
    NatOfBitsOf(lo, 4);
    hide BitsOf;
    hide NatOf;
    hide Pow2;
    BitsOfNatOf(b);
  }

  // ---- The operations as arithmetic ----

  lemma ShlValue(a: Word, n: nat)
    requires n <= 64
    ensures NatOf(Shl(a, n)) == NatOf(a) * Pow2(n) % Pow2(WIDTH)
  {
    var low := a[..64 - n];
    NatOfConcat(Zeros(n), low);
    NatOfZeros(n);
    NatOfSplit(a, 64 - n);
    ScaledRemainder(NatOf(a), n, 64 - n, WIDTH);
  }

  lemma ShrValue(a: Word, n: nat)
    requires n <= 64
    ensures NatOf(Shr(a, n)) == NatOf(a) / Pow2(n)
  {
    NatOfConcat(a[n..], Zeros(n));
    NatOfZeros(n);
    NatOfSplit(a, n);
  }

  /** What leaves at the top comes in at the bottom. */
  lemma RolValue(a: Word, n: nat)
    requires n <= 64
    ensures NatOf(Rol(a, n)) == NatOf(a) * Pow2(n) % Pow2(WIDTH) + NatOf(a) / Pow2(64 - n)
  {
    NatOfConcat(a[64 - n..], a[..64 - n]);
    NatOfSplit(a, 64 - n);
    ScaledRemainder(NatOf(a), n, 64 - n, WIDTH);
  }

  lemma ScaledRemainder(v: nat, n: nat, m: nat, w: nat)
    requires n + m == w
    ensures v * Pow2(n) % Pow2(w) == Pow2(n) * (v % Pow2(m))
  {
    Pow2Sum(n, m);
    hide Pow2;
    var p, q := Pow2(n), Pow2(m);
    var h, l := v / q, v % q;
    Distribute(p, l, q * h);
    MulAssoc(p, q, h);
    HighPartDecides(0, l, 0, q, p);
    Commutative(v, p);
    DivModUnique(v * p, p * q, h, p * l);
  }

  lemma Commutative(a: nat, b: nat)
    ensures a * b == b * a
  {
  }

  lemma {:induction false} ComplementSum(a: Bits, b: Bits)
    requires |a| == |b| && forall i | 0 <= i < |a| :: b[i] == !a[i]
    ensures NatOf(a) + NatOf(b) == Pow2(|a|) - 1
  {
    if a == [] {
    } else {
      ComplementSum(a[1..], b[1..]);
    }
  }

  lemma NotValue(a: Word)
    ensures NatOf(Not(a)) == Pow2(WIDTH) - 1 - NatOf(a)
  {
    ComplementSum(a, Not(a));
  }

  lemma {:induction false} BitSums(a: Bits, b: Bits, x: Bits, y: Bits, z: Bits)
    requires |a| == |b| == |x| == |y| == |z|
    requires forall i | 0 <= i < |a| :: x[i] == (a[i] != b[i]) && y[i] == (a[i] && b[i]) && z[i] == (a[i] || b[i])
    ensures NatOf(x) + 2 * NatOf(y) == NatOf(a) + NatOf(b) == NatOf(y) + NatOf(z)
  {
    if a == [] {
    } else {
      BitSums(a[1..], b[1..], x[1..], y[1..], z[1..]);
    }
  }

  /** Exclusive or is the sum without carries, and the carries are the conjunction. */
  lemma XorAndOrValue(a: Word, b: Word)
    ensures NatOf(Xor(a, b)) + 2 * NatOf(And(a, b)) == NatOf(a) + NatOf(b)
    ensures NatOf(And(a, b)) + NatOf(Or(a, b)) == NatOf(a) + NatOf(b)
  {
    BitSums(a, b, Xor(a, b), And(a, b), Or(a, b));
  }

  /** Bits are counted from the least significant one. */
  lemma {:induction false} BitOfValue(b: Bits, i: nat)
    requires i < |b|
    ensures b[i] <==> NatOf(b) / Pow2(i) % 2 == 1
  {
    NatOfSplit(b, i);
    var c := b[i..];
    assert NatOf(c) == (if c[0] then 1 else 0) + 2 * NatOf(c[1..]);
  }

  lemma ByteOfValue(b: Bits, i: nat)
    requires i + 8 <= |b|
    ensures NatOf(b[i..i + 8]) == NatOf(b) / Pow2(i) % 0x100
  {
    Pow2Of8();
    hide NatOf;
    hide Pow2;
    SliceValue(b, i, 8);
  }

  lemma SliceValue(b: Bits, i: nat, n: nat)
    requires i + n <= |b|
    ensures NatOf(b[i..i + n]) == NatOf(b) / Pow2(i) % Pow2(n)
  {
    hide NatOf;
    hide Pow2;
    NatOfSplit(b, i);
    NatOfSplit(b[i..], n);
    assert b[i..][..n] == b[i..i + n];
  }

  lemma NibbleOfValue(b: Bits, i: nat)
    requires i + 4 <= |b|
    ensures NatOf(b[i..i + 4]) == NatOf(b) / Pow2(i) % 16
  {
    Pow2Of8();
    hide NatOf;
    hide Pow2;
    SliceValue(b, i, 4);
  }

  lemma RolAt(a: Word, n: nat, z: nat)
    requires n < 64 && z < 64
    ensures Rol(a, n)[(z + n) % 64] == a[z]
    ensures Rol(a, n)[z] == a[(z + 64 - n) % 64]
  {
    RolFrom(a, n, z);
    RolFrom(a, n, (z + 64 - n) % 64);
    AroundAndBack(n, z);
    hide Rol;
  }

  lemma RolFrom(a: Word, n: nat, z: nat)
    requires n < 64 && z < 64
    ensures Rol(a, n)[(z + n) % 64] == a[z]
  {
    assert (z + n) % 64 == if z + n < 64 then z + n else z + n - 64;
  }

  lemma AroundAndBack(n: nat, z: nat)
    requires n < 64 && z < 64
    ensures ((z + 64 - n) % 64 + n) % 64 == z
  {
  }

  /** The word with the single bit i. */
  lemma OneBit(i: nat)
    requires i < 64
    ensures FromNat(Pow2(i)) == Zeros(i) + [true] + Zeros(63 - i)
  {
    var low, high := Zeros(i), Zeros(63 - i);
    assert NatOf([true]) == 1;
    hide NatOf;
    hide Pow2;
    hide BitsOf;
    hide Zeros;
    NatOfZeros(i);
    NatOfZeros(63 - i);
    NatOfConcat(low, [true]);
    NatOfConcat(low + [true], high);
    TimesOneAndZero(Pow2(|low|), NatOf([true]), Pow2(|low + [true]|), NatOf(high));
    BitsOfNatOf(low + [true] + high);
  }

  lemma TimesOneAndZero(p: nat, one: nat, q: nat, zero: nat)
    requires one == 1 && zero == 0
    ensures p * one == p && q * zero == 0
  {
  }

  lemma XorWithBit(a: Word, b: Word, i: nat)
    requires i < 64 && !a[i] && b == Zeros(i) + [true] + Zeros(63 - i)
    ensures NatOf(Xor(a, b)) == NatOf(a) + NatOf(b)
  {
    hide NatOf;
    DisjointSum(a, b, Xor(a, b));
  }

  /** Exclusive or with a bit that is not set adds it. */
  lemma XorAddsBit(x: nat, i: nat)
    requires i < 64 && x < Pow2(WIDTH) && x / Pow2(i) % 2 == 0
    ensures Xor(FromNat(x), FromNat(Pow2(i))) == FromNat(x + Pow2(i))
  {
    hide NatOf;
    hide Pow2;
    hide BitsOf;
    hide Xor;
    var a, b := FromNat(x), FromNat(Pow2(i));
    OneBit(i);
    NatOfBitsOf(x, WIDTH);
    PowerBelow(i, WIDTH);
    NatOfBitsOf(Pow2(i), WIDTH);
    BitOfValue(a, i);
    XorWithBit(a, b, i);
    BitsOfNatOf(Xor(a, b));
  }

  lemma {:induction false} PowerBelow(i: nat, n: nat)
    requires i < n
    ensures Pow2(i) < Pow2(n)
  {
    if i == n - 1 {
    } else {
      PowerBelow(i, n - 1);
    }
  }
}
