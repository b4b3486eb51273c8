/** Left shift of 256-bit integers and the compact target encoding. */
module Target {
  import opened Words
  import opened Uint256Model

  /** The `+=` of the source, which must not overflow. */
  function Plus(a: Word, b: Word): Word
    requires NatOf(a) + NatOf(b) < Pow2(WIDTH)
  {
    Add(a, b)
  }

  /** What limb k receives from the limb shifted onto it. */
  function Shifted(u: Uint256, words: nat, bits: nat, k: nat): Word
    requires bits < 64 && k < 4
  {
    if k >= words then Shl(u[k - words], bits) else Zeros(64)
  }

  /** What limb k receives from the limb below that one. */
  function Carried(u: Uint256, words: nat, bits: nat, k: nat): Word
    requires bits < 64 && k < 4
  {
    if bits > 0 && k >= words + 1 then Shr(u[k - words - 1], 64 - bits) else Zeros(64)
  }

  lemma PlusOfDisjoint(a: Word, b: Word)
    requires forall i | 0 <= i < 64 :: !(a[i] && b[i])
    ensures NatOf(a) + NatOf(b) < Pow2(WIDTH) && Plus(a, b) == Or(a, b)
  {
    var c := Or(a, b);
    DisjointSum(a, b, c);
    hide Or;
    hide NatOf;
    hide BitsOf;
    hide Pow2;
    NatOfBound(c);
    BitsOfNatOf(c);
  }

  /** The shifted part and the carry occupy different bits. */
  lemma ShiftedAndCarriedAreDisjoint(u: Uint256, words: nat, bits: nat, k: nat)
    requires bits < 64 && k < 4
    ensures forall i | 0 <= i < 64 :: !(Carried(u, words, bits, k)[i] && Shifted(u, words, bits, k)[i])
  {
  }

  lemma OrZero(a: Word)
    ensures Or(a, Zeros(64)) == a && Or(Zeros(64), a) == a
  {
  }

  /** Limb k when the limbs of u before limb i have been handled. */
  function Partial(u: Uint256, words: nat, bits: nat, i: nat, k: nat): Word
    requires bits < 64 && k < 4
  {
    if k < i + words then Or(Carried(u, words, bits, k), Shifted(u, words, bits, k))
    else if k == i + words && i > 0 then Carried(u, words, bits, k)
    else Zeros(64)
  }

  lemma PartialStep(u: Uint256, w: nat, b: nat, i: nat, k: nat)
    requires b < 64 && k < 4 && i < 4
    ensures k == i + w ==> NatOf(Partial(u, w, b, i, k)) + NatOf(Shl(u[i], b)) < Pow2(WIDTH)
    ensures k == i + w ==> Plus(Partial(u, w, b, i, k), Shl(u[i], b)) == Partial(u, w, b, i + 1, k)
    ensures k == i + w + 1 && b > 0 ==> NatOf(Partial(u, w, b, i, k)) + NatOf(Shr(u[i], 64 - b)) < Pow2(WIDTH)
    ensures k == i + w + 1 && b > 0 ==> Plus(Partial(u, w, b, i, k), Shr(u[i], 64 - b)) == Partial(u, w, b, i + 1, k)
    ensures k != i + w && (k != i + w + 1 || b == 0) ==> Partial(u, w, b, i + 1, k) == Partial(u, w, b, i, k)
  {
    if k == i + w {
      assert Shifted(u, w, b, k) == Shl(u[i], b);
      assert i == 0 ==> Carried(u, w, b, k) == Zeros(64);
      ShiftedAndCarriedAreDisjoint(u, w, b, k);
      PlusOfDisjoint(Partial(u, w, b, i, k), Shl(u[i], b));
    } else if k == i + w + 1 && b > 0 {
      assert Carried(u, w, b, k) == Shr(u[i], 64 - b);
      OrZero(Shr(u[i], 64 - b));
      PlusOfDisjoint(Zeros(64), Shr(u[i], 64 - b));
    }
    hide Or;
    hide Shl;
    hide Shr;
    hide Plus;
    hide NatOf;
    hide Pow2;
  }

  method ShiftLeft(u: Uint256, shift: nat) returns (r: Uint256)
    ensures Flat(r) == (Zeros(shift) + Flat(u))[..256]
    ensures Value(r) == Value(u) * Pow2(shift) % Pow2(256)
  {
    hide Partial;
    hide Plus;
    hide NatOf;
    hide Pow2;
    hide Shl;
    hide Shr;
    var ret := new Word[4](_ => Zeros(64));
    var wordShift := shift / 64;
    var bitShift := shift % 64;
    PartialEnds(u, wordShift, bitShift);
    for i := 0 to 4
      invariant forall k: nat | k < 4 :: ret[k] == Partial(u, wordShift, bitShift, i, k)
    {
      forall k: nat | k < 4 {
        PartialStep(u, wordShift, bitShift, i, k);
      }
      if bitShift < 64 && i + wordShift < 4 {
        ret[i + wordShift] := Plus(ret[i + wordShift], Shl(u[i], bitShift));
      }
      if bitShift > 0 && i + wordShift + 1 < 4 {
        ret[i + wordShift + 1] := Plus(ret[i + wordShift + 1], Shr(u[i], 64 - bitShift));
      }
    }
    r := ret[..];
    LimbsMakeTheShift(u, shift, r);
    ShiftValue(Flat(u), shift, 256);
  }

  lemma PartialEnds(u: Uint256, w: nat, b: nat)
    requires b < 64
    ensures forall k: nat | k < 4 ::
      Partial(u, w, b, 0, k) == Zeros(64) && Partial(u, w, b, 4, k) == Or(Carried(u, w, b, k), Shifted(u, w, b, k))
  {
    OrZero(Zeros(64));
  }

  lemma LimbsMakeTheShift(u: Uint256, shift: nat, r: Uint256)
    requires forall k: nat | k < 4 ::
      r[k] == Or(Carried(u, shift / 64, shift % 64, k), Shifted(u, shift / 64, shift % 64, k))
    ensures Flat(r) == (Zeros(shift) + Flat(u))[..256]
  {
    forall i: nat | i < 256 ensures Flat(r)[i] == (Zeros(shift) + Flat(u))[i] {
      var k, p := i / 64, i % 64;
      FlatAt(r, k, p);
      LimbBit(u, shift / 64, shift % 64, k, p);
      hide Flat;
    }
  }

  /** Bit p of limb k after the shift. */
  lemma LimbBit(u: Uint256, w: nat, b: nat, k: nat, p: nat)
    requires b < 64 && k < 4 && p < 64
    ensures var shift, i := 64 * w + b, 64 * k + p;
      Or(Carried(u, w, b, k), Shifted(u, w, b, k))[p] == (i >= shift && Flat(u)[i - shift])
  {
    hide Flat;
    hide Shl;
    hide Shr;
    if k >= w {
      ShlAt(u[k - w], b, p);
      if p >= b {
        FlatAt(u, k - w, p - b);
        assert 64 * (k - w) + (p - b) == 64 * k + p - (64 * w + b);
      }
    }
    if k >= w + 1 && b > 0 {
      ShrAt(u[k - w - 1], 64 - b, p);
      if p < b {
        FlatAt(u, k - w - 1, p + 64 - b);
        assert 64 * (k - w - 1) + (p + 64 - b) == 64 * k + p - (64 * w + b);
      }
    }
  }

  lemma FlatAt(u: Uint256, k: nat, p: nat)
    requires k < 4 && p < 64
    ensures Flat(u)[64 * k + p] == u[k][p]
  {
    assert k == 0 || k == 1 || k == 2 || k == 3;
  }

  lemma ShiftValue(b: Bits, shift: nat, n: nat)
    requires |b| == n
    ensures NatOf((Zeros(shift) + b)[..n]) == NatOf(b) * Pow2(shift) % Pow2(n)
  {
    var z := Zeros(shift);
    NatOfZeros(shift);
    NatOfConcat(z, b);
    NatOfSplit(z + b, n);
    hide *;
    Commutes(NatOf(z + b), Pow2(|z|), NatOf(b), Pow2(n));
  }

  lemma Commutes(v: nat, a: nat, b: nat, m: nat)
    requires v == 0 + a * b && m > 0
    ensures v % m == b * a % m
  {
    assert a * b == b * a;
  }

  // ---- Compact encoding ----

  function Pow256(n: nat): (p: nat)
    ensures p > 0
  {
    if n == 0 then 1 else 256 * Pow256(n - 1)
  }

  function FromU64(n: nat): Uint256 {
    [FromNat(n), Zeros(64), Zeros(64), Zeros(64)]
  }

  const BYTES: nat := 32

  const SIGN_LIMIT: nat := 0x7F_FFFF

  /** The number that a compact target stands for: the low 24 bits are scaled by a power of 256. */
  function CompactValue(bits: nat): nat {
    var exponent, mantissa := bits / 0x100_0000, bits % 0x100_0000;
    if exponent <= 3 then
      var shifted := ScaledDown(mantissa, 3 - exponent);
      if shifted > SIGN_LIMIT then 0 else shifted
    else
      if mantissa > SIGN_LIMIT then 0 else ScaledUp(mantissa, exponent - 3)
  }

  function ScaledDown(n: nat, e: nat): nat {
    Quotient(n, Pow256(e))
  }

  function ScaledUp(n: nat, e: nat): nat {
    n * Pow256(e) % Pow256(BYTES)
  }

  method FromCompactTarget(bits: nat) returns (target: Uint256)
    requires bits < 0x1_0000_0000
    ensures Value(target) == CompactValue(bits)
    ensures var e, m := bits / 0x100_0000, bits % 0x100_0000;
      && (e <= 3 ==> var shifted := Quotient(m, Pow2(8 * (3 - e)));
          Value(target) == if shifted > 0x7F_FFFF then 0 else shifted)
      && (e > 3 ==> Value(target) == if m > 0x7F_FFFF then 0 else m * Pow2(8 * (e - 3)) % Pow2(256))
  {
    CompactValueIs(bits);
    hide Pow2;
    hide Pow256;
    hide CompactValue;
    var mant, expt;
    var unshiftedExpt := bits / 0x100_0000;
    if unshiftedExpt <= 3 {
      mant, expt := bits % 0x100_0000 / Pow2(8 * (3 - unshiftedExpt)), 0;
      SmallExponent(bits, mant);
    } else {
      mant, expt := bits % 0x100_0000, 8 * (bits / 0x100_0000 - 3);
      LargeExponent(bits);
    }
    if mant > 0x7F_FFFF {
      target := seq(4, _ => Zeros(64));
      ZeroValue();
    } else {
      FromU64Value(mant);
      target := ShiftLeft(FromU64(mant), expt);
    }
  }

  /** The value t that exponent e and mantissa m stand for, in shifts of whole bytes. */
  predicate IsCompactTarget(e: nat, m: nat, t: nat) {
    if e <= 3 then
      var shifted := Quotient(m, Pow2(8 * (3 - e)));
      t == if shifted > 0x7F_FFFF then 0 else shifted
    else
      t == if m > 0x7F_FFFF then 0 else m * Pow2(8 * (e - 3)) % Pow2(256)
  }

  lemma CompactValueIs(bits: nat)
    ensures IsCompactTarget(bits / 0x100_0000, bits % 0x100_0000, CompactValue(bits))
  {
    hide Pow2;
    hide Pow256;
    var e, m := bits / 0x100_0000, bits % 0x100_0000;
    if e <= 3 {
      Pow256IsPow2(3 - e);
    } else {
      LargeExponent(bits);
    }
  }

  lemma SmallExponent(bits: nat, mant: nat)
    requires bits / 0x100_0000 <= 3
    requires mant == bits % 0x100_0000 / Pow2(8 * (3 - bits / 0x100_0000))
    ensures CompactValue(bits) == if mant > SIGN_LIMIT then 0 else mant * Pow2(0) % Pow2(256)
  {
    Pow256IsPow2(3 - bits / 0x100_0000);
    if mant <= SIGN_LIMIT {
      UnshiftedValue(mant, 0, 256);
    }
    hide Pow2;
    hide Pow256;
  }

  lemma LargeExponent(bits: nat)
    requires bits / 0x100_0000 > 3
    ensures var mant := bits % 0x100_0000;
      CompactValue(bits) == if mant > SIGN_LIMIT then 0 else mant * Pow2(8 * (bits / 0x100_0000 - 3)) % Pow2(256)
  {
    Pow256IsPow2(bits / 0x100_0000 - 3);
    Pow256IsPow2(32);
    hide Pow2;
    hide Pow256;
  }

  lemma {:induction false} Pow256IsPow2(n: nat)
    ensures Pow256(n) == Pow2(8 * n)
  {
    if n == 0 {
    } else {
      Pow256IsPow2(n - 1);
      Pow2Sum(8, 8 * (n - 1));
      Pow2Of8();
    }
  }

  lemma ZeroValue()
    ensures Value(seq(4, _ => Zeros(64))) == 0
  {
    assert Flat(seq(4, _ => Zeros(64))) == Zeros(256);
    NatOfZeros(256);
  }

  lemma FromU64Value(n: nat)
    requires n <= SIGN_LIMIT
    ensures Value(FromU64(n)) == n
  {
    var b: Bits := FromNat(n);
    assert Flat(FromU64(n)) == b + Zeros(192);
    hide NatOf;
    hide Pow2;
    hide BitsOf;
    NatOfConcat(b, Zeros(192));
    NatOfZeros(192);
    NatOfBitsOf(n, WIDTH);
    Pow2Of64();
  }

  lemma UnshiftedValue(n: nat, z: nat, p: nat)
    requires n <= SIGN_LIMIT && z == 0 && p >= 64
    ensures n * Pow2(z) % Pow2(p) == n
  {
    assert Pow2(z) == 1;
    hide Pow2;
    SmallerThanPower(n, p);
    DivModUnique(n, Pow2(p), 0, n);
  }

  lemma SmallerThanPower(n: nat, p: nat)
    requires n <= SIGN_LIMIT && p >= 64
    ensures n < Pow2(p)
  {
    hide Pow2;
    Pow2Of64();
    Pow2Sum(64, p - 64);
    assert Pow2(64) * Pow2(p - 64) >= Pow2(64);
  }

  /** Up to exponent 32 nothing is cut off: the target is exactly the mantissa times a power of 256. */
  lemma NoTruncationUpTo32(bits: nat)
    requires 3 < bits / 0x100_0000 <= 32 && bits % 0x100_0000 <= 0x7F_FFFF
    ensures CompactValue(bits) == bits % 0x100_0000 * Pow256(bits / 0x100_0000 - 3)
  {
    hide Pow256;
    var e, m := bits / 0x100_0000, bits % 0x100_0000;
    Pow256Sum(e - 3, 35 - e);
    PowerLeft(35 - e);
    SmallProduct(m, Pow256(e - 3), Pow256(35 - e), Pow256(BYTES));
  }

  /** The exact condition for a target that is not cut off, for every exponent above 3. */
  lemma NoTruncationIff(bits: nat)
    requires 3 < bits / 0x100_0000 && bits % 0x100_0000 <= 0x7F_FFFF
    ensures var e, m := bits / 0x100_0000, bits % 0x100_0000;
      CompactValue(bits) == m * Pow256(e - 3) <==> if e <= 35 then m < Pow256(35 - e) else m == 0
  {
    hide Pow256;
    var e, m := bits / 0x100_0000, bits % 0x100_0000;
    if e <= 35 {
      Pow256Sum(e - 3, 35 - e);
      RemainderOfProduct(m, Pow256(e - 3), Pow256(35 - e), Pow256(BYTES));
    } else {
      Pow256Sum(BYTES, e - 35);
      MultipleHasNoRemainder(m, Pow256(e - 35), Pow256(BYTES), Pow256(e - 3));
    }
  }

  lemma RemainderOfProduct(m: nat, p: nat, q: nat, d: nat)
    requires p > 0 && d > 0 && d == p * q
    ensures m * p % d == m * p <==> m < q
  {
    if m < q {
      SmallProduct(m, p, q, d);
    } else {
      Commutative(m, p);
      NotSmaller(p, q, m);
      assert m * p >= d;
    }
  }

  lemma NotSmaller(p: nat, q: nat, m: nat)
    requires q <= m
    ensures p * q <= p * m
  {
    if q < m {
      MulGrows(p, q, m);
    }
  }

  lemma MultipleHasNoRemainder(m: nat, q: nat, d: nat, p: nat)
    requires d > 0 && q > 0 && p == d * q
    ensures p > 0 && m * p % d == 0 && (m * p == 0 <==> m == 0)
  {
    MulGrows(d, 0, q);
    Commutative(m, p);
    MulAssoc(d, q, m);
    DivModUnique(m * p, d, q * m, 0);
    if m > 0 {
      MulGrows(p, 0, m);
    }
  }

  lemma SmallProduct(m: nat, p: nat, q: nat, d: nat)
    requires m < q && p > 0 && d == p * q
    ensures m * p % d == m * p
  {
    MulGrows(p, m, q);
    assert p * m == m * p;
    DivModUnique(m * p, d, 0, m * p);
  }

  lemma {:induction false} Pow256Sum(a: nat, b: nat)
    ensures Pow256(a + b) == Pow256(a) * Pow256(b)
  {
    if a == 0 {
    } else {
      Pow256Sum(a - 1, b);
      MulAssoc(256, Pow256(a - 1), Pow256(b));
    }
  }

  lemma {:induction false} PowerLeft(n: nat)
    requires n >= 3
    ensures Pow256(n) > SIGN_LIMIT
  {
    if n > 3 {
      PowerLeft(n - 1);
    }
  }
}
