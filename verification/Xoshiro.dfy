/** The xoshiro256++ generator. */
module Xoshiro {
  import opened Words

  datatype Seed = Seed(s0: Word, s1: Word, s2: Word, s3: Word)

  const NULL_SEED := Seed(Zeros(64), Zeros(64), Zeros(64), Zeros(64))

  function Output(s: Seed): Word {
    Add(s.s0, Rol(Add(s.s0, s.s3), 23))
  }

  function Next(s: Seed): Seed {
    var s2, s3 := Xor(s.s2, s.s0), Xor(s.s3, s.s1);
    Seed(Xor(s.s0, s3), Xor(s.s1, s2), Xor(s2, Shl(s.s1, 17)), Rol(s3, 45))
  }

  /** The output as arithmetic: a 23-bit rotation between two additions modulo 2^64. */
  lemma OutputValue(s: Seed)
    ensures var a, d := NatOf(s.s0), NatOf(s.s3);
      NatOf(Output(s)) == Wrap(a + (Wrap(Wrap(a + d) * Pow2(23)) + Wrap(a + d) / Pow2(41)))
  {
    hide NatOf;
    hide Pow2;
    hide Add;
    hide Rol;
    hide Wrap;
    var sum := Add(s.s0, s.s3);
    AddWraps(s.s0, s.s3);
    RotationValue(sum, NatOf(sum));
    AddWraps(s.s0, Rol(sum, 23));
  }

  lemma RotationValue(a: Word, t: nat)
    requires t == NatOf(a)
    ensures NatOf(Rol(a, 23)) == Wrap(t * Pow2(23)) + t / Pow2(41)
  {
    RolValue(a, 23);
    hide NatOf;
    hide Pow2;
    hide Rol;
  }

  /** The next state bit by bit. */
  lemma NextBits(s: Seed)
    ensures forall z: nat | z < 64 :: Next(s).s0[z] == (s.s0[z] != (s.s3[z] != s.s1[z]))
    ensures forall z: nat | z < 64 :: Next(s).s1[z] == (s.s1[z] != (s.s2[z] != s.s0[z]))
    ensures forall z: nat | z < 64 :: Next(s).s2[z] == ((s.s2[z] != s.s0[z]) != (z >= 17 && s.s1[z - 17]))
    ensures forall z: nat | z < 64 :: Next(s).s3[(z + 45) % 64] == (s.s3[z] != s.s1[z])
  {
    forall z: nat | z < 64 ensures Next(s).s3[(z + 45) % 64] == (s.s3[z] != s.s1[z]) {
      RolAt(Xor(s.s3, s.s1), 45, z);
    }
    hide Rol;
  }

  lemma UnfoldStep(s: Seed)
    ensures Output(s) == Add(s.s0, Rol(Add(s.s0, s.s3), 23))
    ensures var s2, s3 := Xor(s.s2, s.s0), Xor(s.s3, s.s1);
      Next(s) == Seed(Xor(s.s0, s3), Xor(s.s1, s2), Xor(s2, Shl(s.s1, 17)), Rol(s3, 45))
  {
    hide Add;
    hide Xor;
    hide Rol;
    hide Shl;
  }

  function Iterate(s: Seed, n: nat): Seed {
    if n == 0 then s else Next(Iterate(s, n - 1))
  }

  /** Draw number n of a run that starts at s. */
  function Draw(s: Seed, n: nat): Word {
    Output(Iterate(s, n))
  }

  /** Any run of the generator goes through the states of Iterate. */
  lemma {:induction false} IterateOfAnyRun(run: seq<Seed>, n: nat)
    requires n < |run| && forall k | 0 <= k < |run| - 1 :: run[k + 1] == Next(run[k])
    ensures Iterate(run[0], n) == run[n]
  {
    hide Next;
    if n == 0 {
    } else {
      IterateOfAnyRun(run, n - 1);
      assert run[n - 1 + 1] == run[n];
    }
  }

  class Generator {
    var s0: Word
    var s1: Word
    var s2: Word
    var s3: Word

    function State(): Seed
      reads this
    {
      Seed(s0, s1, s2, s3)
    }

    constructor (limbs: seq<Word>)
      requires |limbs| == 4
      ensures State() == Seed(limbs[0], limbs[1], limbs[2], limbs[3])
    {
      s0, s1, s2, s3 := limbs[0], limbs[1], limbs[2], limbs[3];
    }

    method U64() returns (res: Word)
      modifies this
      ensures res == Output(old(State()))
      ensures State() == Next(old(State()))
      ensures var a, d := NatOf(old(s0)), NatOf(old(s3));
        NatOf(res) == Wrap(a + (Wrap(Wrap(a + d) * Pow2(23)) + Wrap(a + d) / Pow2(41)))
      ensures forall z: nat | z < 64 :: s0[z] == (old(s0)[z] != (old(s3)[z] != old(s1)[z]))
      ensures forall z: nat | z < 64 :: s1[z] == (old(s1)[z] != (old(s2)[z] != old(s0)[z]))
      ensures forall z: nat | z < 64 :: s2[z] == ((old(s2)[z] != old(s0)[z]) != (z >= 17 && old(s1)[z - 17]))
      ensures forall z: nat | z < 64 :: s3[(z + 45) % 64] == (old(s3)[z] != old(s1)[z])
    {
      hide Output;
      hide Next;
      hide Add;
      hide Rol;
      hide Xor;
      hide Shl;
      hide NatOf;
      hide Pow2;
      hide Wrap;
      OutputValue(State());
      NextBits(State());
      UnfoldStep(State());
      res := Add(s0, Rol(Add(s0, s3), 23));
      var t := Shl(s1, 17);
      s2 := Xor(s2, s0);
      s3 := Xor(s3, s1);
      s1 := Xor(s1, s2);
      s0 := Xor(s0, s3);

      s2 := Xor(s2, t);
      s3 := Rol(s3, 45);
    }
  }

  // ---- The step can be undone ----

  /** Solves x ^ (x << 17) == y for x. */
  function Unshift(y: Word): Word {
    Xor(Xor(y, Shl(y, 17)), Xor(Shl(y, 34), Shl(y, 51)))
  }

  function Previous(s: Seed): Seed {
    var d := Rol(s.s3, 19);
    var s0 := Xor(s.s0, d);
    var s1 := Unshift(Xor(s.s1, s.s2));
    Seed(s0, s1, Xor(Xor(s.s1, s1), s0), Xor(d, s1))
  }

  lemma UnshiftAt(y: Word, i: nat)
    requires i < 64
    ensures Unshift(y)[i] == ((y[i] != (i >= 17 && y[i - 17])) != ((i >= 34 && y[i - 34]) != (i >= 51 && y[i - 51])))
  {
    ShlAt(y, 17, i);
    ShlAt(y, 34, i);
    ShlAt(y, 51, i);
  }

  lemma UnshiftSolves(y: Word)
    ensures Xor(Unshift(y), Shl(Unshift(y), 17)) == y
  {
    var u := Unshift(y);
    forall i: nat | i < 64 ensures Xor(u, Shl(u, 17))[i] == y[i] {
      UnshiftAt(y, i);
      ShlAt(u, 17, i);
      if i >= 17 {
        UnshiftAt(y, i - 17);
      }
      hide Unshift;
    }
  }

  lemma UnshiftUndoes(x: Word)
    ensures Unshift(Xor(x, Shl(x, 17))) == x
  {
  }

  lemma XorCancels(a: Word, b: Word)
    ensures Xor(Xor(a, b), b) == a && Xor(Xor(b, a), b) == a && Xor(b, Xor(a, b)) == a
  {
  }

  lemma RolBack(a: Word)
    ensures Rol(Rol(a, 45), 19) == a && Rol(Rol(a, 19), 45) == a
  {
  }

  lemma PreviousOfNext(s: Seed)
    ensures Previous(Next(s)) == s
  {
    var t := Next(s);
    var s2, s3 := Xor(s.s2, s.s0), Xor(s.s3, s.s1);
    RolBack(s3);
    XorCancels(s.s0, s3);
    XorMiddle(s.s1, s2, Shl(s.s1, 17));
    UnshiftUndoes(s.s1);
    XorCancels(s2, s.s1);
    XorCancels(s.s2, s.s0);
    XorCancels(s.s3, s.s1);
    hide Unshift;
    hide Xor;
    hide Rol;
    hide Shl;
  }

  lemma XorMiddle(a: Word, b: Word, c: Word)
    ensures Xor(Xor(a, b), Xor(b, c)) == Xor(a, c)
  {
  }

  lemma NextOfPrevious(s: Seed)
    ensures Next(Previous(s)) == s
  {
    var d, p := Rol(s.s3, 19), Previous(s);
    RolBack(s.s3);
    UnshiftSolves(Xor(s.s1, s.s2));
    XorCancels(d, p.s1);
    XorCancels(s.s0, d);
    XorCancels(Xor(s.s1, p.s1), p.s0);
    XorCancels(s.s1, p.s1);
    XorSolves(s.s1, s.s2, p.s1, Shl(p.s1, 17));
    hide Unshift;
    hide Xor;
    hide Rol;
    hide Shl;
  }

  lemma XorSolves(a: Word, b: Word, c: Word, e: Word)
    requires Xor(c, e) == Xor(a, b)
    ensures Xor(Xor(a, c), e) == b
    ensures Xor(c, Xor(a, c)) == a
  {
    forall i | 0 <= i < 64 ensures Xor(Xor(a, c), e)[i] == b[i] {
      assert Xor(c, e)[i] == Xor(a, b)[i];
    }
  }

  /** The all-zero state is a fixed point, and nothing else leads to it. */
  lemma OnlyZeroLeadsToZero(s: Seed)
    ensures Next(s) == NULL_SEED <==> s == NULL_SEED
  {
    assert Next(NULL_SEED) == NULL_SEED;
    PreviousOfNext(s);
    PreviousOfNext(NULL_SEED);
  }

  lemma {:induction false} NeverZero(s: Seed, n: nat)
    requires s != NULL_SEED
    ensures Iterate(s, n) != NULL_SEED
  {
    hide Next;
    if n == 0 {
    } else {
      NeverZero(s, n - 1);
      OnlyZeroLeadsToZero(Iterate(s, n - 1));
    }
  }

  function Rewind(s: Seed, n: nat): Seed {
    if n == 0 then s else Previous(Rewind(s, n - 1))
  }

  lemma {:induction false} RewindNext(s: Seed, n: nat)
    ensures Rewind(Next(s), n + 1) == Rewind(s, n)
  {
    PreviousOfNext(s);
    hide Next;
    hide Previous;
    if n == 0 {
      assert Rewind(Next(s), 1) == Previous(Rewind(Next(s), 0));
    } else {
      RewindNext(s, n - 1);
    }
  }

  /** Any run can be taken back to its seed. */
  lemma {:induction false} RunsBackwards(s: Seed, n: nat)
    ensures Rewind(Iterate(s, n), n) == s
  {
    hide Next;
    hide Previous;
    if n == 0 {
    } else {
      RunsBackwards(s, n - 1);
      RewindNext(Iterate(s, n - 1), n - 1);
    }
  }

  lemma {:induction false} IterateSum(s: Seed, a: nat, b: nat)
    ensures Iterate(Iterate(s, a), b) == Iterate(s, a + b)
  {
    hide Next;
    if b == 0 {
    } else {
      IterateSum(s, a, b - 1);
    }
  }

  // ---- Every run comes back to its seed ----

  const SEED_BITS: nat := 256

  function SeedBits(s: Seed): (b: Bits)
    ensures |b| == SEED_BITS
  {
    var b: Bits := s.s0;
    b + s.s1 + s.s2 + s.s3
  }

  lemma SeedBitsInjective(s: Seed, t: Seed)
    requires NatOf(SeedBits(s)) == NatOf(SeedBits(t))
    ensures s == t
  {
    var b, c := SeedBits(s), SeedBits(t);
    NatOfInjective(b, c);
    assert s.s0 == b[..64] == t.s0 && s.s1 == b[64..128] == t.s1;
    assert s.s2 == b[128..192] == t.s2 && s.s3 == b[192..] == t.s3;
  }

  /** A run meets at most 2^256 states and can be run backwards, so looking at every step-th state
      it is back at its seed after at most 2^256 looks. */
  lemma RunRecurs(s: Seed, step: nat) returns (p: nat)
    ensures 0 < p <= Pow2(SEED_BITS) && Iterate(s, step * p) == s
  {
    hide *;
    var code := (k: nat) => NatOf(SeedBits(Iterate(s, step * k)));
    forall k: nat ensures code(k) < Pow2(SEED_BITS) {
      NatOfBound(SeedBits(Iterate(s, step * k)));
    }
    var i, j := Pigeonhole(code, Pow2(SEED_BITS));
    SeedBitsInjective(Iterate(s, step * i), Iterate(s, step * j));
    p := j - i;
    Distribute(step, p, i);
    IterateSum(s, step * p, step * i);
    RunsBackwards(s, step * i);
    RunsBackwards(Iterate(s, step * p), step * i);
  }

  /** Later states repeat those of the first period. */
  lemma {:induction false} RunRepeats(s: Seed, step: nat, p: nat, k: nat) returns (r: nat)
    requires p > 0 && Iterate(s, step * p) == s
    ensures r < p && Iterate(s, step * r) == Iterate(s, step * k)
    decreases k
  {
    hide *;
    if k < p {
      r := k;
    } else {
      Distribute(step, p, k - p);
      IterateSum(s, step * p, step * (k - p));
      r := RunRepeats(s, step, p, k - p);
    }
  }
}
