/** Keccak-f[1600] as sections 3.2 to 3.4 of FIPS 202 define it, over 64-bit lanes.
    Lane (x, y) of the standard is element 5*y + x of a state. */
module KeccakSpec {

  import opened Words

  type State = s: seq<Word> | |s| == 25 witness seq(25, _ => Zeros(64))

  // ---- Section 3.2: the step mappings ----

  function Column(a: State, x: nat): Word
    requires x < 5
  {
    Xor(Xor(Xor(Xor(a[x], a[x + 5]), a[x + 10]), a[x + 15]), a[x + 20])
  }

  function Effect(a: State, x: nat): Word
    requires x < 5
  {
    Xor(Column(a, (x + 4) % 5), Rol(Column(a, (x + 1) % 5), 1))
  }

  function Theta(a: State): State {
    seq(25, i requires 0 <= i < 25 => Xor(a[i], Effect(a, i % 5)))
  }

  const RHO_OFFSETS: seq<nat> :=
    [ 0,  1, 62, 28, 27,
     36, 44,  6, 55, 20,
      3, 10, 43, 25, 39,
     41, 45, 15, 21,  8,
     18,  2, 61, 56, 14]

  function RhoOffset(i: nat): (n: nat)
    requires i < 25
    ensures n < 64
  {
    RHO_OFFSETS[i]
  }

  function Rho(a: State): State {
    seq(25, i requires 0 <= i < 25 => Rol(a[i], RhoOffset(i)))
  }

  /** The lane that the mapping pi moves to lane i. */
  function PiSource(i: nat): (j: nat)
    requires i < 25
    ensures j < 25
  {
    var x, y := i % 5, i / 5;
    5 * x + (x + 3 * y) % 5
  }

  function Pi(a: State): State {
    seq(25, i requires 0 <= i < 25 => a[PiSource(i)])
  }

  function ChiLane(a0: Word, a1: Word, a2: Word): Word {
    Xor(a0, And(Not(a1), a2))
  }

  /** The lane k places further in the same plane. */
  function InPlane(i: nat, k: nat): (j: nat)
    requires i < 25
    ensures j < 25
  {
    i / 5 * 5 + (i + k) % 5
  }

  function Chi(a: State): State {
    seq(25, i requires 0 <= i < 25 => ChiLane(a[i], a[InPlane(i, 1)], a[InPlane(i, 2)]))
  }

  function Iota(a: State, rc: Word): State {
    a[0 := Xor(a[0], rc)]
  }

  // Algorithm 5: the linear feedback shift register behind the round constants.
  datatype Register = R(r0: bool, r1: bool, r2: bool, r3: bool, r4: bool, r5: bool, r6: bool, r7: bool)

  function Lfsr(t: nat): Register {
    if t == 0 then R(true, false, false, false, false, false, false, false) else LfsrStep(Lfsr(t - 1))
  }

  function LfsrStep(r: Register): Register {
    R(r.r7, r.r0, r.r1, r.r2, r.r3 != r.r7, r.r4 != r.r7, r.r5 != r.r7, r.r6)
  }

  function Rc(t: nat): bool {
    Lfsr(t % 255).r0
  }

  // Algorithm 6: bit 2^j - 1 of the constant of round ir is Rc(j + 7 * ir).
  function RoundConstant(ir: nat): Word {
    seq(64, z requires 0 <= z < 64 => ConstantBit(ir, z))
  }

  predicate ConstantBit(ir: nat, z: nat) {
    || (z == 0 && Rc(7 * ir))
    || (z == 1 && Rc(7 * ir + 1))
    || (z == 3 && Rc(7 * ir + 2))
    || (z == 7 && Rc(7 * ir + 3))
    || (z == 15 && Rc(7 * ir + 4))
    || (z == 31 && Rc(7 * ir + 5))
    || (z == 63 && Rc(7 * ir + 6))
  }

  // ---- Sections 3.3 and 3.4 ----

  function Round(a: State, rc: Word): State {
    Iota(Chi(Pi(Rho(Theta(a)))), rc)
  }

  function Rounds(a: State, n: nat): State {
    if n == 0 then a else Round(Rounds(a, n - 1), RoundConstant(n - 1))
  }

  const ROUNDS: nat := 24

  /** Keccak-f[1600]. */
  function KeccakF(a: State): State {
    Rounds(a, ROUNDS)
  }

  // ---- The tables are the ones the algorithms of the standard produce ----

  // Algorithm 2 visits (x, y) = (1, 0) first, then (y, 2x + 3y) after (x, y).
  function RhoLane(t: nat): (i: nat)
    ensures i < 25
  {
    if t == 0 then 1 else RhoNext(RhoLane(t - 1))
  }

  function RhoNext(i: nat): (j: nat)
    requires i < 25
    ensures j < 25
  {
    var x, y := i % 5, i / 5;
    5 * ((2 * x + 3 * y) % 5) + y
  }

  // The step of the walk that visits each lane (never, for lane 0).
  const RHO_TIMES: seq<nat> :=
    [24,  0, 18,  6, 12,
      7, 23,  2,  9, 22,
      1,  3, 17, 16, 20,
     13,  8,  4,  5, 15,
     19, 10, 21, 14, 11]

  function RhoTime(i: nat): nat
    requires i < 25
  {
    RHO_TIMES[i]
  }

  lemma RhoTimeStep(x: nat, y: nat)
    requires x < 5 && y < 5 && RhoTime(5 * y + x) < 23
    ensures RhoTime(5 * ((2 * x + 3 * y) % 5) + y) == RhoTime(5 * y + x) + 1
  {
    assert x == 0 || x == 1 || x == 2 || x == 3 || x == 4;
    assert y == 0 || y == 1 || y == 2 || y == 3 || y == 4;
  }

  lemma RhoTimeNext(i: nat)
    requires i < 25 && RhoTime(i) < 23
    ensures RhoTime(RhoNext(i)) == RhoTime(i) + 1
  {
    hide RhoTime;
    assert 5 * (i / 5) + i % 5 == i;
    RhoTimeStep(i % 5, i / 5);
  }

  lemma {:induction false} RhoWalkTime(t: nat)
    requires t < 24
    ensures RhoTime(RhoLane(t)) == t
  {
    if t == 0 {
    } else {
      hide RhoTime;
      RhoWalkTime(t - 1);
      RhoTimeNext(RhoLane(t - 1));
    }
  }

  lemma RhoTableFirstQuarter(i: nat)
    requires 0 < i < 7
    ensures RhoOffset(i) == (RhoTime(i) + 1) * (RhoTime(i) + 2) / 2 % 64
  {
    assert i == 1 || i == 2 || i == 3 || i == 4 || i == 5 || i == 6;
  }

  lemma RhoTableSecondQuarter(i: nat)
    requires 7 <= i < 13
    ensures RhoOffset(i) == (RhoTime(i) + 1) * (RhoTime(i) + 2) / 2 % 64
  {
    assert i == 7 || i == 8 || i == 9 || i == 10 || i == 11 || i == 12;
  }

  lemma RhoTableOtherLanes(i: nat)
    requires 13 <= i < 25
    ensures RhoOffset(i) == (RhoTime(i) + 1) * (RhoTime(i) + 2) / 2 % 64
  {
    assert i == 13 || i == 14 || i == 15 || i == 16 || i == 17 || i == 18 || i == 19 || i == 20 || i == 21 || i == 22
      || i == 23 || i == 24;
  }

  lemma RhoTableByTime(i: nat)
    requires 0 < i < 25
    ensures RhoOffset(i) == (RhoTime(i) + 1) * (RhoTime(i) + 2) / 2 % 64
  {
    if i < 7 {
      RhoTableFirstQuarter(i);
    } else if i < 13 {
      RhoTableSecondQuarter(i);
    } else {
      RhoTableOtherLanes(i);
    }
  }

  /** The table holds the offset that algorithm 2 computes at each of its 24 steps. */
  lemma RhoTableFollowsTheWalk(t: nat)
    requires t < 24
    ensures RhoLane(t) != 0 && RhoOffset(RhoLane(t)) == (t + 1) * (t + 2) / 2 % 64
  {
    hide RhoOffset;
    RhoWalkTime(t);
    RhoTableByTime(RhoLane(t));
  }

  // The lane that each step of the walk visits; lane 0 is never visited.
  const RHO_LANES: seq<nat> :=
    [1, 10, 7, 11, 17, 18, 3, 5, 16, 8, 21, 24, 4, 15, 23, 19, 13, 12, 2, 20, 14, 22, 9, 6, 0]

  lemma RhoTimesInvert(i: nat)
    requires i < 25
    ensures RhoTime(i) < 25 && RHO_LANES[RhoTime(i)] == i && (i > 0 ==> RhoTime(i) < 24)
  {
    if i < 13 {
      assert i == 0 || i == 1 || i == 2 || i == 3 || i == 4 || i == 5 || i == 6 || i == 7 || i == 8 || i == 9 || i == 10
        || i == 11 || i == 12;
    } else {
      assert i == 13 || i == 14 || i == 15 || i == 16 || i == 17 || i == 18 || i == 19 || i == 20 || i == 21 || i == 22
        || i == 23 || i == 24;
    }
  }

  /** The whole table: lane 0 is not rotated, and every other lane is visited at exactly one step of the walk and has
      the offset of that step. */
  lemma RhoTableIsAlgorithm2(i: nat)
    requires i < 25
    ensures RhoOffset(0) == 0
    ensures i > 0 ==> exists t: nat :: t < 24 && RhoLane(t) == i && RhoOffset(i) == (t + 1) * (t + 2) / 2 % 64
    ensures forall t: nat, u: nat | t < 24 && u < 24 && RhoLane(t) == i && RhoLane(u) == i :: t == u
  {
    if i > 0 {
      var t := RhoTime(i);
      RhoTimesInvert(i);
      RhoWalkTime(t);
      RhoTimesInvert(RhoLane(t));
      RhoTableByTime(i);
      assert RhoLane(t) == i;
    }
    hide RhoTime;
    hide RhoLane;
    forall t: nat, u: nat | t < 24 && u < 24 && RhoLane(t) == i && RhoLane(u) == i ensures t == u {
      RhoWalkTime(t);
      RhoWalkTime(u);
    }
  }
}
