/** What the lane-wise definitions of KeccakSpec say about single bits: the formulas of section 3.2 of FIPS 202,
    with A[x, y, z] as bit z of lane 5 * y + x. */
module KeccakBits {
  import opened Words
  import opened KeccakSpec

  function Lane(x: nat, y: nat): (i: nat)
    requires x < 5 && y < 5
    ensures i == 5 * y + x < 25
  {
    5 * y + x
  }

  lemma LaneParts(x: nat, y: nat)
    requires x < 5 && y < 5
    ensures Lane(x, y) % 5 == x && Lane(x, y) / 5 == y
  {
  }

  /** The parity of the five bits of column (x, z). */
  predicate Parity(a: State, x: nat, z: nat)
    requires x < 5 && z < 64
  {
    (((a[x][z] != a[5 + x][z]) != a[10 + x][z]) != a[15 + x][z]) != a[20 + x][z]
  }

  lemma ColumnIsParity(a: State, x: nat, z: nat)
    requires x < 5 && z < 64
    ensures Column(a, x)[z] == Parity(a, x, z)
    ensures Column(a, x)[z] == ((((a[x][z] != a[5 + x][z]) != a[10 + x][z]) != a[15 + x][z]) != a[20 + x][z])
  {
  }

  /** Algorithm 1. */
  lemma ThetaBit(a: State, x: nat, y: nat, z: nat)
    requires x < 5 && y < 5 && z < 64
    ensures Theta(a)[5 * y + x][z]
         == (a[5 * y + x][z] != (Parity(a, (x + 4) % 5, z) != Parity(a, (x + 1) % 5, (z + 63) % 64)))
  {
    hide *;
    LaneParts(x, y);
    var i, l, r := Lane(x, y), (x + 4) % 5, (x + 1) % 5;
    var left, right := Column(a, l), Rol(Column(a, r), 1);
    ThetaLane(a, i, x);
    XorAt(a[i], Xor(left, right), z);
    XorAt(left, right, z);
    RolAt(Column(a, r), 1, z);
    ColumnIsParity(a, l, z);
    ColumnIsParity(a, r, (z + 63) % 64);
  }

  lemma XorAt(a: Word, b: Word, z: nat)
    requires z < 64
    ensures Xor(a, b)[z] == (a[z] != b[z])
  {
  }

  lemma ThetaLane(a: State, i: nat, x: nat)
    requires i < 25 && x == i % 5
    ensures Theta(a)[i] == Xor(a[i], Xor(Column(a, (x + 4) % 5), Rol(Column(a, (x + 1) % 5), 1)))
  {
    hide Rol;
    hide Column;
    hide Xor;
  }

  /** The bits of each lane move up by its offset. */
  lemma RhoBit(a: State, i: nat, z: nat)
    requires i < 25 && z < 64
    ensures Rho(a)[i][(z + RhoOffset(i)) % 64] == a[i][z]
  {
    hide Rol;
    hide RhoOffset;
    RolAt(a[i], RhoOffset(i), z);
  }

  /** Algorithm 2, on any walk that starts at (1, 0) and goes from (x, y) to (y, 2x + 3y). */
  lemma {:induction false} OffsetsOfAnyWalk(xs: seq<nat>, ys: seq<nat>, t: nat)
    requires |xs| == |ys| == 24 && xs[0] == 1 && ys[0] == 0 && t < 24
    requires forall k | 0 <= k < 23 :: xs[k + 1] == ys[k] && ys[k + 1] == (2 * xs[k] + 3 * ys[k]) % 5
    ensures xs[t] < 5 && ys[t] < 5
    ensures RhoOffset(5 * ys[t] + xs[t]) == (t + 1) * (t + 2) / 2 % 64
  {
    WalkIsRhoLane(xs, ys, t);
    hide RhoOffset;
    RhoTableFollowsTheWalk(t);
  }

  lemma {:induction false} WalkIsRhoLane(xs: seq<nat>, ys: seq<nat>, t: nat)
    requires |xs| == |ys| == 24 && xs[0] == 1 && ys[0] == 0 && t < 24
    requires forall k | 0 <= k < 23 :: xs[k + 1] == ys[k] && ys[k + 1] == (2 * xs[k] + 3 * ys[k]) % 5
    ensures xs[t] < 5 && ys[t] < 5 && RhoLane(t) == 5 * ys[t] + xs[t]
  {
    if t == 0 {
    } else {
      WalkIsRhoLane(xs, ys, t - 1);
      var x, y := xs[t - 1], ys[t - 1];
      assert xs[t - 1 + 1] == y && ys[t - 1 + 1] == (2 * x + 3 * y) % 5;
      LaneParts(x, y);
      NextLane(x, y);
      RhoLaneStep(t);
      hide RhoLane;
      hide RhoNext;
    }
  }

  lemma RhoLaneStep(t: nat)
    requires t > 0
    ensures RhoLane(t) == RhoNext(RhoLane(t - 1))
  {
    hide RhoNext;
  }

  lemma NextLane(x: nat, y: nat)
    requires x < 5 && y < 5
    ensures RhoNext(5 * y + x) == 5 * ((2 * x + 3 * y) % 5) + y
  {
    LaneParts(x, y);
  }

  /** Algorithm 3. */
  lemma PiLane(a: State, x: nat, y: nat)
    requires x < 5 && y < 5
    ensures 5 * x + (x + 3 * y) % 5 < 25 && Pi(a)[5 * y + x] == a[5 * x + (x + 3 * y) % 5]
  {
    LaneParts(x, y);
    PiAt(a, Lane(x, y));
  }

  lemma PiAt(a: State, i: nat)
    requires i < 25
    ensures Pi(a)[i] == a[5 * (i % 5) + (i % 5 + 3 * (i / 5)) % 5]
  {
  }

  /** Algorithm 4. */
  lemma ChiBit(a: State, x: nat, y: nat, z: nat)
    requires x < 5 && y < 5 && z < 64
    ensures Chi(a)[5 * y + x][z] == (a[5 * y + x][z] != (!a[5 * y + (x + 1) % 5][z] && a[5 * y + (x + 2) % 5][z]))
  {
    PlaneParts(x, y);
    hide InPlane;
    ChiLaneBit(a[Lane(x, y)], a[5 * y + (x + 1) % 5], a[5 * y + (x + 2) % 5], z);
    ChiLaneAt(a, Lane(x, y));
  }

  lemma PlaneParts(x: nat, y: nat)
    requires x < 5 && y < 5
    ensures InPlane(Lane(x, y), 1) == 5 * y + (x + 1) % 5 && InPlane(Lane(x, y), 2) == 5 * y + (x + 2) % 5
  {
    LaneParts(x, y);
    var i := Lane(x, y);
    hide Lane;
    assert i / 5 * 5 == 5 * y;
  }

  lemma ChiLaneAt(a: State, i: nat)
    requires i < 25
    ensures Chi(a)[i] == ChiLane(a[i], a[InPlane(i, 1)], a[InPlane(i, 2)])
  {
    hide ChiLane;
    hide InPlane;
  }

  lemma ChiLaneBit(a: Word, b: Word, c: Word, z: nat)
    requires z < 64
    ensures ChiLane(a, b, c)[z] == (a[z] != (!b[z] && c[z]))
  {
  }

  /** Algorithm 6, the last step. */
  lemma IotaBit(a: State, rc: Word, i: nat, z: nat)
    requires i < 25 && z < 64
    ensures Iota(a, rc)[i][z] == (a[i][z] != (i == 0 && rc[z]))
  {
  }

  /** Algorithm 6: the only bits of a round constant are at 2^j - 1, and come from the register after j + 7 ir steps. */
  lemma RoundConstantBit(ir: nat, z: nat)
    requires z < 64
    ensures RoundConstant(ir)[z] <==> exists j: nat :: j <= 6 && z == Pow2(j) - 1 && Rc(j + 7 * ir)
  {
    hide Rc;
    SmallPowers();
    hide Pow2;
    if RoundConstant(ir)[z] {
      var j := if z == 0 then 0 else if z == 1 then 1 else if z == 3 then 2 else if z == 7 then 3 else if z == 15 then 4
        else if z == 31 then 5 else 6;
      assert z == Pow2(j) - 1 && Rc(j + 7 * ir);
    }
  }

  lemma SmallPowers()
    ensures Pow2(0) == 1 && Pow2(1) == 2 && Pow2(2) == 4 && Pow2(3) == 8 && Pow2(4) == 16 && Pow2(5) == 32
    ensures Pow2(6) == 64
  {
  }

  /** Algorithm 5, on any run of the register: a bit leaves at the end and is fed back into four places. */
  lemma {:induction false} RcOfAnyRun(run: seq<seq<bool>>, t: nat)
    requires |run| == 255 && t < 255 && run[0] == [true, false, false, false, false, false, false, false]
    requires forall k | 0 <= k < 255 :: |run[k]| == 8
    requires forall k | 0 <= k < 254 :: run[k + 1] == [run[k][7], run[k][0], run[k][1], run[k][2],
      run[k][3] != run[k][7], run[k][4] != run[k][7], run[k][5] != run[k][7], run[k][6]]
    ensures Rc(t) == run[t][0]
  {
    RegisterIsRun(run, t);
    assert t % 255 == t;
    hide Lfsr;
  }

  lemma {:induction false} RegisterIsRun(run: seq<seq<bool>>, t: nat)
    requires |run| == 255 && t < 255 && run[0] == [true, false, false, false, false, false, false, false]
    requires forall k | 0 <= k < 255 :: |run[k]| == 8
    requires forall k | 0 <= k < 254 :: run[k + 1] == [run[k][7], run[k][0], run[k][1], run[k][2],
      run[k][3] != run[k][7], run[k][4] != run[k][7], run[k][5] != run[k][7], run[k][6]]
    ensures var r := run[t]; Lfsr(t) == R(r[0], r[1], r[2], r[3], r[4], r[5], r[6], r[7])
  {
    if t == 0 {
    } else {
      RegisterIsRun(run, t - 1);
      assert run[t - 1 + 1] == run[t];
    }
  }

  /** Sections 3.3 and 3.4: any run of 24 rounds, each theta, rho, pi, chi and iota in this order, ends in Keccak-f. */
  lemma KeccakFOfAnyRun(run: seq<State>)
    requires |run| == 25
    requires forall ir | 0 <= ir < 24 :: run[ir + 1] == Iota(Chi(Pi(Rho(Theta(run[ir])))), RoundConstant(ir))
    ensures KeccakF(run[0]) == run[24]
  {
    hide Theta;
    hide Rho;
    hide Pi;
    hide Chi;
    hide Iota;
    hide RoundConstant;
    RoundsOfRun(run, ROUNDS);
    hide Rounds;
  }

  lemma {:induction false} RoundsOfRun(run: seq<State>, n: nat)
    requires |run| == 25 && n <= 24
    requires forall ir | 0 <= ir < 24 :: run[ir + 1] == Iota(Chi(Pi(Rho(Theta(run[ir])))), RoundConstant(ir))
    ensures Rounds(run[0], n) == run[n]
  {
    hide Theta;
    hide Rho;
    hide Pi;
    hide Chi;
    hide Iota;
    hide RoundConstant;
    if n == 0 {
    } else {
      RoundsOfRun(run, n - 1);
      assert run[n - 1 + 1] == run[n];
    }
  }
}
