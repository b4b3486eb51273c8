/** heavy_hash.rs: the matrix of a block and the matrix-vector step of its proof of work. */
module HeavyHash {
  import opened Words
  import opened Uint256Model
  import opened Xoshiro
  import opened MatrixRank
  import LinearAlgebra
  import Hasher

  newtype u16 = x: int | 0 <= x < 0x1_0000

  // ---- Generation ----

  /** Nibble number s of a word. */
  function Nibble(w: Word, s: nat): (n: nat)
    requires s < 16
    ensures n <= 15
  {
    NibbleBound(w[4 * s..4 * s + 4]);
    NatOf(w[4 * s..4 * s + 4])
  }

  lemma NibbleBound(b: Bits)
    requires |b| == 4
    ensures NatOf(b) <= 15
  {
    NatOfBound(b);
    Pow2Of8();
  }

  /** Entry (i, j) is nibble j % 16 of draw 4 * i + j / 16. */
  function RandMatrix(s: Seed): (m: NatMatrix)
    ensures IsMatrix64(m)
  {
    seq(64, i requires 0 <= i < 64 => RandRow(s, i))
  }

  function RandRow(s: Seed, i: nat): (row: seq<nat>)
    ensures |row| == 64 && forall j | 0 <= j < 64 :: row[j] <= 15
  {
    seq(64, j requires 0 <= j < 64 => Nibble(Draw(s, 4 * i + j / 16), j % 16))
  }

  predicate IsMatrix64(m: NatMatrix) {
    |m| == 64 && forall i | 0 <= i < 64 :: |m[i]| == 64 && forall j | 0 <= j < 64 :: m[i][j] <= 15
  }

  const LOW_NIBBLE: Word := [true, true, true, true] + Zeros(60)

  lemma MaskedShiftIsNibble(w: Word, s: nat)
    requires s < 16
    ensures NatOf(And(Shr(w, 4 * s), LOW_NIBBLE)) == Nibble(w, s)
  {
    var b := w[4 * s..4 * s + 4];
    assert And(Shr(w, 4 * s), LOW_NIBBLE) == b + Zeros(60);
    NatOfConcat(b, Zeros(60));
    NatOfZeros(60);
  }

  lemma RowAt(s: Seed, i: nat, j: nat)
    requires j < 64
    ensures RandRow(s, i)[j] == Nibble(Draw(s, 4 * i + j / 16), j % 16)
  {
    hide Draw;
    hide Nibble;
  }

  lemma DrawAndAdvance(s: Seed, n: nat)
    ensures Draw(s, n) == Output(Iterate(s, n)) && Iterate(s, n + 1) == Next(Iterate(s, n))
  {
    hide Output;
    hide Next;
  }

  lemma DrawIndex(j: nat)
    ensures j % 16 == 0 ==> (j + 15) / 16 == j / 16 && (j + 16) / 16 == j / 16 + 1
    ensures j % 16 != 0 ==> (j + 15) / 16 == (j + 16) / 16
    ensures (j + 1) % 16 != 0 ==> (j + 1) / 16 == j / 16
  {
  }

  /** The inner closure of `rand_matrix_no_rank_check`: one row. */
  method RandRowFrom(generator: Generator, ghost s: Seed, ghost i: nat) returns (row: seq<nat>)
    requires generator.State() == Iterate(s, 4 * i)
    modifies generator
    ensures row == RandRow(s, i)
    ensures generator.State() == Iterate(s, 4 * i + 4)
  {
    hide *;
    row := [];
    var val := Zeros(64);
    for j := 0 to 64
      invariant |row| == j && forall p | 0 <= p < j :: row[p] == RandRow(s, i)[p]
      invariant generator.State() == Iterate(s, 4 * i + (j + 15) / 16)
      invariant j % 16 != 0 ==> val == Draw(s, 4 * i + j / 16)
    {
      var shift := j % 16;
      DrawIndex(j);
      DrawAndAdvance(s, 4 * i + j / 16);
      if shift == 0 {
        val := generator.U64();
      }
      MaskedShiftIsNibble(val, shift);
      RowAt(s, i, j);
      row := row + [NatOf(And(Shr(val, 4 * shift), LOW_NIBBLE))];
    }
  }

  method RandMatrixNoRankCheck(generator: Generator) returns (m: NatMatrix)
    modifies generator
    ensures m == RandMatrix(old(generator.State()))
    ensures generator.State() == Iterate(old(generator.State()), 256)
  {
    hide Iterate;
    ghost var s := generator.State();
    IterateNone(s);
    m := [];
    for i := 0 to 64
      invariant |m| == i && forall r | 0 <= r < i :: m[r] == RandRow(s, r)
      invariant generator.State() == Iterate(s, 4 * i)
    {
      var row := RandRowFrom(generator, s, i);
      m := m + [row];
    }
  }

  lemma IterateNone(s: Seed)
    ensures Iterate(s, 4 * 0) == s && Iterate(s, 256 * 0) == s
  {
  }

  /** Every entry of every matrix as a number, on any run of the generator: entry (i, j) of matrix k is nibble j mod 16
      of draw 256k + 4i + j / 16. */
  lemma EntryOfAnyRun(run: seq<Seed>, k: nat, i: nat, j: nat)
    requires i < 64 && j < 64 && |run| == 256 * (k + 1)
    requires forall n | 0 <= n < |run| - 1 :: run[n + 1] == Next(run[n])
    ensures MatrixAt(run[0], k)[i][j] == NatOf(Output(run[256 * k + 4 * i + j / 16])) / Pow2(4 * (j % 16)) % 16
  {
    hide *;
    var n, s := 4 * i + j / 16, j % 16;
    assert n < 256;
    var start := Iterate(run[0], 256 * k);
    IterateSum(run[0], 256 * k, n);
    IterateOfAnyRun(run, 256 * k + n);
    DrawAndAdvance(start, n);
    MatrixAtIs(run[0], k);
    EntryAt(start, i, j);
    NibbleValue(Draw(start, n), s);
  }

  lemma MatrixAtIs(s: Seed, k: nat)
    ensures MatrixAt(s, k) == RandMatrix(Iterate(s, 256 * k))
  {
    hide RandMatrix;
  }

  lemma NibbleValue(w: Word, s: nat)
    requires s < 16
    ensures Nibble(w, s) == NatOf(w) / Pow2(4 * s) % 16
  {
    NibbleOfValue(w, 4 * s);
    hide NatOf;
    hide Pow2;
  }

  // ---- The nested loops that the source keeps as a comment ----

  /** The innermost loop: sixteen nibbles of one draw. */
  method FillBlock(mat: array2<nat>, i: nat, j: nat, val: Word, ghost s: Seed)
    requires mat.Length0 == mat.Length1 == 64 && i < 64 && j < 64 && j % 16 == 0 && val == Draw(s, 4 * i + j / 16)
    modifies mat
    ensures forall r, c | 0 <= r < 64 && 0 <= c < 64 ::
      mat[r, c] == if r == i && j <= c < j + 16 then RandRow(s, i)[c] else old(mat[r, c])
  {
    hide *;
    for shift := 0 to 16
      invariant forall r, c | 0 <= r < 64 && 0 <= c < 64 ::
        mat[r, c] == if r == i && j <= c < j + shift then RandRow(s, i)[c] else old(mat[r, c])
    {
      MaskedShiftIsNibble(val, shift);
      BlockIndex(j, shift);
      RowAt(s, i, j + shift);
      mat[i, j + shift] := NatOf(And(Shr(val, 4 * shift), LOW_NIBBLE));
    }
  }

  lemma BlockIndex(j: nat, shift: nat)
    requires j % 16 == 0 && j < 64 && shift < 16
    ensures j + shift < 64 && (j + shift) / 16 == j / 16 && (j + shift) % 16 == shift
  {
  }

  /** The loop over the columns in steps of 16. */
  method FillRow(generator: Generator, mat: array2<nat>, i: nat, ghost s: Seed)
    requires mat.Length0 == mat.Length1 == 64 && i < 64 && generator.State() == Iterate(s, 4 * i)
    modifies generator, mat
    ensures forall r, c | 0 <= r < 64 && 0 <= c < 64 :: mat[r, c] == if r == i then RandRow(s, i)[c] else old(mat[r, c])
    ensures generator.State() == Iterate(s, 4 * i + 4)
  {
    hide *;
    var j := 0;
    while j < 64
      invariant j <= 64 && j % 16 == 0 && generator.State() == Iterate(s, 4 * i + j / 16)
      invariant forall r, c | 0 <= r < 64 && 0 <= c < 64 ::
        mat[r, c] == if r == i && c < j then RandRow(s, i)[c] else old(mat[r, c])
    {
      DrawAndAdvance(s, 4 * i + j / 16);
      var val := generator.U64();
      FillBlock(mat, i, j, val, s);
      j := j + 16;
    }
  }

  /** The commented-out loops and the closures that replaced them make the same matrix from the same 256 draws,
      whatever the matrix held before. */
  method NestedLoops(generator: Generator, mat: array2<nat>)
    requires mat.Length0 == mat.Length1 == 64
    modifies generator, mat
    ensures forall r, c | 0 <= r < 64 && 0 <= c < 64 :: mat[r, c] == RandMatrix(old(generator.State()))[r][c]
    ensures generator.State() == Iterate(old(generator.State()), 256)
  {
    hide RandMatrix;
    hide RandRow;
    hide Iterate;
    ghost var s := generator.State();
    IterateNone(s);
    for i := 0 to 64
      invariant generator.State() == Iterate(s, 4 * i)
      invariant forall r, c | 0 <= r < i && 0 <= c < 64 :: mat[r, c] == RandRow(s, r)[c]
    {
      FillRow(generator, mat, i, s);
    }
    forall r: nat, c: nat | r < 64 && c < 64 ensures RandRow(s, r)[c] == RandMatrix(s)[r][c] {
      EntryAt(s, r, c);
    }
  }

  /** Matrix number k of the stream of a seed. */
  function MatrixAt(s: Seed, k: nat): (m: NatMatrix)
    ensures IsMatrix64(m)
  {
    RandMatrix(Iterate(s, 256 * k))
  }

  ghost predicate Regular(m: NatMatrix)
    requires IsMatrix64(m)
  {
    LinearAlgebra.NonSingular(ToReals(m), 64)
  }

  /** m is the first regular matrix of the stream, found within 2^256 turns. */
  ghost predicate IsGenerated(s: Seed, m: NatMatrix) {
    exists k: nat :: k < Pow2(SEED_BITS) && FirstRegular(s, k) && m == MatrixAt(s, k)
  }

  ghost predicate FirstRegular(s: Seed, k: nat) {
    Regular(MatrixAt(s, k)) && forall i: nat | i < k :: !Regular(MatrixAt(s, i))
  }

  /** One of the first 2^256 matrices of the stream is regular. */
  ghost predicate Generates(s: Seed) {
    exists k: nat :: k < Pow2(SEED_BITS) && Regular(MatrixAt(s, k))
  }

  lemma MatrixAtSameState(s: Seed, i: nat, k: nat)
    requires Iterate(s, 256 * i) == Iterate(s, 256 * k)
    ensures MatrixAt(s, i) == MatrixAt(s, k)
  {
    hide RandMatrix;
  }

  /** Because the run comes back to its seed, a matrix that is not among the first 2^256 never comes:
      if none of those is regular, the loop goes on for ever, otherwise it ends among them. */
  lemma GeneratesWithinOnePeriodOrNever(s: Seed)
    ensures (exists k: nat :: Regular(MatrixAt(s, k))) <==> Generates(s)
  {
    hide MatrixAt;
    hide Regular;
    hide Iterate;
    hide Pow2;
    if k: nat :| Regular(MatrixAt(s, k)) {
      var p := RunRecurs(s, 256);
      var r := RunRepeats(s, 256, p, k);
      MatrixAtSameState(s, r, k);
      assert Regular(MatrixAt(s, r));
    }
  }

  lemma {:induction false} FirstRegularExists(s: Seed, k: nat) returns (first: nat)
    requires Regular(MatrixAt(s, k))
    ensures FirstRegular(s, first) && first <= k
  {
    hide MatrixAt;
    hide Regular;
    if i: nat :| i < k && Regular(MatrixAt(s, i)) {
      first := FirstRegularExists(s, i);
    } else {
      first := k;
    }
  }

  /** Generation has a result exactly for the seeds with a regular matrix in their first period. */
  lemma ResultExistsIffGenerates(s: Seed)
    ensures (exists m :: IsGenerated(s, m)) <==> Generates(s)
  {
    hide MatrixAt;
    hide Regular;
    hide Pow2;
    if Generates(s) {
      var k: nat :| k < Pow2(SEED_BITS) && Regular(MatrixAt(s, k));
      var first := FirstRegularExists(s, k);
      assert IsGenerated(s, MatrixAt(s, first));
    }
  }

  lemma FirstRegularIsUnique(s: Seed, k: nat, k': nat)
    requires FirstRegular(s, k) && FirstRegular(s, k')
    ensures k == k'
  {
    hide MatrixAt;
  }

  lemma GeneratedIsUnique(s: Seed, m: NatMatrix, m': NatMatrix)
    requires IsGenerated(s, m) && IsGenerated(s, m')
    ensures m == m'
  {
    hide MatrixAt;
    hide FirstRegular;
    hide Pow2;
    var k: nat :| k < Pow2(SEED_BITS) && FirstRegular(s, k) && m == MatrixAt(s, k);
    var k': nat :| k' < Pow2(SEED_BITS) && FirstRegular(s, k') && m' == MatrixAt(s, k');
    FirstRegularIsUnique(s, k, k');
  }

  function SeedOf(hash: Uint256): Seed {
    Seed(hash[0], hash[1], hash[2], hash[3])
  }

  method FullRank(m: NatMatrix) returns (full: bool)
    requires IsMatrix64(m)
    ensures full <==> Regular(m)
    ensures full <==> LinearAlgebra.NonSingular(ToReals(m), 64)
  {
    var rank := ComputeRank(m);
    RankDecides(m, rank);
    full := rank == 64;
  }

  /** One turn of the loop of `Matrix::generate`. */
  method Attempt(generator: Generator, ghost s: Seed, ghost k: nat) returns (m: NatMatrix, full: bool)
    requires generator.State() == Iterate(s, 256 * k)
    modifies generator
    ensures m == MatrixAt(s, k) && generator.State() == Iterate(s, 256 * (k + 1))
    ensures full <==> Regular(m)
  {
    hide RandMatrix;
    hide Iterate;
    hide IsMatrix64;
    hide Regular;
    m := RandMatrixNoRankCheck(generator);
    IterateSum(s, 256 * k, 256);
    full := FullRank(m);
  }

  /** The loop of the source has no bound of its own; it needs one of 2^256 matrices to be regular, and a stream
      without one among them has none at all (GeneratesWithinOnePeriodOrNever). */
  method Generate(hash: Uint256) returns (m: NatMatrix, ghost turns: nat)
    requires Generates(SeedOf(hash))
    ensures IsMatrix64(m) && IsGenerated(SeedOf(hash), m)
    ensures 0 < turns <= Pow2(SEED_BITS) && FirstRegular(SeedOf(hash), turns - 1)
    ensures m == MatrixAt(Seed(hash[0], hash[1], hash[2], hash[3]), turns - 1)
    ensures LinearAlgebra.NonSingular(ToReals(m), 64)
  {
    hide Regular;
    hide Iterate;
    hide MatrixAt;
    hide IsMatrix64;
    ghost var s := SeedOf(hash);
    hide Pow2;
    ghost var last: nat :| last < Pow2(SEED_BITS) && Regular(MatrixAt(s, last));
    var generator := new Generator(hash);
    IterateNone(s);
    ghost var k := 0;
    while true
      invariant generator.State() == Iterate(s, 256 * k) && k <= last
      invariant forall i: nat | i < k :: !Regular(MatrixAt(s, i))
      decreases last - k
    {
      var full;
      m, full := Attempt(generator, s, k);
      if full {
        assert FirstRegular(s, k);
        RegularIsNonSingular(m);
        turns := k + 1;
        return;
      }
      k := k + 1;
    }
  }

  lemma RegularIsNonSingular(m: NatMatrix)
    requires IsMatrix64(m)
    ensures Regular(m) <==> LinearAlgebra.NonSingular(ToReals(m), 64)
  {
  }

  lemma RankDecides(m: NatMatrix, rank: nat)
    requires IsMatrix64(m) && (rank == |m| <==> LinearAlgebra.NonSingular(ToReals(m), |m|))
    ensures rank == 64 <==> Regular(m)
  {
  }

  // ---- The zero seed ----

  lemma {:induction false} ZeroStaysZero(n: nat)
    ensures Iterate(NULL_SEED, n) == NULL_SEED
  {
    if n == 0 {
    } else {
      ZeroStaysZero(n - 1);
      OnlyZeroLeadsToZero(NULL_SEED);
    }
  }

  lemma ZeroDraw(n: nat)
    ensures Draw(NULL_SEED, n) == Zeros(64)
  {
    ZeroStaysZero(n);
    ZeroOutput();
    hide Iterate;
    hide Output;
    hide Zeros;
  }

  lemma ZeroOutput()
    ensures Output(NULL_SEED) == Zeros(64)
  {
    ZeroAdd();
    ZeroRol();
    hide Add;
    hide Rol;
    hide Zeros;
  }

  lemma ZeroRol()
    ensures Rol(Zeros(64), 23) == Zeros(64)
  {
  }

  lemma ZeroAdd()
    ensures Add(Zeros(64), Zeros(64)) == Zeros(64)
  {
    NatOfZeros(64);
    BitsOfNatOf(Zeros(64));
  }

  lemma ZeroMatrix(k: nat, i: nat, j: nat)
    requires i < 64 && j < 64
    ensures MatrixAt(NULL_SEED, k)[i][j] == 0
  {
    ZeroStaysZero(256 * k);
    ZeroDraw(4 * i + j / 16);
    ZeroNibble(j % 16);
    EntryAt(NULL_SEED, i, j);
    hide Iterate;
    hide Draw;
    hide Nibble;
    hide Zeros;
    hide RandMatrix;
  }

  lemma EntryAt(s: Seed, i: nat, j: nat)
    requires i < 64 && j < 64
    ensures RandMatrix(s)[i][j] == RandRow(s, i)[j] == Nibble(Draw(s, 4 * i + j / 16), j % 16)
  {
    hide Draw;
    hide Nibble;
  }

  lemma ZeroNibble(s: nat)
    requires s < 16
    ensures Nibble(Zeros(64), s) == 0
  {
    assert Zeros(64)[4 * s..4 * s + 4] == Zeros(4);
    NatOfZeros(4);
  }

  /** From the all-zero hash no regular matrix ever comes, so generation does not end. */
  lemma ZeroSeedGeneratesNothing()
    ensures !Generates(NULL_SEED)
  {
    forall k: nat ensures !Regular(MatrixAt(NULL_SEED, k)) {
      var m := MatrixAt(NULL_SEED, k);
      forall i: nat, j: nat | i < 64 && j < 64 ensures m[i][j] == 0 {
        ZeroMatrix(k, i, j);
      }
      hide MatrixAt;
      ZeroMatrixIsSingular(m);
    }
  }

  lemma ZeroMatrixIsSingular(m: NatMatrix)
    requires IsMatrix64(m) && forall i, j | 0 <= i < 64 && 0 <= j < 64 :: m[i][j] == 0
    ensures !Regular(m)
  {
    var r := ToReals(m);
    var x := seq(64, _ => 1.0);
    forall i | 0 <= i < 64 ensures LinearAlgebra.Dot(r[i], x) == 0.0 {
      LinearAlgebra.DotZero(r[i], x, 64);
    }
    assert LinearAlgebra.InKernel(r, x);
    assert x[0] == 1.0;
  }

  // ---- The matrix-vector step ----

  /** Nibbles of the hash, the high one of each byte first. */
  function HashNibbles(hash: Uint256): (v: seq<nat>)
    ensures |v| == 64 && forall j | 0 <= j < 64 :: v[j] <= 15
  {
    seq(64, j requires 0 <= j < 64 => HashNibble(Bytes(hash)[j / 2], j % 2 == 0))
  }

  function HashNibble(b: Byte, high: bool): (n: nat)
    ensures n <= 15
  {
    NatOfBound(b);
    Pow2Of8();
    if high then NatOf(b) / 16 else NatOf(b) % 16
  }

  /** Row times vector over the first n entries. */
  function RowSum(row: seq<nat>, v: seq<nat>, n: nat): nat
    requires n <= |row| && n <= |v|
  {
    if n == 0 then 0 else RowSum(row, v, n - 1) + row[n - 1] * v[n - 1]
  }

  lemma {:induction false} RowSumBound(row: seq<nat>, v: seq<nat>, n: nat)
    requires n <= |row| && n <= |v|
    requires forall j | 0 <= j < n :: row[j] <= 15 && v[j] <= 15
    ensures RowSum(row, v, n) <= 225 * n
  {
    if n == 0 {
    } else {
      RowSumBound(row, v, n - 1);
      ProductBound(row[n - 1], v[n - 1]);
    }
  }

  lemma ProductBound(a: nat, b: nat)
    requires a <= 15 && b <= 15
    ensures a * b <= 225
  {
  }

  function XorByte(a: Byte, b: Byte): Byte {
    seq(8, i requires 0 <= i < 8 => a[i] != b[i])
  }

  /** floor(M v / 1024), component by component. */
  function Component(m: NatMatrix, v: seq<nat>, i: nat): nat
    requires IsMatrix64(m) && |v| == 64 && i < 64
  {
    RowSum(m[i], v, 64) / 1024
  }

  lemma ComponentIsNibble(m: NatMatrix, v: seq<nat>, i: nat)
    requires IsMatrix64(m) && |v| == 64 && i < 64 && forall j | 0 <= j < 64 :: v[j] <= 15
    ensures RowSum(m[i], v, 64) <= 14400 && Component(m, v, i) <= 14
  {
    RowSumBound(m[i], v, 64);
  }

  /** Two components in one byte. */
  function PackedComponents(m: NatMatrix, v: seq<nat>, i: nat): Byte
    requires IsMatrix64(m) && |v| == 64 && i < 32
  {
    BitsOf(16 * Component(m, v, 2 * i) + Component(m, v, 2 * i + 1), 8)
  }

  /** Two components per byte, xored with the byte of the hash. */
  function Mixed(m: NatMatrix, hash: Uint256): (b: seq<Byte>)
    requires IsMatrix64(m)
    ensures |b| == 32
  {
    seq(32, i requires 0 <= i < 32 => XorByte(PackedComponents(m, HashNibbles(hash), i), Bytes(hash)[i]))
  }

  /** The closure of `heavy_hash` that makes one byte of the product. */
  method Product(m: NatMatrix, vec: seq<nat>, i: nat) returns (b: Byte)
    requires IsMatrix64(m) && |vec| == 64 && i < 32 && forall j | 0 <= j < 64 :: vec[j] <= 15
    ensures b == PackedComponents(m, vec, i)
  {
    var sum1: u16, sum2: u16 := 0, 0;
    for j := 0 to 64
      invariant sum1 as nat == RowSum(m[2 * i], vec, j) && sum2 as nat == RowSum(m[2 * i + 1], vec, j)
    {
      sum1 := Accumulate(m[2 * i], vec, j, sum1);
      sum2 := Accumulate(m[2 * i + 1], vec, j, sum2);
    }
    ComponentIsNibble(m, vec, 2 * i);
    ComponentIsNibble(m, vec, 2 * i + 1);
    var hi, lo := sum1 as nat / 1024, sum2 as nat / 1024;
    hide RowSum;
    PackedNibbles(hi, lo);
    b := OrByte(BitsOf(hi * 16, 8), BitsOf(lo, 8));
  }

  /** One += in u16 arithmetic, which never overflows here. */
  method Accumulate(row: seq<nat>, vec: seq<nat>, j: nat, sum: u16) returns (r: u16)
    requires |row| == |vec| == 64 && j < 64 && forall p | 0 <= p < 64 :: row[p] <= 15 && vec[p] <= 15
    requires sum as nat == RowSum(row, vec, j)
    ensures r as nat == RowSum(row, vec, j + 1)
  {
    RowSumBound(row, vec, j + 1);
    r := Add16(sum, row[j], vec[j]);
  }

  method Add16(sum: u16, a: nat, b: nat) returns (r: u16)
    requires a <= 15 && b <= 15 && sum as nat + a * b < 0x1_0000
    ensures r as nat == sum as nat + a * b
  {
    ProductBound(a, b);
    var product := a as u16 * b as u16;
    assert product as nat == a * b;
    r := sum + product;
  }

  method NibbleVector(bytes: seq<Byte>, ghost hash: Uint256) returns (v: seq<nat>)
    requires bytes == Bytes(hash)
    ensures v == HashNibbles(hash)
  {
    hide Bytes;
    hide HashNibble;
    var vec := new nat[64](_ => 0);
    for i := 0 to 32
      invariant forall j | 0 <= j < 2 * i :: vec[j] == HashNibbles(hash)[j]
    {
      vec[2 * i] := HashNibble(bytes[i], true);
      vec[2 * i + 1] := HashNibble(bytes[i], false);
    }
    v := vec[..];
  }

  method MixIn(m: NatMatrix, hash: Uint256) returns (product: seq<Byte>)
    requires IsMatrix64(m)
    ensures product == Mixed(m, hash)
  {
    hide Bytes;
    hide HashNibbles;
    hide PackedComponents;
    hide XorByte;
    hide IsMatrix64;
    var bytes := ToLeBytes(hash);
    var v := NibbleVector(bytes, hash);
    product := [];
    for i := 0 to 32
      invariant |product| == i
      invariant forall k | 0 <= k < i :: product[k] == PackedComponents(m, v, k)
    {
      var b := Product(m, v, i);
      product := product + [b];
    }
    for i := 0 to 32
      invariant |product| == 32
      invariant forall k | 0 <= k < 32 :: product[k] == if k < i then Mixed(m, hash)[k] else PackedComponents(m, v, k)
    {
      product := product[i := XorByte(product[i], bytes[i])];
    }
  }

  /** The proof-of-work value: the digest of floor(M v / 1024) xor hash. */
  function HeavyHashOf(m: NatMatrix, hash: Uint256): (b: Bits)
    requires IsMatrix64(m)
    ensures |b| == 256
  {
    Hasher.HeavyDigest(OfBytes(Mixed(m, hash)))
  }

  /** A row times the hash, from the nibbles of its first n bytes, the high one of each byte first. */
  function RowTimesHash(row: seq<nat>, bytes: seq<Byte>, n: nat): nat
    requires n <= |bytes| && 2 * n <= |row|
  {
    if n == 0 then 0 else
      RowTimesHash(row, bytes, n - 1)
        + row[2 * n - 2] * NatOf(bytes[n - 1][4..]) + row[2 * n - 1] * NatOf(bytes[n - 1][..4])
  }

  /** Byte i of b holds components 2i and 2i + 1 of floor(M v / 1024), the first one high, xored with byte i of the
      hash, bit by bit. */
  predicate IsMixed(m: NatMatrix, hash: Uint256, b: seq<Byte>)
    requires IsMatrix64(m)
  {
    |b| == 32 && forall i: nat, p: nat | i < 32 && p < 8 ::
      b[i][p] == (Bytes(hash)[i][p] != BitsOf(16 * (RowTimesHash(m[2 * i], Bytes(hash), 32) / 1024)
        + RowTimesHash(m[2 * i + 1], Bytes(hash), 32) / 1024, 8)[p])
  }

  lemma {:induction false} RowSumIsRowTimesHash(row: seq<nat>, hash: Uint256, n: nat)
    requires |row| == 64 && n <= 32
    ensures RowSum(row, HashNibbles(hash), 2 * n) == RowTimesHash(row, Bytes(hash), n)
  {
    hide Bytes;
    hide HashNibbles;
    hide NatOf;
    if n == 0 {
    } else {
      RowSumIsRowTimesHash(row, hash, n - 1);
      NibblesOfByte(hash, n - 1);
      TwoMore(row, HashNibbles(hash), 2 * (n - 1));
    }
  }

  lemma TwoMore(row: seq<nat>, v: seq<nat>, k: nat)
    requires k + 1 < |row| == |v|
    ensures RowSum(row, v, k + 2) == RowSum(row, v, k) + row[k] * v[k] + row[k + 1] * v[k + 1]
  {
    hide RowSum;
    OneMore(row, v, k);
    OneMore(row, v, k + 1);
  }

  lemma OneMore(row: seq<nat>, v: seq<nat>, k: nat)
    requires k < |row| == |v|
    ensures RowSum(row, v, k + 1) == RowSum(row, v, k) + row[k] * v[k]
  {
  }

  lemma NibblesOfByte(hash: Uint256, t: nat)
    requires t < 32
    ensures HashNibbles(hash)[2 * t] == NatOf(Bytes(hash)[t][4..])
    ensures HashNibbles(hash)[2 * t + 1] == NatOf(Bytes(hash)[t][..4])
  {
    hide Bytes;
    hide NatOf;
    NatOfSplit(Bytes(hash)[t], 4);
    Pow2Of8();
  }

  lemma MixedIsMixed(m: NatMatrix, hash: Uint256)
    requires IsMatrix64(m)
    ensures IsMixed(m, hash, Mixed(m, hash))
  {
    hide Bytes;
    hide HashNibbles;
    hide RowTimesHash;
    hide RowSum;
    hide BitsOf;
    forall i: nat | i < 32 ensures
      Mixed(m, hash)[i] == XorByte(BitsOf(16 * (RowTimesHash(m[2 * i], Bytes(hash), 32) / 1024)
        + RowTimesHash(m[2 * i + 1], Bytes(hash), 32) / 1024, 8), Bytes(hash)[i])
    {
      RowSumIsRowTimesHash(m[2 * i], hash, 32);
      RowSumIsRowTimesHash(m[2 * i + 1], hash, 32);
    }
    hide Mixed;
    hide IsMatrix64;
  }

  lemma MixedIsUnique(m: NatMatrix, hash: Uint256, b: seq<Byte>, c: seq<Byte>)
    requires IsMatrix64(m) && IsMixed(m, hash, b) && IsMixed(m, hash, c)
    ensures b == c
  {
    hide Bytes;
    hide RowTimesHash;
    hide BitsOf;
    hide IsMatrix64;
    forall i: nat | i < 32 ensures b[i] == c[i] {
      forall p: nat | p < 8 ensures b[i][p] == c[i][p] {
      }
    }
  }

  lemma HeavyHashOfMixed(m: NatMatrix, hash: Uint256)
    requires IsMatrix64(m)
    ensures exists b: seq<Byte> ::
      |b| == 32 && IsMixed(m, hash, b) && HeavyHashOf(m, hash) == Hasher.HeavyDigest(OfBytes(b))
  {
    hide IsMixed;
    hide Mixed;
    hide OfBytes;
    hide Hasher.HeavyDigest;
    MixedIsMixed(m, hash);
  }

  /** The digest of some bytes b, given by components c. */
  lemma HeavyHashSpelledOut(m: NatMatrix, hash: Uint256) returns (b: seq<Byte>, c: seq<nat>)
    requires IsMatrix64(m)
    ensures |b| == 32 && HeavyHashOf(m, hash) == Hasher.HeavyDigest(OfBytes(b))
    ensures |c| == 64 && forall k: nat | k < 64 :: c[k] == RowTimesHash(m[k], Bytes(hash), 32) / 1024
    ensures forall i: nat, p: nat | i < 32 && p < 8 ::
      b[i][p] == (Bytes(hash)[i][p] != BitsOf(16 * c[2 * i] + c[2 * i + 1], 8)[p])
  {
    hide OfBytes;
    hide HeavyHashOf;
    hide Bytes;
    hide BitsOf;
    hide RowTimesHash;
    hide Hasher.HeavyDigest;
    HeavyHashOfMixed(m, hash);
    b :| |b| == 32 && IsMixed(m, hash, b) && HeavyHashOf(m, hash) == Hasher.HeavyDigest(OfBytes(b));
    c := seq(64, k requires 0 <= k < 64 => RowTimesHash(m[k], Bytes(hash), 32) / 1024);
  }

  /** A row times the hash is the last of any sequence of partial sums. */
  lemma {:induction false} RowTimesHashOfAnySums(row: seq<nat>, bytes: seq<Byte>, sums: seq<nat>, n: nat)
    requires |row| == 64 && |bytes| == 32 && |sums| == 33 && n <= 32 && sums[0] == 0
    requires forall t | 0 <= t < 32 ::
      sums[t + 1] == sums[t] + row[2 * t] * NatOf(bytes[t][4..]) + row[2 * t + 1] * NatOf(bytes[t][..4])
    ensures RowTimesHash(row, bytes, n) == sums[n]
  {
    hide NatOf;
    if n == 0 {
    } else {
      RowTimesHashOfAnySums(row, bytes, sums, n - 1);
      assert sums[n - 1 + 1] == sums[n];
    }
  }

  method HeavyHash(m: NatMatrix, hash: Uint256) returns (r: Uint256, ghost b: seq<Byte>, ghost c: seq<nat>)
    requires IsMatrix64(m)
    ensures Flat(r) == HeavyHashOf(m, hash)
    ensures |c| == 64 && forall k: nat | k < 64 :: c[k] == RowTimesHash(m[k], Bytes(hash), 32) / 1024
    ensures |b| == 32 && forall i: nat, p: nat | i < 32 && p < 8 ::
      b[i][p] == (Bytes(hash)[i][p] != BitsOf(16 * c[2 * i] + c[2 * i + 1], 8)[p])
    ensures Flat(r) == Hasher.HeavyDigest(OfBytes(b))
  {
    hide Mixed;
    hide OfBytes;
    hide HeavyHashOf;
    hide Bytes;
    hide BitsOf;
    hide RowTimesHash;
    hide IsMatrix64;
    b, c := HeavyHashSpelledOut(m, hash);
    var product := MixIn(m, hash);
    var input := FromLeBytes(product);
    r := Hasher.HeavyHasherHash(input);
    HeavyHashIs(m, hash);
  }

  lemma HeavyHashIs(m: NatMatrix, hash: Uint256)
    requires IsMatrix64(m)
    ensures HeavyHashOf(m, hash) == Hasher.HeavyDigest(OfBytes(Mixed(m, hash)))
  {
    hide Mixed;
    hide OfBytes;
    hide Hasher.HeavyDigest;
  }
}
