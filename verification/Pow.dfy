/** `State` of pow.rs: the state of one mining job, from the template block to the solved block. */
module Pow {
  import opened Options
  import opened Words
  import opened Uint256Model
  import opened Header
  import Hex
  import opened HeaderHashing
  import opened MatrixRank
  import KeccakSpec
  import opened Xoshiro
  import Hasher
  import HeavyHash
  import Target

  /** RpcBlock; the transactions and verbose data are only carried along. */
  datatype Block = Block(header: Option<Header>, body: seq<Byte>)

  datatype State = State(
    id: nat,
    matrix: NatMatrix,
    nonce: Word,
    target: Uint256,
    block: Block,
    hasher: Hasher.PowHasher)

  /** The result of `State::new`; HeaderMissing is its error, Panic an `unwrap` in the serialisation. */
  datatype Outcome<T> = Success(value: T) | HeaderMissing | Panic

  // ---- What a header is worth, without the state ----

  function PrePowHash(h: Header, blake2b: Blake2b): Uint256 {
    blake2b(Serialized(h, true))
  }

  function MatrixSeed(h: Header, blake2b: Blake2b): Seed {
    HeavyHash.SeedOf(PrePowHash(h, blake2b))
  }

  /** The proof-of-work value of a header, given its matrix. */
  function HeaderPow(h: Header, m: NatMatrix, blake2b: Blake2b): (b: Bits)
    requires HeavyHash.IsMatrix64(m)
    ensures |b| == 256
  {
    HeavyHash.HeavyHashOf(m, OfBits(Hasher.PowDigest(PrePowHash(h, blake2b), h.timestamp, h.nonce)))
  }

  /** The matrix of the header exists and the proof-of-work value is at most the target. */
  ghost predicate Verifies(h: Header, blake2b: Blake2b) {
    exists m | HeavyHash.IsMatrix64(m) && HeavyHash.IsGenerated(MatrixSeed(h, blake2b), m) ::
      NatOf(HeaderPow(h, m, blake2b)) <= Target.CompactValue(h.bits)
  }

  // ---- The state ----

  ghost predicate Valid(s: State, h: Header, blake2b: Blake2b) {
    && WellFormed(h)
    && HeavyHash.IsMatrix64(s.matrix) && HeavyHash.IsGenerated(MatrixSeed(h, blake2b), s.matrix)
    && Value(s.target) == Target.CompactValue(h.bits)
    && s.block.header == Some(h)
    && s.hasher.lanes == Hasher.PowStart(PrePowHash(h, blake2b), h.timestamp)
  }

  /** Generation of the matrix ends, if it is reached at all. */
  ghost predicate MatrixExists(block: Block, blake2b: Blake2b) {
    block.header.Some? && WellFormed(block.header.value) ==>
      HeavyHash.Generates(MatrixSeed(block.header.value, blake2b))
  }

  method NewState(id: nat, block: Block, blake2b: Blake2b) returns (r: Outcome<State>)
    requires MatrixExists(block, blake2b)
    ensures r.HeaderMissing? <==> block.header.None?
    ensures r.Panic? <==> block.header.Some? && !WellFormed(block.header.value)
    ensures r.Success? ==> block.header.Some? && Valid(r.value, block.header.value, blake2b)
    ensures r.Success? ==> r.value.id == id && r.value.block == block && r.value.nonce == Zeros(64)
  {
    if block.header.None? {
      return HeaderMissing;
    }
    hide WellFormed;
    hide Serialized;
    hide HeavyHash.IsMatrix64;
    hide HeavyHash.IsGenerated;
    hide HeavyHash.Generates;
    hide Target.CompactValue;
    hide Value;
    hide Zeros;
    hide Hasher.PowStart;
    var header := block.header.value;
    var target := Target.FromCompactTarget(header.bits);
    var hasher := new HeaderHasher();
    var ok := SerializeHeader(hasher, header, true);
    if !ok {
      return Panic;
    }
    assert hasher.written == Serialized(header, true);
    var prePowHash := hasher.Finalize(blake2b);
    var powHasher := Hasher.NewPowHasher(prePowHash, header.timestamp);
    var matrix, turns := HeavyHash.Generate(prePowHash);
    r := Success(State(id, matrix, Zeros(64), target, block, powHasher));
  }

  /** The header that a state with this nonce stands for. */
  function Tried(h: Header, s: State): Header {
    h.(nonce := s.nonce)
  }

  function PowOf(s: State): (b: Bits)
    requires HeavyHash.IsMatrix64(s.matrix)
    ensures |b| == 256
  {
    var lanes := s.hasher.lanes;
    HeavyHash.HeavyHashOf(s.matrix, Hasher.FourLanes(KeccakSpec.KeccakF(lanes[9 := Xor(lanes[9], s.nonce)])))
  }

  method CalculatePow(s: State) returns (pow: Uint256)
    requires HeavyHash.IsMatrix64(s.matrix)
    ensures Flat(pow) == PowOf(s)
  {
    hide Xor;
    hide KeccakSpec.KeccakF;
    hide Flat;
    hide HeavyHash.HeavyHashOf;
    hide HeavyHash.IsMatrix64;
    var hash := Hasher.FinalizeWithNonce(s.hasher, s.nonce);
    ghost var b, c;
    pow, b, c := HeavyHash.HeavyHash(s.matrix, hash);
  }

  /** The fast path, which only adds the nonce, computes the value of the header it tries. */
  lemma PowOfIsHeaderPow(s: State, h: Header, blake2b: Blake2b)
    requires Valid(s, h, blake2b)
    ensures PowOf(s) == HeaderPow(Tried(h, s), s.matrix, blake2b)
  {
    SerializedWithoutNonce(h, s.nonce);
    var lanes := s.hasher.lanes;
    Hasher.PowHasherIsCShake(PrePowHash(h, blake2b), h.timestamp, s.nonce);
    var digest := Hasher.FourLanes(KeccakSpec.KeccakF(lanes[9 := Xor(lanes[9], s.nonce)]));
    OfBitsFlat(digest);
    hide KeccakSpec.KeccakF;
    hide Hasher.PowStart;
    hide Hasher.PowDigest;
    hide Hasher.FourLanes;
    hide OfBits;
    hide Flat;
    hide Xor;
    hide Serialized;
    hide HeavyHash.HeavyHashOf;
    hide HeavyHash.IsMatrix64;
    hide WellFormed;
    hide HeavyHash.IsGenerated;
    hide Target.CompactValue;
    hide Value;
  }

  lemma SerializedWithoutNonce(h: Header, nonce: Word)
    ensures Serialized(h.(nonce := nonce), true) == Serialized(h, true)
    ensures WellFormed(h.(nonce := nonce)) <==> WellFormed(h)
  {
    hide Encode;
    hide Hex.HexBytes;
    hide Parents;
  }

  lemma SameSeed(h: Header, nonce: Word, blake2b: Blake2b)
    ensures PrePowHash(h.(nonce := nonce), blake2b) == PrePowHash(h, blake2b)
    ensures MatrixSeed(h.(nonce := nonce), blake2b) == MatrixSeed(h, blake2b)
  {
    hide Serialized;
    SerializedWithoutNonce(h, nonce);
  }

  lemma VerifiesByMatrix(h: Header, m: NatMatrix, blake2b: Blake2b)
    requires HeavyHash.IsMatrix64(m) && HeavyHash.IsGenerated(MatrixSeed(h, blake2b), m)
    ensures Verifies(h, blake2b) <==> NatOf(HeaderPow(h, m, blake2b)) <= Target.CompactValue(h.bits)
  {
    hide HeaderPow;
    hide MatrixSeed;
    hide HeavyHash.IsMatrix64;
    hide HeavyHash.IsGenerated;
    hide Target.CompactValue;
    hide NatOf;
    if Verifies(h, blake2b) {
      var m' :| HeavyHash.IsMatrix64(m') && HeavyHash.IsGenerated(MatrixSeed(h, blake2b), m')
        && NatOf(HeaderPow(h, m', blake2b)) <= Target.CompactValue(h.bits);
      HeavyHash.GeneratedIsUnique(MatrixSeed(h, blake2b), m, m');
    }
  }

  /** The value is at most the target exactly when the header it tries verifies. */
  lemma PassesIffVerifies(s: State, h: Header, blake2b: Blake2b)
    requires Valid(s, h, blake2b)
    ensures NatOf(PowOf(s)) <= Value(s.target) <==> Verifies(Tried(h, s), blake2b)
  {
    hide HeaderPow;
    hide PowOf;
    hide MatrixSeed;
    hide Verifies;
    hide WellFormed;
    hide HeavyHash.IsMatrix64;
    hide HeavyHash.IsGenerated;
    hide Target.CompactValue;
    hide Value;
    hide NatOf;
    hide Hasher.PowStart;
    PowOfIsHeaderPow(s, h, blake2b);
    var tried := Tried(h, s);
    SameSeed(h, s.nonce, blake2b);
    VerifiesByMatrix(tried, s.matrix, blake2b);
  }

  method CheckPow(s: State) returns (ok: bool)
    requires HeavyHash.IsMatrix64(s.matrix)
    ensures ok <==> NatOf(PowOf(s)) <= Value(s.target)
  {
    hide PowOf;
    hide Flat;
    hide NatOf;
    hide HeavyHash.IsMatrix64;
    var pow := CalculatePow(s);
    var order := Compare(pow, s.target);
    ok := order != Greater;
  }

  /** Answers with a block exactly when the tried header verifies, and that header is the one in the block. */
  method GenerateBlockIfPow(s: State, ghost h: Header, ghost blake2b: Blake2b) returns (r: Option<Block>)
    requires Valid(s, h, blake2b)
    ensures r == if Verifies(h.(nonce := s.nonce), blake2b)
      then Some(Block(Some(h.(nonce := s.nonce)), s.block.body)) else None
  {
    hide PowOf;
    hide Verifies;
    hide NatOf;
    hide Value;
    hide HeavyHash.IsMatrix64;
    hide HeavyHash.IsGenerated;
    hide WellFormed;
    hide Target.CompactValue;
    PassesIffVerifies(s, h, blake2b);
    var ok := CheckPow(s);
    if ok {
      var block := s.block;
      var header := block.header.value;
      header := header.(nonce := s.nonce);
      block := block.(header := Some(header));
      r := Some(block);
    } else {
      r := None;
    }
  }

  /** A state rebuilt from the solved block agrees with the one that solved it, and its check decides the block. */
  lemma SolvedBlockVerifiesFromScratch(s: State, h: Header, block: Block, rebuilt: State, blake2b: Blake2b)
    requires Valid(s, h, blake2b)
    requires block == s.block.(header := Some(Tried(h, s)))
    requires Valid(rebuilt, Tried(h, s), blake2b)
    ensures PrePowHash(Tried(h, s), blake2b) == PrePowHash(h, blake2b)
    ensures rebuilt.matrix == s.matrix && rebuilt.target == s.target && rebuilt.hasher == s.hasher
    ensures var again := rebuilt.(nonce := block.header.value.nonce); PowOf(again) == PowOf(s)
    ensures var again := rebuilt.(nonce := block.header.value.nonce);
      NatOf(PowOf(again)) <= Value(again.target) <==> Verifies(block.header.value, blake2b)
  {
    hide Serialized;
    hide Verifies;
    hide WellFormed;
    hide HeavyHash.IsMatrix64;
    hide HeavyHash.IsGenerated;
    hide Target.CompactValue;
    hide Value;
    hide NatOf;
    hide Hasher.PowStart;
    hide HeavyHash.HeavyHashOf;
    hide KeccakSpec.KeccakF;
    hide Hasher.FourLanes;
    hide Xor;
    hide MatrixSeed;
    hide PrePowHash;
    var tried := Tried(h, s);
    var again := rebuilt.(nonce := s.nonce);
    SameSeed(h, s.nonce, blake2b);
    HeavyHash.GeneratedIsUnique(MatrixSeed(h, blake2b), s.matrix, rebuilt.matrix);
    ValueInjective(s.target, rebuilt.target);
    PassesIffVerifies(again, tried, blake2b);
  }

  // ---- From the solved block back to a check ----

  /** The tried block can be rebuilt: its header is well formed and has the matrix of the state. */
  lemma TriedBlockCanBeRebuilt(s: State, h: Header, blake2b: Blake2b)
    requires Valid(s, h, blake2b)
    ensures WellFormed(Tried(h, s)) && HeavyHash.Generates(MatrixSeed(Tried(h, s), blake2b))
  {
    hide WellFormed;
    hide HeavyHash.IsMatrix64;
    hide HeavyHash.IsGenerated;
    hide HeavyHash.Generates;
    hide Target.CompactValue;
    hide Value;
    hide Hasher.PowStart;
    hide MatrixSeed;
    SerializedWithoutNonce(h, s.nonce);
    SameSeed(h, s.nonce, blake2b);
    HeavyHash.ResultExistsIffGenerates(MatrixSeed(h, blake2b));
  }

  /** A new state for the block, with the nonce of its header, and its check: what any receiver of the block does. */
  method CheckFromScratch(id: nat, block: Block, blake2b: Blake2b) returns (ok: bool)
    requires MatrixExists(block, blake2b)
    ensures ok <==>
      block.header.Some? && WellFormed(block.header.value) && Verifies(block.header.value, blake2b)
  {
    hide WellFormed;
    hide Verifies;
    hide NatOf;
    hide PowOf;
    hide Value;
    hide MatrixExists;
    hide HeavyHash.IsMatrix64;
    hide HeavyHash.IsGenerated;
    hide Target.CompactValue;
    hide Hasher.PowStart;
    var r := NewState(id, block, blake2b);
    if !r.Success? {
      return false;
    }
    ghost var h := block.header.value;
    var state := r.value.(nonce := block.header.value.nonce);
    PassesIffVerifies(state, h, blake2b);
    ok := CheckPow(state);
  }

  /** End to end: a block comes out exactly when the tried block passes a check from scratch, and it is that block. */
  method SolveAndCheckFromScratch(s: State, ghost h: Header, id: nat, blake2b: Blake2b)
    returns (r: Option<Block>, ok: bool)
    requires Valid(s, h, blake2b)
    ensures ok <==> Verifies(h.(nonce := s.nonce), blake2b)
    ensures r == if ok then Some(Block(Some(h.(nonce := s.nonce)), s.block.body)) else None
  {
    hide WellFormed;
    hide Verifies;
    hide Value;
    hide HeavyHash.IsMatrix64;
    hide HeavyHash.IsGenerated;
    hide HeavyHash.Generates;
    hide Target.CompactValue;
    hide Hasher.PowStart;
    r := GenerateBlockIfPow(s, h, blake2b);
    TriedBlockCanBeRebuilt(s, h, blake2b);
    var tried := s.block.(header := Some(s.block.header.value.(nonce := s.nonce)));
    ok := CheckFromScratch(id, tried, blake2b);
  }
}
