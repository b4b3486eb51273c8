/** The sponge of section 4 of FIPS 202 as cSHAKE256 uses it (section 3 of NIST SP 800-185),
    on bit strings, from the state that remains after the customisation block, for any permutation f. */
module Sponge {
  import opened Words
  import opened KeccakSpec

  type Permutation = State -> State

  const RATE: nat := 1088

  /** The first 1088 bits of a block as lanes, followed by a zero capacity. */
  function Lanes(block: Bits): State
    requires |block| == RATE
  {
    seq(25, i requires 0 <= i < 25 => if i < 17 then LaneOf(block, i) else Zeros(64))
  }

  function LaneOf(block: Bits, i: nat): Word
    requires 64 * i + 64 <= |block|
  {
    block[64 * i..64 * i + 64]
  }

  function XorLanes(a: State, b: State): State {
    seq(25, i requires 0 <= i < 25 => Xor(a[i], b[i]))
  }

  function Absorb(f: Permutation, s: State, message: Bits): State
    requires |message| % RATE == 0
    decreases |message|
  {
    if message == [] then s else
      assert |message| >= RATE;
      Absorb(f, f(XorLanes(s, Lanes(message[..RATE]))), message[RATE..])
  }

  /** The two suffix bits 00 of cSHAKE, then 1, zeros and 1 up to a multiple of the rate. */
  function Padded(message: Bits): (p: Bits)
    ensures |p| % RATE == 0
  {
    message + [false, false, true] + Zeros(PadZeros(|message|)) + [true]
  }

  function PadZeros(length: nat): (z: nat)
    ensures (length + 4 + z) % RATE == 0
  {
    var rest := (length + 4) % RATE;
    if rest == 0 then 0 else RATE - rest
  }

  function RateBits(s: State): (b: Bits)
    ensures |b| == RATE
  {
    FirstLanes(s, 17)
  }

  function FirstLanes(s: State, n: nat): (b: Bits)
    requires n <= 25
    ensures |b| == 64 * n
  {
    if n == 0 then [] else FirstLanes(s, n - 1) + s[n - 1]
  }

  function Squeeze(f: Permutation, s: State, length: nat): (b: Bits)
    ensures |b| == length
    decreases length
  {
    if length <= RATE then RateBits(s)[..length] else RateBits(s) + Squeeze(f, f(s), length - RATE)
  }

  /** cSHAKE256 of a message, given the state after its customisation block. */
  function CShake(f: Permutation, prefix: State, message: Bits, length: nat): (b: Bits)
    ensures |b| == length
  {
    Squeeze(f, Absorb(f, prefix, Padded(message)), length)
  }

  // ---- Messages of less than one block ----

  function Join(words: seq<Word>): (b: Bits)
    ensures |b| == 64 * |words|
  {
    if words == [] then [] else Join(words[..|words| - 1]) + words[|words| - 1]
  }

  function Spread(words: seq<Word>): State
    requires |words| <= 25
  {
    seq(25, i requires 0 <= i < 25 => WordOrZero(words, i))
  }

  function WordOrZero(words: seq<Word>, i: nat): Word {
    if i < |words| then words[i] else Zeros(64)
  }

  /** The padding that follows n words of message, as it falls on the lanes of the block. */
  function PaddingLanes(n: nat): State
    requires n < 17
  {
    Lanes(Zeros(64 * n) + Tail(n))
  }

  function Tail(n: nat): (b: Bits)
    requires n < 17
    ensures |b| == RATE - 64 * n
  {
    [false, false, true] + Zeros(RATE - 64 * n - 4) + [true]
  }

  lemma {:induction false} JoinAt(words: seq<Word>, i: nat)
    requires i < |words|
    ensures Join(words)[64 * i..64 * i + 64] == words[i]
  {
    var n := |words| - 1;
    if i < n {
      JoinAt(words[..n], i);
    }
  }

  lemma PaddedShortMessage(words: seq<Word>)
    requires |words| < 17
    ensures Padded(Join(words)) == Join(words) + Tail(|words|)
  {
    assert PadZeros(64 * |words|) == RATE - 64 * |words| - 4;
  }

  lemma MessageLane(words: seq<Word>, i: nat)
    requires i < |words| < 17
    ensures LaneOf(Join(words) + Tail(|words|), i) == words[i]
    ensures LaneOf(Zeros(64 * |words|) + Tail(|words|), i) == Zeros(64)
  {
    hide Tail;
    hide Join;
    JoinAt(words, i);
    SliceOfFirst(Join(words), Tail(|words|), 64 * i, 64 * i + 64);
    SliceOfFirst(Zeros(64 * |words|), Tail(|words|), 64 * i, 64 * i + 64);
    ZeroSlice(64 * |words|, 64 * i);
    hide Zeros;
  }

  lemma SliceOfFirst(a: Bits, b: Bits, i: nat, j: nat)
    requires i <= j <= |a|
    ensures (a + b)[i..j] == a[i..j]
  {
  }

  lemma ZeroSlice(n: nat, i: nat)
    requires i + 64 <= n
    ensures Zeros(n)[i..i + 64] == Zeros(64)
  {
  }

  lemma TailLane(words: seq<Word>, i: nat)
    requires |words| <= i < 17
    ensures LaneOf(Join(words) + Tail(|words|), i) == LaneOf(Zeros(64 * |words|) + Tail(|words|), i)
  {
    hide Tail;
    hide Join;
    hide Zeros;
  }

  lemma BlockLanes(words: seq<Word>)
    requires |words| < 17
    ensures Lanes(Join(words) + Tail(|words|)) == XorLanes(Spread(words), PaddingLanes(|words|))
  {
    var n := |words|;
    var block, empty := Join(words) + Tail(n), Zeros(64 * n) + Tail(n);
    forall i: nat | i < 17 ensures LaneOf(block, i) == Xor(Spread(words)[i], LaneOf(empty, i)) {
      if i < n {
        MessageLane(words, i);
        XorZero(words[i]);
      } else {
        TailLane(words, i);
        XorZero(LaneOf(empty, i));
      }
      hide LaneOf;
      hide Xor;
    }
    XorZero(Zeros(64));
    hide LaneOf;
    hide Xor;
    hide Tail;
    hide Join;
  }

  lemma XorZero(a: Word)
    ensures Xor(a, Zeros(64)) == a && Xor(Zeros(64), a) == a
  {
  }

  lemma AbsorbOneBlock(f: Permutation, s: State, block: Bits)
    requires |block| == RATE
    ensures Absorb(f, s, block) == f(XorLanes(s, Lanes(block)))
  {
    hide Lanes;
    hide XorLanes;
    assert block[..RATE] == block && block[RATE..] == [];
    assert Absorb(f, f(XorLanes(s, Lanes(block))), []) == f(XorLanes(s, Lanes(block)));
  }

  lemma SqueezeFourLanes(f: Permutation, s: State)
    ensures Squeeze(f, s, 256) == FirstLanes(s, 4)
  {
    FirstLanesPrefix(s, 4, 17);
  }

  lemma {:induction false} FirstLanesPrefix(s: State, n: nat, m: nat)
    requires n <= m <= 25
    ensures FirstLanes(s, m)[..64 * n] == FirstLanes(s, n)
  {
    if n == m {
    } else {
      FirstLanesPrefix(s, n, m - 1);
    }
  }

  /** Starting from a state that already holds the padding, one xor of the message words and one
      permutation give the first 256 bits of cSHAKE256. */
  lemma OneBlockSponge(f: Permutation, prefix: State, words: seq<Word>)
    requires |words| < 17
    ensures CShake(f, prefix, Join(words), 256)
         == FirstLanes(f(XorLanes(XorLanes(prefix, PaddingLanes(|words|)), Spread(words))), 4)
  {
    var n := |words|;
    var p := PaddingLanes(n);
    var block := Join(words) + Tail(n);
    PaddedShortMessage(words);
    BlockLanes(words);
    AbsorbOneBlock(f, prefix, block);
    XorLanesSwap(prefix, Spread(words), p);
    SqueezeFourLanes(f, f(XorLanes(prefix, Lanes(block))));
    hide Lanes;
    hide XorLanes;
    hide Spread;
    hide Absorb;
    hide Squeeze;
    hide FirstLanes;
    hide PaddingLanes;
  }

  lemma XorLanesSwap(a: State, b: State, p: State)
    ensures XorLanes(a, XorLanes(b, p)) == XorLanes(XorLanes(a, p), b)
  {
    forall i | 0 <= i < 25 ensures Xor(a[i], Xor(b[i], p[i])) == Xor(Xor(a[i], p[i]), b[i]) {
      XorSwap(a[i], b[i], p[i]);
    }
    hide Xor;
  }

  lemma XorSwap(a: Word, b: Word, p: Word)
    ensures Xor(a, Xor(b, p)) == Xor(Xor(a, p), b)
  {
  }

  // ---- The sponge bit by bit ----

  /** The message, the suffix 00, and the padding 10*1 up to the next multiple of 1088 bits. */
  lemma PaddedBits(message: Bits)
    ensures var p, n := Padded(message), |message|;
      && |p| % 1088 == 0 && n + 4 <= |p| < n + 4 + 1088
      && p[..n] == message && !p[n] && !p[n + 1] && p[n + 2] && p[|p| - 1]
      && forall k | n + 3 <= k < |p| - 1 :: !p[k]
  {
    assert PadZeros(|message|) < RATE;
    hide PadZeros;
  }

  /** In bytes: 0x04 after the message and 0x80 at the end of the block. */
  lemma PaddingWords(n: nat)
    requires n < 16
    ensures PaddingLanes(n)[n] == FromNat(4) && PaddingLanes(n)[16] == FromNat(Pow2(63))
    ensures forall i | 0 <= i < 25 && i != n && i != 16 :: PaddingLanes(n)[i] == Zeros(64)
  {
    OneBit(2);
    OneBit(63);
    Pow2Of8();
    PaddingBlock(n);
    hide *;
    forall i: nat | i < 25 ensures PaddingLanes(n)[i] ==
      if i < 17 then LaneOf(Zeros(64 * n) + Tail(n), i) else Zeros(64)
    {
      PaddingLaneIs(n, i);
    }
  }

  lemma PaddingLaneIs(n: nat, i: nat)
    requires n < 17 && i < 25
    ensures PaddingLanes(n)[i] == if i < 17 then LaneOf(Zeros(64 * n) + Tail(n), i) else Zeros(64)
  {
    hide LaneOf;
    hide Tail;
  }

  lemma PaddingBlock(n: nat)
    requires n < 16
    ensures var block := Zeros(64 * n) + Tail(n);
      && LaneOf(block, n) == Zeros(2) + [true] + Zeros(61)
      && LaneOf(block, 16) == Zeros(63) + [true] + Zeros(0)
      && forall i: nat | i < 17 && i != n && i != 16 :: LaneOf(block, i) == Zeros(64)
  {
  }

  /** A short message takes one block: the permutation is applied once, to the state xored with the padded message
      bit by bit, and the first four lanes come out. */
  lemma OneBlockBits(f: Permutation, prefix: State, message: Bits)
    requires |message| <= 1084
    ensures |Padded(message)| == 1088
    ensures exists s: State ::
      && (forall i: nat, z: nat | i < 25 && z < 64 ::
          s[i][z] == (prefix[i][z] != (i < 17 && Padded(message)[64 * i + z])))
      && forall i: nat, z: nat | i < 4 && z < 64 :: CShake(f, prefix, message, 256)[64 * i + z] == f(s)[i][z]
  {
    PaddedBits(message);
    hide Padded;
    var block := Padded(message);
    AbsorbOneBlock(f, prefix, block);
    var s := XorLanes(prefix, Lanes(block));
    SqueezeFourLanes(f, f(s));
    forall i: nat, z: nat | i < 25 && z < 64
      ensures s[i][z] == (prefix[i][z] != (i < 17 && block[64 * i + z]))
    {
      LanesBit(prefix, block, i, z);
    }
    forall i: nat, z: nat | i < 4 && z < 64 ensures FirstLanes(f(s), 4)[64 * i + z] == f(s)[i][z] {
      FirstLanesAt(f(s), 4, i, z);
    }
    hide XorLanes;
    hide Lanes;
    hide Absorb;
    hide Squeeze;
    hide FirstLanes;
  }

  lemma {:induction false} FirstLanesAt(s: State, n: nat, i: nat, z: nat)
    requires i < n <= 25 && z < 64
    ensures FirstLanes(s, n)[64 * i + z] == s[i][z]
  {
    if i == n - 1 {
    } else {
      FirstLanesAt(s, n - 1, i, z);
    }
  }

  lemma LanesBit(prefix: State, block: Bits, i: nat, z: nat)
    requires |block| == RATE && i < 25 && z < 64
    ensures XorLanes(prefix, Lanes(block))[i][z] == (prefix[i][z] != (i < 17 && block[64 * i + z]))
  {
  }
}
