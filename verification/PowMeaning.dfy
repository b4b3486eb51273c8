/** What the proof of work of a header is, spelled out down to the sponge, the matrix and the numbers, without the
    functions through which Pow computes it. */
module PowMeaning {
  import opened Words
  import opened Options
  import opened Uint256Model
  import opened Header
  import opened HeaderHashing
  import opened MatrixRank
  import opened Xoshiro
  import KeccakSpec
  import Sponge
  import Hasher
  import HeavyHash
  import Target
  import Pow

  /** m is the matrix generated from the pre-pow hash; digest is cSHAKE256 of hash, time, 32 zero bytes and nonce;
      b is the product of m and digest mixed with digest; v is cSHAKE256 of b. */
  ghost predicate IsWork(h: Header, blake2b: Blake2b, m: NatMatrix, digest: Uint256, b: seq<Byte>, v: Bits)
  {
    var p := blake2b(Serialized(h, true));
    && HeavyHash.IsMatrix64(m) && HeavyHash.IsGenerated(Seed(p[0], p[1], p[2], p[3]), m)
    && Flat(digest) == Sponge.CShake(KeccakSpec.KeccakF, Hasher.PowPrefix(),
      Flat(p) + h.timestamp + Zeros(256) + h.nonce, 256)
    && |b| == 32 && HeavyHash.IsMixed(m, digest, b)
    && v == Sponge.CShake(KeccakSpec.KeccakF, Hasher.HeavyPrefix(), Flat(OfBytes(b)), 256)
  }

  lemma PowIs(h: Header, m: NatMatrix, blake2b: Blake2b)
    requires HeavyHash.IsMatrix64(m)
    ensures Pow.HeaderPow(h, m, blake2b)
         == HeavyHash.HeavyHashOf(m, OfBits(Hasher.PowDigest(blake2b(Serialized(h, true)), h.timestamp, h.nonce)))
  {
    hide Serialized;
    hide HeavyHash.HeavyHashOf;
    hide HeavyHash.IsMatrix64;
    hide Hasher.PowDigest;
    hide OfBits;
  }

  lemma SeedIs(h: Header, blake2b: Blake2b)
    ensures var p := blake2b(Serialized(h, true)); Pow.MatrixSeed(h, blake2b) == Seed(p[0], p[1], p[2], p[3])
  {
    hide Serialized;
  }

  lemma HeaderPowIsWork(h: Header, m: NatMatrix, blake2b: Blake2b) returns (digest: Uint256, b: seq<Byte>)
    requires HeavyHash.IsMatrix64(m) && HeavyHash.IsGenerated(Pow.MatrixSeed(h, blake2b), m)
    ensures IsWork(h, blake2b, m, digest, b, Pow.HeaderPow(h, m, blake2b))
  {
    hide Serialized;
    hide Sponge.CShake;
    hide KeccakSpec.KeccakF;
    hide HeavyHash.IsMatrix64;
    hide HeavyHash.IsGenerated;
    hide HeavyHash.IsMixed;
    hide HeavyHash.HeavyHashOf;
    hide Hasher.PowDigest;
    hide Hasher.HeavyDigest;
    hide Hasher.PowPrefix;
    hide Hasher.HeavyPrefix;
    hide Flat;
    hide OfBits;
    hide OfBytes;
    hide Zeros;
    hide Pow.HeaderPow;
    hide Pow.MatrixSeed;
    var p := blake2b(Serialized(h, true));
    var d := Hasher.PowDigest(p, h.timestamp, h.nonce);
    digest := OfBits(d);
    SeedIs(h, blake2b);
    PowIs(h, m, blake2b);
    FlatOfBits(d);
    Hasher.PowDigestMessage(p, h.timestamp, h.nonce);
    HeavyHash.HeavyHashOfMixed(m, digest);
    b :| |b| == 32 && HeavyHash.IsMixed(m, digest, b)
      && HeavyHash.HeavyHashOf(m, digest) == Hasher.HeavyDigest(OfBytes(b));
    Hasher.HeavyDigestMessage(OfBytes(b));
  }

  /** Proof-of-work value and its parts are determined by the header. */
  lemma WorkIsUnique(h: Header, blake2b: Blake2b, m: NatMatrix, digest: Uint256, b: seq<Byte>, v: Bits,
    m': NatMatrix, digest': Uint256, b': seq<Byte>, v': Bits)
    requires IsWork(h, blake2b, m, digest, b, v) && IsWork(h, blake2b, m', digest', b', v')
    ensures m == m' && digest == digest' && b == b' && v == v'
  {
    hide Serialized;
    hide Sponge.CShake;
    hide KeccakSpec.KeccakF;
    hide HeavyHash.IsMatrix64;
    hide HeavyHash.IsGenerated;
    hide HeavyHash.IsMixed;
    hide Hasher.PowPrefix;
    hide Hasher.HeavyPrefix;
    hide Flat;
    hide OfBytes;
    hide Zeros;
    var p := blake2b(Serialized(h, true));
    HeavyHash.GeneratedIsUnique(Seed(p[0], p[1], p[2], p[3]), m, m');
    OfBitsFlat(digest);
    OfBitsFlat(digest');
    HeavyHash.MixedIsUnique(m, digest, b, b');
  }

  /** A header verifies exactly if there is work for it whose value is at most the target its bits stand for. */
  lemma VerifiesMeansWork(h: Header, blake2b: Blake2b)
    ensures Pow.Verifies(h, blake2b) <==>
      exists m: NatMatrix, digest: Uint256, b: seq<Byte>, v: Bits ::
        IsWork(h, blake2b, m, digest, b, v) && IsWithinTarget(v, h.bits)
  {
    hide IsWork;
    hide IsWithinTarget;
    hide Pow.HeaderPow;
    if Pow.Verifies(h, blake2b) {
      var m :| HeavyHash.IsMatrix64(m) && HeavyHash.IsGenerated(Pow.MatrixSeed(h, blake2b), m)
        && NatOf(Pow.HeaderPow(h, m, blake2b)) <= Target.CompactValue(h.bits);
      var digest, b := HeaderPowIsWork(h, m, blake2b);
      WithinTargetIs(Pow.HeaderPow(h, m, blake2b), h.bits);
    }
    if m: NatMatrix, digest: Uint256, b: seq<Byte>, v: Bits :|
      IsWork(h, blake2b, m, digest, b, v) && IsWithinTarget(v, h.bits)
    {
      WorkVerifies(h, blake2b, m, digest, b, v);
    }
  }

  /** v is at most the number that the bits stand for. */
  ghost predicate IsWithinTarget(v: Bits, bits: U32) {
    exists t: nat :: Target.IsCompactTarget(bits / 0x100_0000, bits % 0x100_0000, t) && NatOf(v) <= t
  }

  lemma WithinTargetIs(v: Bits, bits: U32)
    ensures IsWithinTarget(v, bits) <==> NatOf(v) <= Target.CompactValue(bits)
  {
    Target.CompactValueIs(bits);
    hide Target.CompactValue;
    hide NatOf;
    hide Pow2;
  }

  lemma WorkVerifies(h: Header, blake2b: Blake2b, m: NatMatrix, digest: Uint256, b: seq<Byte>, v: Bits)
    requires IsWork(h, blake2b, m, digest, b, v) && IsWithinTarget(v, h.bits)
    ensures Pow.Verifies(h, blake2b)
  {
    hide IsWithinTarget;
    hide Pow.HeaderPow;
    hide Pow.Verifies;
    hide IsWork;
    WorkHasMatrix(h, blake2b, m, digest, b, v);
    var digest', b' := HeaderPowIsWork(h, m, blake2b);
    WorkIsUnique(h, blake2b, m, digest, b, v, m, digest', b', Pow.HeaderPow(h, m, blake2b));
    WithinTargetIs(v, h.bits);
    Pow.VerifiesByMatrix(h, m, blake2b);
  }

  lemma WorkHasMatrix(h: Header, blake2b: Blake2b, m: NatMatrix, digest: Uint256, b: seq<Byte>, v: Bits)
    requires IsWork(h, blake2b, m, digest, b, v)
    ensures HeavyHash.IsMatrix64(m) && HeavyHash.IsGenerated(Pow.MatrixSeed(h, blake2b), m)
  {
    hide HeavyHash.IsMatrix64;
    hide HeavyHash.IsGenerated;
    hide HeavyHash.IsMixed;
    hide Sponge.CShake;
    hide Flat;
    hide Pow.MatrixSeed;
    SeedIs(h, blake2b);
  }
}
