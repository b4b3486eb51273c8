/** The 256-bit integer of target.rs: four 64-bit limbs, least significant first. */
module Uint256Model {
  import opened Words

  type Uint256 = u: seq<Word> | |u| == 4 witness seq(4, _ => Zeros(64))

  /** All 256 bits, least significant first. */
  function Flat(u: Uint256): (b: Bits)
    ensures |b| == 256
  {
    var b: Bits := u[0];
    b + u[1] + u[2] + u[3]
  }

  function Value(u: Uint256): nat {
    NatOf(Flat(u))
  }

  /** The limbs are the digits of the value in base 2^64, the least significant first. */
  lemma ValueOfLimbs(u: Uint256)
    ensures Value(u) == NatOf(u[0])
      + Pow2(WIDTH) * (NatOf(u[1]) + Pow2(WIDTH) * (NatOf(u[2]) + Pow2(WIDTH) * NatOf(u[3])))
  {
    var top: Bits := u[3];
    var upper := u[2] + top;
    var most := u[1] + upper;
    assert Flat(u) == u[0] + most;
    hide NatOf;
    hide Pow2;
    NatOfConcat(u[0], most);
    NatOfConcat(u[1], upper);
    NatOfConcat(u[2], top);
  }

  /** The integer with the given bits. */
  function OfBits(b: Bits): (u: Uint256)
    requires |b| == 256
  {
    [Limb(b, 0), Limb(b, 1), Limb(b, 2), Limb(b, 3)]
  }

  function Limb(b: Bits, k: nat): Word
    requires |b| == 256 && k < 4
  {
    b[64 * k..64 * k + 64]
  }

  lemma OfBitsFlat(u: Uint256)
    ensures OfBits(Flat(u)) == u
  {
    var low: Bits := u[0];
    var half := low + u[1];
    var most := half + u[2];
    assert Flat(u) == most + u[3];
    assert Limb(Flat(u), 0) == u[0] && Limb(Flat(u), 1) == u[1] && Limb(Flat(u), 2) == u[2] && Limb(Flat(u), 3) == u[3];
  }

  lemma FlatOfBits(b: Bits)
    requires |b| == 256
    ensures Flat(OfBits(b)) == b
  {
    var u := OfBits(b);
    assert u[0] == b[..64] && u[1] == b[64..128] && u[2] == b[128..192] && u[3] == b[192..];
    assert b == b[..64] + b[64..128] + b[128..192] + b[192..];
  }

  lemma ValueInjective(u: Uint256, v: Uint256)
    requires Value(u) == Value(v)
    ensures u == v
  {
    NatOfInjective(Flat(u), Flat(v));
    OfBitsFlat(u);
    OfBitsFlat(v);
    hide Flat;
  }

  // ---- Little-endian bytes ----

  function WordBytes(w: Word): (b: seq<Byte>)
    ensures |b| == 8
  {
    seq(8, k requires 0 <= k < 8 => w[8 * k..8 * k + 8])
  }

  function WordOfBytes(b: seq<Byte>): Word
    requires |b| == 8
  {
    var w: Bits := b[0];
    w + b[1] + b[2] + b[3] + b[4] + b[5] + b[6] + b[7]
  }

  function Bytes(u: Uint256): (b: seq<Byte>)
    ensures |b| == 32
  {
    WordBytes(u[0]) + WordBytes(u[1]) + WordBytes(u[2]) + WordBytes(u[3])
  }

  lemma WordOfBytesAt(b: seq<Byte>, k: nat, p: nat)
    requires |b| == 8 && k < 8 && p < 8
    ensures WordOfBytes(b)[8 * k + p] == b[k][p]
  {
    assert k == 0 || k == 1 || k == 2 || k == 3 || k == 4 || k == 5 || k == 6 || k == 7;
  }

  lemma WordFromItsBytes(w: Word)
    ensures WordOfBytes(WordBytes(w)) == w
  {
    forall i: nat | i < 64 ensures WordOfBytes(WordBytes(w))[i] == w[i] {
      var k, p := i / 8, i % 8;
      assert i == 8 * k + p;
      WordOfBytesAt(WordBytes(w), k, p);
      hide WordOfBytes;
    }
  }

  lemma BytesOfTheirWord(b: seq<Byte>)
    requires |b| == 8
    ensures WordBytes(WordOfBytes(b)) == b
  {
    forall k: nat, p: nat | k < 8 && p < 8 ensures WordBytes(WordOfBytes(b))[k][p] == b[k][p] {
      WordOfBytesAt(b, k, p);
      hide WordOfBytes;
    }
    hide WordOfBytes;
    assert forall k: nat | k < 8 :: WordBytes(WordOfBytes(b))[k] == b[k];
  }

  lemma BytesOfFlat(u: Uint256, k: nat)
    requires k < 32
    ensures Bytes(u)[k] == Flat(u)[8 * k..8 * k + 8]
  {
    hide Flat;
    var i, j := k / 8, k % 8;
    ByteOfLimb(u, i, j);
    LimbOfFlat(u, i);
    SliceOfSlice(Flat(u), 64 * i, 8 * j);
    assert 64 * i + 8 * j == 8 * k && 8 * i + j == k;
    hide Bytes;
  }

  lemma ByteOfLimb(u: Uint256, i: nat, j: nat)
    requires i < 4 && j < 8
    ensures Bytes(u)[8 * i + j] == u[i][8 * j..8 * j + 8]
  {
    var k := 8 * i + j;
    assert WordBytes(u[i])[j] == u[i][8 * j..8 * j + 8];
    hide WordBytes;
    if i == 0 {
      assert Bytes(u)[k] == WordBytes(u[0])[k];
    } else if i == 1 {
      assert Bytes(u)[k] == WordBytes(u[1])[k - 8];
    } else if i == 2 {
      assert Bytes(u)[k] == WordBytes(u[2])[k - 16];
    } else {
      assert Bytes(u)[k] == WordBytes(u[3])[k - 24];
    }
  }

  lemma SliceOfSlice(b: Bits, i: nat, j: nat)
    requires i + 64 <= |b| && j + 8 <= 64
    ensures b[i..i + 64][j..j + 8] == b[i + j..i + j + 8]
  {
    var c, d := b[i..i + 64][j..j + 8], b[i + j..i + j + 8];
    assert |c| == |d| == 8 && forall p | 0 <= p < 8 :: c[p] == b[i + j + p] == d[p];
  }

  lemma LimbOfFlat(u: Uint256, i: nat)
    requires i < 4
    ensures Flat(u)[64 * i..64 * i + 64] == u[i]
  {
    OfBitsFlat(u);
    assert Limb(Flat(u), i) == OfBits(Flat(u))[i];
    hide Flat;
  }

  /** The bytes are the digits of the value in base 256, the least significant first. */
  lemma BytesAreLittleEndian(u: Uint256)
    ensures forall k: nat | k < 32 :: NatOf(Bytes(u)[k]) == Value(u) / Pow2(8 * k) % 0x100
  {
    hide NatOf;
    hide Pow2;
    hide Flat;
    hide Bytes;
    forall k: nat | k < 32 ensures NatOf(Bytes(u)[k]) == Value(u) / Pow2(8 * k) % 0x100 {
      BytesOfFlat(u, k);
      ByteOfValue(Flat(u), 8 * k);
    }
  }

  lemma WordBytesAreLittleEndian(w: Word)
    ensures forall k: nat | k < 8 :: NatOf(WordBytes(w)[k]) == NatOf(w) / Pow2(8 * k) % 0x100
  {
    hide NatOf;
    hide Pow2;
    forall k: nat | k < 8 ensures NatOf(WordBytes(w)[k]) == NatOf(w) / Pow2(8 * k) % 0x100 {
      ByteOfValue(w, 8 * k);
    }
  }

  function OfBytes(b: seq<Byte>): Uint256
    requires |b| == 32
  {
    [WordOfBytes(b[..8]), WordOfBytes(b[8..16]), WordOfBytes(b[16..24]), WordOfBytes(b[24..])]
  }

  lemma OfBytesRoundTrip(b: seq<Byte>)
    requires |b| == 32
    ensures Bytes(OfBytes(b)) == b
  {
    BytesOfTheirWord(b[..8]);
    BytesOfTheirWord(b[8..16]);
    BytesOfTheirWord(b[16..24]);
    BytesOfTheirWord(b[24..]);
    hide WordBytes;
    hide WordOfBytes;
  }

  lemma BytesRoundTrip(u: Uint256)
    ensures OfBytes(Bytes(u)) == u
  {
    WordFromItsBytes(u[0]);
    WordFromItsBytes(u[1]);
    WordFromItsBytes(u[2]);
    WordFromItsBytes(u[3]);
    hide WordBytes;
    hide WordOfBytes;
  }

  method FromLeBytes(bytes: seq<Byte>) returns (u: Uint256)
    requires |bytes| == 32
    ensures u == OfBytes(bytes)
    ensures forall k: nat | k < 32 :: NatOf(bytes[k]) == Value(u) / Pow2(8 * k) % 0x100
  {
    hide NatOf;
    hide Pow2;
    hide Value;
    hide WordOfBytes;
    var out := new Word[4](_ => Zeros(64));
    for i := 0 to 4
      invariant forall k | 0 <= k < i :: out[k] == WordOfBytes(bytes[8 * k..8 * k + 8])
    {
      out[i] := WordOfBytes(bytes[8 * i..8 * i + 8]);
    }
    u := out[..];
    assert bytes[8 * 0..8 * 0 + 8] == bytes[..8] && bytes[8 * 1..8 * 1 + 8] == bytes[8..16];
    assert bytes[8 * 2..8 * 2 + 8] == bytes[16..24] && bytes[8 * 3..8 * 3 + 8] == bytes[24..];
    hide OfBytes;
    OfBytesAreLittleEndian(bytes);
  }

  lemma OfBytesAreLittleEndian(bytes: seq<Byte>)
    requires |bytes| == 32
    ensures forall k: nat | k < 32 :: NatOf(bytes[k]) == Value(OfBytes(bytes)) / Pow2(8 * k) % 0x100
  {
    hide *;
    OfBytesRoundTrip(bytes);
    BytesAreLittleEndian(OfBytes(bytes));
  }

  method ToLeBytes(u: Uint256) returns (out: seq<Byte>)
    ensures out == Bytes(u)
    ensures forall k: nat | k < 32 :: NatOf(out[k]) == Value(u) / Pow2(8 * k) % 0x100
  {
    hide NatOf;
    hide Pow2;
    BytesAreLittleEndian(u);
    hide WordBytes;
    hide Bytes;
    var buffer := new Byte[32](_ => Zeros(8));
    for i := 0 to 4
      invariant buffer[..8 * i] == FirstBytes(u, i)
    {
      var chunk := WordBytes(u[i]);
      ghost var before := buffer[..8 * i];
      forall p | 0 <= p < 8 {
        buffer[8 * i + p] := chunk[p];
      }
      assert buffer[..8 * i] == before && buffer[8 * i..8 * i + 8] == chunk;
      PrefixGrows(buffer[..], 8 * i, 8);
      assert buffer[..][..8 * i] == before && buffer[..][8 * i..8 * i + 8] == chunk;
      assert buffer[..8 * (i + 1)] == buffer[..][..8 * i + 8];
    }
    FirstBytesAreAll(u);
    out := buffer[..];
    assert out == buffer[..8 * 4];
  }

  lemma PrefixGrows(b: seq<Byte>, i: nat, n: nat)
    requires i + n <= |b|
    ensures b[..i + n] == b[..i] + b[i..i + n]
  {
  }

  function FirstBytes(u: Uint256, n: nat): (b: seq<Byte>)
    requires n <= 4
    ensures |b| == 8 * n
  {
    if n == 0 then [] else FirstBytes(u, n - 1) + WordBytes(u[n - 1])
  }

  lemma FirstBytesAreAll(u: Uint256)
    ensures FirstBytes(u, 4) == Bytes(u)
  {
    hide WordBytes;
    assert FirstBytes(u, 1) == WordBytes(u[0]);
    assert FirstBytes(u, 2) == WordBytes(u[0]) + WordBytes(u[1]);
    assert FirstBytes(u, 3) == WordBytes(u[0]) + WordBytes(u[1]) + WordBytes(u[2]);
  }

  // ---- Order ----

  datatype Ordering = Less | Equal | Greater

  /** Compares the limbs as numbers, the most significant first. */
  method Compare(a: Uint256, b: Uint256) returns (o: Ordering)
    ensures o == if Value(a) < Value(b) then Less else if Value(a) == Value(b) then Equal else Greater
  {
    var i := 4;
    while i > 0
      invariant i <= 4 && forall k | i <= k < 4 :: a[k] == b[k]
    {
      i := i - 1;
      if NatOf(a[i]) != NatOf(b[i]) {
        FirstDifference(a, b, i);
        return if NatOf(a[i]) < NatOf(b[i]) then Less else Greater;
      }
      NatOfInjective(a[i], b[i]);
    }
    return Equal;
  }

  lemma FirstDifference(a: Uint256, b: Uint256, i: nat)
    requires i < 4 && NatOf(a[i]) != NatOf(b[i])
    requires forall k | i < k < 4 :: a[k] == b[k]
    ensures NatOf(a[i]) < NatOf(b[i]) <==> Value(a) < Value(b)
    ensures Value(a) != Value(b)
  {
    var low, low', high := Low(a, i), Low(b, i), High(a, i);
    SplitAt(a, i);
    SplitAt(b, i);
    assert High(a, i) == High(b, i);
    hide Low;
    hide High;
    hide Flat;
    hide NatOf;
    CompareHalves(low, a[i], low', b[i]);
    CompareHalves(low', b[i], low, a[i]);
    CompareHalves(low + a[i], high, low' + b[i], high);
    CompareHalves(low' + b[i], high, low + a[i], high);
  }

  function Low(a: Uint256, i: nat): (b: Bits)
    requires i < 4
    ensures |b| == 64 * i
  {
    if i == 0 then [] else Low(a, i - 1) + a[i - 1]
  }

  function High(a: Uint256, i: nat): Bits
    requires i < 4
    decreases 4 - i
  {
    if i == 3 then [] else a[i + 1] + High(a, i + 1)
  }

  lemma SplitAt(a: Uint256, i: nat)
    requires i < 4
    ensures Flat(a) == (Low(a, i) + a[i]) + High(a, i)
  {
    assert High(a, 3) == [];
    assert High(a, 2) == a[3];
    assert Low(a, 1) == a[0];
    assert Low(a, 2) == Low(a, 1) + a[1];
    assert Low(a, 3) == Low(a, 2) + a[2];
    assert High(a, 1) == a[2] + High(a, 2);
    assert High(a, 0) == a[1] + High(a, 1);
    assert i == 0 || i == 1 || i == 2 || i == 3;
  }
}
