/** `serialize_header` of pow.rs and `HeaderHasher` of hasher.rs: headers are streamed into a keyed Blake2b hasher. */
module HeaderHashing {
  import opened Words
  import opened Uint256Model
  import opened Hex
  import opened Header
  import Layout = HeaderLayout

  /** Keyed Blake2b as a function of all bytes it was given. */
  type Blake2b = seq<Byte> -> Uint256

  class HeaderHasher {
    var written: seq<Byte>

    constructor ()
      ensures written == []
    {
      written := [];
    }

    method Update(data: seq<Byte>)
      modifies this
      ensures written == old(written) + data
    {
      written := written + data;
    }

    method Finalize(blake2b: Blake2b) returns (hash: Uint256)
      ensures hash == blake2b(written)
    {
      hash := blake2b(written);
    }
  }

  /** Writing data leaves only rest to be written. */
  ghost predicate Leaves(hasher: HeaderHasher, rest: seq<Byte>, all: seq<Byte>)
    reads hasher
  {
    hasher.written + rest == all
  }

  lemma LeavesNext(before: seq<Byte>, data: seq<Byte>, rest: seq<Byte>, all: seq<Byte>)
    requires before + (data + rest) == all
    ensures before + data + rest == all
  {
  }

  method Write(hasher: HeaderHasher, data: seq<Byte>, ghost rest: seq<Byte>, ghost all: seq<Byte>)
    modifies hasher
    ensures old(Leaves(hasher, data + rest, all)) ==> Leaves(hasher, rest, all)
  {
    if Leaves(hasher, data + rest, all) {
      LeavesNext(hasher.written, data, rest, all);
    }
    hasher.Update(data);
  }

  /** Decodes a hash into the shared buffer and writes the buffer; false stands for the panic of `unwrap`. */
  method WriteHash(hasher: HeaderHasher, hash: array<Byte>, s: HexString, ghost rest: seq<Byte>, ghost all: seq<Byte>)
    returns (ok: bool)
    requires hash.Length == 32
    modifies hasher, hash
    ensures ok <==> IsHash(s)
    ensures ok && old(Leaves(hasher, HexBytes(s) + rest, all)) ==> Leaves(hasher, rest, all)
  {
    hide AllHex;
    hide HexBytes;
    var r := DecodeToSlice(s, hash, 32);
    HashIsDecoded(s, r);
    if r.Undecodable? {
      return false;
    }
    WholeOverwritten(old(hash[..]), HexBytes(s));
    Write(hasher, hash[..], rest, all);
    ok := true;
  }

  lemma HashIsDecoded(s: HexString, r: Decoding)
    requires Answers(s, 32, r)
    ensures r.Decoded? <==> IsHash(s)
    ensures IsHash(s) ==> |HexBytes(s)| == 32
  {
  }

  lemma WholeOverwritten(was: seq<Byte>, b: seq<Byte>)
    requires |was| == 32
    ensures |b| == 32 ==> Overwritten(was, b, 32) == b
  {
  }

  method WriteLevel(hasher: HeaderHasher, hash: array<Byte>, level: seq<HexString>,
    ghost rest: seq<Byte>, ghost all: seq<Byte>) returns (ok: bool)
    requires hash.Length == 32
    modifies hasher, hash
    ensures ok <==> GoodHashes(level)
    ensures ok && old(Leaves(hasher, HashesOnto(Hashes(level), rest), all)) ==> Leaves(hasher, rest, all)
  {
    hide IsHash;
    hide HexBytes;
    hide Leaves;
    ghost var promised := Leaves(hasher, HashesOnto(Hashes(level), rest), all);
    assert Hashes(level)[0..] == Hashes(level);
    for i := 0 to |level|
      invariant forall k | 0 <= k < i :: IsHash(level[k])
      invariant promised ==> Leaves(hasher, HashesOnto(Hashes(level)[i..], rest), all)
    {
      assert Hashes(level)[i..][0] == HexBytes(level[i]);
      assert Hashes(level)[i..][1..] == Hashes(level)[i + 1..];
      ok := WriteHash(hasher, hash, level[i], HashesOnto(Hashes(level)[i + 1..], rest), all);
      if !ok {
        return;
      }
    }
    ok := true;
  }

  method WriteParents(hasher: HeaderHasher, hash: array<Byte>, parents: seq<seq<HexString>>,
    ghost rest: seq<Byte>, ghost all: seq<Byte>) returns (ok: bool)
    requires hash.Length == 32
    modifies hasher, hash
    ensures ok <==> GoodParents(parents)
    ensures ok && old(Leaves(hasher, LevelsOnto(Parents(parents), rest), all)) ==> Leaves(hasher, rest, all)
  {
    hide GoodHashes;
    hide Hashes;
    hide HashesOnto;
    hide Count;
    ghost var promised := Leaves(hasher, LevelsOnto(Parents(parents), rest), all);
    assert Parents(parents)[0..] == Parents(parents);
    for i := 0 to |parents|
      invariant forall k | 0 <= k < i :: GoodHashes(parents[k])
      invariant promised ==> Leaves(hasher, LevelsOnto(Parents(parents)[i..], rest), all)
    {
      assert Parents(parents)[i..][0] == Hashes(parents[i]);
      assert Parents(parents)[i..][1..] == Parents(parents)[i + 1..];
      ghost var others := LevelsOnto(Parents(parents)[i + 1..], rest);
      Write(hasher, Count(|parents[i]|), HashesOnto(Hashes(parents[i]), others), all);
      ok := WriteLevel(hasher, hash, parents[i], others, all);
      if !ok {
        return;
      }
    }
    ok := true;
  }

  method WriteRoots(hasher: HeaderHasher, hash: array<Byte>, h: Header, ghost rest: seq<Byte>, ghost all: seq<Byte>)
    returns (ok: bool)
    requires hash.Length == 32
    modifies hasher, hash
    ensures ok <==> IsHash(h.hashMerkleRoot) && IsHash(h.acceptedIdMerkleRoot) && IsHash(h.utxoCommitment)
    ensures ok && old(Leaves(hasher, RootsOnto(FieldsOf(h).roots, rest), all)) ==> Leaves(hasher, rest, all)
  {
    hide IsHash;
    hide HexBytes;
    hide Leaves;
    ghost var third := HexBytes(h.utxoCommitment) + rest;
    ok := WriteHash(hasher, hash, h.hashMerkleRoot, HexBytes(h.acceptedIdMerkleRoot) + third, all);
    if ok {
      ok := WriteHash(hasher, hash, h.acceptedIdMerkleRoot, third, all);
    }
    if ok {
      ok := WriteHash(hasher, hash, h.utxoCommitment, rest, all);
    }
  }

  method WriteNumbers(hasher: HeaderHasher, h: Header, timestamp: Word, nonce: Word,
    ghost rest: seq<Byte>, ghost all: seq<Byte>)
    modifies hasher
    ensures old(Leaves(hasher, NumbersOnto(FieldsOf(h).(timestamp := timestamp, nonce := nonce), rest), all)) ==>
      Leaves(hasher, rest, all)
  {
    hide WordBytes;
    hide LeBytes;
    hide Leaves;
    hide HexBytes;
    ghost var score := WordBytes(h.blueScore) + rest;
    ghost var scores := WordBytes(h.daaScore) + score;
    Write(hasher, WordBytes(timestamp), LeBytes(h.bits, 4) + (WordBytes(nonce) + scores), all);
    Write(hasher, LeBytes(h.bits, 4), WordBytes(nonce) + scores, all);
    Write(hasher, WordBytes(nonce), scores, all);
    Write(hasher, WordBytes(h.daaScore), score, all);
    Write(hasher, WordBytes(h.blueScore), rest, all);
  }

  /** The blue work: the buffer is only partly overwritten, and only that part is written out. */
  method WriteBlueWork(hasher: HeaderHasher, hash: array<Byte>, s: HexString,
    ghost rest: seq<Byte>, ghost all: seq<Byte>)
    returns (ok: bool)
    requires hash.Length == 32
    modifies hasher, hash
    ensures ok <==> GoodBlueWork(s)
    ensures var b := HexBytes(EvenLength(s));
      ok && old(Leaves(hasher, Count(|b|) + (b + rest), all)) ==> Leaves(hasher, rest, all)
  {
    var length := (|s| + 1) / 2;
    if length > 32 {
      return false;
    }
    var r;
    if |s| % 2 == 0 {
      r := DecodeToSlice(s, hash, length);
    } else {
      var blueWork := "0";
      blueWork := blueWork + s;
      r := DecodeToSlice(blueWork, hash, length);
    }
    BlueWorkIsDecoded(s, r);
    if r.Undecodable? {
      return false;
    }
    ghost var b := HexBytes(EvenLength(s));
    hide *;
    PartOverwritten(old(hash[..]), b);
    assert hash[..length] == hash[..][..length];
    Write(hasher, Count(length), b + rest, all);
    Write(hasher, hash[..length], rest, all);
    ok := true;
  }

  lemma BlueWorkIsDecoded(s: HexString, r: Decoding)
    requires Answers(EvenLength(s), (|s| + 1) / 2, r)
    ensures r.Decoded? <==> AllHex(s)
    ensures |HexBytes(EvenLength(s))| == (|s| + 1) / 2
  {
    if AllHex(s) {
      assert AllHex(EvenLength(s));
    } else {
      var i :| 0 <= i < |s| && !IsHex(s[i]);
      assert !IsHex(EvenLength(s)[i + |s| % 2]);
    }
  }

  lemma PartOverwritten(was: seq<Byte>, b: seq<Byte>)
    requires |b| <= |was|
    ensures Overwritten(was, b, |b|)[..|b|] == b
  {
  }

  /** The source panics exactly on the headers that are not well formed. */
  method SerializeHeader(hasher: HeaderHasher, h: Header, forPrePow: bool) returns (ok: bool)
    modifies hasher
    ensures ok <==> WellFormed(h)
    ensures ok ==> hasher.written == old(hasher.written) + Serialized(h, forPrePow)
    ensures ok <==> Layout.IsAccepted(h)
    ensures ok && Countable(h) ==> exists p: Layout.Parts ::
      Layout.AreParts(p, h, forPrePow) && hasher.written == old(hasher.written) + Layout.AllParts(p)
  {
    AcceptedParts(h, forPrePow);
    var nonce, timestamp := h.nonce, h.timestamp;
    if forPrePow {
      nonce, timestamp := Zeros(64), Zeros(64);
    }
    if h.version >= 0x1_0000 {
      return false;
    }
    var hash := new Byte[32](_ => Zeros(8));
    hide *;
    ghost var f := FieldsOf(h).(timestamp := timestamp, nonce := nonce);
    ghost var all := hasher.written + Encode(f);
    ghost var last := HexBytes(h.pruningPoint);
    ghost var numbers := NumbersOnto(f, LastPart(f));
    ghost var roots := RootsOnto(FieldsOf(h).roots, numbers);
    ghost var levels := LevelsOnto(Parents(h.parents), roots);
    Unfolded(hasher, h, f, all);
    Write(hasher, LeBytes(h.version, 2), Count(|h.parents|) + levels, all);
    Write(hasher, Count(|h.parents|), levels, all);
    ok := WriteParents(hasher, hash, h.parents, roots, all);
    if ok {
      ok := WriteRoots(hasher, hash, h, numbers, all);
    }
    if ok {
      WriteNumbers(hasher, h, timestamp, nonce, LastPart(f), all);
      ok := WriteBlueWork(hasher, hash, h.blueWork, last, all);
    }
    if ok {
      ok := WriteHash(hasher, hash, h.pruningPoint, [], all);
    }
    Finished(hasher, h, forPrePow, f, all);
  }

  lemma AcceptedParts(h: Header, forPrePow: bool)
    ensures WellFormed(h) <==> Layout.IsAccepted(h)
    ensures WellFormed(h) && Countable(h) ==> exists p: Layout.Parts ::
      Layout.AreParts(p, h, forPrePow) && Serialized(h, forPrePow) == Layout.AllParts(p)
  {
    hide *;
    Layout.AcceptedIsWellFormed(h);
    if WellFormed(h) && Countable(h) {
      Layout.HeaderIsItsParts(h, forPrePow);
    }
  }

  lemma Unfolded(hasher: HeaderHasher, h: Header, f: Fields, all: seq<Byte>)
    requires f == FieldsOf(h).(timestamp := f.timestamp, nonce := f.nonce)
    requires all == hasher.written + Encode(f)
    ensures var levels := LevelsOnto(Parents(h.parents), RootsOnto(FieldsOf(h).roots, NumbersOnto(f, LastPart(f))));
      Leaves(hasher, LeBytes(h.version, 2) + (Count(|h.parents|) + levels), all)
    ensures var b := HexBytes(EvenLength(h.blueWork)); LastPart(f) == Count(|b|) + (b + HexBytes(h.pruningPoint))
    ensures HexBytes(h.pruningPoint) + [] == HexBytes(h.pruningPoint)
  {
    hide HexBytes;
    hide LevelsOnto;
    hide RootsOnto;
    hide NumbersOnto;
    hide Parents;
    hide EvenLength;
    hide Count;
    hide LeBytes;
  }

  lemma Finished(hasher: HeaderHasher, h: Header, forPrePow: bool, f: Fields, all: seq<Byte>)
    requires f == FieldsOf(h).(timestamp := if forPrePow then Zeros(64) else h.timestamp,
                               nonce := if forPrePow then Zeros(64) else h.nonce)
    ensures Encode(f) == Serialized(h, forPrePow)
    ensures Leaves(hasher, [], all) ==> hasher.written == all
    ensures WellFormed(h) <==> (
      && h.version < 0x1_0000 && GoodParents(h.parents) && IsHash(h.hashMerkleRoot) && IsHash(h.acceptedIdMerkleRoot)
      && IsHash(h.utxoCommitment) && GoodBlueWork(h.blueWork) && IsHash(h.pruningPoint))
  {
    hide Encode;
    hide Zeros;
    assert hasher.written + [] == hasher.written;
  }
}
