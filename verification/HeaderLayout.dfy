/** What the bytes of a header say about the header itself: where each field is, and what equal bytes mean. */
module HeaderLayout {
  import opened Words
  import opened Uint256Model
  import opened Hex
  import opened Header

  // ---- Where each field is ----

  /** The consecutive parts of the bytes of a header. */
  datatype Parts = Parts(
    version: seq<Byte>,
    count: seq<Byte>,
    levels: seq<seq<Byte>>,
    hashMerkleRoot: seq<Byte>,
    acceptedIdMerkleRoot: seq<Byte>,
    utxoCommitment: seq<Byte>,
    timestamp: seq<Byte>,
    bits: seq<Byte>,
    nonce: seq<Byte>,
    daaScore: seq<Byte>,
    blueScore: seq<Byte>,
    workLength: seq<Byte>,
    blueWork: seq<Byte>,
    pruningPoint: seq<Byte>)

  function Concat(parts: seq<seq<Byte>>): seq<Byte> {
    if parts == [] then [] else parts[0] + Concat(parts[1..])
  }

  function AllParts(p: Parts): seq<Byte> {
    p.version + (p.count + (Concat(p.levels) +
      (p.hashMerkleRoot + (p.acceptedIdMerkleRoot + (p.utxoCommitment +
      (p.timestamp + (p.bits + (p.nonce + (p.daaScore + (p.blueScore +
      (p.workLength + (p.blueWork + p.pruningPoint))))))))))))
  }

  predicate IsLittleEndian(b: seq<Byte>, value: nat) {
    forall k: nat | k < |b| :: NatOf(b[k]) == value / Pow2(8 * k) % 0x100
  }

  /** b is the little-endian form of v in so many bytes. */
  predicate IsNumber(b: seq<Byte>, length: nat, v: nat) {
    |b| == length && IsLittleEndian(b, v)
  }

  /** The bytes of one level: the number of hashes, then the hashes. */
  predicate IsLevel(b: seq<Byte>, level: seq<HexString>) {
    && |b| == 8 + 32 * |level|
    && IsNumber(b[..8], 8, |level|)
    && forall j: nat | j < |level| :: StandsFor(b[8 + 32 * j..8 + 32 * j + 32], level[j])
  }

  predicate AreLevels(parts: seq<seq<Byte>>, parents: seq<seq<HexString>>) {
    |parts| == |parents| && forall i: nat | i < |parents| :: IsLevel(parts[i], parents[i])
  }

  predicate AreNumbers(p: Parts, h: Header, forPrePow: bool) {
    && IsNumber(p.version, 2, h.version)
    && IsNumber(p.count, 8, |h.parents|)
    && IsNumber(p.timestamp, 8, if forPrePow then 0 else NatOf(h.timestamp))
    && IsNumber(p.bits, 4, h.bits)
    && IsNumber(p.nonce, 8, if forPrePow then 0 else NatOf(h.nonce))
    && IsNumber(p.daaScore, 8, NatOf(h.daaScore))
    && IsNumber(p.blueScore, 8, NatOf(h.blueScore))
    && IsNumber(p.workLength, 8, (|h.blueWork| + 1) / 2)
  }

  predicate AreStrings(p: Parts, h: Header) {
    && AreLevels(p.levels, h.parents)
    && StandsFor(p.hashMerkleRoot, h.hashMerkleRoot)
    && StandsFor(p.acceptedIdMerkleRoot, h.acceptedIdMerkleRoot)
    && StandsFor(p.utxoCommitment, h.utxoCommitment)
    && StandsFor(p.blueWork, PaddedWork(h.blueWork))
    && StandsFor(p.pruningPoint, h.pruningPoint)
  }

  /** The evenly padded form of the blue work. */
  function PaddedWork(s: HexString): HexString {
    if |s| % 2 == 0 then s else "0" + s
  }

  predicate AreParts(p: Parts, h: Header, forPrePow: bool) {
    AreNumbers(p, h, forPrePow) && AreStrings(p, h)
  }

  lemma DivideTwice(n: nat, d: nat, e: nat)
    requires d > 0 && e > 0
    ensures d * e > 0 && n / d / e == n / (d * e)
  {
    var q, r := Divide(n, d);
    var h, l := Divide(q, e);
    Distribute(d, l, e * h);
    MulAssoc(d, e, h);
    HighPartDecides(r, l, 0, e, d);
    MulGrows(d, 0, e);
    DivModUnique(n, d * e, h, r + d * l);
  }

  lemma {:induction false} LeBytesAreLittleEndian(n: nat, len: nat)
    ensures IsLittleEndian(LeBytes(n, len), n)
  {
    if len == 0 {
    } else {
      LeBytesAreLittleEndian(n / 0x100, len - 1);
      forall k: nat | k < len ensures NatOf(LeBytes(n, len)[k]) == n / Pow2(8 * k) % 0x100 {
        LeByteAt(n, len, k);
      }
    }
  }

  lemma LeByteAt(n: nat, len: nat, k: nat)
    requires k < len && IsLittleEndian(LeBytes(n / 0x100, len - 1), n / 0x100)
    ensures NatOf(LeBytes(n, len)[k]) == n / Pow2(8 * k) % 0x100
  {
    if k == 0 {
      FirstLeByte(n, len);
    } else {
      Pow2Of8();
      Pow2Sum(8, 8 * (k - 1));
      hide Pow2;
      hide NatOf;
      DivideTwice(n, 0x100, Pow2(8 * (k - 1)));
      assert LeBytes(n, len)[k] == LeBytes(n / 0x100, len - 1)[k - 1];
    }
  }

  lemma FirstLeByte(n: nat, len: nat)
    requires len > 0
    ensures NatOf(LeBytes(n, len)[0]) == n / Pow2(8 * 0) % 0x100
  {
    Pow2Of8();
    NatOfBitsOf(n, 8);
    assert Pow2(8 * 0) == 1;
    hide Pow2;
    hide NatOf;
    hide BitsOf;
  }

  lemma CountIsNumber(n: nat)
    requires n < Pow2(WIDTH)
    ensures IsNumber(Count(n), 8, n)
  {
    hide NatOf;
    hide Pow2;
    hide BitsOf;
    hide WordBytes;
    WordBytesAreLittleEndian(FromNat(n));
    NatOfBitsOf(n, WIDTH);
  }

  /** The bytes of one level. */
  function LevelPart(level: seq<HexString>): seq<Byte> {
    Count(|level|) + Concat(Hashes(level))
  }

  lemma {:induction false} HashesOntoIsConcat(hashes: seq<seq<Byte>>, rest: seq<Byte>)
    ensures HashesOnto(hashes, rest) == Concat(hashes) + rest
  {
    if hashes == [] {
    } else {
      HashesOntoIsConcat(hashes[1..], rest);
    }
  }

  function LevelParts(parents: seq<seq<HexString>>): (parts: seq<seq<Byte>>)
    ensures |parts| == |parents|
  {
    seq(|parents|, i requires 0 <= i < |parents| => LevelPart(parents[i]))
  }

  lemma {:induction false} LevelsOntoIsConcat(parents: seq<seq<HexString>>, rest: seq<Byte>)
    ensures LevelsOnto(Parents(parents), rest) == Concat(LevelParts(parents)) + rest
  {
    hide LevelPart;
    hide Hashes;
    if parents == [] {
    } else {
      assert Parents(parents)[1..] == Parents(parents[1..]);
      assert LevelParts(parents)[1..] == LevelParts(parents[1..]);
      LevelsOntoIsConcat(parents[1..], rest);
      OneLevelOnto(parents[0], LevelsOnto(Parents(parents[1..]), rest));
    }
  }

  lemma OneLevelOnto(level: seq<HexString>, rest: seq<Byte>)
    ensures Count(|Hashes(level)|) + HashesOnto(Hashes(level), rest) == LevelPart(level) + rest
  {
    hide Count;
    hide Hashes;
    HashesOntoIsConcat(Hashes(level), rest);
  }

  lemma {:induction false} ConcatOfEqualLengths(parts: seq<seq<Byte>>, j: nat)
    requires j < |parts| && forall i | 0 <= i < |parts| :: |parts[i]| == 32
    ensures |Concat(parts)| == 32 * |parts| && Concat(parts)[32 * j..32 * j + 32] == parts[j]
  {
    var rest := Concat(parts[1..]);
    assert Concat(parts) == parts[0] + rest;
    if |parts| == 1 {
      assert rest == [];
    } else if j == 0 {
      ConcatOfEqualLengths(parts[1..], 0);
      hide Concat;
    } else {
      ConcatOfEqualLengths(parts[1..], j - 1);
      hide Concat;
      LaterSlice(parts[0], rest, 32 * (j - 1));
    }
  }

  lemma LaterSlice(a: seq<Byte>, b: seq<Byte>, i: nat)
    requires |a| == 32 && i + 32 <= |b|
    ensures (a + b)[i + 32..i + 64] == b[i..i + 32]
  {
  }

  lemma LevelPartIsLevel(level: seq<HexString>)
    requires GoodHashes(level) && |level| < Pow2(WIDTH)
    ensures IsLevel(LevelPart(level), level)
  {
    hide Count;
    hide HexBytes;
    hide StandsFor;
    hide IsLittleEndian;
    hide Pow2;
    CountIsNumber(|level|);
    var b, hashes := LevelPart(level), Hashes(level);
    assert b[..8] == Count(|level|);
    if level == [] {
    } else {
      ConcatOfEqualLengths(hashes, 0);
    }
    forall j: nat | j < |level| ensures |b| == 8 + 32 * |level| && StandsFor(b[8 + 32 * j..8 + 32 * j + 32], level[j]) {
      ConcatOfEqualLengths(hashes, j);
      assert b[8 + 32 * j..8 + 32 * j + 32] == Concat(hashes)[32 * j..32 * j + 32];
      HexBytesStandFor(level[j]);
    }
  }

  function PartsOf(h: Header, forPrePow: bool): Parts {
    var zero: Word := Zeros(64);
    Parts(LeBytes(h.version, 2), Count(|h.parents|), LevelParts(h.parents), HexBytes(h.hashMerkleRoot),
      HexBytes(h.acceptedIdMerkleRoot), HexBytes(h.utxoCommitment), WordBytes(if forPrePow then zero else h.timestamp),
      LeBytes(h.bits, 4), WordBytes(if forPrePow then zero else h.nonce), WordBytes(h.daaScore), WordBytes(h.blueScore),
      Count((|h.blueWork| + 1) / 2), HexBytes(EvenLength(h.blueWork)), HexBytes(h.pruningPoint))
  }

  lemma SerializedIsAllParts(h: Header, forPrePow: bool)
    ensures Serialized(h, forPrePow) == AllParts(PartsOf(h, forPrePow))
  {
    hide LevelParts;
    hide LevelsOnto;
    hide HexBytes;
    hide WordBytes;
    hide LeBytes;
    hide Count;
    hide Parents;
    hide EvenLength;
    hide Concat;
    hide Zeros;
    var f := if forPrePow then PrePow(FieldsOf(h)) else FieldsOf(h);
    LevelsOntoIsConcat(h.parents, RootsOnto(f.roots, NumbersOnto(f, LastPart(f))));
    EvenLengthHalf(h.blueWork);
  }

  lemma EvenLengthHalf(s: HexString)
    ensures |HexBytes(EvenLength(s))| == (|s| + 1) / 2
  {
  }

  lemma WordIsNumber(w: Word)
    ensures IsNumber(WordBytes(w), 8, NatOf(w))
  {
    hide NatOf;
    hide Pow2;
    hide WordBytes;
    WordBytesAreLittleEndian(w);
  }

  lemma LevelsAreLevels(parents: seq<seq<HexString>>)
    requires GoodParents(parents) && forall i | 0 <= i < |parents| :: |parents[i]| < Pow2(WIDTH)
    ensures AreLevels(LevelParts(parents), parents)
  {
    hide GoodHashes;
    hide LevelPart;
    hide IsLevel;
    hide Pow2;
    forall i: nat | i < |parents| ensures IsLevel(LevelParts(parents)[i], parents[i]) {
      LevelPartIsLevel(parents[i]);
    }
  }

  /** The bytes of a header are its fields in a fixed order and each in its own form: two bytes of version, eight of the
      number of levels, the levels, three root hashes, then at fixed distances timestamp, bits, nonce, DAA score and
      blue score, the length of the blue work, the blue work, and the pruning point. */
  lemma HeaderIsItsParts(h: Header, forPrePow: bool)
    requires WellFormed(h) && Countable(h)
    ensures exists p: Parts :: AreParts(p, h, forPrePow) && Serialized(h, forPrePow) == AllParts(p)
  {
    SerializedIsAllParts(h, forPrePow);
    PartsAreParts(h, forPrePow);
    hide *;
  }

  lemma PartsAreParts(h: Header, forPrePow: bool)
    requires WellFormed(h) && Countable(h)
    ensures AreParts(PartsOf(h, forPrePow), h, forPrePow)
  {
    hide *;
    hide AreNumbers;
    NumbersAreNumbers(h, forPrePow);
    StringsAreStrings(h, forPrePow);
    AllAre(h, forPrePow);
  }

  lemma AllAre(h: Header, forPrePow: bool)
    requires AreNumbers(PartsOf(h, forPrePow), h, forPrePow) && AreStrings(PartsOf(h, forPrePow), h)
    ensures AreParts(PartsOf(h, forPrePow), h, forPrePow)
  {
    hide PartsOf;
    hide AreNumbers;
    hide AreStrings;
  }

  lemma NumbersAreNumbers(h: Header, forPrePow: bool)
    requires WellFormed(h) && Countable(h)
    ensures AreNumbers(PartsOf(h, forPrePow), h, forPrePow)
  {
    hide IsNumber;
    hide LeBytes;
    hide Count;
    hide WordBytes;
    hide NatOf;
    hide Pow2;
    hide GoodParents;
    hide LevelParts;
    hide HexBytes;
    LeIsNumber(h.version, 2);
    LeIsNumber(h.bits, 4);
    NatOfZeros(64);
    hide Zeros;
    WordIsNumber(Zeros(64));
    WordIsNumber(h.timestamp);
    WordIsNumber(h.nonce);
    WordIsNumber(h.daaScore);
    WordIsNumber(h.blueScore);
    CountIsNumber(|h.parents|);
    SmallCount(|h.blueWork|);
  }

  lemma StringsAreStrings(h: Header, forPrePow: bool)
    requires WellFormed(h) && Countable(h)
    ensures AreStrings(PartsOf(h, forPrePow), h)
  {
    hide StandsFor;
    hide AreLevels;
    hide LevelParts;
    hide LeBytes;
    hide Count;
    hide WordBytes;
    hide HexBytes;
    hide Pow2;
    hide GoodParents;
    hide Zeros;
    LevelsAreLevels(h.parents);
    HexBytesStandFor(h.hashMerkleRoot);
    HexBytesStandFor(h.acceptedIdMerkleRoot);
    HexBytesStandFor(h.utxoCommitment);
    HexBytesStandFor(EvenLength(h.blueWork));
    HexBytesStandFor(h.pruningPoint);
  }

  lemma LeIsNumber(n: nat, len: nat)
    ensures IsNumber(LeBytes(n, len), len, n)
  {
    LeBytesAreLittleEndian(n, len);
    hide IsLittleEndian;
    hide LeBytes;
  }

  lemma SmallCount(n: nat)
    requires n <= 64
    ensures IsNumber(Count((n + 1) / 2), 8, (n + 1) / 2)
  {
    Pow2Of64();
    hide Pow2;
    hide IsNumber;
    CountIsNumber((n + 1) / 2);
  }

  /** The 36 bytes after the root hashes, the length, the blue work and the pruning point. */
  function TailOf(p: Parts): seq<Byte> {
    p.timestamp + (p.bits + (p.nonce + (p.daaScore + (p.blueScore + (p.workLength + (p.blueWork + p.pruningPoint))))))
  }

  function FrontOf(p: Parts): seq<Byte> {
    p.version + (p.count + (Concat(p.levels) + (p.hashMerkleRoot + (p.acceptedIdMerkleRoot + p.utxoCommitment))))
  }

  lemma FrontAndTail(p: Parts)
    ensures AllParts(p) == FrontOf(p) + TailOf(p)
  {
    hide Concat;
    var t := TailOf(p);
    Nested(p.acceptedIdMerkleRoot, p.utxoCommitment, t);
    Nested(p.hashMerkleRoot, p.acceptedIdMerkleRoot + p.utxoCommitment, t);
    Nested(Concat(p.levels), p.hashMerkleRoot + (p.acceptedIdMerkleRoot + p.utxoCommitment), t);
    Nested(p.count, Concat(p.levels) + (p.hashMerkleRoot + (p.acceptedIdMerkleRoot + p.utxoCommitment)), t);
    Nested(p.version,
      p.count + (Concat(p.levels) + (p.hashMerkleRoot + (p.acceptedIdMerkleRoot + p.utxoCommitment))), t);
  }

  lemma Nested(a: seq<Byte>, b: seq<Byte>, c: seq<Byte>)
    ensures (a + b) + c == a + (b + c)
  {
  }

  lemma TailSlices(p: Parts)
    requires |p.timestamp| == |p.nonce| == |p.daaScore| == |p.blueScore| == |p.workLength| == 8 && |p.bits| == 4
    requires |p.pruningPoint| == 32
    ensures var t, w := TailOf(p), |p.blueWork|;
      && |t| == 76 + w && t[..8] == p.timestamp && t[8..12] == p.bits && t[12..20] == p.nonce
      && t[20..28] == p.daaScore && t[28..36] == p.blueScore && t[36..44] == p.workLength
      && t[44..44 + w] == p.blueWork && t[44 + w..] == p.pruningPoint
  {
  }

  lemma FrontSlices(p: Parts)
    requires |p.version| == 2 && |p.count| == 8
    requires |p.hashMerkleRoot| == |p.acceptedIdMerkleRoot| == |p.utxoCommitment| == 32
    ensures var f, q := FrontOf(p), |FrontOf(p)|;
      && q >= 106 && f[..2] == p.version && f[2..10] == p.count
      && f[q - 96..q - 64] == p.hashMerkleRoot && f[q - 64..q - 32] == p.acceptedIdMerkleRoot
      && f[q - 32..] == p.utxoCommitment
  {
    hide Concat;
  }

  /** The position of every number of a header, with its value byte by byte: q is the place after the root hashes. */
  lemma NumbersAtTheirPlaces(h: Header, forPrePow: bool) returns (q: nat)
    requires WellFormed(h) && Countable(h)
    ensures 106 <= q && |Serialized(h, forPrePow)| == q + 76 + (|h.blueWork| + 1) / 2
    ensures var b := Serialized(h, forPrePow);
      && (forall k: nat | k < 2 :: NatOf(b[k]) == h.version / Pow2(8 * k) % 0x100)
      && (forall k: nat | k < 8 :: NatOf(b[2 + k]) == |h.parents| / Pow2(8 * k) % 0x100)
      && (forall k: nat | k < 8 ::
          NatOf(b[q + k]) == (if forPrePow then 0 else NatOf(h.timestamp)) / Pow2(8 * k) % 0x100)
      && (forall k: nat | k < 4 :: NatOf(b[q + 8 + k]) == h.bits / Pow2(8 * k) % 0x100)
      && (forall k: nat | k < 8 ::
          NatOf(b[q + 12 + k]) == (if forPrePow then 0 else NatOf(h.nonce)) / Pow2(8 * k) % 0x100)
      && (forall k: nat | k < 8 :: NatOf(b[q + 20 + k]) == NatOf(h.daaScore) / Pow2(8 * k) % 0x100)
      && (forall k: nat | k < 8 :: NatOf(b[q + 28 + k]) == NatOf(h.blueScore) / Pow2(8 * k) % 0x100)
      && (forall k: nat | k < 8 :: NatOf(b[q + 36 + k]) == (|h.blueWork| + 1) / 2 / Pow2(8 * k) % 0x100)
  {
    hide *;
    SerializedIsAllParts(h, forPrePow);
    PartsAreParts(h, forPrePow);
    var p := PartsOf(h, forPrePow);
    FrontAndTail(p);
    PartLengths(p, h, forPrePow);
    TailSlices(p);
    FrontSlices(p);
    q := |FrontOf(p)|;
    var b, f, t := Serialized(h, forPrePow), FrontOf(p), TailOf(p);
    assert b[..q] == f && b[q..] == t;
    PlaceInFront(b, q, f, 0, p.version, h.version);
    PlaceInFront(b, q, f, 2, p.count, |h.parents|);
    PlaceInTail(b, q, t, 0, p.timestamp, if forPrePow then 0 else NatOf(h.timestamp));
    PlaceInTail(b, q, t, 8, p.bits, h.bits);
    PlaceInTail(b, q, t, 12, p.nonce, if forPrePow then 0 else NatOf(h.nonce));
    PlaceInTail(b, q, t, 20, p.daaScore, NatOf(h.daaScore));
    PlaceInTail(b, q, t, 28, p.blueScore, NatOf(h.blueScore));
    PlaceInTail(b, q, t, 36, p.workLength, (|h.blueWork| + 1) / 2);
  }

  lemma PlaceInTail(b: seq<Byte>, q: nat, t: seq<Byte>, o: nat, part: seq<Byte>, v: nat)
    requires q <= |b| && b[q..] == t && o + |part| <= |t| && t[o..o + |part|] == part && IsLittleEndian(part, v)
    ensures forall k: nat | k < |part| :: NatOf(b[q + o + k]) == v / Pow2(8 * k) % 0x100
  {
    hide NatOf;
    hide Pow2;
    forall k: nat | k < |part| ensures NatOf(b[q + o + k]) == v / Pow2(8 * k) % 0x100 {
      assert b[q + o + k] == t[o + k] == part[k];
    }
  }

  lemma PlaceInFront(b: seq<Byte>, q: nat, f: seq<Byte>, o: nat, part: seq<Byte>, v: nat)
    requires q <= |b| && b[..q] == f && o + |part| <= |f| && f[o..o + |part|] == part && IsLittleEndian(part, v)
    ensures forall k: nat | k < |part| :: NatOf(b[o + k]) == v / Pow2(8 * k) % 0x100
  {
    hide NatOf;
    hide Pow2;
    forall k: nat | k < |part| ensures NatOf(b[o + k]) == v / Pow2(8 * k) % 0x100 {
      assert b[o + k] == f[o + k] == part[k];
    }
  }

  lemma PartLengths(p: Parts, h: Header, forPrePow: bool)
    requires WellFormed(h) && AreParts(p, h, forPrePow)
    ensures |p.timestamp| == |p.nonce| == |p.daaScore| == |p.blueScore| == |p.workLength| == 8 && |p.bits| == 4
    ensures |p.pruningPoint| == 32 && |p.version| == 2 && |p.count| == 8
    ensures |p.hashMerkleRoot| == |p.acceptedIdMerkleRoot| == |p.utxoCommitment| == 32
    ensures |p.blueWork| == (|h.blueWork| + 1) / 2
    ensures IsLittleEndian(p.version, h.version) && IsLittleEndian(p.count, |h.parents|)
    ensures IsLittleEndian(p.timestamp, if forPrePow then 0 else NatOf(h.timestamp))
    ensures IsLittleEndian(p.bits, h.bits)
    ensures IsLittleEndian(p.nonce, if forPrePow then 0 else NatOf(h.nonce))
    ensures IsLittleEndian(p.daaScore, NatOf(h.daaScore)) && IsLittleEndian(p.blueScore, NatOf(h.blueScore))
    ensures IsLittleEndian(p.workLength, (|h.blueWork| + 1) / 2)
  {
    hide IsLittleEndian;
    hide AreLevels;
    hide GoodParents;
    hide NatOf;
  }

  /** The places of the strings: each byte has the values of two digits, the first one high. */
  lemma StringsAtTheirPlaces(h: Header, forPrePow: bool, q: nat)
    requires WellFormed(h) && Countable(h) && |Serialized(h, forPrePow)| == q + 76 + (|h.blueWork| + 1) / 2
    ensures var b, w := Serialized(h, forPrePow), (|h.blueWork| + 1) / 2;
      && q >= 106
      && StandsFor(b[q - 96..q - 64], h.hashMerkleRoot)
      && StandsFor(b[q - 64..q - 32], h.acceptedIdMerkleRoot)
      && StandsFor(b[q - 32..q], h.utxoCommitment)
      && StandsFor(b[q + 44..q + 44 + w], if |h.blueWork| % 2 == 0 then h.blueWork else "0" + h.blueWork)
      && StandsFor(b[q + 44 + w..], h.pruningPoint)
      && exists levels: seq<seq<Byte>> :: b[10..q - 96] == Concat(levels) && AreLevels(levels, h.parents)
  {
    hide *;
    SerializedIsAllParts(h, forPrePow);
    PartsAreParts(h, forPrePow);
    var p := PartsOf(h, forPrePow);
    FrontAndTail(p);
    PartLengths(p, h, forPrePow);
    TailSlices(p);
    FrontSlices(p);
    StringParts(p, h, forPrePow);
    var b, f, t, w := Serialized(h, forPrePow), FrontOf(p), TailOf(p), (|h.blueWork| + 1) / 2;
    assert b[..q] == f && b[q..] == t;
    assert b[q - 96..q - 64] == f[q - 96..q - 64] && b[q - 64..q - 32] == f[q - 64..q - 32];
    assert b[q - 32..q] == f[q - 32..] && b[q + 44..q + 44 + w] == t[44..44 + w] && b[q + 44 + w..] == t[44 + w..];
    LevelsInFront(p);
    assert b[10..q - 96] == f[10..q - 96];
  }

  lemma LevelsInFront(p: Parts)
    requires |p.version| == 2 && |p.count| == 8
    requires |p.hashMerkleRoot| == |p.acceptedIdMerkleRoot| == |p.utxoCommitment| == 32
    ensures |FrontOf(p)| >= 106 && FrontOf(p)[10..|FrontOf(p)| - 96] == Concat(p.levels)
  {
    hide Concat;
  }

  lemma StringParts(p: Parts, h: Header, forPrePow: bool)
    requires AreParts(p, h, forPrePow)
    ensures StandsFor(p.hashMerkleRoot, h.hashMerkleRoot) && StandsFor(p.acceptedIdMerkleRoot, h.acceptedIdMerkleRoot)
    ensures StandsFor(p.utxoCommitment, h.utxoCommitment) && StandsFor(p.pruningPoint, h.pruningPoint)
    ensures StandsFor(p.blueWork, if |h.blueWork| % 2 == 0 then h.blueWork else "0" + h.blueWork)
    ensures AreLevels(p.levels, h.parents)
  {
    hide StandsFor;
    hide AreLevels;
    hide AreNumbers;
  }

  // ---- What equal bytes mean ----

  /** The same digits, up to the case of letters. */
  predicate SameDigits(s: HexString, t: HexString) {
    |s| == |t| && forall i | 0 <= i < |s| :: DigitValue(s[i]) == DigitValue(t[i])
  }

  predicate SameLevel(s: seq<HexString>, t: seq<HexString>) {
    |s| == |t| && forall j | 0 <= j < |s| :: SameDigits(s[j], t[j])
  }

  predicate SameParents(s: seq<seq<HexString>>, t: seq<seq<HexString>>) {
    |s| == |t| && forall i | 0 <= i < |s| :: SameLevel(s[i], t[i])
  }

  predicate SameStrings(h: Header, k: Header) {
    && SameParents(h.parents, k.parents)
    && SameDigits(h.hashMerkleRoot, k.hashMerkleRoot)
    && SameDigits(h.acceptedIdMerkleRoot, k.acceptedIdMerkleRoot)
    && SameDigits(h.utxoCommitment, k.utxoCommitment)
    && SameDigits(PaddedWork(h.blueWork), PaddedWork(k.blueWork))
    && SameDigits(h.pruningPoint, k.pruningPoint)
  }

  lemma SameBytesSameDigits(s: HexString, t: HexString)
    requires |s| % 2 == 0 && |t| % 2 == 0
    ensures HexBytes(s) == HexBytes(t) <==> SameDigits(s, t)
  {
    if |s| == |t| {
      HexBytesLoseOnlyCase(s, t);
    } else {
      assert |HexBytes(s)| != |HexBytes(t)|;
    }
    hide HexBytes;
    hide DigitValue;
  }

  lemma SameHashesSameLevel(s: seq<HexString>, t: seq<HexString>)
    requires GoodHashes(s) && GoodHashes(t)
    ensures Hashes(s) == Hashes(t) <==> SameLevel(s, t)
  {
    hide HexBytes;
    hide SameDigits;
    if |s| == |t| {
      forall j | 0 <= j < |s| ensures Hashes(s)[j] == Hashes(t)[j] <==> SameDigits(s[j], t[j]) {
        SameBytesSameDigits(s[j], t[j]);
      }
    } else {
      assert |Hashes(s)| != |Hashes(t)|;
    }
  }

  lemma SameLevelsSameParents(s: seq<seq<HexString>>, t: seq<seq<HexString>>)
    requires GoodParents(s) && GoodParents(t)
    ensures Parents(s) == Parents(t) <==> SameParents(s, t)
  {
    hide Hashes;
    hide SameLevel;
    hide GoodHashes;
    if |s| == |t| {
      forall i | 0 <= i < |s| ensures Parents(s)[i] == Parents(t)[i] <==> SameLevel(s[i], t[i]) {
        SameHashesSameLevel(s[i], t[i]);
      }
    } else {
      assert |Parents(s)| != |Parents(t)|;
    }
  }

  lemma SameFields(h: Header, k: Header)
    requires WellFormed(h) && WellFormed(k)
    ensures FieldsOf(h) == FieldsOf(k) <==> (
      && h.version == k.version && h.bits == k.bits && h.timestamp == k.timestamp && h.nonce == k.nonce
      && h.daaScore == k.daaScore && h.blueScore == k.blueScore && SameStrings(h, k))
    ensures PrePow(FieldsOf(h)) == PrePow(FieldsOf(k)) <==> (
      && h.version == k.version && h.bits == k.bits
      && h.daaScore == k.daaScore && h.blueScore == k.blueScore && SameStrings(h, k))
  {
    hide GoodParents;
    hide Parents;
    hide SameParents;
    hide HexBytes;
    hide SameDigits;
    hide AllHex;
    hide Zeros;
    SameLevelsSameParents(h.parents, k.parents);
    SameBytesSameDigits(h.hashMerkleRoot, k.hashMerkleRoot);
    SameBytesSameDigits(h.acceptedIdMerkleRoot, k.acceptedIdMerkleRoot);
    SameBytesSameDigits(h.utxoCommitment, k.utxoCommitment);
    SameBytesSameDigits(EvenLength(h.blueWork), EvenLength(k.blueWork));
    SameBytesSameDigits(h.pruningPoint, k.pruningPoint);
  }

  /** Two headers have equal bytes exactly if they agree in every field, strings by the values of their digits; equal
      pre-pow bytes exactly if they agree in all but nonce and timestamp. */
  lemma EqualBytesEqualHeaders(h: Header, k: Header)
    requires WellFormed(h) && Countable(h) && WellFormed(k) && Countable(k)
    ensures Serialized(h, false) == Serialized(k, false) <==> (
      && h.version == k.version && h.bits == k.bits && h.timestamp == k.timestamp && h.nonce == k.nonce
      && h.daaScore == k.daaScore && h.blueScore == k.blueScore && SameStrings(h, k))
    ensures Serialized(h, true) == Serialized(k, true) <==> (
      && h.version == k.version && h.bits == k.bits
      && h.daaScore == k.daaScore && h.blueScore == k.blueScore && SameStrings(h, k))
  {
    hide *;
    SerialisationIsUnambiguous(h, k);
    SameFields(h, k);
  }

  // ---- Which headers are accepted ----

  predicate IsHashString(s: HexString) {
    |s| == 64 && forall i | 0 <= i < 64 :: IsHex(s[i])
  }

  /** The version fits 16 bits, every hash has 64 digits, and the blue work has at most 64. */
  predicate IsAccepted(h: Header) {
    && h.version <= 65535
    && (forall i, j | 0 <= i < |h.parents| && 0 <= j < |h.parents[i]| :: IsHashString(h.parents[i][j]))
    && IsHashString(h.hashMerkleRoot) && IsHashString(h.acceptedIdMerkleRoot) && IsHashString(h.utxoCommitment)
    && |h.blueWork| <= 64 && (forall i | 0 <= i < |h.blueWork| :: IsHex(h.blueWork[i]))
    && IsHashString(h.pruningPoint)
  }

  lemma WellFormedIsAccepted(h: Header)
    ensures WellFormed(h) <==> (
      && h.version <= 65535
      && (forall i, j | 0 <= i < |h.parents| && 0 <= j < |h.parents[i]| :: IsHashString(h.parents[i][j]))
      && IsHashString(h.hashMerkleRoot) && IsHashString(h.acceptedIdMerkleRoot) && IsHashString(h.utxoCommitment)
      && |h.blueWork| <= 64 && (forall i | 0 <= i < |h.blueWork| :: IsHex(h.blueWork[i]))
      && IsHashString(h.pruningPoint))
  {
    hide IsHex;
    AcceptedIsWellFormed(h);
  }

  lemma AcceptedIsWellFormed(h: Header)
    ensures WellFormed(h) <==> IsAccepted(h)
  {
    hide IsHex;
    forall s: HexString ensures IsHash(s) <==> IsHashString(s) {
    }
    hide IsHash;
    hide IsHashString;
    if IsAccepted(h) {
      forall i | 0 <= i < |h.parents| ensures GoodHashes(h.parents[i]) {
      }
    }
    if GoodParents(h.parents) {
      forall i, j | 0 <= i < |h.parents| && 0 <= j < |h.parents[i]| ensures IsHashString(h.parents[i][j]) {
        assert GoodHashes(h.parents[i]);
      }
    }
  }
}
