/** `serialize_header` of pow.rs: the bytes that stand for a block header, and a parser that reads them back. */
module Header {
  import opened Words
  import opened Uint256Model
  import opened Hex

  type U32 = n: nat | n < 0x1_0000_0000

  /** RpcBlockHeader; 64-bit fields are given by their bits. */
  datatype Header = Header(
    version: U32,
    parents: seq<seq<HexString>>,
    hashMerkleRoot: HexString,
    acceptedIdMerkleRoot: HexString,
    utxoCommitment: HexString,
    timestamp: Word,
    bits: U32,
    nonce: Word,
    daaScore: Word,
    blueWork: HexString,
    pruningPoint: HexString,
    blueScore: Word)

  /** What a header says, with its strings decoded. */
  datatype Fields = Fields(
    version: nat,
    parents: seq<seq<seq<Byte>>>,
    roots: Roots,
    timestamp: Word,
    bits: nat,
    nonce: Word,
    daaScore: Word,
    blueScore: Word,
    blueWork: seq<Byte>,
    pruningPoint: seq<Byte>)

  datatype Roots = Roots(hashMerkleRoot: seq<Byte>, acceptedIdMerkleRoot: seq<Byte>, utxoCommitment: seq<Byte>)

  // ---- Well-formed headers ----

  predicate IsHash(s: HexString) {
    DecodesTo(s, 32)
  }

  predicate GoodHashes(level: seq<HexString>) {
    forall i | 0 <= i < |level| :: IsHash(level[i])
  }

  predicate GoodParents(parents: seq<seq<HexString>>) {
    forall i | 0 <= i < |parents| :: GoodHashes(parents[i])
  }

  predicate GoodBlueWork(s: HexString) {
    AllHex(s) && |s| <= 64
  }

  /** The headers that serialize_header accepts; it panics on all others. */
  predicate WellFormed(h: Header) {
    && h.version < 0x1_0000
    && GoodParents(h.parents)
    && IsHash(h.hashMerkleRoot) && IsHash(h.acceptedIdMerkleRoot) && IsHash(h.utxoCommitment)
    && GoodBlueWork(h.blueWork)
    && IsHash(h.pruningPoint)
  }

  /** List lengths fit the 64-bit integers they are written as. */
  predicate Countable(h: Header) {
    |h.parents| < Pow2(WIDTH) && forall i | 0 <= i < |h.parents| :: |h.parents[i]| < Pow2(WIDTH)
  }

  function Hashes(level: seq<HexString>): (b: seq<seq<Byte>>)
    ensures |b| == |level|
  {
    seq(|level|, i requires 0 <= i < |level| => HexBytes(level[i]))
  }

  function Parents(parents: seq<seq<HexString>>): (b: seq<seq<seq<Byte>>>)
    ensures |b| == |parents|
  {
    seq(|parents|, i requires 0 <= i < |parents| => Hashes(parents[i]))
  }

  /** A string of odd length gets a leading zero. */
  function EvenLength(s: HexString): HexString {
    if |s| % 2 == 0 then s else "0" + s
  }

  function FieldsOf(h: Header): Fields {
    Fields(h.version, Parents(h.parents),
      Roots(HexBytes(h.hashMerkleRoot), HexBytes(h.acceptedIdMerkleRoot), HexBytes(h.utxoCommitment)),
      h.timestamp, h.bits, h.nonce, h.daaScore, h.blueScore, HexBytes(EvenLength(h.blueWork)), HexBytes(h.pruningPoint))
  }

  function PrePow(f: Fields): Fields {
    f.(nonce := Zeros(64), timestamp := Zeros(64))
  }

  // ---- The bytes of a header ----

  /** Little-endian bytes of a number. */
  function LeBytes(n: nat, len: nat): (b: seq<Byte>)
    ensures |b| == len
  {
    if len == 0 then [] else [BitsOf(n, 8)] + LeBytes(n / 0x100, len - 1)
  }

  function FromLe(b: seq<Byte>): nat {
    if b == [] then 0 else NatOf(b[0]) + 0x100 * FromLe(b[1..])
  }

  function HashesOnto(hashes: seq<seq<Byte>>, rest: seq<Byte>): seq<Byte> {
    if hashes == [] then rest else hashes[0] + HashesOnto(hashes[1..], rest)
  }

  function Count(n: nat): (b: seq<Byte>)
    ensures |b| == 8
  {
    WordBytes(FromNat(n))
  }

  function LevelsOnto(levels: seq<seq<seq<Byte>>>, rest: seq<Byte>): seq<Byte> {
    if levels == [] then rest else Count(|levels[0]|) + HashesOnto(levels[0], LevelsOnto(levels[1..], rest))
  }

  function RootsOnto(r: Roots, rest: seq<Byte>): seq<Byte> {
    r.hashMerkleRoot + (r.acceptedIdMerkleRoot + (r.utxoCommitment + rest))
  }

  function NumbersOnto(f: Fields, rest: seq<Byte>): seq<Byte> {
    WordBytes(f.timestamp) + (LeBytes(f.bits, 4) + (WordBytes(f.nonce) +
      (WordBytes(f.daaScore) + (WordBytes(f.blueScore) + rest))))
  }

  function LastPart(f: Fields): seq<Byte> {
    Count(|f.blueWork|) + (f.blueWork + f.pruningPoint)
  }

  function Encode(f: Fields): seq<Byte> {
    LeBytes(f.version, 2) + (Count(|f.parents|) +
      LevelsOnto(f.parents, RootsOnto(f.roots, NumbersOnto(f, LastPart(f)))))
  }

  function Serialized(h: Header, forPrePow: bool): seq<Byte> {
    Encode(if forPrePow then PrePow(FieldsOf(h)) else FieldsOf(h))
  }

  // ---- Reading the bytes back ----

  datatype Parsed<+T> = Parsed(value: T, rest: seq<Byte>) | Failed
  {
    predicate IsFailure() { Failed? }

    function PropagateFailure<U>(): Parsed<U>
      requires Failed?
    {
      Failed
    }

    function Extract(): (T, seq<Byte>)
      requires Parsed?
    {
      (value, rest)
    }
  }

  function Take(b: seq<Byte>, n: nat): (p: Parsed<seq<Byte>>)
    ensures p.Parsed? ==> |p.value| == n
  {
    if |b| < n then Failed else Parsed(b[..n], b[n..])
  }

  function ParseLe(b: seq<Byte>, n: nat): Parsed<nat> {
    var p :- Take(b, n);
    Parsed(FromLe(p.0), p.1)
  }

  function ParseWord(b: seq<Byte>): Parsed<Word> {
    var p :- Take(b, 8);
    Parsed(WordOfBytes(p.0), p.1)
  }

  function ParseCount(b: seq<Byte>): Parsed<nat> {
    var p :- ParseWord(b);
    Parsed(NatOf(p.0), p.1)
  }

  function ParseHashes(b: seq<Byte>, n: nat): Parsed<seq<seq<Byte>>> {
    if n == 0 then Parsed([], b) else
    var first :- Take(b, 32);
    var others :- ParseHashes(first.1, n - 1);
    Parsed([first.0] + others.0, others.1)
  }

  function ParseLevels(b: seq<Byte>, n: nat): Parsed<seq<seq<seq<Byte>>>>
    decreases n
  {
    if n == 0 then Parsed([], b) else
    var count :- ParseCount(b);
    var first :- ParseHashes(count.1, count.0);
    var others :- ParseLevels(first.1, n - 1);
    Parsed([first.0] + others.0, others.1)
  }

  function ParseRoots(b: seq<Byte>): Parsed<Roots> {
    var p :- Take(b, 32);
    var q :- Take(p.1, 32);
    var r :- Take(q.1, 32);
    Parsed(Roots(p.0, q.0, r.0), r.1)
  }

  function ParseHeader(b: seq<Byte>): Parsed<Fields> {
    var version :- ParseLe(b, 2);
    var levels :- ParseCount(version.1);
    var parents :- ParseLevels(levels.1, levels.0);
    var roots :- ParseRoots(parents.1);
    var timestamp :- ParseWord(roots.1);
    var bits :- ParseLe(timestamp.1, 4);
    var nonce :- ParseWord(bits.1);
    var daaScore :- ParseWord(nonce.1);
    var blueScore :- ParseWord(daaScore.1);
    var length :- ParseCount(blueScore.1);
    var blueWork :- Take(length.1, length.0);
    var pruningPoint :- Take(blueWork.1, 32);
    Parsed(Fields(version.0, parents.0, roots.0, timestamp.0, bits.0, nonce.0, daaScore.0, blueScore.0,
        blueWork.0, pruningPoint.0), pruningPoint.1)
  }

  predicate Fits(f: Fields) {
    && f.version < 0x1_0000 && f.bits < 0x1_0000_0000
    && |f.parents| < Pow2(WIDTH) && (forall i | 0 <= i < |f.parents| :: FitsLevel(f.parents[i]))
    && |f.roots.hashMerkleRoot| == |f.roots.acceptedIdMerkleRoot| == |f.roots.utxoCommitment| == 32
    && |f.blueWork| <= 32 && |f.pruningPoint| == 32
  }

  predicate FitsLevel(level: seq<seq<Byte>>) {
    |level| < Pow2(WIDTH) && forall i | 0 <= i < |level| :: |level[i]| == 32
  }

  lemma TakeFirst(b: seq<Byte>, rest: seq<Byte>)
    ensures Take(b + rest, |b|) == Parsed(b, rest)
  {
  }

  lemma WordReadsBack(w: Word, rest: seq<Byte>)
    ensures ParseWord(WordBytes(w) + rest) == Parsed(w, rest)
  {
    TakeFirst(WordBytes(w), rest);
    WordFromItsBytes(w);
    hide WordBytes;
    hide WordOfBytes;
    hide Take;
  }

  lemma CountReadsBack(n: nat, rest: seq<Byte>)
    requires n < Pow2(WIDTH)
    ensures ParseCount(Count(n) + rest) == Parsed(n, rest)
  {
    WordReadsBack(FromNat(n), rest);
    NatOfBitsOf(n, WIDTH);
    hide WordBytes;
    hide ParseWord;
    hide NatOf;
    hide Pow2;
    hide BitsOf;
  }

  lemma {:induction false} LeReadsBack(n: nat, len: nat)
    ensures FromLe(LeBytes(n, len)) == n % Pow2(8 * len)
  {
    if len == 0 {
    } else {
      LeReadsBack(n / 0x100, len - 1);
      NatOfBitsOf(n, 8);
      Pow2Of8();
      Pow2Sum(8, 8 * (len - 1));
      DigitSplit(n, 0x100, Pow2(8 * (len - 1)));
      hide NatOf;
      hide BitsOf;
      hide Pow2;
      assert LeBytes(n, len)[1..] == LeBytes(n / 0x100, len - 1);
    }
  }

  lemma DigitSplit(n: nat, d: nat, m: nat)
    requires d > 0 && m > 0
    ensures d * m > 0 && n % (d * m) == n % d + d * (n / d % m)
  {
    var q, r := Divide(n, d);
    var h, l := Divide(q, m);
    Distribute(d, l, m * h);
    MulAssoc(d, m, h);
    HighPartDecides(r, l, 0, m, d);
    MulGrows(d, 0, m);
    DivModUnique(n, d * m, h, r + d * l);
  }

  lemma Divide(n: nat, d: nat) returns (q: nat, r: nat)
    requires d > 0
    ensures q == n / d && r == n % d && n == r + d * q && r < d
  {
    q, r := n / d, n % d;
  }

  lemma NumberReadsBack(n: nat, len: nat, rest: seq<Byte>)
    requires n < Pow2(8 * len)
    ensures ParseLe(LeBytes(n, len) + rest, len) == Parsed(n, rest)
  {
    TakeFirst(LeBytes(n, len), rest);
    LeReadsBack(n, len);
    DivModUnique(n, Pow2(8 * len), 0, n);
    hide Take;
    hide LeBytes;
    hide Pow2;
    hide FromLe;
  }

  lemma {:induction false} HashesReadBack(hashes: seq<seq<Byte>>, rest: seq<Byte>)
    requires forall i | 0 <= i < |hashes| :: |hashes[i]| == 32
    ensures ParseHashes(HashesOnto(hashes, rest), |hashes|) == Parsed(hashes, rest)
  {
    if hashes == [] {
    } else {
      TakeFirst(hashes[0], HashesOnto(hashes[1..], rest));
      HashesReadBack(hashes[1..], rest);
      assert hashes == [hashes[0]] + hashes[1..];
      hide Take;
    }
  }

  lemma {:induction false} LevelsReadBack(levels: seq<seq<seq<Byte>>>, rest: seq<Byte>)
    requires forall i | 0 <= i < |levels| :: FitsLevel(levels[i])
    ensures ParseLevels(LevelsOnto(levels, rest), |levels|) == Parsed(levels, rest)
  {
    if levels == [] {
    } else {
      var others := LevelsOnto(levels[1..], rest);
      CountReadsBack(|levels[0]|, HashesOnto(levels[0], others));
      HashesReadBack(levels[0], others);
      LevelsReadBack(levels[1..], rest);
      assert levels == [levels[0]] + levels[1..];
      hide Count;
      hide ParseCount;
      hide Pow2;
      hide HashesOnto;
      hide ParseHashes;
    }
  }

  lemma RootsReadBack(r: Roots, rest: seq<Byte>)
    requires |r.hashMerkleRoot| == |r.acceptedIdMerkleRoot| == |r.utxoCommitment| == 32
    ensures ParseRoots(RootsOnto(r, rest)) == Parsed(r, rest)
  {
    var second := r.utxoCommitment + rest;
    TakeFirst(r.hashMerkleRoot, r.acceptedIdMerkleRoot + second);
    TakeFirst(r.acceptedIdMerkleRoot, second);
    TakeFirst(r.utxoCommitment, rest);
    hide Take;
  }

  /** Every field can be read back from the bytes of a header. */
  lemma EncodeRoundTrip(f: Fields)
    requires Fits(f)
    ensures ParseHeader(Encode(f)) == Parsed(f, [])
  {
    var last := LastPart(f);
    var scores := WordBytes(f.daaScore) + (WordBytes(f.blueScore) + last);
    var numbers := NumbersOnto(f, last);
    var roots := RootsOnto(f.roots, numbers);
    var levels := LevelsOnto(f.parents, roots);
    Pow2Of16();
    Pow2Of32();
    Pow2Of64();
    hide Pow2;
    NumberReadsBack(f.version, 2, Count(|f.parents|) + levels);
    CountReadsBack(|f.parents|, levels);
    LevelsReadBack(f.parents, roots);
    RootsReadBack(f.roots, numbers);
    NumberReadsBack(f.bits, 4, WordBytes(f.nonce) + scores);
    WordReadsBack(f.timestamp, LeBytes(f.bits, 4) + (WordBytes(f.nonce) + scores));
    WordReadsBack(f.nonce, scores);
    WordReadsBack(f.daaScore, WordBytes(f.blueScore) + last);
    WordReadsBack(f.blueScore, last);
    CountReadsBack(|f.blueWork|, f.blueWork + f.pruningPoint);
    TakeFirst(f.blueWork, f.pruningPoint);
    TakeFirst(f.pruningPoint, []);
    assert f.pruningPoint + [] == f.pruningPoint;
    hide Take;
    hide ParseLe;
    hide ParseWord;
    hide ParseCount;
    hide ParseLevels;
    hide ParseRoots;
    hide LeBytes;
    hide WordBytes;
    hide Count;
    hide LevelsOnto;
    hide RootsOnto;
  }

  lemma WellFormedFits(h: Header)
    requires WellFormed(h) && Countable(h)
    ensures Fits(FieldsOf(h)) && Fits(PrePow(FieldsOf(h)))
  {
    hide HexBytes;
    hide Pow2;
  }

  /** The full serialisation determines every field, the pre-pow one all but nonce and timestamp. */
  lemma SerialisationIsUnambiguous(h: Header, h': Header)
    requires WellFormed(h) && Countable(h) && WellFormed(h') && Countable(h')
    ensures Serialized(h, false) == Serialized(h', false) <==> FieldsOf(h) == FieldsOf(h')
    ensures Serialized(h, true) == Serialized(h', true) <==> PrePow(FieldsOf(h)) == PrePow(FieldsOf(h'))
  {
    WellFormedFits(h);
    WellFormedFits(h');
    EncodeRoundTrip(FieldsOf(h));
    EncodeRoundTrip(FieldsOf(h'));
    EncodeRoundTrip(PrePow(FieldsOf(h)));
    EncodeRoundTrip(PrePow(FieldsOf(h')));
    hide Encode;
    hide ParseHeader;
    hide FieldsOf;
    hide PrePow;
  }

  // ---- Both outcomes occur ----

  function Zeroes(n: nat): (s: HexString)
    ensures |s| == n && forall i | 0 <= i < n :: s[i] == '0'
  {
    seq(n, _ => '0')
  }

  /** A header without parents whose hashes are zero. */
  function ZeroHeader(version: U32): Header {
    var hash := Zeroes(64);
    var zero: Word := Zeros(64);
    Header(version, [], hash, hash, hash, zero, 0, zero, zero, "", hash, zero)
  }

  /** A header that is serialised, and one whose version makes it panic. */
  lemma BothOutcomesOccur()
    ensures WellFormed(ZeroHeader(1)) && Countable(ZeroHeader(1))
    ensures !WellFormed(ZeroHeader(0x1_0000))
  {
    hide Pow2;
  }
}
