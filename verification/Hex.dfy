/** `decode_to_slice` of pow.rs: decoding of hexadecimal strings into byte slices. */
module Hex {
  import opened Words

  type HexString = seq<char>

  datatype Result<T, E> = Ok(value: T) | Err(error: E)

  // ---- Hexadecimal digits ----

  datatype FromHexError =
    | OddLength
    | InvalidStringLength
    | InvalidHexCharacter(c: char, index: nat)

  datatype Decoding = Decoded | Undecodable(error: FromHexError)

  predicate IsHex(c: char) {
    'A' <= c <= 'F' || 'a' <= c <= 'f' || '0' <= c <= '9'
  }

  predicate AllHex(s: HexString) {
    forall i | 0 <= i < |s| :: IsHex(s[i])
  }

  /** The value of a digit; 0 for any other character. */
  function DigitValue(c: char): (n: nat)
    ensures n <= 15
  {
    if 'A' <= c <= 'F' then c as nat - 'A' as nat + 10
    else if 'a' <= c <= 'f' then c as nat - 'a' as nat + 10
    else if '0' <= c <= '9' then c as nat - '0' as nat
    else 0
  }

  /** The digits in order of their values. */
  lemma DigitsInOrder(c: char)
    ensures IsHex(c) <==> c == "0123456789abcdef"[DigitValue(c)] || c == "0123456789ABCDEF"[DigitValue(c)]
  {
  }

  /** The inner function `val`: one digit. */
  method Val(c: char, idx: nat) returns (r: Result<nat, FromHexError>)
    ensures r == if IsHex(c) then Ok(DigitValue(c)) else Err(InvalidHexCharacter(c, idx))
  {
    if 'A' <= c <= 'F' {
      r := Ok(c as nat - 'A' as nat + 10);
    } else if 'a' <= c <= 'f' {
      r := Ok(c as nat - 'a' as nat + 10);
    } else if '0' <= c <= '9' {
      r := Ok(c as nat - '0' as nat);
    } else {
      r := Err(InvalidHexCharacter(c, idx));
    }
  }

  function HexByte(hi: char, lo: char): Byte {
    BitsOf(16 * DigitValue(hi) + DigitValue(lo), 8)
  }

  /** Two digits per byte, the first one in the upper half. */
  predicate StandsFor(b: seq<Byte>, s: HexString) {
    |s| == 2 * |b| && forall k: nat | k < |b| :: NatOf(b[k]) == 16 * DigitValue(s[2 * k]) + DigitValue(s[2 * k + 1])
  }

  lemma HexByteValue(hi: char, lo: char)
    ensures NatOf(HexByte(hi, lo)) == 16 * DigitValue(hi) + DigitValue(lo)
  {
    Pow2Of8();
    NatOfBitsOf(16 * DigitValue(hi) + DigitValue(lo), 8);
    hide DigitValue;
    hide BitsOf;
    hide NatOf;
    hide Pow2;
  }

  lemma HexBytesStandFor(s: HexString)
    requires |s| % 2 == 0
    ensures StandsFor(HexBytes(s), s)
    ensures forall k: nat | k < |s| / 2 ::
      NatOf(HexBytes(s)[k]) == 16 * DigitValue(s[2 * k]) + DigitValue(s[2 * k + 1])
  {
    hide NatOf;
    hide HexByte;
    hide DigitValue;
    forall k: nat | k < |s| / 2 ensures NatOf(HexBytes(s)[k]) == 16 * DigitValue(s[2 * k]) + DigitValue(s[2 * k + 1]) {
      HexByteValue(s[2 * k], s[2 * k + 1]);
    }
  }

  /** The bytes that a string of digit pairs stands for. */
  function HexBytes(s: HexString): (b: seq<Byte>)
    ensures |b| == |s| / 2
  {
    seq(|s| / 2, k requires 0 <= k < |s| / 2 => HexByte(s[2 * k], s[2 * k + 1]))
  }

  predicate DecodesTo(data: HexString, len: nat) {
    |data| == 2 * len && AllHex(data)
  }

  predicate IsFirstBad(data: HexString, i: nat) {
    i < |data| && !IsHex(data[i]) && forall k | 0 <= k < i :: IsHex(data[k])
  }

  /** What decode_to_slice answers for a slice of len bytes. */
  predicate Answers(data: HexString, len: nat, r: Decoding) {
    match r
    case Decoded => DecodesTo(data, len)
    case Undecodable(OddLength) => |data| % 2 != 0
    case Undecodable(InvalidStringLength) => |data| % 2 == 0 && |data| != 2 * len
    case Undecodable(InvalidHexCharacter(c, i)) => |data| == 2 * len && IsFirstBad(data, i) && c == data[i]
  }

  /** Bytes written before the answer is known. */
  function Written(len: nat, r: Decoding): (n: nat)
  {
    match r
    case Decoded => len
    case Undecodable(InvalidHexCharacter(_, i)) => i / 2
    case Undecodable(_) => 0
  }

  lemma AnswerIsUnique(data: HexString, len: nat, r: Decoding, r': Decoding)
    requires Answers(data, len, r) && Answers(data, len, r')
    ensures r == r'
  {
  }

  function Pair(data: HexString, i: nat): Result<Byte, FromHexError>
    requires 2 * i + 1 < |data|
  {
    if !IsHex(data[2 * i]) then Err(InvalidHexCharacter(data[2 * i], 2 * i))
    else if !IsHex(data[2 * i + 1]) then Err(InvalidHexCharacter(data[2 * i + 1], 2 * i + 1))
    else Ok(HexByte(data[2 * i], data[2 * i + 1]))
  }

  predicate HexUpTo(data: HexString, n: nat) {
    n <= |data| && forall k | 0 <= k < n :: IsHex(data[k])
  }

  lemma PairDecides(data: HexString, len: nat, i: nat, r: Result<Byte, FromHexError>)
    requires |data| == 2 * len && i < len && HexUpTo(data, 2 * i) && r == Pair(data, i)
    ensures r.Ok? ==> HexUpTo(data, 2 * (i + 1)) && r.value == HexBytes(data)[i]
    ensures r.Err? ==> Answers(data, len, Undecodable(r.error)) && Written(len, Undecodable(r.error)) == i
  {
    PairAt(data, i);
    hide IsHex;
    hide HexByte;
    hide HexBytes;
  }

  lemma AllDecoded(data: HexString, len: nat)
    requires |data| == 2 * len && HexUpTo(data, 2 * len)
    ensures Answers(data, len, Decoded) && Written(len, Decoded) == len
  {
  }

  lemma WrongLength(data: HexString, len: nat)
    ensures |data| % 2 != 0 ==> Answers(data, len, Undecodable(OddLength)) && Written(len, Undecodable(OddLength)) == 0
    ensures |data| % 2 == 0 && |data| != 2 * len ==>
      Answers(data, len, Undecodable(InvalidStringLength)) && Written(len, Undecodable(InvalidStringLength)) == 0
    ensures |data| % 2 == 0 && |data| / 2 == len <==> |data| == 2 * len
    ensures HexUpTo(data, 2 * 0)
  {
  }

  /** One turn of the loop: two digits, or the error of the first bad one. */
  method DecodePair(data: HexString, i: nat) returns (r: Result<Byte, FromHexError>)
    requires 2 * i + 1 < |data|
    ensures r == Pair(data, i)
  {
    hide DigitValue;
    hide HexByte;
    hide IsHex;
    var hi := Val(data[2 * i], 2 * i);
    if hi.Err? {
      return Err(hi.error);
    }
    var lo := Val(data[2 * i + 1], 2 * i + 1);
    if lo.Err? {
      return Err(lo.error);
    }
    NibblesMakeByte(data[2 * i], data[2 * i + 1]);
    r := Ok(NibblesToByte(hi.value, lo.value));
  }

  /** The first n elements come from b, the others stay. */
  function Overwritten(was: seq<Byte>, b: seq<Byte>, n: nat): (now: seq<Byte>)
    requires n <= |was| && n <= |b|
    ensures |now| == |was|
  {
    b[..n] + was[n..]
  }

  lemma OverwriteNext(was: seq<Byte>, b: seq<Byte>, n: nat)
    requires n < |was| && n < |b|
    ensures Overwritten(was, b, n)[n := b[n]] == Overwritten(was, b, n + 1)
  {
  }

  lemma PairAt(s: HexString, k: nat)
    requires k < |s| / 2
    ensures HexBytes(s)[k] == HexByte(s[2 * k], s[2 * k + 1])
  {
    hide HexByte;
  }

  /** The answer and the effect on the slice, for every input; on a bad digit the whole bytes before it are written. */
  predicate IsDecoding(data: HexString, len: nat, r: Decoding, was: seq<Byte>, now: seq<Byte>) {
    && |now| == |was|
    && match r
       case Decoded =>
         && |data| == 2 * len && AllHex(data) && len <= |was|
         && StandsFor(now[..len], data) && now[len..] == was[len..]
       case Undecodable(OddLength) => |data| % 2 != 0 && now == was
       case Undecodable(InvalidStringLength) => |data| % 2 == 0 && |data| != 2 * len && now == was
       case Undecodable(InvalidHexCharacter(c, i)) =>
         && |data| == 2 * len && i < |data| && i / 2 <= |was|
         && c == data[i] && !IsHex(c) && (forall k | 0 <= k < i :: IsHex(data[k]))
         && StandsFor(now[..i / 2], data[..i / 2 * 2]) && now[i / 2..] == was[i / 2..]
  }

  lemma DecodingIs(data: HexString, len: nat, r: Decoding, was: seq<Byte>, now: seq<Byte>)
    requires len <= |was| && Answers(data, len, r) && Written(len, r) <= len && 2 * Written(len, r) <= |data|
    requires now == Overwritten(was, HexBytes(data), Written(len, r))
    ensures IsDecoding(data, len, r, was, now)
  {
    var n := Written(len, r);
    OverwrittenParts(was, HexBytes(data), n);
    PrefixStandsFor(data, n);
    hide Overwritten;
    hide HexBytes;
    hide StandsFor;
    hide IsHex;
    if r.Undecodable? && r.error.InvalidHexCharacter? {
      assert n == r.error.index / 2;
    } else {
      assert r.Decoded? ==> data[..2 * n] == data;
    }
  }

  lemma OverwrittenParts(was: seq<Byte>, b: seq<Byte>, n: nat)
    requires n <= |was| && n <= |b|
    ensures Overwritten(was, b, n)[..n] == b[..n] && Overwritten(was, b, n)[n..] == was[n..]
    ensures n == 0 ==> Overwritten(was, b, n) == was
  {
  }

  lemma PrefixStandsFor(data: HexString, n: nat)
    requires 2 * n <= |data|
    ensures StandsFor(HexBytes(data)[..n], data[..2 * n])
  {
    hide NatOf;
    hide HexByte;
    hide DigitValue;
    forall k: nat | k < n ensures
      NatOf(HexBytes(data)[k]) == 16 * DigitValue(data[2 * k]) + DigitValue(data[2 * k + 1])
    {
      HexByteValue(data[2 * k], data[2 * k + 1]);
    }
  }

  /** Decodes into the first len bytes of out. */
  method DecodeToSlice(data: HexString, out: array<Byte>, len: nat) returns (r: Decoding)
    requires len <= out.Length
    modifies out
    ensures Answers(data, len, r)
    ensures Written(len, r) <= len && 2 * Written(len, r) <= |data|
    ensures out[..] == Overwritten(old(out[..]), HexBytes(data), Written(len, r))
    ensures IsDecoding(data, len, r, old(out[..]), out[..])
    ensures r.Decoded? ==> |data| == 2 * len && forall k: nat | k < len ::
      NatOf(out[k]) == 16 * DigitValue(data[2 * k]) + DigitValue(data[2 * k + 1])
  {
    ghost var was, bytes := out[..], HexBytes(data);
    assert Overwritten(was, bytes, 0) == was;
    WrongLength(data, len);
    hide *;
    if |data| % 2 != 0 {
      DecodingIs(data, len, Undecodable(OddLength), was, was);
      return Undecodable(OddLength);
    }
    if |data| / 2 != len {
      DecodingIs(data, len, Undecodable(InvalidStringLength), was, was);
      return Undecodable(InvalidStringLength);
    }
    for i := 0 to len
      invariant HexUpTo(data, 2 * i)
      invariant out[..] == Overwritten(was, bytes, i)
    {
      var b := DecodePair(data, i);
      PairDecides(data, len, i, b);
      if b.Err? {
        DecodingIs(data, len, Undecodable(b.error), was, out[..]);
        return Undecodable(b.error);
      }
      OverwriteNext(was, bytes, i);
      out[i] := b.value;
    }
    r := Decoded;
    AllDecoded(data, len);
    DecodingIs(data, len, r, was, out[..]);
    AllValues(data, len, was, out[..]);
  }

  lemma AllValues(data: HexString, len: nat, was: seq<Byte>, now: seq<Byte>)
    requires IsDecoding(data, len, Decoded, was, now)
    ensures |data| == 2 * len && forall k: nat | k < len ::
      NatOf(now[k]) == 16 * DigitValue(data[2 * k]) + DigitValue(data[2 * k + 1])
  {
    hide NatOf;
    hide DigitValue;
    forall k: nat | k < len ensures NatOf(now[k]) == 16 * DigitValue(data[2 * k]) + DigitValue(data[2 * k + 1]) {
      assert now[k] == now[..len][k];
    }
  }

  /** val(..)? << 4 | val(..)? */
  function NibblesToByte(hi: nat, lo: nat): Byte
    requires hi <= 15 && lo <= 15
  {
    OrByte(BitsOf(hi * 16, 8), BitsOf(lo, 8))
  }

  lemma NibblesMakeByte(hi: char, lo: char)
    ensures NibblesToByte(DigitValue(hi), DigitValue(lo)) == HexByte(hi, lo)
  {
    PackedNibbles(DigitValue(hi), DigitValue(lo));
    hide OrByte;
    hide BitsOf;
    hide DigitValue;
  }

  /** Decoding loses nothing but the case of letters. */
  lemma HexBytesLoseOnlyCase(s: HexString, t: HexString)
    requires |s| == |t| && |s| % 2 == 0
    ensures HexBytes(s) == HexBytes(t) <==> forall i | 0 <= i < |s| :: DigitValue(s[i]) == DigitValue(t[i])
  {
    if HexBytes(s) == HexBytes(t) {
      forall i | 0 <= i < |s| ensures DigitValue(s[i]) == DigitValue(t[i]) {
        var k := i / 2;
        assert HexBytes(s)[k] == HexBytes(t)[k];
        SameByteSameDigits(s[2 * k], s[2 * k + 1], t[2 * k], t[2 * k + 1]);
      }
    }
    hide DigitValue;
    hide BitsOf;
  }

  lemma SameByteSameDigits(hi: char, lo: char, hi': char, lo': char)
    requires HexByte(hi, lo) == HexByte(hi', lo')
    ensures DigitValue(hi) == DigitValue(hi') && DigitValue(lo) == DigitValue(lo')
  {
    Pow2Of8();
    NatOfBitsOf(16 * DigitValue(hi) + DigitValue(lo), 8);
    NatOfBitsOf(16 * DigitValue(hi') + DigitValue(lo'), 8);
    hide DigitValue;
    hide BitsOf;
    hide NatOf;
    hide Pow2;
  }
}
