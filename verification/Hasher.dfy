/** PowHasher and HeavyHasher: one-block sponges that start from a precomputed state. */
module Hasher {
  import opened Words
  import opened Uint256Model
  import opened KeccakSpec
  import opened Sponge
  import opened KeccakAsm

  const POW_INITIAL: seq<nat> :=
    [1242148031264380989, 3008272977830772284, 2188519011337848018, 1992179434288343456, 8876506674959887717,
     5399642050693751366, 1745875063082670864, 8605242046444978844, 17936695144567157056, 3343109343542796272,
     1123092876221303306, 4963925045340115282, 17037383077651887893, 16629644495023626889, 12833675776649114147,
     3784524041015224902, 1082795874807940378, 13952716920571277634, 13411128033953605860, 15060696040649351053,
     9928834659948351306, 5237849264682708699, 12825353012139217522, 6706187291358897596, 196324915476054915]

  const HEAVY_INITIAL: seq<nat> :=
    [4239941492252378377, 8746723911537738262, 8796936657246353646, 1272090201925444760, 16654558671554924250,
     8270816933120786537, 13907396207649043898, 6782861118970774626, 9239690602118867528, 11582319943599406348,
     17596056728278508070, 15212962468105129023, 7812475424661425213, 3370482334374859748, 5690099369266491460,
     8596393687355028144, 570094237299545110, 9119540418498120711, 16901969272480492857, 13372017233735502424,
     14372891883993151831, 5171152063242093102, 10573107899694386186, 6096431547456407061, 1592359455985097269]

  function StateOf(n: seq<nat>): State
    requires |n| == 25
  {
    seq(25, i requires 0 <= i < 25 => FromNat(n[i]))
  }

  function PowInitial(): State {
    StateOf(POW_INITIAL)
  }

  function HeavyInitial(): State {
    StateOf(HEAVY_INITIAL)
  }

  /** The state before the padding of an n-word message was mixed into the initial state. */
  function Unpadded(initial: State, n: nat): State
    requires n < 17
  {
    XorLanes(initial, PaddingLanes(n))
  }

  function FourLanes(s: State): Uint256 {
    s[..4]
  }

  // ---- PowHasher ----

  datatype PowHasher = PowHasher(lanes: State)

  /** The 80-byte message: the pre-pow hash, the timestamp, 32 zero bytes and the nonce. */
  function PowMessage(prePowHash: Uint256, timestamp: Word, nonce: Word): (m: seq<Word>)
    ensures |m| == 10
  {
    prePowHash + [timestamp, Zeros(64), Zeros(64), Zeros(64), Zeros(64), nonce]
  }

  function PowStart(prePowHash: Uint256, timestamp: Word): State {
    XorLanes(PowInitial(), Spread(prePowHash + [timestamp]))
  }

  /** The loop of both hashers that xors the words of a hash into the first lanes. */
  method XorInPlace(state: array<Word>, words: seq<Word>)
    requires state.Length == 25 && |words| <= 25
    modifies state
    ensures state[..] == XorLanes(old(state[..]), Spread(words))
  {
    hide Xor;
    for i := 0 to |words|
      invariant forall k | 0 <= k < 25 ::
        state[k] == if k < i then Xor(old(state[k]), words[k]) else old(state[k])
    {
      state[i] := Xor(state[i], words[i]);
    }
    forall k | |words| <= k < 25 ensures Xor(old(state[k]), Zeros(64)) == old(state[k]) {
      XorZero(old(state[k]));
    }
  }

  lemma PowStartLanes(prePowHash: Uint256, timestamp: Word)
    ensures var s := PowStart(prePowHash, timestamp);
      && (forall i: nat | i < 4 :: s[i] == Xor(FromNat(POW_INITIAL[i]), prePowHash[i]))
      && s[4] == Xor(FromNat(POW_INITIAL[4]), timestamp)
      && (forall i: nat | 5 <= i < 25 :: s[i] == FromNat(POW_INITIAL[i]))
  {
    hide Xor;
    hide BitsOf;
    hide Zeros;
    forall i: nat | i < 25 ensures PowInitial()[i] == FromNat(POW_INITIAL[i]) {
      StateOfAt(POW_INITIAL, i);
    }
    forall a: Word ensures Xor(a, Zeros(64)) == a {
      XorZero(a);
    }
    hide PowInitial;
    hide FromNat;
  }

  lemma StateOfAt(n: seq<nat>, i: nat)
    requires |n| == 25 && i < 25
    ensures StateOf(n)[i] == FromNat(n[i])
  {
    hide BitsOf;
  }

  method NewPowHasher(prePowHash: Uint256, timestamp: Word) returns (h: PowHasher)
    ensures h.lanes == PowStart(prePowHash, timestamp)
    ensures forall i: nat | i < 4 :: h.lanes[i] == Xor(FromNat(POW_INITIAL[i]), prePowHash[i])
    ensures h.lanes[4] == Xor(FromNat(POW_INITIAL[4]), timestamp)
    ensures forall i: nat | 5 <= i < 25 :: h.lanes[i] == FromNat(POW_INITIAL[i])
  {
    PowStartLanes(prePowHash, timestamp);
    hide BitsOf;
    var initial := PowInitial();
    hide PowInitial;
    hide Xor;
    var start := new Word[25](i requires 0 <= i < 25 => initial[i]);
    assert start[..] == initial;
    XorInPlace(start, prePowHash);
    start[4] := Xor(start[4], timestamp);
    h := PowHasher(start[..]);
    TimestampMixed(initial, prePowHash, timestamp);
    hide Spread;
    hide XorLanes;
  }

  lemma TimestampMixed(initial: State, prePowHash: Uint256, timestamp: Word)
    ensures var s := XorLanes(initial, Spread(prePowHash));
      s[4 := Xor(s[4], timestamp)] == XorLanes(initial, Spread(prePowHash + [timestamp]))
  {
    XorZero(initial[4]);
    hide Xor;
  }

  method FinalizeWithNonce(h: PowHasher, nonce: Word) returns (r: Uint256)
    ensures r == FourLanes(KeccakF(h.lanes[9 := Xor(h.lanes[9], nonce)]))
    ensures r == KeccakF(h.lanes[9 := Xor(h.lanes[9], nonce)])[..4]
  {
    hide Xor;
    hide KeccakF;
    var state := new Word[25](i requires 0 <= i < 25 => h.lanes[i]);
    state[9] := Xor(state[9], nonce);
    assert state[..] == h.lanes[9 := Xor(h.lanes[9], nonce)];
    KeccakF1600(state);
    r := FourLanes(state[..]);
  }

  function PowPrefix(): State {
    Unpadded(PowInitial(), 10)
  }

  /** cSHAKE256 of the 80-byte message, from the state that INITIAL_STATE gives without its padding. */
  function PowDigest(prePowHash: Uint256, timestamp: Word, nonce: Word): (b: Bits)
    ensures |b| == 256
  {
    CShake(KeccakF, PowPrefix(), Join(PowMessage(prePowHash, timestamp, nonce)), 256)
  }

  lemma PowHasherIsCShake(prePowHash: Uint256, timestamp: Word, nonce: Word)
    ensures var start := PowStart(prePowHash, timestamp);
      Flat(FourLanes(KeccakF(start[9 := Xor(start[9], nonce)])))
      == PowDigest(prePowHash, timestamp, nonce)
  {
    var initial, start := PowInitial(), PowStart(prePowHash, timestamp);
    var words := PowMessage(prePowHash, timestamp, nonce);
    OneBlockSponge(KeccakF, PowPrefix(), words);
    UnpaddedTwice(initial, 10);
    NonceMixedLast(initial, prePowHash, timestamp, nonce);
    hide PowInitial;
    hide Xor;
    hide XorLanes;
    hide Spread;
    hide KeccakF;
    FourLanesFlat(KeccakF(start[9 := Xor(start[9], nonce)]));
    hide CShake;
  }

  lemma NonceMixedLast(initial: State, prePowHash: Uint256, timestamp: Word, nonce: Word)
    ensures var start := XorLanes(initial, Spread(prePowHash + [timestamp]));
      start[9 := Xor(start[9], nonce)] == XorLanes(initial, Spread(PowMessage(prePowHash, timestamp, nonce)))
  {
    XorZero(initial[9]);
    hide Xor;
  }

  lemma UnpaddedTwice(initial: State, n: nat)
    requires n < 17
    ensures XorLanes(Unpadded(initial, n), PaddingLanes(n)) == initial
  {
    var p := PaddingLanes(n);
    forall i | 0 <= i < 25 ensures Xor(Xor(initial[i], p[i]), p[i]) == initial[i] {
      XorTwice(initial[i], p[i]);
    }
    hide Xor;
    hide PaddingLanes;
  }

  lemma XorTwice(a: Word, p: Word)
    ensures Xor(Xor(a, p), p) == a
  {
  }

  lemma FourLanesFlat(s: State)
    ensures FirstLanes(s, 4) == Flat(FourLanes(s))
  {
    var a: Bits := s[0];
    assert FirstLanes(s, 1) == a;
    assert FirstLanes(s, 2) == a + s[1];
    assert FirstLanes(s, 3) == a + s[1] + s[2];
  }

  // ---- HeavyHasher ----

  function HeavyPrefix(): State {
    Unpadded(HeavyInitial(), 4)
  }

  /** cSHAKE256 of a 32-byte message, from the state that INITIAL_STATE gives without its padding. */
  function HeavyDigest(inHash: Uint256): (b: Bits)
    ensures |b| == 256
  {
    CShake(KeccakF, HeavyPrefix(), Join(inHash), 256)
  }

  lemma HeavyStartLanes(inHash: Uint256)
    ensures var s := XorLanes(HeavyInitial(), Spread(inHash)); forall i: nat | i < 25 ::
      s[i] == if i < 4 then Xor(FromNat(HEAVY_INITIAL[i]), inHash[i]) else FromNat(HEAVY_INITIAL[i])
  {
    hide Xor;
    hide BitsOf;
    hide Zeros;
    forall i: nat | i < 25 ensures HeavyInitial()[i] == FromNat(HEAVY_INITIAL[i]) {
      StateOfAt(HEAVY_INITIAL, i);
    }
    forall a: Word ensures Xor(a, Zeros(64)) == a {
      XorZero(a);
    }
    hide HeavyInitial;
    hide FromNat;
  }

  lemma FourLanesAre(s: State)
    ensures FourLanes(s) == s[..4]
  {
  }

  method HeavyHasherHash(inHash: Uint256) returns (r: Uint256)
    ensures Flat(r) == HeavyDigest(inHash)
    ensures exists s: State :: r == KeccakF(s)[..4] && forall i: nat | i < 25 ::
      s[i] == if i < 4 then Xor(FromNat(HEAVY_INITIAL[i]), inHash[i]) else FromNat(HEAVY_INITIAL[i])
  {
    HeavyStartLanes(inHash);
    hide *;
    var initial := HeavyInitial();
    var state := new Word[25](i requires 0 <= i < 25 => initial[i]);
    assert state[..] == initial;
    XorInPlace(state, inHash);
    KeccakF1600(state);
    r := FourLanes(state[..]);
    HeavyHasherIsCShake(inHash);
    FourLanesAre(KeccakF(XorLanes(HeavyInitial(), Spread(inHash))));
  }

  lemma HeavyHasherIsCShake(inHash: Uint256)
    ensures Flat(FourLanes(KeccakF(XorLanes(HeavyInitial(), Spread(inHash))))) == HeavyDigest(inHash)
  {
    var initial := HeavyInitial();
    OneBlockSponge(KeccakF, HeavyPrefix(), inHash);
    UnpaddedTwice(initial, 4);
    hide HeavyInitial;
    hide Xor;
    hide XorLanes;
    hide Spread;
    hide KeccakF;
    FourLanesFlat(KeccakF(XorLanes(initial, Spread(inHash))));
    hide CShake;
  }

  // ---- The messages and the prefix states, spelled out ----

  lemma {:induction false} JoinFour(u: Uint256)
    ensures Join(u) == Flat(u)
  {
    var a: Bits := u[0];
    assert u[..3][..2][..1] == [u[0]] && u[..3][..2] == [u[0], u[1]] && u[..3] == [u[0], u[1], u[2]];
    assert Join([u[0]]) == a by {
      assert [u[0]][..0] == [];
    }
    assert Join([u[0], u[1]]) == a + u[1] by {
      assert [u[0], u[1]][..1] == [u[0]];
    }
    assert Join([u[0], u[1], u[2]]) == a + u[1] + u[2] by {
      assert [u[0], u[1], u[2]][..2] == [u[0], u[1]];
    }
  }

  lemma JoinMore(words: seq<Word>, w: Word)
    ensures Join(words + [w]) == Join(words) + w
  {
    assert (words + [w])[..|words|] == words;
  }

  /** The digest is over the hash, the time, 32 zero bytes and the nonce, in this order. */
  lemma PowDigestMessage(prePowHash: Uint256, timestamp: Word, nonce: Word)
    ensures PowDigest(prePowHash, timestamp, nonce)
         == CShake(KeccakF, PowPrefix(), Flat(prePowHash) + timestamp + Zeros(256) + nonce, 256)
  {
    hide *;
    hide PowDigest;
    PowMessageBits(prePowHash, timestamp, nonce);
    PowDigestIs(prePowHash, timestamp, nonce);
  }

  lemma PowDigestIs(prePowHash: Uint256, timestamp: Word, nonce: Word)
    ensures PowDigest(prePowHash, timestamp, nonce)
         == CShake(KeccakF, PowPrefix(), Join(PowMessage(prePowHash, timestamp, nonce)), 256)
  {
    hide CShake;
    hide PowPrefix;
    hide Join;
    hide PowMessage;
    hide KeccakF;
  }

  lemma PowMessageBits(prePowHash: Uint256, timestamp: Word, nonce: Word)
    ensures Join(PowMessage(prePowHash, timestamp, nonce)) == Flat(prePowHash) + timestamp + Zeros(256) + nonce
  {
    hide Join;
    hide Flat;
    var z: Word := Zeros(64);
    var p: seq<Word> := prePowHash;
    JoinFour(prePowHash);
    JoinMore(p, timestamp);
    JoinMore(p + [timestamp], z);
    JoinMore(p + [timestamp] + [z], z);
    JoinMore(p + [timestamp] + [z] + [z], z);
    JoinMore(p + [timestamp] + [z] + [z] + [z], z);
    JoinMore(p + [timestamp] + [z] + [z] + [z] + [z], nonce);
    var b: Bits := Zeros(64);
    assert Zeros(256) == b + b + b + b;
    assert PowMessage(prePowHash, timestamp, nonce) == p + [timestamp] + [z] + [z] + [z] + [z] + [nonce];
  }

  lemma HeavyDigestMessage(inHash: Uint256)
    ensures HeavyDigest(inHash) == CShake(KeccakF, HeavyPrefix(), Flat(inHash), 256)
  {
    JoinFour(inHash);
    hide CShake;
    hide HeavyPrefix;
    hide Join;
    hide Flat;
    hide KeccakF;
  }

  /** Taking the padding out of the initial state gives the two lanes that the source notes beside it. */
  lemma PowPrefixLanes()
    ensures PowPrefix()[10] == FromNat(1123092876221303310) && PowPrefix()[16] == FromNat(10306167911662716186)
    ensures forall i: nat | i < 25 && i != 10 && i != 16 :: PowPrefix()[i] == FromNat(POW_INITIAL[i])
  {
    PaddingIsAdded(1123092876221303306, 1082795874807940378);
    UnpaddedLanes(PowInitial(), 10);
    hide *;
    forall i: nat | i < 25 ensures PowInitial()[i] == FromNat(POW_INITIAL[i]) {
      PowInitialAt(i);
    }
    PowPrefixIs();
  }

  lemma PowPrefixIs()
    ensures PowPrefix() == Unpadded(PowInitial(), 10)
    ensures POW_INITIAL[10] == 1123092876221303306 && POW_INITIAL[16] == 1082795874807940378
  {
    hide Unpadded;
    hide PowInitial;
  }

  lemma PowInitialAt(i: nat)
    requires i < 25
    ensures PowInitial()[i] == FromNat(POW_INITIAL[i])
  {
    StateOfAt(POW_INITIAL, i);
    hide StateOf;
    hide FromNat;
  }

  /** The padding bits are not set in these numbers. */
  lemma PaddingIsAdded(a: nat, b: nat)
    requires a < 0x8000_0000_0000_0000 * 2 && a / 4 % 2 == 0 && b < 0x8000_0000_0000_0000
    ensures Xor(FromNat(a), FromNat(4)) == FromNat(a + 4)
    ensures Xor(FromNat(b), FromNat(Pow2(63))) == FromNat(b + 0x8000_0000_0000_0000)
  {
    Pow2Of8();
    Pow2Of63();
    Pow2Of64();
    hide Pow2;
    hide Xor;
    hide FromNat;
    XorAddsBit(a, 2);
    XorAddsBit(b, 63);
  }

  lemma UnpaddedLanes(initial: State, n: nat)
    requires n < 16
    ensures Unpadded(initial, n)[n] == Xor(initial[n], FromNat(4))
    ensures Unpadded(initial, n)[16] == Xor(initial[16], FromNat(Pow2(63)))
    ensures forall i: nat | i < 25 && i != n && i != 16 :: Unpadded(initial, n)[i] == initial[i]
  {
    PaddingWords(n);
    forall i: nat | i < 25 ensures Xor(initial[i], Zeros(64)) == initial[i] {
      XorZero(initial[i]);
    }
    hide PaddingLanes;
    hide Xor;
    hide FromNat;
    hide Pow2;
    hide Zeros;
  }

  lemma HeavyPrefixLanes()
    ensures HeavyPrefix()[4] == FromNat(16654558671554924254) && HeavyPrefix()[16] == FromNat(9793466274154320918)
    ensures forall i: nat | i < 25 && i != 4 && i != 16 :: HeavyPrefix()[i] == FromNat(HEAVY_INITIAL[i])
  {
    PaddingIsAdded(16654558671554924250, 570094237299545110);
    UnpaddedLanes(HeavyInitial(), 4);
    hide *;
    forall i: nat | i < 25 ensures HeavyInitial()[i] == FromNat(HEAVY_INITIAL[i]) {
      HeavyInitialAt(i);
    }
    HeavyPrefixIs();
  }

  lemma HeavyPrefixIs()
    ensures HeavyPrefix() == Unpadded(HeavyInitial(), 4)
    ensures HEAVY_INITIAL[4] == 16654558671554924250 && HEAVY_INITIAL[16] == 570094237299545110
  {
    hide Unpadded;
    hide HeavyInitial;
  }

  lemma HeavyInitialAt(i: nat)
    requires i < 25
    ensures HeavyInitial()[i] == FromNat(HEAVY_INITIAL[i])
  {
    StateOfAt(HEAVY_INITIAL, i);
    hide StateOf;
    hide FromNat;
  }
}
