/** `__KeccakF1600`, `KeccakF1600` and `iotas` of keccakf1600_x86-64-elf.s: Keccak-f[1600] on two 25-lane buffers.
    Six lanes are kept complemented, the last plane stays in registers from pass to pass, and the loop
    stops when the address of the next round constant reaches a 256-byte boundary. */
module KeccakAsm {
  import opened Words
  import opened KeccakSpec

  /** Words the code keeps complemented. */
  predicate Flipped(i: nat) {
    i == 1 || i == 2 || i == 8 || i == 12 || i == 17 || i == 20
  }

  function FlipIf(flip: bool, a: Word): Word { if flip then Not(a) else a }

  function Complement(a: State): State {
    seq(25, i requires 0 <= i < 25 => FlipIf(Flipped(i), a[i]))
  }

  lemma XorCommutes(a: Word, b: Word)
    ensures Xor(a, b) == Xor(b, a)
  {
  }

  lemma XorSwapsLastTwo(a: Word, b: Word, c: Word)
    ensures Xor(Xor(a, b), c) == Xor(Xor(a, c), b)
  {
  }

  /** The code adds the lanes of a column starting with the one it already holds in a register. */
  lemma LastLaneFirst(a: Word, b: Word, c: Word, d: Word, e: Word)
    ensures Xor(Xor(Xor(Xor(e, a), b), c), d) == Xor(Xor(Xor(Xor(a, b), c), d), e)
  {
    XorCommutes(e, a);
    XorSwapsLastTwo(a, e, b);
    XorSwapsLastTwo(Xor(a, b), e, c);
    XorSwapsLastTwo(Xor(Xor(a, b), c), e, d);
  }

  method ThetaBlock(ghost a: State, rdi: array<Word>, rax0: Word, rbx0: Word, rcx0: Word, rdx0: Word, rbp0: Word)
    returns (rax: Word, rbx: Word, rcx: Word, rdx: Word, rbp: Word,
             r8: Word, r9: Word, r10: Word, r11: Word, r12: Word)
    requires rdi.Length == 25 && rdi[..] == a
    requires rax0 == rdi[20] && rbx0 == rdi[21] && rcx0 == rdi[22] && rdx0 == rdi[23] && rbp0 == rdi[24]
    ensures rbx == Effect(a, 0) && rcx == Effect(a, 1) && rdx == Effect(a, 2)
    ensures rbp == Effect(a, 3) && rax == Effect(a, 4)
    ensures r8 == a[0] && r9 == a[6] && r10 == a[12] && r11 == a[18] && r12 == a[24]
  {
    rax, rbx, rcx, rdx, rbp := rax0, rbx0, rcx0, rdx0, rbp0;
    r8 := rdi[0];
    r9 := rdi[6];
    r10 := rdi[12];
    r11 := rdi[18];

    rcx := Xor(rcx, rdi[2]);
    rdx := Xor(rdx, rdi[3]);
    rax := Xor(rax, r8);
    rbx := Xor(rbx, rdi[1]);
    rcx := Xor(rcx, rdi[7]);
    rax := Xor(rax, rdi[5]);
    r12 := rbp;
    rbp := Xor(rbp, rdi[4]);

    rcx := Xor(rcx, r10);
    rax := Xor(rax, rdi[10]);
    rdx := Xor(rdx, rdi[8]);
    rbx := Xor(rbx, r9);
    rbp := Xor(rbp, rdi[9]);

    rcx := Xor(rcx, rdi[17]);
    rax := Xor(rax, rdi[15]);
    rdx := Xor(rdx, rdi[13]);
    rbx := Xor(rbx, rdi[11]);
    rbp := Xor(rbp, rdi[14]);

    LastLaneFirst(a[2], a[7], a[12], a[17], a[22]);
    assert rcx == Column(a, 2);
    var r13 := rcx;
    rcx := Rol(rcx, 1);
    LastLaneFirst(a[0], a[5], a[10], a[15], a[20]);
    assert rax == Column(a, 0);
    rcx := Xor(rcx, rax);
    rdx := Xor(rdx, r11);
    LastLaneFirst(a[3], a[8], a[13], a[18], a[23]);
    assert rdx == Column(a, 3);

    rax := Rol(rax, 1);
    rax := Xor(rax, rdx);
    rbx := Xor(rbx, rdi[16]);
    LastLaneFirst(a[1], a[6], a[11], a[16], a[21]);
    assert rbx == Column(a, 1);

    rdx := Rol(rdx, 1);
    rdx := Xor(rdx, rbx);
    rbp := Xor(rbp, rdi[19]);
    LastLaneFirst(a[4], a[9], a[14], a[19], a[24]);
    assert rbp == Column(a, 4);

    rbx := Rol(rbx, 1);
    rbx := Xor(rbx, rbp);

    rbp := Rol(rbp, 1);
    rbp := Xor(rbp, r13);
    XorCommutes(Rol(Column(a, 1), 1), Column(a, 4));
    XorCommutes(Rol(Column(a, 2), 1), Column(a, 0));
    XorCommutes(Rol(Column(a, 3), 1), Column(a, 1));
    XorCommutes(Rol(Column(a, 4), 1), Column(a, 2));
    XorCommutes(Rol(Column(a, 0), 1), Column(a, 3));
  }

  const IOTAS: seq<nat> :=
    [0x0000000000000001, 0x0000000000008082, 0x800000000000808a,
     0x8000000080008000, 0x000000000000808b, 0x0000000080000001,
     0x8000000080008081, 0x8000000000008009, 0x000000000000008a,
     0x0000000000000088, 0x0000000080008009, 0x000000008000000a,
     0x000000008000808b, 0x800000000000008b, 0x8000000000008089,
     0x8000000000008003, 0x8000000000008002, 0x8000000000000080,
     0x000000000000800a, 0x800000008000000a, 0x8000000080008081,
     0x8000000000008080, 0x0000000080000001, 0x8000000080008008]

  predicate InTable(iotas: nat, address: nat) {
    iotas <= address < iotas + 192 && (address - iotas) % 8 == 0
  }

  /** The table entry at an address. */
  function IotaAt(iotas: nat, address: nat): Word
    requires InTable(iotas, address)
  {
    FromNat(IOTAS[(address - iotas) / 8])
  }

  /** Plane y of the next state as the code stores it, from the five lanes b that enter chi. */
  function Stored(y: nat, b: seq<Word>): (p: seq<Word>)
    requires y < 5 && |b| == 5
    ensures |p| == 5
  {
    [FlipIf(Flipped(5 * y), ChiLane(b[0], b[1], b[2])), FlipIf(Flipped(5 * y + 1), ChiLane(b[1], b[2], b[3])),
     FlipIf(Flipped(5 * y + 2), ChiLane(b[2], b[3], b[4])), FlipIf(Flipped(5 * y + 3), ChiLane(b[3], b[4], b[0])),
     FlipIf(Flipped(5 * y + 4), ChiLane(b[4], b[0], b[1]))]
  }

  function FirstXor(p: seq<Word>, rc: Word): seq<Word>
    requires |p| == 5
  {
    p[0 := Xor(p[0], rc)]
  }

  lemma ChiPlane0(b0: Word, b1: Word, b2: Word, b3: Word, b4: Word)
    ensures ChiLane(b0, b1, b2) == Xor(Or(b1, Not(b2)), Not(b0))
    ensures Not(ChiLane(b1, b2, b3)) == Xor(Or(Not(Not(b2)), Not(b3)), b1)
    ensures Not(ChiLane(b2, b3, b4)) == Xor(And(b4, Not(b3)), Not(b2))
    ensures ChiLane(b3, b4, b0) == Xor(Or(b4, Not(b0)), Not(b3))
    ensures ChiLane(b4, b0, b1) == Xor(And(b1, Not(b0)), b4)
  {
  }

  lemma ChiPlane1(b0: Word, b1: Word, b2: Word, b3: Word, b4: Word)
    ensures ChiLane(b0, b1, b2) == Xor(Or(b1, Not(b2)), Not(b0))
    ensures ChiLane(b1, b2, b3) == Xor(And(b3, Not(b2)), b1)
    ensures ChiLane(b2, b3, b4) == Xor(Or(Not(b4), b3), Not(b2))
    ensures Not(ChiLane(b3, b4, b0)) == Xor(Or(Not(b0), b4), b3)
    ensures ChiLane(b4, b0, b1) == Xor(And(b1, Not(b0)), b4)
  {
  }

  lemma ChiPlane2(b0: Word, b1: Word, b2: Word, b3: Word, b4: Word)
    ensures ChiLane(b0, b1, b2) == Xor(Or(Not(b2), b1), Not(b0))
    ensures ChiLane(b1, b2, b3) == Xor(And(Not(b2), b3), b1)
    ensures Not(ChiLane(b2, b3, b4)) == Xor(And(b4, Not(b3)), Not(b2))
    ensures ChiLane(b3, b4, b0) == Xor(Or(b4, Not(b0)), Not(b3))
    ensures ChiLane(b4, b0, b1) == Xor(And(b1, Not(b0)), b4)
  {
  }

  lemma ChiPlane3(b0: Word, b1: Word, b2: Word, b3: Word, b4: Word)
    ensures ChiLane(b0, b1, b2) == Xor(And(b2, Not(b1)), b0)
    ensures ChiLane(b1, b2, b3) == Xor(Or(b2, Not(b3)), Not(b1))
    ensures Not(ChiLane(b2, b3, b4)) == Xor(Or(Not(b4), Not(Not(b3))), b2)
    ensures ChiLane(b3, b4, b0) == Xor(And(b0, Not(b4)), Not(Not(b3)))
    ensures ChiLane(b4, b0, b1) == Xor(Or(Not(b1), b0), Not(b4))
  {
  }

  lemma ChiPlane4(b0: Word, b1: Word, b2: Word, b3: Word, b4: Word)
    ensures Not(ChiLane(b0, b1, b2)) == Xor(And(b2, Not(b1)), Not(b0))
    ensures ChiLane(b1, b2, b3) == Xor(Or(Not(b3), b2), Not(b1))
    ensures ChiLane(b2, b3, b4) == Xor(And(b4, Not(b3)), b2)
    ensures ChiLane(b3, b4, b0) == Xor(Or(Not(b0), b4), Not(b3))
    ensures ChiLane(b4, b0, b1) == Xor(And(Not(b0), b1), b4)
  {
  }

  // The first plane: lanes 0 to 4 of the new state, with the round constant.
  method Plane0(rdi: array<Word>, rsi: array<Word>, rax: Word, rbx: Word, rcx: Word, rdx: Word, rbp: Word,
               in8: Word, in9: Word, in10: Word, in11: Word, in12: Word, iotas: nat, in15: nat, ghost b: seq<Word>)
    returns (r8: Word, r9: Word, r10: Word, r11: Word, r12: Word, r15: nat)
    requires rdi.Length == rsi.Length == 25 && rdi != rsi && |b| == 5
    requires Xor(in8, rbx) == Not(b[0]) && Rol(Xor(in9, rcx), 44) == b[1]
    requires Rol(Xor(in10, rdx), 43) == Not(b[2]) && Rol(Xor(in11, rbp), 21) == Not(b[3])
    requires Rol(Xor(in12, rax), 14) == b[4]
    requires InTable(iotas, in15)
    modifies rsi
    ensures rsi[..] == FirstXor(Stored(0, b), IotaAt(iotas, in15)) + old(rsi[5..])
    ensures r8 == rdi[3] && r9 == rdi[9] && r10 == rdi[10] && r11 == rdi[16] && r12 == rdi[22]
    ensures r15 == in15 + 8
  {
    ChiPlane0(b[0], b[1], b[2], b[3], b[4]);
    r8, r9, r10, r11, r12 := in8, in9, in10, in11, in12;
    r15 := in15;
    r9 := Xor(r9, rcx);
    r10 := Xor(r10, rdx);
    r9 := Rol(r9, 44);
    r11 := Xor(r11, rbp);
    r12 := Xor(r12, rax);
    r10 := Rol(r10, 43);
    r8 := Xor(r8, rbx);
    var r13 := r9;
    r11 := Rol(r11, 21);
    r9 := Or(r9, r10);
    r9 := Xor(r9, r8);
    r12 := Rol(r12, 14);

    r9 := Xor(r9, IotaAt(iotas, r15));
    r15 := r15 + 8;

    var r14 := r12;
    r12 := And(r12, r11);
    rsi[0] := r9;
    r12 := Xor(r12, r10);
    r10 := Not(r10);
    rsi[2] := r12;

    r10 := Or(r10, r11);
    r12 := rdi[22];
    r10 := Xor(r10, r13);
    rsi[1] := r10;

    r13 := And(r13, r8);
    r9 := rdi[9];
    r13 := Xor(r13, r14);
    r10 := rdi[10];
    rsi[4] := r13;

    r14 := Or(r14, r8);
    r8 := rdi[3];
    r14 := Xor(r14, r11);
    r11 := rdi[16];
    rsi[3] := r14;
    ghost var p := FirstXor(Stored(0, b), IotaAt(iotas, in15));
    assert rsi[0] == p[0] && rsi[1] == p[1] && rsi[2] == p[2] && rsi[3] == p[3] && rsi[4] == p[4];
  }

  // The second plane: lanes 5 to 9.
  method Plane1(rdi: array<Word>, rsi: array<Word>, rax: Word, rbx: Word, rcx: Word, rdx: Word, rbp: Word,
               in8: Word, in9: Word, in10: Word, in11: Word, in12: Word, ghost b: seq<Word>)
    returns (r8: Word, r9: Word, r10: Word, r11: Word, r12: Word)
    requires rdi.Length == rsi.Length == 25 && rdi != rsi && |b| == 5
    requires Rol(Xor(in8, rbp), 28) == Not(b[0]) && Rol(Xor(in9, rax), 20) == b[1]
    requires Rol(Xor(in10, rbx), 3) == Not(b[2]) && Rol(Xor(in11, rcx), 45) == b[3]
    requires Rol(Xor(in12, rdx), 61) == b[4]
    modifies rsi
    ensures rsi[..] == old(rsi[..5]) + Stored(1, b) + old(rsi[10..])
    ensures r8 == rdi[1] && r9 == rdi[7] && r10 == rdi[13] && r11 == rdi[19] && r12 == rdi[20]
  {
    ChiPlane1(b[0], b[1], b[2], b[3], b[4]);
    r8, r9, r10, r11, r12 := in8, in9, in10, in11, in12;
    r8 := Xor(r8, rbp);
    r12 := Xor(r12, rdx);
    r8 := Rol(r8, 28);
    r11 := Xor(r11, rcx);
    r9 := Xor(r9, rax);
    r12 := Rol(r12, 61);
    r11 := Rol(r11, 45);
    r10 := Xor(r10, rbx);
    r9 := Rol(r9, 20);
    var r13 := r8;
    r8 := Or(r8, r12);
    r10 := Rol(r10, 3);

    r8 := Xor(r8, r11);
    rsi[8] := r8;

    var r14 := r9;
    r9 := And(r9, r13);
    r8 := rdi[1];
    r9 := Xor(r9, r12);
    r12 := Not(r12);
    rsi[9] := r9;

    r12 := Or(r12, r11);
    r9 := rdi[7];
    r12 := Xor(r12, r10);
    rsi[7] := r12;

    r11 := And(r11, r10);
    r12 := rdi[20];
    r11 := Xor(r11, r14);
    rsi[6] := r11;

    r14 := Or(r14, r10);
    r10 := rdi[13];
    r14 := Xor(r14, r13);
    r11 := rdi[19];
    rsi[5] := r14;
    ghost var p := Stored(1, b);
    assert rsi[5] == p[0] && rsi[6] == p[1] && rsi[7] == p[2] && rsi[8] == p[3] && rsi[9] == p[4];
  }

  // The third plane: lanes 10 to 14.
  method Plane2(rdi: array<Word>, rsi: array<Word>, rax: Word, rbx: Word, rcx: Word, rdx: Word, rbp: Word,
               in8: Word, in9: Word, in10: Word, in11: Word, in12: Word, ghost b: seq<Word>)
    returns (r9: Word, r10: Word, r11: Word, r12: Word)
    requires rdi.Length == rsi.Length == 25 && rdi != rsi && |b| == 5
    requires Rol(Xor(in8, rcx), 1) == Not(b[0]) && Rol(Xor(in9, rdx), 6) == b[1]
    requires Rol(Xor(in10, rbp), 25) == Not(b[2]) && Rol(Xor(in11, rax), 8) == b[3]
    requires Rol(Xor(in12, rbx), 18) == b[4]
    modifies rsi
    ensures rsi[..] == old(rsi[..10]) + Stored(2, b) + old(rsi[15..])
    ensures r9 == rdi[5] && r10 == rdi[11] && r11 == rdi[17] && r12 == rdi[23]
  {
    ChiPlane2(b[0], b[1], b[2], b[3], b[4]);
    r9, r10, r11, r12 := in9, in10, in11, in12;
    var r8 := in8;
    r10 := Xor(r10, rbp);
    r11 := Xor(r11, rax);
    r10 := Rol(r10, 25);
    r9 := Xor(r9, rdx);
    r11 := Rol(r11, 8);
    r12 := Xor(r12, rbx);
    r9 := Rol(r9, 6);
    r8 := Xor(r8, rcx);
    r12 := Rol(r12, 18);
    var r13 := r10;
    r10 := And(r10, r11);
    r8 := Rol(r8, 1);

    r11 := Not(r11);
    r10 := Xor(r10, r9);
    rsi[11] := r10;

    var r14 := r12;
    r12 := And(r12, r11);
    r10 := rdi[11];
    r12 := Xor(r12, r13);
    rsi[12] := r12;

    r13 := Or(r13, r9);
    r12 := rdi[23];
    r13 := Xor(r13, r8);
    rsi[10] := r13;

    r9 := And(r9, r8);
    r9 := Xor(r9, r14);
    rsi[14] := r9;

    r14 := Or(r14, r8);
    r9 := rdi[5];
    r14 := Xor(r14, r11);
    r11 := rdi[17];
    rsi[13] := r14;
    ghost var p := Stored(2, b);
    assert rsi[10] == p[0] && rsi[11] == p[1] && rsi[12] == p[2] && rsi[13] == p[3] && rsi[14] == p[4];
  }

  // The fourth plane: lanes 15 to 19.
  method Plane3(rdi: array<Word>, rsi: array<Word>, rax: Word, rbx: Word, rcx: Word, rdx: Word, rbp: Word,
               in9: Word, in10: Word, in11: Word, in12: Word, ghost b: seq<Word>)
    requires rdi.Length == rsi.Length == 25 && rdi != rsi && |b| == 5
    requires Rol(Xor(rdi[4], rax), 27) == b[0] && Rol(Xor(in9, rbx), 36) == Not(b[1])
    requires Rol(Xor(in10, rcx), 10) == b[2] && Rol(Xor(in11, rdx), 15) == Not(b[3])
    requires Rol(Xor(in12, rbp), 56) == Not(b[4])
    modifies rsi
    ensures rsi[..] == old(rsi[..15]) + Stored(3, b) + old(rsi[20..])
  {
    ChiPlane3(b[0], b[1], b[2], b[3], b[4]);

    var r9, r10, r11, r12 := in9, in10, in11, in12;
    var r8 := rdi[4];

    r10 := Xor(r10, rcx);
    r11 := Xor(r11, rdx);
    r10 := Rol(r10, 10);
    r9 := Xor(r9, rbx);
    r11 := Rol(r11, 15);
    r12 := Xor(r12, rbp);
    r9 := Rol(r9, 36);
    r8 := Xor(r8, rax);
    r12 := Rol(r12, 56);
    var r13 := r10;
    r10 := Or(r10, r11);
    r8 := Rol(r8, 27);

    r11 := Not(r11);
    r10 := Xor(r10, r9);
    rsi[16] := r10;

    var r14 := r12;
    r12 := Or(r12, r11);
    r12 := Xor(r12, r13);
    rsi[17] := r12;

    r13 := And(r13, r9);
    r13 := Xor(r13, r8);
    rsi[15] := r13;

    r9 := Or(r9, r8);
    r9 := Xor(r9, r14);
    rsi[19] := r9;

    r8 := And(r8, r14);
    r8 := Xor(r8, r11);
    rsi[18] := r8;
    ghost var p := Stored(3, b);
    assert rsi[15] == p[0] && rsi[16] == p[1] && rsi[17] == p[2] && rsi[18] == p[3] && rsi[19] == p[4];
  }

  // The last plane: lanes 20 to 24, which stay in registers for the next pass, and the exchange of the buffers.
  method Plane4(inDi: array<Word>, inSi: array<Word>, inax: Word, inbx: Word, incx: Word, indx: Word, inbp: Word,
               ghost b: seq<Word>)
    returns (rdi: array<Word>, rsi: array<Word>, rax: Word, rbx: Word, rcx: Word, rdx: Word, rbp: Word)
    requires inDi.Length == inSi.Length == 25 && inDi != inSi && |b| == 5
    requires Rol(Xor(indx, inDi[2]), 62) == Not(b[0]) && Rol(Xor(inbp, inDi[8]), 55) == b[1]
    requires Rol(Xor(inax, inDi[14]), 39) == b[2] && Rol(Xor(inbx, inDi[15]), 41) == Not(b[3])
    requires Rol(Xor(incx, inDi[21]), 2) == b[4]
    modifies inSi
    ensures rdi == inSi && rsi == inDi
    ensures rdi[..] == old(inSi[..20]) + Stored(4, b)
    ensures rax == rdi[20] && rbx == rdi[21] && rcx == rdi[22] && rdx == rdi[23] && rbp == rdi[24]
  {
    ChiPlane4(b[0], b[1], b[2], b[3], b[4]);
    rdi, rsi := inDi, inSi;
    rax, rbx, rcx, rdx, rbp := inax, inbx, incx, indx, inbp;
    rdx := Xor(rdx, rdi[2]);
    rbp := Xor(rbp, rdi[8]);
    rdx := Rol(rdx, 62);
    rcx := Xor(rcx, rdi[21]);
    rbp := Rol(rbp, 55);
    rax := Xor(rax, rdi[14]);
    rcx := Rol(rcx, 2);
    rbx := Xor(rbx, rdi[15]);
    rsi, rdi := rdi, rsi;
    rax := Rol(rax, 39);
    rbx := Rol(rbx, 41);
    var r13 := rdx;
    rdx := And(rdx, rbp);
    rbp := Not(rbp);
    rdx := Xor(rdx, rcx);
    rdi[24] := rdx;

    var r14 := rax;
    rax := And(rax, rbp);
    rax := Xor(rax, r13);
    rdi[20] := rax;

    r13 := Or(r13, rcx);
    r13 := Xor(r13, rbx);
    rdi[23] := r13;

    rcx := And(rcx, rbx);
    rcx := Xor(rcx, r14);
    rdi[22] := rcx;

    rbx := Or(rbx, r14);
    rbx := Xor(rbx, rbp);
    rdi[21] := rbx;

    rbp := rdx;
    rdx := r13;
    ghost var p := Stored(4, b);
    assert rdi[20] == p[0] && rdi[21] == p[1] && rdi[22] == p[2] && rdi[23] == p[3] && rdi[24] == p[4];
  }

  // ---- One pass of .Loop is one round on the complemented state ----

  function PreChi(t: State): State {
    Pi(Rho(Theta(t)))
  }

  function PlaneOf(a: State, y: nat): (p: seq<Word>)
    requires y < 5
    ensures |p| == 5
  {
    a[5 * y..5 * y + 5]
  }

  predicate FlippedEffect(x: nat) {
    x == 0 || x == 3
  }

  lemma XorFlips(fa: bool, fb: bool, a: Word, b: Word)
    ensures Xor(FlipIf(fa, a), FlipIf(fb, b)) == FlipIf(fa != fb, Xor(a, b))
  {
  }

  lemma RolFlips(f: bool, a: Word, n: nat)
    requires n <= 64
    ensures Rol(FlipIf(f, a), n) == FlipIf(f, Rol(a, n))
  {
  }

  lemma RolZero(a: Word)
    ensures Rol(a, 0) == a
  {
  }

  lemma ColumnFlips(t: State, x: nat)
    requires x < 5
    ensures Column(Complement(t), x) == FlipIf(x != 4, Column(t, x))
  {
  }

  lemma EffectFlips(t: State, x: nat)
    requires x < 5
    ensures Effect(Complement(t), x) == FlipIf(FlippedEffect(x), Effect(t, x))
  {
    hide Column;
    hide Xor;
    hide Rol;
    hide FlipIf;
    var l, r := (x + 4) % 5, (x + 1) % 5;
    ColumnFlips(t, l);
    ColumnFlips(t, r);
    RolFlips(r != 4, Column(t, r), 1);
    XorFlips(l != 4, r != 4, Column(t, l), Rol(Column(t, r), 1));
  }

  /** Lane i enters chi as lane j of the complemented state, corrected by theta and rotated by n bits;
      it is complemented exactly when one of its two parts is. */
  lemma Enters(t: State, i: nat, j: nat, n: nat)
    requires i < 25 && PiSource(i) == j && RhoOffset(j) == n
    ensures Rol(Xor(Complement(t)[j], Effect(Complement(t), j % 5)), n)
         == FlipIf(Flipped(j) != FlippedEffect(j % 5), PreChi(t)[i])
  {
    EffectFlips(t, j % 5);
    XorFlips(Flipped(j), FlippedEffect(j % 5), t[j], Effect(t, j % 5));
    RolFlips(Flipped(j) != FlippedEffect(j % 5), Xor(t[j], Effect(t, j % 5)), n);
  }

  lemma PlaneIndex(y: nat, x: nat) returns (i: nat)
    requires x < 5 && y < 5
    ensures i == 5 * y + x < 25 && i / 5 * 5 == 5 * y
    ensures InPlane(i, 1) == 5 * y + (x + 1) % 5 && InPlane(i, 2) == 5 * y + (x + 2) % 5
  {
    i := 5 * y + x;
  }

  lemma ChiAtIndex(a: State, i: nat)
    requires i < 25
    ensures Chi(a)[i] == ChiLane(a[i], a[InPlane(i, 1)], a[InPlane(i, 2)])
  {
    hide InPlane;
    hide ChiLane;
  }

  lemma ChiAt(a: State, y: nat, x: nat)
    requires x < 5 && y < 5
    ensures 0 <= 5 * y + x < 25
    ensures Chi(a)[5 * y + x] == ChiLane(a[5 * y + x], a[5 * y + (x + 1) % 5], a[5 * y + (x + 2) % 5])
  {
    hide Chi;
    hide ChiLane;
    hide InPlane;
    var i := PlaneIndex(y, x);
    ChiAtIndex(a, i);
  }

  lemma StoredIsChi(a: State, y: nat)
    requires y < 5
    ensures Stored(y, PlaneOf(a, y)) == PlaneOf(Complement(Chi(a)), y)
  {
    hide ChiLane;
    hide Chi;
    hide FlipIf;
    hide Flipped;
    ChiAt(a, y, 0);
    ChiAt(a, y, 1);
    ChiAt(a, y, 2);
    ChiAt(a, y, 3);
    ChiAt(a, y, 4);
  }

  lemma RoundByPlanes(t: State, rc: Word)
    ensures Complement(Round(t, rc))
         == FirstXor(Stored(0, PlaneOf(PreChi(t), 0)), rc) + Stored(1, PlaneOf(PreChi(t), 1))
          + Stored(2, PlaneOf(PreChi(t), 2)) + Stored(3, PlaneOf(PreChi(t), 3)) + Stored(4, PlaneOf(PreChi(t), 4))
  {
    hide Chi;
    hide Xor;
    hide Stored;
    var a := PreChi(t);
    StoredIsChi(a, 0);
    StoredIsChi(a, 1);
    StoredIsChi(a, 2);
    StoredIsChi(a, 3);
    StoredIsChi(a, 4);
    var c := Complement(Chi(a));
    assert Complement(Round(t, rc)) == c[0 := Xor(c[0], rc)];
  }

  // What enters each plane of chi, in the code's registers.
  lemma Inputs0(t: State, c: State, b: seq<Word>)
    requires c == Complement(t) && b == PlaneOf(PreChi(t), 0)
    ensures Xor(c[0], Effect(c, 0)) == Not(b[0])
    ensures Rol(Xor(c[6], Effect(c, 1)), 44) == b[1]
    ensures Rol(Xor(c[12], Effect(c, 2)), 43) == Not(b[2])
    ensures Rol(Xor(c[18], Effect(c, 3)), 21) == Not(b[3])
    ensures Rol(Xor(c[24], Effect(c, 4)), 14) == b[4]
  {
    hide Effect;
    hide PreChi;
    hide Xor;
    hide Rol;
    Enters(t, 0, 0, 0);
    Enters(t, 1, 6, 44);
    Enters(t, 2, 12, 43);
    Enters(t, 3, 18, 21);
    Enters(t, 4, 24, 14);
    RolZero(Xor(c[0], Effect(c, 0)));
  }

  lemma Inputs1(t: State, c: State, b: seq<Word>)
    requires c == Complement(t) && b == PlaneOf(PreChi(t), 1)
    ensures Rol(Xor(c[3], Effect(c, 3)), 28) == Not(b[0])
    ensures Rol(Xor(c[9], Effect(c, 4)), 20) == b[1]
    ensures Rol(Xor(c[10], Effect(c, 0)), 3) == Not(b[2])
    ensures Rol(Xor(c[16], Effect(c, 1)), 45) == b[3]
    ensures Rol(Xor(c[22], Effect(c, 2)), 61) == b[4]
  {
    hide Effect;
    hide PreChi;
    hide Xor;
    hide Rol;
    Enters(t, 5, 3, 28);
    Enters(t, 6, 9, 20);
    Enters(t, 7, 10, 3);
    Enters(t, 8, 16, 45);
    Enters(t, 9, 22, 61);
  }

  lemma Inputs2(t: State, c: State, b: seq<Word>)
    requires c == Complement(t) && b == PlaneOf(PreChi(t), 2)
    ensures Rol(Xor(c[1], Effect(c, 1)), 1) == Not(b[0])
    ensures Rol(Xor(c[7], Effect(c, 2)), 6) == b[1]
    ensures Rol(Xor(c[13], Effect(c, 3)), 25) == Not(b[2])
    ensures Rol(Xor(c[19], Effect(c, 4)), 8) == b[3]
    ensures Rol(Xor(c[20], Effect(c, 0)), 18) == b[4]
  {
    hide Effect;
    hide PreChi;
    hide Xor;
    hide Rol;
    Enters(t, 10, 1, 1);
    Enters(t, 11, 7, 6);
    Enters(t, 12, 13, 25);
    Enters(t, 13, 19, 8);
    Enters(t, 14, 20, 18);
  }

  lemma Inputs3(t: State, c: State, b: seq<Word>)
    requires c == Complement(t) && b == PlaneOf(PreChi(t), 3)
    ensures Rol(Xor(c[4], Effect(c, 4)), 27) == b[0]
    ensures Rol(Xor(c[5], Effect(c, 0)), 36) == Not(b[1])
    ensures Rol(Xor(c[11], Effect(c, 1)), 10) == b[2]
    ensures Rol(Xor(c[17], Effect(c, 2)), 15) == Not(b[3])
    ensures Rol(Xor(c[23], Effect(c, 3)), 56) == Not(b[4])
  {
    hide Effect;
    hide PreChi;
    hide Xor;
    hide Rol;
    Enters(t, 15, 4, 27);
    Enters(t, 16, 5, 36);
    Enters(t, 17, 11, 10);
    Enters(t, 18, 17, 15);
    Enters(t, 19, 23, 56);
  }

  lemma Inputs4(t: State, c: State, b: seq<Word>)
    requires c == Complement(t) && b == PlaneOf(PreChi(t), 4)
    ensures Rol(Xor(Effect(c, 2), c[2]), 62) == Not(b[0])
    ensures Rol(Xor(Effect(c, 3), c[8]), 55) == b[1]
    ensures Rol(Xor(Effect(c, 4), c[14]), 39) == b[2]
    ensures Rol(Xor(Effect(c, 0), c[15]), 41) == Not(b[3])
    ensures Rol(Xor(Effect(c, 1), c[21]), 2) == b[4]
  {
    hide Effect;
    hide PreChi;
    hide Xor;
    hide Rol;
    Enters(t, 20, 2, 62);
    XorCommutes(c[2], Effect(c, 2));
    Enters(t, 21, 8, 55);
    XorCommutes(c[8], Effect(c, 3));
    Enters(t, 22, 14, 39);
    XorCommutes(c[14], Effect(c, 4));
    Enters(t, 23, 15, 41);
    XorCommutes(c[15], Effect(c, 0));
    Enters(t, 24, 21, 2);
    XorCommutes(c[21], Effect(c, 1));
  }

  // One pass of .Loop.
  method Pass(inDi: array<Word>, inSi: array<Word>, inax: Word, inbx: Word, incx: Word, indx: Word, inbp: Word,
              iotas: nat, in15: nat, ghost t: State)
    returns (rdi: array<Word>, rsi: array<Word>, rax: Word, rbx: Word, rcx: Word, rdx: Word, rbp: Word, r15: nat)
    requires inDi.Length == inSi.Length == 25 && inDi != inSi
    requires inDi[..] == Complement(t)
    requires inax == inDi[20] && inbx == inDi[21] && incx == inDi[22] && indx == inDi[23] && inbp == inDi[24]
    requires InTable(iotas, in15)
    modifies inSi
    ensures rdi == inSi && rsi == inDi && r15 == in15 + 8
    ensures rdi[..] == Complement(Round(t, IotaAt(iotas, in15)))
    ensures rax == rdi[20] && rbx == rdi[21] && rcx == rdi[22] && rdx == rdi[23] && rbp == rdi[24]
  {
    hide *;
    ghost var c := Complement(t);
    ghost var b0, b1, b2 := PlaneOf(PreChi(t), 0), PlaneOf(PreChi(t), 1), PlaneOf(PreChi(t), 2);
    ghost var b3, b4 := PlaneOf(PreChi(t), 3), PlaneOf(PreChi(t), 4);
    var r8, r9, r10, r11, r12;
    rax, rbx, rcx, rdx, rbp, r8, r9, r10, r11, r12 := ThetaBlock(c, inDi, inax, inbx, incx, indx, inbp);

    Inputs0(t, c, b0);
    r8, r9, r10, r11, r12, r15 := Plane0(inDi, inSi, rax, rbx, rcx, rdx, rbp, r8, r9, r10, r11, r12, iotas, in15, b0);
    Inputs1(t, c, b1);
    r8, r9, r10, r11, r12 := Plane1(inDi, inSi, rax, rbx, rcx, rdx, rbp, r8, r9, r10, r11, r12, b1);
    Inputs2(t, c, b2);
    r9, r10, r11, r12 := Plane2(inDi, inSi, rax, rbx, rcx, rdx, rbp, r8, r9, r10, r11, r12, b2);
    Inputs3(t, c, b3);
    Plane3(inDi, inSi, rax, rbx, rcx, rdx, rbp, r9, r10, r11, r12, b3);
    Inputs4(t, c, b4);
    rdi, rsi, rax, rbx, rcx, rdx, rbp := Plane4(inDi, inSi, rax, rbx, rcx, rdx, rbp, b4);

    RoundByPlanes(t, IotaAt(iotas, in15));
  }

  // ---- The table iotas holds the round constants of the standard ----

  function Bit(b: bool): nat { if b then 1 else 0 }

  /** The constant of a round as a number, from the register at the start of the round. */
  function ConstantOf(r: Register): nat {
    var s1 := LfsrStep(r);
    var s2 := LfsrStep(s1);
    var s3 := LfsrStep(s2);
    var s4 := LfsrStep(s3);
    var s5 := LfsrStep(s4);
    var s6 := LfsrStep(s5);
    Bit(r.r0) + 2 * Bit(s1.r0) + 8 * Bit(s2.r0) + 0x80 * Bit(s3.r0) + 0x8000 * Bit(s4.r0)
      + 0x8000_0000 * Bit(s5.r0) + 0x8000_0000_0000_0000 * Bit(s6.r0)
  }

  function Seven(r: Register): Register {
    LfsrStep(LfsrStep(LfsrStep(LfsrStep(LfsrStep(LfsrStep(LfsrStep(r)))))))
  }

  // Spelled out so that one unfolding of Lfsr serves each equation.
  lemma LfsrSteps(t: nat)
    ensures Lfsr(t + 1) == LfsrStep(Lfsr(t))
  {
  }

  lemma LfsrSeven(t: nat)
    ensures Lfsr(t + 1).r0 == LfsrStep(Lfsr(t)).r0
    ensures Lfsr(t + 7) == Seven(Lfsr(t))
  {
    hide Lfsr;
    hide LfsrStep;
    LfsrSteps(t);
    LfsrSteps(t + 1);
    LfsrSteps(t + 2);
    LfsrSteps(t + 3);
    LfsrSteps(t + 4);
    LfsrSteps(t + 5);
    LfsrSteps(t + 6);
  }

  // The register at the start of each round and the constant it makes, two rounds at a time.
  lemma TwoRounds(t: nat, r: Register, s: Register, next: Register, c: nat, d: nat)
    requires Lfsr(t) == r && Seven(r) == s && Seven(s) == next && ConstantOf(r) == c && ConstantOf(s) == d
    ensures ConstantOf(Lfsr(t)) == c && ConstantOf(Lfsr(t + 7)) == d && Lfsr(t + 14) == next
  {
    hide *;
    LfsrSeven(t);
    LfsrSeven(t + 7);
  }

  lemma Rounds0And1(t: nat)
    requires Lfsr(t) == R(true, false, false, false, false, false, false, false)
    ensures ConstantOf(Lfsr(t)) == 0x1 && ConstantOf(Lfsr(t + 7)) == 0x8082
    ensures Lfsr(t + 14) == R(false, false, false, true, true, false, true, true)
  {
    hide Lfsr;
    var r := R(true, false, false, false, false, false, false, false);
    var s := R(false, false, false, false, false, false, false, true);
    TwoRounds(t, r, s, R(false, false, false, true, true, false, true, true), 0x1, 0x8082);
  }

  lemma Rounds2And3(t: nat)
    requires Lfsr(t) == R(false, false, false, true, true, false, true, true)
    ensures ConstantOf(Lfsr(t)) == 0x800000000000808a && ConstantOf(Lfsr(t + 7)) == 0x8000000080008000
    ensures Lfsr(t + 14) == R(true, true, true, true, true, false, true, true)
  {
    hide Lfsr;
    var r := R(false, false, false, true, true, false, true, true);
    var s := R(false, true, false, true, true, false, false, false);
    TwoRounds(t, r, s, R(true, true, true, true, true, false, true, true), 0x800000000000808a, 0x8000000080008000);
  }

  lemma Rounds4And5(t: nat)
    requires Lfsr(t) == R(true, true, true, true, true, false, true, true)
    ensures ConstantOf(Lfsr(t)) == 0x808b && ConstantOf(Lfsr(t + 7)) == 0x80000001
    ensures Lfsr(t + 14) == R(true, false, true, false, true, true, false, false)
  {
    hide Lfsr;
    var r := R(true, true, true, true, true, false, true, true);
    var s := R(true, false, false, true, false, false, false, false);
    TwoRounds(t, r, s, R(true, false, true, false, true, true, false, false), 0x808b, 0x80000001);
  }

  lemma Rounds6And7(t: nat)
    requires Lfsr(t) == R(true, false, true, false, true, true, false, false)
    ensures ConstantOf(Lfsr(t)) == 0x8000000080008081 && ConstantOf(Lfsr(t + 7)) == 0x8000000000008009
    ensures Lfsr(t + 14) == R(false, true, false, true, false, false, true, true)
  {
    hide Lfsr;
    var r := R(true, false, true, false, true, true, false, false);
    var s := R(true, true, true, true, false, false, true, false);
    TwoRounds(t, r, s, R(false, true, false, true, false, false, true, true), 0x8000000080008081, 0x8000000000008009);
  }

  lemma Rounds8And9(t: nat)
    requires Lfsr(t) == R(false, true, false, true, false, false, true, true)
    ensures ConstantOf(Lfsr(t)) == 0x8a && ConstantOf(Lfsr(t + 7)) == 0x88
    ensures Lfsr(t + 14) == R(true, false, false, false, false, false, true, false)
  {
    hide Lfsr;
    var r := R(false, true, false, true, false, false, true, true);
    var s := R(false, false, false, false, true, true, true, false);
    TwoRounds(t, r, s, R(true, false, false, false, false, false, true, false), 0x8a, 0x88);
  }

  lemma Rounds10And11(t: nat)
    requires Lfsr(t) == R(true, false, false, false, false, false, true, false)
    ensures ConstantOf(Lfsr(t)) == 0x80008009 && ConstantOf(Lfsr(t + 7)) == 0x8000000a
    ensures Lfsr(t + 14) == R(true, false, true, false, true, false, true, true)
  {
    hide Lfsr;
    var r := R(true, false, false, false, false, false, true, false);
    var s := R(false, false, true, true, false, true, true, true);
    TwoRounds(t, r, s, R(true, false, true, false, true, false, true, true), 0x80008009, 0x8000000a);
  }

  lemma Rounds12And13(t: nat)
    requires Lfsr(t) == R(true, false, true, false, true, false, true, true)
    ensures ConstantOf(Lfsr(t)) == 0x8000808b && ConstantOf(Lfsr(t + 7)) == 0x800000000000008b
    ensures Lfsr(t + 14) == R(true, true, false, false, false, true, true, false)
  {
    hide Lfsr;
    var r := R(true, false, true, false, true, false, true, true);
    var s := R(true, false, true, true, false, false, true, true);
    TwoRounds(t, r, s, R(true, true, false, false, false, true, true, false), 0x8000808b, 0x800000000000008b);
  }

  lemma Rounds14And15(t: nat)
    requires Lfsr(t) == R(true, true, false, false, false, true, true, false)
    ensures ConstantOf(Lfsr(t)) == 0x8000000000008089 && ConstantOf(Lfsr(t + 7)) == 0x8000000000008003
    ensures Lfsr(t + 14) == R(false, true, false, true, false, true, false, true)
  {
    hide Lfsr;
    var r := R(true, true, false, false, false, true, true, false);
    var s := R(true, true, false, true, false, true, false, true);
    TwoRounds(t, r, s, R(false, true, false, true, false, true, false, true), 0x8000000000008089, 0x8000000000008003);
  }

  lemma Rounds16And17(t: nat)
    requires Lfsr(t) == R(false, true, false, true, false, true, false, true)
    ensures ConstantOf(Lfsr(t)) == 0x8000000000008002 && ConstantOf(Lfsr(t + 7)) == 0x8000000000000080
    ensures Lfsr(t + 14) == R(false, true, false, false, true, true, true, true)
  {
    hide Lfsr;
    var r := R(false, true, false, true, false, true, false, true);
    var s := R(false, true, false, true, false, true, false, false);
    TwoRounds(t, r, s, R(false, true, false, false, true, true, true, true), 0x8000000000008002, 0x8000000000000080);
  }

  lemma Rounds18And19(t: nat)
    requires Lfsr(t) == R(false, true, false, false, true, true, true, true)
    ensures ConstantOf(Lfsr(t)) == 0x800a && ConstantOf(Lfsr(t + 7)) == 0x800000008000000a
    ensures Lfsr(t + 14) == R(true, true, true, false, true, true, false, false)
  {
    hide Lfsr;
    var r := R(false, true, false, false, true, true, true, true);
    var s := R(false, false, false, true, false, true, true, true);
    TwoRounds(t, r, s, R(true, true, true, false, true, true, false, false), 0x800a, 0x800000008000000a);
  }

  lemma Rounds20And21(t: nat)
    requires Lfsr(t) == R(true, true, true, false, true, true, false, false)
    ensures ConstantOf(Lfsr(t)) == 0x8000000080008081 && ConstantOf(Lfsr(t + 7)) == 0x8000000000008080
    ensures Lfsr(t + 14) == R(true, true, false, true, false, false, false, false)
  {
    hide Lfsr;
    var r := R(true, true, true, false, true, true, false, false);
    var s := R(false, true, true, true, true, true, false, false);
    TwoRounds(t, r, s, R(true, true, false, true, false, false, false, false), 0x8000000080008081, 0x8000000000008080);
  }

  lemma Rounds22And23(t: nat)
    requires Lfsr(t) == R(true, true, false, true, false, false, false, false)
    ensures ConstantOf(Lfsr(t)) == 0x80000001 && ConstantOf(Lfsr(t + 7)) == 0x8000000080008008
    ensures Lfsr(t + 14) == R(false, true, true, true, false, false, false, true)
  {
    hide Lfsr;
    var r := R(true, true, false, true, false, false, false, false);
    var s := R(false, false, true, false, false, false, true, false);
    TwoRounds(t, r, s, R(false, true, true, true, false, false, false, true), 0x80000001, 0x8000000080008008);
  }

  lemma Constants0To5(t: nat)
    requires Lfsr(t) == R(true, false, false, false, false, false, false, false)
    ensures ConstantOf(Lfsr(t)) == 0x1
    ensures ConstantOf(Lfsr(t + 7)) == 0x8082
    ensures ConstantOf(Lfsr(t + 14)) == 0x800000000000808a
    ensures ConstantOf(Lfsr(t + 21)) == 0x8000000080008000
    ensures ConstantOf(Lfsr(t + 28)) == 0x808b
    ensures ConstantOf(Lfsr(t + 35)) == 0x80000001
    ensures Lfsr(t + 42) == R(true, false, true, false, true, true, false, false)
  {
    hide *;
    Rounds0And1(t);
    Rounds2And3(t + 14);
    Rounds4And5(t + 28);
  }

  lemma Constants6To11(t: nat)
    requires Lfsr(t) == R(true, false, true, false, true, true, false, false)
    ensures ConstantOf(Lfsr(t)) == 0x8000000080008081
    ensures ConstantOf(Lfsr(t + 7)) == 0x8000000000008009
    ensures ConstantOf(Lfsr(t + 14)) == 0x8a
    ensures ConstantOf(Lfsr(t + 21)) == 0x88
    ensures ConstantOf(Lfsr(t + 28)) == 0x80008009
    ensures ConstantOf(Lfsr(t + 35)) == 0x8000000a
    ensures Lfsr(t + 42) == R(true, false, true, false, true, false, true, true)
  {
    hide *;
    Rounds6And7(t);
    Rounds8And9(t + 14);
    Rounds10And11(t + 28);
  }

  lemma Constants12To17(t: nat)
    requires Lfsr(t) == R(true, false, true, false, true, false, true, true)
    ensures ConstantOf(Lfsr(t)) == 0x8000808b
    ensures ConstantOf(Lfsr(t + 7)) == 0x800000000000008b
    ensures ConstantOf(Lfsr(t + 14)) == 0x8000000000008089
    ensures ConstantOf(Lfsr(t + 21)) == 0x8000000000008003
    ensures ConstantOf(Lfsr(t + 28)) == 0x8000000000008002
    ensures ConstantOf(Lfsr(t + 35)) == 0x8000000000000080
    ensures Lfsr(t + 42) == R(false, true, false, false, true, true, true, true)
  {
    hide *;
    Rounds12And13(t);
    Rounds14And15(t + 14);
    Rounds16And17(t + 28);
  }

  lemma Constants18To23(t: nat)
    requires Lfsr(t) == R(false, true, false, false, true, true, true, true)
    ensures ConstantOf(Lfsr(t)) == 0x800a
    ensures ConstantOf(Lfsr(t + 7)) == 0x800000008000000a
    ensures ConstantOf(Lfsr(t + 14)) == 0x8000000080008081
    ensures ConstantOf(Lfsr(t + 21)) == 0x8000000000008080
    ensures ConstantOf(Lfsr(t + 28)) == 0x80000001
    ensures ConstantOf(Lfsr(t + 35)) == 0x8000000080008008
    ensures Lfsr(t + 42) == R(false, true, true, true, false, false, false, true)
  {
    hide *;
    Rounds18And19(t);
    Rounds20And21(t + 14);
    Rounds22And23(t + 28);
  }

  // t is 0; naming it keeps the verifier from running the register.
  lemma RegisterEverySixRounds(t: nat)
    requires t == 0
    ensures Lfsr(t) == R(true, false, false, false, false, false, false, false)
    ensures Lfsr(t + 42) == R(true, false, true, false, true, true, false, false)
    ensures Lfsr(t + 84) == R(true, false, true, false, true, false, true, true)
    ensures Lfsr(t + 126) == R(false, true, false, false, true, true, true, true)
  {
    hide ConstantOf;
    Constants0To5(t);
    Constants6To11(t + 42);
    Constants12To17(t + 84);
  }

  lemma IotasFromRegister(ir: nat)
    requires ir < 24
    ensures ConstantOf(Lfsr(7 * ir)) == IOTAS[ir]
  {
    hide Lfsr;
    hide ConstantOf;
    RegisterEverySixRounds(0);
    if ir < 6 {
      Constants0To5(0);
      assert ir == 0 || ir == 1 || ir == 2 || ir == 3 || ir == 4 || ir == 5;
    } else if ir < 12 {
      Constants6To11(42);
      assert ir == 6 || ir == 7 || ir == 8 || ir == 9 || ir == 10 || ir == 11;
    } else if ir < 18 {
      Constants12To17(84);
      assert ir == 12 || ir == 13 || ir == 14 || ir == 15 || ir == 16 || ir == 17;
    } else {
      Constants18To23(126);
      assert ir == 18 || ir == 19 || ir == 20 || ir == 21 || ir == 22 || ir == 23;
    }
  }

  /** The number whose bits 2^j - 1 are b0 to b6. */
  lemma SpacedBits(w: Word, b0: bool, b1: bool, b2: bool, b3: bool, b4: bool, b5: bool, b6: bool)
    requires w == [b0] + Zeros(0) + ([b1] + Zeros(1) + ([b2] + Zeros(3) + ([b3] + Zeros(7)
                + ([b4] + Zeros(15) + ([b5] + Zeros(31) + [b6])))))
    ensures NatOf(w) == Bit(b0) + 2 * Bit(b1) + 8 * Bit(b2) + 0x80 * Bit(b3) + 0x8000 * Bit(b4)
                      + 0x8000_0000 * Bit(b5) + 0x8000_0000_0000_0000 * Bit(b6)
  {
    Pow2Of8();
    Pow2Of16();
    Pow2Of32();
    assert NatOf([b6]) == Bit(b6);
    hide *;
    var w5 := [b5] + Zeros(31) + [b6];
    var w4 := [b4] + Zeros(15) + w5;
    var w3 := [b3] + Zeros(7) + w4;
    var w2 := [b2] + Zeros(3) + w3;
    var w1 := [b1] + Zeros(1) + w2;
    SpacedBit(b5, 31, 0x1_0000_0000, [b6]);
    SpacedBit(b4, 15, 0x1_0000, w5);
    SpacedBit(b3, 7, 0x100, w4);
    SpacedBit(b2, 3, 16, w3);
    SpacedBit(b1, 1, 4, w2);
    SpacedBit(b0, 0, 2, w1);
  }

  lemma RoundConstantBits(ir: nat)
    requires ir < 24
    ensures RoundConstant(ir)
         == [Rc(7 * ir)] + Zeros(0) + ([Rc(7 * ir + 1)] + Zeros(1) + ([Rc(7 * ir + 2)] + Zeros(3)
          + ([Rc(7 * ir + 3)] + Zeros(7) + ([Rc(7 * ir + 4)] + Zeros(15) + ([Rc(7 * ir + 5)] + Zeros(31)
          + [Rc(7 * ir + 6)])))))
  {
    hide Rc;
  }

  lemma RcIs(t: nat)
    requires t < 255
    ensures Rc(t) == Lfsr(t).r0
  {
    assert t % 255 == t;
  }

  /** The bits that one round of the register yields make up its constant. */
  lemma {:induction false} ConstantOfBits(t: nat)
    requires t + 6 < 255
    ensures ConstantOf(Lfsr(t))
         == Bit(Rc(t)) + 2 * Bit(Rc(t + 1)) + 8 * Bit(Rc(t + 2)) + 0x80 * Bit(Rc(t + 3)) + 0x8000 * Bit(Rc(t + 4))
          + 0x8000_0000 * Bit(Rc(t + 5)) + 0x8000_0000_0000_0000 * Bit(Rc(t + 6))
  {
    hide Rc;
    hide Lfsr;
    hide LfsrStep;
    RcIs(t);
    RcIs(t + 1);
    RcIs(t + 2);
    RcIs(t + 3);
    RcIs(t + 4);
    RcIs(t + 5);
    RcIs(t + 6);
    LfsrSteps(t);
    LfsrSteps(t + 1);
    LfsrSteps(t + 2);
    LfsrSteps(t + 3);
    LfsrSteps(t + 4);
    LfsrSteps(t + 5);
  }

  lemma ConstantValue(ir: nat)
    requires ir < 24
    ensures NatOf(RoundConstant(ir)) == ConstantOf(Lfsr(7 * ir))
  {
    var t := 7 * ir;
    RoundConstantBits(ir);
    ConstantOfBits(t);
    hide *;
    SpacedBits(RoundConstant(ir), Rc(t), Rc(t + 1), Rc(t + 2), Rc(t + 3), Rc(t + 4), Rc(t + 5), Rc(t + 6));
  }

  lemma SpacedBit(b: bool, n: nat, p: nat, rest: Bits)
    requires p == Pow2(n + 1)
    ensures NatOf([b] + Zeros(n) + rest) == Bit(b) + p * NatOf(rest)
  {
    NatOfConcat([b] + Zeros(n), rest);
    NatOfConcat([b], Zeros(n));
    NatOfZeros(n);
  }

  lemma IotaIsStandard(ir: nat)
    requires ir < 24
    ensures FromNat(IOTAS[ir]) == RoundConstant(ir)
  {
    IotasFromRegister(ir);
    ConstantValue(ir);
    BitsOfNatOf(RoundConstant(ir));
  }

  // ---- The loop, the entry and the exit ----

  lemma TableEntry(iotas: nat, r15: nat, round: nat)
    requires round < 24 && r15 == iotas + 8 * round
    ensures InTable(iotas, r15) && IotaAt(iotas, r15) == RoundConstant(round)
  {
    assert (r15 - iotas) / 8 == round;
    hide FromNat;
    IotaIsStandard(round);
  }

  // __KeccakF1600. The loop counts its passes by the address in r15 alone: the table starts 64 bytes
  // after a 256-byte boundary and its 24 constants end on the next.
  method Permute(inDi: array<Word>, inSi: array<Word>, iotas: nat, in15: nat, ghost t: State)
    returns (rdi: array<Word>, r15: nat)
    requires inDi.Length == inSi.Length == 25 && inDi != inSi
    requires inDi[..] == Complement(t)
    requires iotas % 256 == 64 && in15 == iotas
    modifies inDi, inSi
    ensures rdi == inDi && rdi[..] == Complement(KeccakF(t))
    ensures r15 == iotas
  {
    hide Complement;
    hide Round;
    hide IotaAt;
    rdi, r15 := inDi, in15;
    var rsi := inSi;
    var rax, rbx, rcx, rdx, rbp := rdi[20], rdi[21], rdi[22], rdi[23], rdi[24];
    var again := true;
    ghost var round := 0;
    while again
      invariant round <= 24 && r15 == iotas + 8 * round && (again <==> round < 24)
      invariant if round % 2 == 0 then rdi == inDi && rsi == inSi else rdi == inSi && rsi == inDi
      invariant rdi[..] == Complement(Rounds(t, round))
      invariant rax == rdi[20] && rbx == rdi[21] && rcx == rdi[22] && rdx == rdi[23] && rbp == rdi[24]
      decreases 24 - round
    {
      TableEntry(iotas, r15, round);
      rdi, rsi, rax, rbx, rcx, rdx, rbp, r15 := Pass(rdi, rsi, rax, rbx, rcx, rdx, rbp, iotas, r15, Rounds(t, round));
      round := round + 1;
      again := r15 % 256 != 0;
    }
    r15 := r15 - 192;
  }

  // The six notq on entry and again on exit.
  method ComplementInPlace(rdi: array<Word>)
    requires rdi.Length == 25
    modifies rdi
    ensures rdi[..] == Complement(old(rdi[..]))
  {
    rdi[1] := Not(rdi[1]);
    rdi[2] := Not(rdi[2]);
    rdi[8] := Not(rdi[8]);
    rdi[12] := Not(rdi[12]);
    rdi[17] := Not(rdi[17]);
    rdi[20] := Not(rdi[20]);
  }

  lemma ComplementTwice(a: State)
    ensures Complement(Complement(a)) == a
  {
    forall i | 0 <= i < 25 ensures Complement(Complement(a))[i] == a[i] {
      NotTwice(a[i]);
    }
  }

  lemma NotTwice(a: Word)
    ensures Not(Not(a)) == a
  {
  }

  // KeccakF1600; scratch is the second buffer, on the stack. The linker places the 256-byte boundary
  // somewhere; iotas follows eight quad words later.
  method KeccakF1600(state: array<Word>)
    requires state.Length == 25
    modifies state
    ensures state[..] == KeccakF(old(state[..]))
  {
    hide *;
    var boundary: nat :| boundary % 256 == 0;
    var iotas := boundary + 64;
    ghost var t := state[..];
    ComplementInPlace(state);
    var scratch := new Word[25](_ => Zeros(64));
    var rdi, r15 := Permute(state, scratch, iotas, iotas, t);
    ComplementInPlace(rdi);
    ComplementTwice(KeccakF(t));
  }
}
