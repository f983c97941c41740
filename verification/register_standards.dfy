/** The RV64I register and immediate operations of the executor (execute.c:27-330)
    against sections 2.4 and 5.2 of the Unprivileged ISA 20191213, by what the result
    is for the operands and not by how it is computed. */
module RegisterStandards {
  import opened Wrappers
  import opened Words
  import opened Fields
  import opened Decode
  import Division
  import opened Execute

  /** The signed order of words, read off the unsigned one with the sign bits flipped. */
  predicate SignedLess(a: u64, b: u64) { (a + SIGN64) % B64 < (b + SIGN64) % B64 }

  /** The value an operation gives, when it is defined. */
  predicate Gives(op: AluOp, a: u64, b: u64, imm: u64, pc: u64, r: u64) { Alu(op, a, b, imm, pc) == Ok(r) }

  // ----------------------------------------------------------------- arithmetic

  /** ADD and ADDI, SUB, LUI and AUIPC: taking the second operand away again, or
      adding it back, gives the first, modulo 2^64. */
  lemma SumsAreRight(a: u64, b: u64, imm: u64, pc: u64, r: u64)
    ensures Gives(Add, a, b, imm, pc, r) <==> (r - b) % B64 == a
    ensures Gives(AddI, a, b, imm, pc, r) <==> (r - imm) % B64 == a
    ensures Gives(Sub, a, b, imm, pc, r) <==> (b + r) % B64 == a
    ensures Gives(Auipc, a, b, imm, pc, r) <==> (r - imm) % B64 == pc
    ensures Gives(Lui, a, b, imm, pc, r) <==> r == imm
  {
    AddBack(a, b, r);
    AddBack(a, imm, r);
    AddBack(pc, imm, r);
    TakeBack(a, b, r);
  }

  lemma AddBack(a: u64, b: u64, r: u64)
    ensures r == Wrap(a + b) <==> (r - b) % B64 == a
  {
  }

  lemma TakeBack(a: u64, b: u64, r: u64)
    ensures r == Wrap(a - b) <==> (b + r) % B64 == a
  {
  }

  /** SLT, SLTU, SLTI and SLTIU give 1 exactly when the order holds, else 0. */
  lemma ComparisonsAreRight(a: u64, b: u64, imm: u64, pc: u64)
    ensures Gives(Lt, a, b, imm, pc, 1) <==> SignedLess(a, b)
    ensures Gives(Lt, a, b, imm, pc, 0) <==> !SignedLess(a, b)
    ensures Gives(LtI, a, b, imm, pc, 1) <==> SignedLess(a, imm)
    ensures Gives(LtI, a, b, imm, pc, 0) <==> !SignedLess(a, imm)
    ensures Gives(Ltu, a, b, imm, pc, 1) <==> a < b
    ensures Gives(Ltu, a, b, imm, pc, 0) <==> a >= b
    ensures Gives(LtuI, a, b, imm, pc, 1) <==> a < imm
    ensures Gives(LtuI, a, b, imm, pc, 0) <==> a >= imm
  {
    SignedOrder(a, b);
    SignedOrder(a, imm);
  }

  lemma SignedOrder(a: u64, b: u64)
    ensures SignedLess(a, b) <==> Signed64(a) < Signed64(b)
  {
  }

  // ---------------------------------------------------------------------- logic

  /** AND, OR, XOR and their immediate forms, bit by bit. */
  lemma LogicIsRight(a: u64, b: u64, imm: u64, pc: u64, k: nat)
    requires k < 64
    ensures Alu(And, a, b, imm, pc).Ok? && (BitOf(Alu(And, a, b, imm, pc).value, k) <==> BitOf(a, k) && BitOf(b, k))
    ensures Alu(Or, a, b, imm, pc).Ok? && (BitOf(Alu(Or, a, b, imm, pc).value, k) <==> BitOf(a, k) || BitOf(b, k))
    ensures Alu(Xor, a, b, imm, pc).Ok? && (BitOf(Alu(Xor, a, b, imm, pc).value, k) <==> BitOf(a, k) != BitOf(b, k))
    ensures Alu(AndI, a, b, imm, pc).Ok? && (BitOf(Alu(AndI, a, b, imm, pc).value, k) <==> BitOf(a, k) && BitOf(imm, k))
    ensures Alu(OrI, a, b, imm, pc).Ok? && (BitOf(Alu(OrI, a, b, imm, pc).value, k) <==> BitOf(a, k) || BitOf(imm, k))
    ensures Alu(XorI, a, b, imm, pc).Ok? && (BitOf(Alu(XorI, a, b, imm, pc).value, k) <==> BitOf(a, k) != BitOf(imm, k))
  {
    hide Bitwise, BitOf;
    BitwiseBits(a, b, k);
    BitwiseBits(a, imm, k);
  }

  // --------------------------------------------------------------------- shifts

  /** r is a shifted left by n places in w bits: its n low bits are clear, and above
      them lie the low bits of a. */
  predicate ShiftedLeft(a: nat, n: nat, w: nat, r: nat)
    requires n < w
  {
    r < Pow2(w) && r % Pow2(n) == 0 && r / Pow2(n) == a % Pow2(w - n)
  }

  /** r is a without its n low bits. */
  predicate ShiftedRight(a: int, n: nat, r: int) { r * Pow2(n) <= a < (r + 1) * Pow2(n) }

  function Left(a: nat, n: nat, w: nat): nat { a * Pow2(n) % Pow2(w) }

  lemma LeftIs(a: nat, n: nat, w: nat)
    requires n < w
    ensures ShiftedLeft(a, n, w, Left(a, n, w))
  {
    Pow2Sum(n, w - n);
    hide Pow2, Left;
    LeftParts(a, Pow2(n), Pow2(w - n), Pow2(w), n, w);
  }

  lemma LeftParts(a: nat, p: nat, q: nat, c: nat, n: nat, w: nat)
    requires c == p * q && p > 0 && q > 0 && c > 0 && p == Pow2(n) && c == Pow2(w)
    ensures var r := Left(a, n, w); r < c && r % p == 0 && r / p == a % q
  {
    hide Pow2;
    ShiftParts(a, p, q, c, a * p);
  }

  lemma ShiftParts(a: nat, p: nat, q: nat, c: nat, x: nat)
    requires p > 0 && q > 0 && c == p * q && c > 0 && x == a * p
    ensures x % c % p == 0 && x % c / p == a % q && x % c < c
  {
    var h, l := DivMod(a, q);
    PartLess(p, l, q);
    Times(a, p, q, h, l);
    DivUnique(x, c, h, p * l);
    DivUnique(p * l, p, l, 0);
  }

  lemma PartLess(p: nat, l: nat, q: nat)
    requires p > 0 && l < q
    ensures p * l < p * q
  {
    MulLe(l + 1, q, p);
    Dist(p, l, 1);
  }

  lemma Times(a: nat, p: nat, q: nat, h: nat, l: nat)
    requires a == q * h + l
    ensures a * p == p * q * h + p * l
  {
    Dist(p, q * h, l);
    Assoc(p, q, h);
  }

  lemma RightIs(a: int, n: nat)
    ensures ShiftedRight(a, n, a / Pow2(n))
  {
    hide Pow2;
    Floor(a, Pow2(n));
  }

  lemma Floor(a: int, p: nat)
    requires p > 0
    ensures a / p * p <= a < (a / p + 1) * p
  {
    var q, r := a / p, a % p;
    assert a == p * q + r;
    assert (q + 1) * p == p * q + p;
  }

  /** SLL, SRL and SRA shift by the low six bits of rs2, SLLI, SRLI and SRAI by those of
      the immediate, SRA and SRAI with the sign. */
  lemma ShiftsAreRight(a: u64, b: u64, imm: u64, pc: u64)
    ensures var r := Alu(Shl, a, b, imm, pc); r.Ok? && ShiftedLeft(a, b % 64, 64, r.value)
    ensures var r := Alu(ShlI, a, b, imm, pc); r.Ok? && ShiftedLeft(a, imm % 64, 64, r.value)
    ensures var r := Alu(Shr, a, b, imm, pc); r.Ok? && ShiftedRight(a, b % 64, r.value)
    ensures var r := Alu(ShrI, a, b, imm, pc); r.Ok? && ShiftedRight(a, imm % 64, r.value)
    ensures var r := Alu(Sar, a, b, imm, pc); r.Ok? && ShiftedRight(Signed64(a), b % 64, Signed64(r.value))
    ensures var r := Alu(SarI, a, b, imm, pc); r.Ok? && ShiftedRight(Signed64(a), imm % 64, Signed64(r.value))
  {
    hide ShiftedLeft, ShiftedRight, Pow2, Signed64, Wrap;
    LeftWord(a, b % 64);
    LeftWord(a, imm % 64);
    RightWord(a, b % 64);
    RightWord(a, imm % 64);
    ArithWord(a, b % 64);
    ArithWord(a, imm % 64);
  }

  lemma LeftWord(a: u64, n: nat)
    requires n < 64
    ensures ShiftedLeft(a, n, 64, ShiftLeft(a, n))
  {
    hide ShiftedLeft;
    Pow2Of64();
    hide Pow2;
    LeftIs(a, n, 64);
    assert ShiftLeft(a, n) == Left(a, n, 64);
  }

  lemma RightWord(a: u64, n: nat)
    ensures ShiftedRight(a, n, ShiftRight(a, n))
  {
    hide ShiftedRight, Pow2;
    RightIs(a, n);
    Smaller(a, Pow2(n));
  }

  lemma Smaller(a: int, p: nat)
    requires p > 0
    ensures a >= 0 ==> 0 <= a / p <= a
    ensures a < 0 ==> a <= a / p < 0
  {
    var q, r := a / p, a % p;
    assert a == p * q + r;
    if q >= 0 {
      MulLe(1, p, q);
    } else {
      MulLe(1, p, -q);
      assert p * -q == -(p * q);
      MulLe(1, p, -q - 1);
      assert p * (-q - 1) == -(p * q) - p;
    }
  }

  lemma ArithWord(a: u64, n: nat)
    ensures ShiftedRight(Signed64(a), n, Signed64(ShiftArith(Signed64(a), n)))
  {
    hide ShiftedRight, Pow2;
    RightIs(Signed64(a), n);
    Smaller(Signed64(a), Pow2(n));
  }

  /** SLLW, SRLW and their immediate forms shift the low word, by five bits, and extend
      its sign (section 5.2). */
  lemma WordShiftsAreRight(a: u64, b: u64, imm: u64, pc: u64)
    ensures var r := Alu(ShlW, a, b, imm, pc); r.Ok? && ShiftedLeft(Low32(a), b % 32, 32, Low32(r.value))
    ensures var r := Alu(ShlIW, a, b, imm, pc); r.Ok? && ShiftedLeft(Low32(a), imm % 32, 32, Low32(r.value))
    ensures var r := Alu(ShrW, a, b, imm, pc); r.Ok? && ShiftedRight(Low32(a), b % 32, Low32(r.value))
    ensures var r := Alu(ShrIW, a, b, imm, pc); r.Ok? && ShiftedRight(Low32(a), imm % 32, Low32(r.value))
  {
    hide ShiftedLeft, ShiftedRight, Pow2, ToWord, Low32;
    LeftLow(a, b % 32);
    LeftLow(a, imm % 32);
    RightLow(a, b % 32);
    RightLow(a, imm % 32);
  }

  lemma LeftLow(a: u64, n: nat)
    requires n < 32
    ensures ShiftedLeft(Low32(a), n, 32, Low32(ToWord(Low32(a) * Pow2(n))))
  {
    hide ShiftedLeft, ToWord;
    Pow2Of64();
    hide Pow2;
    LeftIs(Low32(a), n, 32);
    Division.LowWord(Low32(a) * Pow2(n));
    assert Low32(ToWord(Low32(a) * Pow2(n))) == Left(Low32(a), n, 32);
  }

  lemma RightLow(a: u64, n: nat)
    ensures ShiftedRight(Low32(a), n, Low32(ToWord(Low32(a) / Pow2(n))))
  {
    hide ShiftedRight, Pow2, ToWord;
    RightIs(Low32(a), n);
    Smaller(Low32(a), Pow2(n));
    Division.LowWord(Low32(a) / Pow2(n));
  }
}
