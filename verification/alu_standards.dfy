/** The register operations the code computes in its own way, against sections
    5.2 and 7.1 of the unprivileged ISA: exactly when the results agree. */
module AluStandards {
  import opened Wrappers
  import opened Words
  import opened Fields
  import opened Decode
  import opened Assemble
  import opened Division
  import opened Execute

  // ------------------------------------------------------------- high products

  /** The high doubleword of a product, as MULH, MULHSU and MULHU define it by
      their choice of signed factors. */
  function HighProduct(x: int, y: int): u64 { Wrap(x * y / B64) }

  lemma SignedFactor(a: u64, b: int)
    ensures Signed64(a) * b == a * b - if a < SIGN64 then 0 else B64 * b
  {
    if a >= SIGN64 { Dist(b, a, -B64); }
  }

  /** Taking B64 * k from a product takes k from its high doubleword. */
  lemma HighLess(p: int, k: int)
    ensures (p - B64 * k) / B64 == p / B64 - k
  {
  }

  /** Values k apart agree modulo 2^64 only if k is a multiple of it. */
  lemma Residue(x: int, k: int)
    ensures Wrap(x) == Wrap(x - k) <==> k % B64 == 0
  {
  }

  /** A factor less than 2^63 keeps the product in a signed 128-bit integer. */
  lemma ProductFits(a: u64, b: u64)
    requires a < SIGN64
    ensures a * b < SIGN64 * B64 && b * a < SIGN64 * B64
  {
    MulLe(a, SIGN64, b);
  }

  /** With p the product of the factors as unsigned and p - 2^64 k as signed ones. */
  lemma WideAgrees(p: nat, q: int, k: int)
    requires q == p - B64 * k && (k % B64 == 0 ==> p < SIGN64 * B64)
    ensures WideProduct(p) == Ok(Wrap(q / B64)) <==> k % B64 == 0
    ensures WideProduct(p) == Stop(Undefined) <==> p >= SIGN64 * B64
  {
    hide Wrap;
    HighLess(p, k);
    Residue(p / B64, k);
  }

  /** Both instructions widen the two registers as they are. */
  lemma Widened(a: u64, b: u64, imm: u64, pc: u64, p: nat)
    requires p == a * b
    ensures Alu(MulH, a, b, imm, pc) == Alu(MulHSU, a, b, imm, pc) == WideProduct(p)
  {
    hide WideProduct;
  }

  lemma HighProductIs(x: int, y: int, q: int)
    requires q == x * y
    ensures HighProduct(x, y) == Wrap(q / B64)
  {
  }

  /** Widening unsigned values gives MULHSU exactly for a nonnegative first factor
      or a zero second one; from 2^127 up their product is undefined. */
  lemma MulhsuIff(a: u64, b: u64, imm: u64, pc: u64)
    ensures Alu(MulHSU, a, b, imm, pc) == Ok(HighProduct(Signed64(a), b)) <==> a < SIGN64 || b == 0
    ensures Alu(MulHSU, a, b, imm, pc) == Stop(Undefined) <==> a * b >= SIGN64 * B64
  {
    hide Wrap, Signed64, Alu, WideProduct, HighProduct;
    var k := if a < SIGN64 then 0 else b;
    var p, q := a as int * b, Signed64(a) * b;
    SignedFactor(a, b);
    if a < SIGN64 { ProductFits(a, b); }
    Widened(a, b, imm, pc, p);
    WideAgrees(p, q, k);
    HighProductIs(Signed64(a), b, q);
  }

  /** How far the signed product is from the unsigned one, in multiples of 2^64. */
  function Excess(a: u64, b: u64): int {
    if a < SIGN64 then (if b < SIGN64 then 0 else a) else if b < SIGN64 then b else a + b - B64
  }

  lemma SignedProductIs(a: u64, b: u64)
    ensures Signed64(a) * Signed64(b) == a * b - B64 * Excess(a, b)
  {
    hide Signed64;
    SignedFactor(a, Signed64(b));
    SignedFactor(b, a);
    SignedIs(b);
  }

  lemma SignedIs(b: u64)
    ensures Signed64(b) == if b < SIGN64 then b else b - B64
  {
  }

  lemma ExcessZero(a: u64, b: u64)
    ensures Excess(a, b) % B64 == 0
       <==> (a < SIGN64 && b < SIGN64) || a == 0 || b == 0 || (a == SIGN64 && b == SIGN64)
  {
  }

  /** Widening unsigned values gives MULH exactly for two nonnegative factors, a
      zero factor, or the least number squared; from 2^127 up their product is
      undefined. */
  lemma MulhIff(a: u64, b: u64, imm: u64, pc: u64)
    ensures Alu(MulH, a, b, imm, pc) == Ok(HighProduct(Signed64(a), Signed64(b)))
       <==> (a < SIGN64 && b < SIGN64) || a == 0 || b == 0 || (a == SIGN64 && b == SIGN64)
    ensures Alu(MulH, a, b, imm, pc) == Stop(Undefined) <==> a * b >= SIGN64 * B64
  {
    hide Wrap, Signed64, Excess, Alu, WideProduct, HighProduct;
    var p, q := a as int * b, Signed64(a) * Signed64(b);
    SignedProductIs(a, b);
    ExcessZero(a, b);
    if a < SIGN64 { ProductFits(a, b); }
    Widened(a, b, imm, pc, p);
    WideAgrees(p, q, Excess(a, b));
    HighProductIs(Signed64(a), Signed64(b), q);
  }

  // -------------------------------------------------------------- low products

  /** MULHU is always right. MUL gives the low doubleword of the product exactly when
      the signed product fits 64 bits, and else is undefined. */
  lemma MulIff(a: u64, b: u64, imm: u64, pc: u64)
    ensures Alu(MulHU, a, b, imm, pc) == Ok(HighProduct(a, b))
    ensures Alu(Mul, a, b, imm, pc) == Ok(Wrap(a * b)) <==> -SIGN64 <= Signed64(a) * Signed64(b) < SIGN64
    ensures Alu(Mul, a, b, imm, pc) == Ok(Wrap(a * b)) || Alu(Mul, a, b, imm, pc) == Stop(Undefined)
  {
    hide Wrap, Signed64, Excess;
    SignedProductIs(a, b);
    Multiple(a * b, Excess(a, b));
  }

  lemma Multiple(p: int, k: int)
    ensures Wrap(p - B64 * k) == Wrap(p)
  {
  }

  /** r, if the signed word result x that C computes fits 32 bits. */
  function IfFits(x: int, r: u64): Outcome<u64> { if -SIGN32 <= x < SIGN32 then Ok(r) else Stop(Undefined) }

  /** ADDW, SUBW, MULW and ADDIW give the sign-extended low word of the 64-bit result
      exactly when the signed word result fits 32 bits, and else are undefined. */
  lemma WordArithmeticIff(a: u64, b: u64, imm: u64, pc: u64)
    ensures Alu(AddW, a, b, imm, pc) == IfFits(Signed32(a) + Signed32(b), ToWord(a + b))
    ensures Alu(SubW, a, b, imm, pc) == IfFits(Signed32(a) - Signed32(b), ToWord(a - b))
    ensures Alu(MulW, a, b, imm, pc) == IfFits(Signed32(a) * Signed32(b), ToWord(a * b))
    ensures Alu(AddIW, a, b, imm, pc) == IfFits(Signed32(a) + Signed32(imm), ToWord(a + imm))
  {
    hide ToWord, Signed32;
    var k := WordMultiple(a);
    var l := WordMultiple(b);
    var j := WordMultiple(imm);
    SameWord(Signed32(a) + Signed32(b), a + b, k + l);
    SameWord(Signed32(a) - Signed32(b), a - b, k - l);
    SameWord(Signed32(a) + Signed32(imm), a + imm, k + j);
    Products(Signed32(a), Signed32(b), k, l);
    SameWord(Signed32(a) * Signed32(b), a * b, Signed32(a) * l + k * Signed32(b) + B32 * (k * l));
  }

  lemma WordMultiple(x: u64) returns (k: int)
    ensures x == Signed32(x) + B32 * k
  {
    k := x / B32 + if x % B32 < SIGN32 then 0 else 1;
  }

  lemma Products(x: int, y: int, k: int, l: int)
    ensures (x + B32 * k) * (y + B32 * l) == x * y + B32 * (x * l + k * y + B32 * (k * l))
  {
  }

  lemma SameWord(x: int, y: int, k: int)
    requires y == x + B32 * k
    ensures ToWord(x) == ToWord(y)
  {
    hide ToWord;
    Mod32(x, k);
    ToWordIs(x);
    ToWordIs(y);
  }

  /** TO_WORD sees nothing but the low 32 bits. */
  lemma ToWordIs(x: int)
    ensures var l := x % B32; ToWord(x) == Wrap(if l < SIGN32 then l else l - B32)
  {
    hide Wrap;
    var k := x / B64;
    assert Wrap(x) % B32 == x % B32 by {
      WrapIs(x, k);
      Mod32(Wrap(x), B32 * k);
    }
  }

  lemma WrapIs(x: int, k: int)
    requires k == x / B64
    ensures x == Wrap(x) + B32 * (B32 * k)
  {
  }

  // -------------------------------------------------------- word right shifts

  /** The arithmetic right shift of a word by a 5-bit amount. */
  function SraWord(a: u64, amount: nat): u64 { Wrap(Signed32(a) / Pow2(amount % 32)) }

  /** SRAW takes six bits of the amount: it gives the standard's value exactly when
      bit 5 of the register is clear, and else C leaves it undefined. */
  lemma SrawIff(a: u64, b: u64, imm: u64, pc: u64)
    ensures Alu(SarW, a, b, imm, pc) == Ok(SraWord(a, b)) <==> b / 32 % 2 == 0
    ensures b / 32 % 2 == 1 ==> Alu(SarW, a, b, imm, pc) == Stop(Undefined)
  {
    hide Pow2, Signed32, Wrap;
    BitFive(b);
  }

  lemma BitFive(b: nat)
    ensures b % 64 == b % 32 + 32 * (b / 32 % 2) && b / 32 % 2 <= 1
  {
    var q, r := b / 64, b % 64;
    assert b == 64 * q + r && b / 32 == 2 * q + r / 32;
  }

  /** SRAIW takes six bits too, but neither decoder makes an amount of 32 or more. */
  lemma SraiwAmount(i: bv32, h: bv16)
    ensures Dec32(i).Ok? && Dec32(i).value.op == SRAIW ==> Dec32(i).value.imm < 32
    ensures Dec16(h).Ok? ==> Dec16(h).value.op != SRAIW
  {
    SraiwAmount32(Split(i));
  }

  lemma OnlyWordShifts(f: bv32, high: bool)
    ensures ImmOp(f, high) != SRAIW && RegOp(f, high) != SRAIW && MulOp(f) != SRAIW
    ensures RegWOp(f, high) != Some(SRAIW) && MulWOp(f) != Some(SRAIW)
    ensures BranchOp(f) != Some(SRAIW) && LoadOp(f) != Some(SRAIW) && StoreOp(f) != Some(SRAIW)
  {
  }

  lemma OnlyWordShiftsSystem(f: bv32, f7: bv32, rs2: bv5)
    ensures PrivOp(f7, rs2) != Some(SRAIW) && CsrOpOf(f) != Some(SRAIW)
  {
  }

  lemma NoSraiwUpper(w: Word)
    requires w.opcode == 0x37 || w.opcode == 0x17 || w.opcode == 0x6f || w.opcode == 0x67
    ensures Select(w).Ok? ==> Select(w).value.op != SRAIW
  {
    hide ImmOp, RegOp, MulOp, RegWOp, MulWOp, BranchOp, LoadOp, StoreOp, PrivOp, CsrOpOf, AmoOp;
  }

  lemma NoSraiwMemory(w: Word)
    requires w.opcode == 0x63 || w.opcode == 0x03 || w.opcode == 0x23 || w.opcode == 0x07 || w.opcode == 0x27
    ensures Select(w).Ok? ==> Select(w).value.op != SRAIW
  {
    hide ImmOp, RegOp, MulOp, RegWOp, MulWOp, BranchOp, LoadOp, StoreOp, PrivOp, CsrOpOf, AmoOp;
    OnlyWordShifts(w.f3, false);
  }

  lemma NoSraiwReg(w: Word)
    requires w.opcode == 0x13 || w.opcode == 0x33 || w.opcode == 0x3b
    ensures Select(w).Ok? ==> Select(w).value.op != SRAIW
  {
    hide ImmOp, RegOp, MulOp, RegWOp, MulWOp, BranchOp, LoadOp, StoreOp, PrivOp, CsrOpOf, AmoOp;
    OnlyWordShifts(w.f3, w.f7 & 0x20 != 0);
  }

  lemma NoSraiwSystem(w: Word)
    requires w.opcode == 0x73
    ensures Select(w).Ok? ==> Select(w).value.op != SRAIW
  {
    hide PrivOp, CsrOpOf;
    OnlyWordShiftsSystem(w.f3, w.f7, w.rs2);
  }

  lemma NoSraiwOther(w: Word)
    requires w.opcode == 0x0f || w.opcode == 0x53
    ensures Select(w).Ok? ==> Select(w).value.op != SRAIW
  {
  }

  lemma NoSraiwAtomic(w: Word)
    requires w.opcode == 0x2f
    ensures Select(w).Ok? ==> Select(w).value.op != SRAIW
  {
    hide AmoOp, Select;
    SelectAmo(w);
    OnlyAtomics(w.f7 >> 2, if w.f3 == 3 then 8 else 4);
  }

  lemma OnlyAtomics(f5: bv32, size: nat)
    ensures AmoOp(f5, size) != Some(SRAIW)
  {
  }

  lemma WordShiftAmount(w: Word)
    requires w.opcode == 0x1b
    ensures Select(w).Ok? && Select(w).value.op == SRAIW ==> Select(w).value.imm == w.rs2 as bv64 < 32
  {
  }

  predicate KnownOpcode(o: bv32) {
    || o == 0x37 || o == 0x17 || o == 0x6f || o == 0x67 || o == 0x63 || o == 0x03 || o == 0x23 || o == 0x07
    || o == 0x27 || o == 0x13 || o == 0x1b || o == 0x33 || o == 0x3b || o == 0x0f || o == 0x73 || o == 0x2f
    || o == 0x53
  }

  lemma UnknownOpcode(w: Word)
    requires !KnownOpcode(w.opcode)
    ensures Select(w) == Stop(Panic)
  {
  }

  lemma SraiwAmount32(w: Word)
    ensures Select(w).Ok? && Select(w).value.op == SRAIW ==> Select(w).value.imm == w.rs2 as bv64 < 32
  {
    hide Select;
    var o := w.opcode;
    if !KnownOpcode(o) {
      UnknownOpcode(w);
    } else if o == 0x1b {
      WordShiftAmount(w);
    } else if o == 0x13 || o == 0x33 || o == 0x3b {
      NoSraiwReg(w);
    } else if o == 0x73 {
      NoSraiwSystem(w);
    } else if o == 0x2f {
      NoSraiwAtomic(w);
    } else if o == 0x0f || o == 0x53 {
      NoSraiwOther(w);
    } else if o == 0x63 || o == 0x03 || o == 0x23 || o == 0x07 || o == 0x27 {
      NoSraiwMemory(w);
    } else {
      NoSraiwUpper(w);
    }
  }

  /** So every decoded SRAIW gives the standard's value. */
  lemma SraiwAgrees(i: bv32, a: u64, b: u64, pc: u64)
    requires Dec32(i).Ok? && Dec32(i).value.op == SRAIW
    ensures Alu(SarIW, a, b, ImmOf(Dec32(i).value), pc) == Ok(SraWord(a, ImmOf(Dec32(i).value)))
  {
    hide Dec32, Alu, SraWord;
    SraiwAmount(i, 0);
    SmallImm(Dec32(i).value.imm);
    SarIs(a, b, ImmOf(Dec32(i).value), pc);
  }

  lemma SarIs(a: u64, b: u64, imm: u64, pc: u64)
    requires imm < 32
    ensures Alu(SarIW, a, b, imm, pc) == Ok(SraWord(a, imm))
  {
    hide Pow2, Signed32, Wrap;
  }

  lemma SmallImm(imm: bv64)
    requires imm < 32
    ensures imm as int < 32
  {
  }
}
