/** The division and remainder instructions (execute.c:355-429): values as the
    code computes them, and section 7.2 of the RISC-V Unprivileged ISA. */
module Division {
  import opened Words
  import opened Fields

  /** C division and remainder: truncated towards zero. */
  function Quot(a: int, b: int): int
    requires b != 0
  {
    if a >= 0 then (if b > 0 then a / b else -(a / -b)) else if b > 0 then -(-a / b) else -a / -b
  }

  function Rest(a: int, b: int): int
    requires b != 0
  {
    a - b * Quot(a, b)
  }

  const MIN32 := 0x8000_0000

  function Div(a: u64, b: u64): u64 {
    if b == 0 then B64 - 1
    else if Signed64(b) == -1 && a == SIGN64 then SIGN64
    else Wrap(Quot(Signed64(a), Signed64(b)))
  }

  function Rem(a: u64, b: u64): u64 {
    if b == 0 then a
    else if Signed64(b) == -1 && a == SIGN64 then 0
    else Wrap(Rest(Signed64(a), Signed64(b)))
  }

  function Divu(a: u64, b: u64): u64 { if b == 0 then B64 - 1 else a / b }
  function Remu(a: u64, b: u64): u64 { if b == 0 then a else a % b }

  function Divw(a: u64, b: u64): u64 {
    if Signed32(b) == 0 then B64 - 1
    else if Signed32(b) == -1 && Low32(a) == MIN32 then Wrap(-MIN32)
    else ToWord(Quot(Signed32(a), Signed32(b)))
  }

  function Remw(a: u64, b: u64): u64 {
    if Signed32(b) == 0 then Wrap(Signed32(a))
    else if Signed32(b) == -1 && Low32(a) == MIN32 then 0
    else ToWord(Rest(Signed32(a), Signed32(b)))
  }

  /** By zero this is 2^32 - 1, not sign-extended (execute.c:407). */
  function Divuw(a: u64, b: u64): u64 { if Low32(b) == 0 then B32 - 1 else ToWord(Low32(a) / Low32(b)) }
  function Remuw(a: u64, b: u64): u64 { if Low32(b) == 0 then Low32(a) else ToWord(Low32(a) % Low32(b)) }

  lemma Signs(x: int, y: int)
    ensures (-x) * y == -(x * y) && x * -y == -(x * y) && (-x) * -y == x * y
  {
  }

  lemma QuotSize(a: int, b: int, m: nat, n: nat)
    requires b != 0 && m == (if a >= 0 then a else -a) && n == if b > 0 then b else -b
    ensures Quot(a, b) == if (a >= 0) == (b > 0) then m / n else -(m / n)
    ensures b == 1 ==> Quot(a, b) == a
  {
  }

  lemma PartOf(m: nat, n: nat)
    requires n > 0
    ensures 0 <= m / n <= m && (n > 1 ==> 2 * (m / n) <= m) && 0 <= m - n * (m / n) < n
  {
    var q, r := m / n, m % n;
    assert m == n * q + r;
    MulLe(1, n, q);
    if n > 1 { MulLe(2, n, q); }
  }

  lemma Euclid(a: int, b: int)
    requires b != 0
    ensures b * Quot(a, b) + Rest(a, b) == a
  {
    hide Quot;
  }

  /** The C remainder is smaller than the divisor and has the dividend's sign. */
  lemma RestBounds(a: int, b: int)
    requires b != 0
    ensures var r, m := Rest(a, b), if b > 0 then b else -b;
            -m < r < m && (a >= 0 ==> r >= 0) && (a <= 0 ==> r <= 0)
  {
    hide Quot, Rest;
    var m, n := if a >= 0 then a else -a, if b > 0 then b else -b;
    var q := m / n;
    QuotSize(a, b, m, n);
    PartOf(m, n);
    Euclid(a, b);
    Signs(n, q);
    assert b * Quot(a, b) == if a >= 0 then n * q else -(n * q);
  }

  /** Multiplying representatives of two residues. */
  lemma Residues(m: int, b: int, sb: int, i: int, w: int, q: int, k: int, v: int, r: int, l: int)
    requires b == sb + m * i && w == q + m * k && v == r + m * l
    ensures b * w + v == sb * q + r + m * (sb * k + i * q + m * (i * k) + l)
  {
    assert b * w == sb * q + sb * (m * k) + m * i * q + m * i * (m * k);
    assert m * i * (m * k) == m * (m * (i * k));
    assert sb * (m * k) == m * (sb * k) && m * i * q == m * (i * q);
    assert m * (sb * k + i * q + m * (i * k) + l) == m * (sb * k) + m * (i * q) + m * (m * (i * k)) + m * l;
  }

  lemma Recombine64(b: u64, q: int, r: int)
    ensures (b * Wrap(q) + Wrap(r)) % B64 == (Signed64(b) * q + r) % B64
  {
    var sb, i, k, l := Signed64(b), if b < SIGN64 then 0 else 1, -(q / B64), -(r / B64);
    Residues(B64, b, sb, i, Wrap(q), q, k, Wrap(r), r, l);
    Mod64(sb * q + r, sb * k + i * q + B64 * (i * k) + l);
  }

  lemma Mod64(x: int, k: int)
    ensures (x + B64 * k) % B64 == x % B64
  {
  }

  lemma Recombine32(b: u64, q: int, r: int)
    ensures (Low32(b) * Low32(ToWord(q)) + Low32(ToWord(r))) % B32 == (Signed32(b) * q + r) % B32
  {
    LowWord(q);
    LowWord(r);
    var sb, i, k, l := Signed32(b), if Low32(b) < SIGN32 then 0 else 1, -(q / B32), -(r / B32);
    Residues(B32, Low32(b), sb, i, Low32(ToWord(q)), q, k, Low32(ToWord(r)), r, l);
    Mod32(sb * q + r, sb * k + i * q + B32 * (i * k) + l);
  }

  lemma Mod32(x: int, k: int)
    ensures (x + B32 * k) % B32 == x % B32
  {
  }

  /** TO_WORD keeps the low 32 bits. */
  lemma LowWord(x: int)
    ensures Low32(ToWord(x)) == x % B32
  {
    var w, k := Wrap(x), x / B64;
    assert x == w + B32 * (B32 * k);
    Mod32(w, B32 * k);
    SignedLow(w);
  }

  lemma SignedLow(w: u64)
    ensures Wrap(Signed32(w)) % B32 == w % B32
  {
    var l := w % B32;
    if l < SIGN32 {
      assert Wrap(l) == l;
    } else {
      assert Wrap(l - B32) == l - B32 + B64;
      Mod32(l, B32 - 1);
    }
  }

  /** The quotient is no larger than the dividend, and at most half as large unless
      the divisor is 1 or -1. */
  lemma QuotBounds(a: int, b: int)
    requires b != 0
    ensures var m := if a >= 0 then a else -a;
            && -m <= Quot(a, b) <= m && (b != 1 && b != -1 ==> -m <= 2 * Quot(a, b) <= m)
            && (b == 1 ==> Quot(a, b) == a)
  {
    hide Quot;
    var m, n := if a >= 0 then a else -a, if b > 0 then b else -b;
    QuotSize(a, b, m, n);
    PartOf(m, n);
  }

  lemma DivIs(a: u64, b: u64)
    requires b != 0 && !(Signed64(b) == -1 && a == SIGN64)
    ensures Div(a, b) == Wrap(Quot(Signed64(a), Signed64(b)))
    ensures Rem(a, b) == Wrap(Rest(Signed64(a), Signed64(b)))
  {
    hide Quot, Rest, Wrap;
  }

  lemma SignedRange64(a: u64)
    ensures -SIGN64 <= Signed64(a) < SIGN64 && Signed64(a) % B64 == a
    ensures (Signed64(a) == -SIGN64 <==> a == SIGN64) && (Signed64(a) == 0 <==> a == 0)
  {
  }

  lemma RegularSigned(a: u64, b: u64)
    requires b != 0 && !(Signed64(b) == -1 && a == SIGN64)
    ensures (b * Div(a, b) + Rem(a, b)) % B64 == a
    ensures Signed64(Rem(a, b)) == Rest(Signed64(a), Signed64(b))
    ensures Signed64(Div(a, b)) == Quot(Signed64(a), Signed64(b))
  {
    DivIs(a, b);
    hide Quot, Rest, Div, Rem, Wrap, Signed64;
    var sa, sb := Signed64(a), Signed64(b);
    var q, r := Quot(sa, sb), Rest(sa, sb);
    SignedRange64(a);
    SignedRange64(b);
    RestBounds(sa, sb);
    QuotBounds(sa, sb);
    Recombine64(b, q, r);
    Euclid(sa, sb);
    SignedWrap(q);
    SignedWrap(r);
  }

  lemma SignedWrap(x: int)
    requires -SIGN64 <= x < SIGN64
    ensures Signed64(Wrap(x)) == x
  {
  }

  /** The most negative value divided by -1: the quotient does not fit. */
  predicate Overflows(a: u64, b: u64) { a == SIGN64 && Signed64(b) == -1 }
  predicate OverflowsWord(a: u64, b: u64) { Low32(a) == MIN32 && Signed32(b) == -1 }

  /** Divisor times quotient plus remainder is the dividend, a zero divisor included,
      exactly unless the division overflows, and then still modulo the width; the
      remainder is smaller than a nonzero divisor and has the dividend's sign; a
      quotient by zero has all bits set. */
  lemma SignedDivision(a: u64, b: u64)
    ensures Signed64(a) == Signed64(b) * Signed64(Div(a, b)) + Signed64(Rem(a, b)) <==> !Overflows(a, b)
    ensures (b * Div(a, b) + Rem(a, b)) % B64 == a
    ensures b == 0 ==> Signed64(Div(a, b)) == -1
    ensures b != 0 ==>
              var r, m := Signed64(Rem(a, b)), if Signed64(b) > 0 then Signed64(b) else -Signed64(b);
              -m < r < m && (r != 0 ==> (r > 0 <==> Signed64(a) > 0))
  {
    hide Quot, Rest;
    if b == 0 {
    } else if Overflows(a, b) {
      assert b == B64 - 1 && Div(a, b) == SIGN64 && Rem(a, b) == 0;
    } else {
      RegularSigned(a, b);
      RestBounds(Signed64(a), Signed64(b));
      Euclid(Signed64(a), Signed64(b));
    }
  }

  lemma UnsignedDivision(a: u64, b: u64)
    ensures a == b * Divu(a, b) + Remu(a, b)
    ensures b == 0 ==> Signed64(Divu(a, b)) == -1
    ensures b != 0 ==> Remu(a, b) < b
  {
    if b != 0 { EuclidNat(a, b, a / b, a % b); }
  }

  lemma DivwIs(a: u64, b: u64)
    requires Signed32(b) != 0 && !(Signed32(b) == -1 && Low32(a) == MIN32)
    ensures Divw(a, b) == ToWord(Quot(Signed32(a), Signed32(b)))
    ensures Remw(a, b) == ToWord(Rest(Signed32(a), Signed32(b)))
  {
    hide Quot, Rest, ToWord;
  }

  lemma RegularSignedWord(a: u64, b: u64)
    requires Signed32(b) != 0 && !(Signed32(b) == -1 && Low32(a) == MIN32)
    ensures (Low32(b) * Low32(Divw(a, b)) + Low32(Remw(a, b))) % B32 == Low32(a)
    ensures Signed32(Remw(a, b)) == Rest(Signed32(a), Signed32(b))
    ensures Signed32(Divw(a, b)) == Quot(Signed32(a), Signed32(b))
  {
    DivwIs(a, b);
    hide Quot, Rest, Divw, Remw, ToWord, Signed32, Low32;
    var sa, sb := Signed32(a), Signed32(b);
    var q, r := Quot(sa, sb), Rest(sa, sb);
    SignedRange(a);
    RestBounds(sa, sb);
    QuotBounds(sa, sb);
    Recombine32(b, q, r);
    Euclid(sa, sb);
    SmallWord(r);
    SmallWord(q);
  }

  lemma SignedRange(a: u64)
    ensures -SIGN32 <= Signed32(a) < SIGN32 && Signed32(a) % B32 == Low32(a)
    ensures Signed32(a) == -SIGN32 <==> Low32(a) == MIN32
  {
  }

  lemma SmallWord(r: int)
    requires -SIGN32 <= r < SIGN32
    ensures Signed32(ToWord(r)) == r
  {
    LowWord(r);
  }

  lemma SignedWordDivision(a: u64, b: u64)
    ensures Signed32(a) == Signed32(b) * Signed32(Divw(a, b)) + Signed32(Remw(a, b)) <==> !OverflowsWord(a, b)
    ensures (Low32(b) * Low32(Divw(a, b)) + Low32(Remw(a, b))) % B32 == Low32(a)
    ensures Low32(b) == 0 ==> Signed64(Divw(a, b)) == -1
    ensures Low32(b) != 0 ==>
              var r, m := Signed32(Remw(a, b)), if Signed32(b) > 0 then Signed32(b) else -Signed32(b);
              -m < r < m && (r != 0 ==> (r > 0 <==> Signed32(a) > 0))
  {
    hide Quot, Rest, ToWord;
    if Low32(b) == 0 {
      SignedLow(a);
      assert Signed32(Remw(a, b)) == Signed32(a);
    } else if OverflowsWord(a, b) {
      assert Low32(b) == B32 - 1 && Low32(Divw(a, b)) == MIN32 && Remw(a, b) == 0;
    } else {
      RegularSignedWord(a, b);
      RestBounds(Signed32(a), Signed32(b));
      Euclid(Signed32(a), Signed32(b));
    }
  }

  lemma UnsignedWordDivision(a: u64, b: u64)
    ensures Low32(a) == Low32(b) * Low32(Divuw(a, b)) + Low32(Remuw(a, b))
    ensures Low32(b) == 0 ==> Low32(Divuw(a, b)) == B32 - 1
    ensures Low32(b) != 0 ==> Low32(Remuw(a, b)) < Low32(b)
  {
    hide ToWord;
    var x, y := Low32(a), Low32(b);
    if y != 0 {
      PartOf(x, y);
      WordIsWord(x / y);
      WordIsWord(x % y);
      EuclidNat(x, y, Low32(Divuw(a, b)), Low32(Remuw(a, b)));
    }
  }

  lemma EuclidNat(x: nat, y: nat, q: nat, r: nat)
    requires y > 0 && q == x / y && r == x % y
    ensures y * q + r == x
  {
  }

  lemma WordIsWord(x: u32)
    ensures Low32(ToWord(x)) == x
  {
    LowWord(x);
  }
}
