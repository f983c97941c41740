/** Bit fields of integers: setting one field reads back and changes no other. */
module Fields {
  import opened Words

  /** BITS: the field of weight `p` with `w` values. */
  function Field(x: u64, p: nat, w: nat): (v: nat)
    requires p > 0 && w > 0
  {
    x / p % w
  }

  /** SET_BITS */
  function SetField(x: u64, p: nat, w: nat, v: nat): u64
    requires p > 0 && w > 0
  {
    Wrap(p * w * (x / (p * w)) + (p * v + x % p))
  }

  lemma MulLe(a: nat, b: nat, c: nat)
    requires a <= b
    ensures a * c <= b * c && c * a <= c * b
  {
  }

  lemma Dist(a: int, b: int, c: int)
    ensures a * (b + c) == a * b + a * c
  {
  }

  lemma Assoc(a: int, b: int, c: int)
    ensures a * (b * c) == a * b * c
  {
  }

  lemma DivUnique(x: nat, d: nat, q: nat, r: nat)
    requires d > 0 && x == d * q + r && r < d
    ensures x / d == q && x % d == r
  {
    var a, b := x / d, x % d;
    assert x == d * a + b;
    if a > q {
      MulLe(q + 1, a, d);
      Dist(d, q, 1);
      assert false;
    } else if a < q {
      MulLe(a + 1, q, d);
      Dist(d, a, 1);
      assert false;
    }
  }

  lemma DivDiv(x: nat, a: nat, b: nat)
    requires a > 0 && b > 0
    ensures a * b > 0 && x / (a * b) == x / a / b
  {
    var y, t := x / a, x % a;
    var q, r := y / b, y % b;
    Nested(x, a, b, y, t, q, r);
    DivUnique(x, a * b, q, a * r + t);
  }

  lemma Nested(x: nat, a: nat, b: nat, y: nat, t: nat, q: nat, r: nat)
    requires x == a * y + t && t < a && y == b * q + r && r < b
    ensures x == a * b * q + (a * r + t) && a * r + t < a * b
  {
    Dist(a, b * q, r);
    Assoc(a, b, q);
    MulLe(r + 1, b, a);
    Dist(a, r, 1);
  }

  /** Bit k of a number is its k-th binary digit. */
  lemma {:induction false} BitOfIs(x: nat, k: nat)
    ensures BitOf(x, k) <==> x / Pow2(k) % 2 == 1
  {
    if k == 0 {
    } else {
      BitOfIs(x / 2, k - 1);
      DivDiv(x, 2, Pow2(k - 1));
    }
  }

  lemma AddMultiple(x: nat, d: nat, k: nat, y: nat)
    requires d > 0 && x == d * k + y
    ensures x / d == k + y / d && x % d == y % d
  {
    Dist(d, k, y / d);
    DivUnique(x, d, k + y / d, y % d);
  }

  lemma AddProduct(x: nat, d: nat, e: nat, k: nat, y: nat)
    requires d > 0 && x == d * e * k + y
    ensures x / d == e * k + y / d && x % d == y % d
  {
    Assoc(d, e, k);
    AddMultiple(x, d, e * k, y);
  }

  lemma DivLess(x: nat, c: nat, m: nat)
    requires c > 0 && x < c * m
    ensures x / c < m
  {
    if x / c >= m { MulLe(m, x / c, c); }
  }

  lemma SumLess(c: nat, h: nat, f: nat, m: nat)
    requires f < c && h < m
    ensures c * h + f < c * m
  {
    MulLe(h + 1, m, c);
    Dist(c, h, 1);
  }

  /** A field below `p` is determined by x % p. */
  lemma Below(x: u64, q: nat, w: nat, e: nat, p: nat)
    requires q > 0 && w > 0 && e > 0 && p == q * (w * e)
    ensures p > 0 && Field(x, q, w) == x % p / q % w
  {
    MulLe(1, w, e);
    MulLe(1, q, w * e);
    var a, r := DivMod(x, p);
    FieldOfSum(x, q, w, e, a, r);
  }

  lemma FieldOfSum(x: nat, q: nat, w: nat, e: nat, a: nat, r: nat)
    requires q > 0 && w > 0 && x == q * (w * e) * a + r
    ensures x / q % w == r / q % w
  {
    AddProduct(x, q, w * e, a, r);
    var y, s := DivMod(x, q);
    var z, t := DivMod(r, q);
    AddProduct(y, w, e, a, z);
  }

  lemma DivMod(x: nat, m: nat) returns (q: nat, r: nat)
    requires m > 0
    ensures x == m * q + r && r == x % m && q == x / m
  {
    q, r := x / m, x % m;
  }

  lemma SameBelow(x: u64, y: u64, q: nat, w: nat, e: nat, p: nat)
    requires q > 0 && w > 0 && e > 0 && p == q * (w * e) && p > 0 && x % p == y % p
    ensures Field(x, q, w) == Field(y, q, w)
  {
    Below(x, q, w, e, p);
    Below(y, q, w, e, p);
  }

  lemma SameAbove(x: u64, y: u64, c: nat, d: nat, w: nat)
    requires c > 0 && d > 0 && w > 0 && x / c == y / c
    ensures c * d > 0 && Field(x, c * d, w) == Field(y, c * d, w) && x / (c * d) == y / (c * d)
  {
    DivDiv(x, c, d);
    DivDiv(y, c, d);
  }

  /** The digits of a mixed-radix number. */
  lemma Digits(z: nat, p: nat, w: nat, h: nat, v: nat, l: nat)
    requires v < w && l < p && z == p * w * h + (p * v + l)
    ensures p * w > 0 && z / (p * w) == h && z % p == l && z / p % w == v
  {
    MulLe(1, w, p);
    MulLe(v + 1, w, p);
    Dist(p, v, 1);
    DivUnique(z, p * w, h, p * v + l);
    Assoc(p, w, h);
    Dist(p, w * h, v);
    DivUnique(z, p, w * h + v, l);
    DivUnique(w * h + v, w, h, v);
  }

  lemma SetFieldFits(x: u64, p: nat, w: nat, v: nat, m: nat)
    requires p > 0 && v < w && p * w * m == B64
    ensures p * w > 0 && SetField(x, p, w, v) == p * w * (x / (p * w)) + (p * v + x % p)
  {
    MulLe(1, w, p);
    SumLess(p, v, x % p, w);
    DivLess(x, p * w, m);
    SumLess(p * w, x / (p * w), p * v + x % p, m);
  }

  lemma SetFieldParts(x: u64, p: nat, w: nat, v: nat, m: nat)
    requires p > 0 && v < w && p * w * m == B64
    ensures var y := SetField(x, p, w, v);
            p * w > 0 && y / (p * w) == x / (p * w) && y % p == x % p && Field(y, p, w) == v
  {
    SetFieldFits(x, p, w, v, m);
    Digits(SetField(x, p, w, v), p, w, x / (p * w), v, x % p);
  }

  // ------------------------------------------------------------------ bits

  lemma HalfMod(x: nat, p: nat)
    requires p > 0
    ensures x % (2 * p) % 2 == x % 2 && x % (2 * p) / 2 == x / 2 % p
  {
    var q, r := DivMod(x / 2, p);
    DivUnique(x, 2 * p, q, 2 * r + x % 2) by { Assoc(2, p, q); }
  }

  /** The bits below n are those of the remainder modulo 2^n. */
  lemma {:induction false} LowBit(x: nat, n: nat, k: nat)
    requires k < n
    ensures BitOf(x % Pow2(n), k) <==> BitOf(x, k)
  {
    HalfMod(x, Pow2(n - 1));
    if k == 0 {
    } else {
      LowBit(x / 2, n - 1, k - 1);
    }
  }

  /** The bits from n up are those of the quotient by 2^n. */
  lemma {:induction false} HighBit(x: nat, n: nat, k: nat, q: nat)
    requires k >= n && q == x / Pow2(n)
    ensures BitOf(x, k) <==> BitOf(q, k - n)
  {
    if n == 0 {
    } else {
      DivDiv(x, 2, Pow2(n - 1));
      HighBit(x / 2, n - 1, k - 1, q);
    }
  }

  /** Setting one bit changes no other. */
  lemma SetBitBits(x: u64, p: nat, v: nat, k: nat)
    requires p < 64 && v < 2
    ensures BitOf(SetField(x, Pow2(p), 2, v), k) <==> if k == p then v == 1 else BitOf(x, k)
  {
    SetBitsBits(x, p, 1, v, k);
    if k == p { BitOfIs(v, 0); }
  }

  /** Setting the m bits from p on changes no other. */
  lemma SetBitsBits(x: u64, p: nat, m: nat, v: nat, k: nat)
    requires p + m <= 64 && v < Pow2(m)
    ensures BitOf(SetField(x, Pow2(p), Pow2(m), v), k)
       <==> if p <= k < p + m then BitOf(v, k - p) else BitOf(x, k)
  {
    Pow2Of64();
    Pow2Sum(p, m);
    Pow2Sum(p + m, 64 - (p + m));
    hide Pow2, SetField;
    SetFieldParts(x, Pow2(p), Pow2(m), v, Pow2(64 - (p + m)));
    PartBits(x, SetField(x, Pow2(p), Pow2(m), v), p, m, Pow2(p), Pow2(m), k);
  }

  /** The bits of a number in three parts. */
  lemma PartBits(x: nat, y: nat, p: nat, m: nat, low: nat, width: nat, k: nat)
    requires low == Pow2(p) && width == Pow2(m) && low * width == Pow2(p + m) && low * width > 0
    requires x / (low * width) == y / (low * width) && x % low == y % low
    ensures BitOf(y, k) <==> if p <= k < p + m then BitOf(y / low % width, k - p) else BitOf(x, k)
  {
    hide Pow2, BitOf;
    if k < p {
      LowBit(x, p, k);
      LowBit(y, p, k);
    } else if k < p + m {
      HighBit(y, p, k, y / low);
      LowBit(y / low, m, k - p);
    } else {
      HighBit(x, p + m, k, x / (low * width));
      HighBit(y, p + m, k, y / (low * width));
    }
  }
}
