/** The numeric value of machine words, bit by bit and in parts. */
module Bits {

  function Pow2(k: nat): (p: nat)
    ensures p > 0
  {
    if k == 0 then 1 else 2 * Pow2(k - 1)
  }

  /** Bit k of a number. */
  predicate BitOf(n: nat, k: nat) {
    n / Pow2(k) % 2 == 1
  }

  lemma Larger(a: int, b: int, m: nat)
    requires a < b
    ensures a * m + m <= b * m
  {
    assert (b - a) * m == b * m - a * m;
    assert (b - a) * m == m + (b - a - 1) * m;
  }

  lemma SameQuotient(a: int, b: int, r: nat, t: nat, m: nat)
    requires r < m && t < m && a * m + r == b * m + t
    ensures a == b
  {
    if a < b {
      Larger(a, b, m);
    } else if b < a {
      Larger(b, a, m);
    }
  }

  lemma Doubled(q: int, r: int, m: int)
    ensures 2 * (q * m + r) == q * (2 * m) + 2 * r
  {
  }

  lemma Divide(n: nat, m: nat)
    requires m > 0
    ensures n == n / m * m + n % m && n % m < m
  {
  }

  /** Dividing by 2 and then by m is dividing by 2 * m. */
  lemma HalveTwice(n: nat, m: nat)
    requires m > 0
    ensures n / 2 / m == n / (2 * m)
  {
    var q, r := n / 2 / m, n / 2 % m;
    Divide(n / 2, m);
    Doubled(q, r, m);
    Divide(n, 2 * m);
    SameQuotient(q, n / (2 * m), 2 * r + n % 2, n % (2 * m), 2 * m);
  }

  lemma BitOfHalf(n: nat, k: nat)
    requires k > 0
    ensures BitOf(n, k) <==> BitOf(n / 2, k - 1)
  {
    HalveTwice(n, Pow2(k - 1));
  }

  // ---------- Bytes ----------

  lemma Join8(h: bv7, l: bv1)
    ensures (((h as bv8) << 1) | (l as bv8)) as int == 2 * h as int + l as int
  {
  }

  lemma Half8(b: bv8)
    ensures b as int / 2 == (b >> 1) as int
    ensures b & 1 != 0 <==> b as int % 2 == 1
  {
    var h, l := (b >> 1) as bv7, (b & 1) as bv1;
    assert b == ((h as bv8) << 1) | (l as bv8);
    Join8(h, l);
    assert l == 0 || l == 1;
  }

  lemma Mask8Half(b: bv8, k: nat)
    requires 0 < k < 8
    ensures b & (1 << k) != 0 <==> (b >> 1) & (1 << (k - 1)) != 0
  {
  }

  /** The mask 1 << k selects bit k of a byte. */
  lemma {:induction false} ByteBit(b: bv8, k: nat)
    requires k < 8
    ensures b & (1 << k) != 0 <==> BitOf(b as int, k)
    decreases k
  {
    Half8(b);
    if k > 0 {
      Mask8Half(b, k);
      ByteBit(b >> 1, k - 1);
      BitOfHalf(b as int, k);
    }
  }

  // ---------- 32-bit words ----------

  lemma Join32(h: bv31, l: bv1)
    ensures (((h as bv32) << 1) | (l as bv32)) as int == 2 * h as int + l as int
  {
  }

  lemma Top32(b: bv32) returns (h: bv31)
    ensures h as bv32 == b >> 1
  {
    h := (b >> 1) as bv31;
  }

  lemma Parts32(b: bv32) returns (h: bv31, l: bv1)
    ensures b == ((h as bv32) << 1) | (l as bv32)
    ensures h as bv32 == b >> 1 && (b & 1 != 0 <==> l == 1)
  {
    h := Top32(b);
    l := if b & 1 != 0 then 1 else 0;
  }

  lemma Value31(h: bv31)
    ensures (h as bv32) as int == h as int
  {
  }

  lemma Value1(l: bv1)
    ensures l as int == if l == 1 then 1 else 0
  {
    assert l == 0 || l == 1;
  }

  lemma Half32(b: bv32)
    ensures b as int / 2 == (b >> 1) as int
    ensures b & 1 != 0 <==> b as int % 2 == 1
  {
    var h, l := Parts32(b);
    Join32(h, l);
    Value31(h);
    Value1(l);
  }

  predicate Meet(b: bv32, m: bv32) { b & m != 0 }

  predicate Hit(b: bv32, k: nat)
    requires k < 32
  {
    Meet(b, 1 << k)
  }

  function Value(b: bv32): nat {
    b as int
  }

  lemma HalfValue(b: bv32)
    ensures Value(b) / 2 == Value(b >> 1)
    ensures Hit(b, 0) <==> Value(b) % 2 == 1
  {
    Half32(b);
  }

  lemma HitShift(b: bv32, m: bv32)
    requires m & 0x8000_0000 == 0
    ensures Meet(b, m << 1) <==> Meet(b >> 1, m)
  {
  }

  /** Each mask is the one before it moved up by one, case by case. */
  lemma MaskShift(k: nat)
    requires 0 < k < 32
    ensures (1 as bv32) << k == ((1 as bv32) << (k - 1)) << 1
  {
    assert k == 1 || k == 2 || k == 3 || k == 4 || k == 5 || k == 6 || k == 7 || k == 8
           || k == 9 || k == 10 || k == 11 || k == 12 || k == 13 || k == 14 || k == 15 || k == 16
           || k == 17 || k == 18 || k == 19 || k == 20 || k == 21 || k == 22 || k == 23 || k == 24
           || k == 25 || k == 26 || k == 27 || k == 28 || k == 29 || k == 30 || k == 31;
  }

  lemma LowMask(k: nat)
    requires k < 31
    ensures ((1 as bv32) << k) & 0x8000_0000 == 0
  {
  }

  lemma HitHalf(b: bv32, k: nat)
    requires 0 < k < 32
    ensures Hit(b, k) <==> Hit(b >> 1, k - 1)
  {
    hide Meet;
    MaskShift(k);
    LowMask(k - 1);
    HitShift(b, 1 << (k - 1));
  }

  /** The mask 1 << k selects bit k of a word. */
  lemma {:induction false} HitBit(b: bv32, k: nat)
    requires k < 32
    ensures Hit(b, k) <==> BitOf(Value(b), k)
    decreases k
  {
    hide Hit, Value;
    HalfValue(b);
    if k > 0 {
      HitHalf(b, k);
      HitBit(b >> 1, k - 1);
      BitOfHalf(Value(b), k);
    }
  }

  // ---------- The low twelve bits of a word ----------

  lemma Join12(h: bv20, l: bv12)
    ensures (((h as bv32) << 12) | (l as bv32)) as int == 0x1000 * h as int + l as int
  {
  }

  lemma Parts12(b: bv32) returns (h: bv20, l: bv12)
    ensures b == ((h as bv32) << 12) | (l as bv32)
    ensures h as bv32 == b >> 12 && l as bv32 == b & 0xFFF
  {
    h, l := (b >> 12) as bv20, (b & 0xFFF) as bv12;
  }

  lemma Value20(h: bv20)
    ensures (h as bv32) as int == h as int
  {
  }

  lemma Value12(l: bv12)
    ensures (l as bv32) as int == l as int < 0x1000
  {
  }

  /** A word's quotient and remainder by 0x1000 are its high and its low bits. */
  lemma Split12(b: bv32)
    ensures b as int / 0x1000 == (b >> 12) as int
    ensures b as int % 0x1000 == (b & 0xFFF) as int
  {
    var h, l := Parts12(b);
    Join12(h, l);
    Value20(h);
    Value12(l);
  }

  // ---------- The low four bits of a word ----------

  lemma Join4(h: bv28, l: bv4)
    ensures (((h as bv32) << 4) | (l as bv32)) as int == 16 * h as int + l as int
  {
  }

  lemma Parts4(b: bv32) returns (h: bv28, l: bv4)
    ensures b == ((h as bv32) << 4) | (l as bv32)
    ensures l as bv32 == b & 15
  {
    h, l := (b >> 4) as bv28, (b & 15) as bv4;
  }

  lemma Value4(l: bv4)
    ensures (l as bv32) as int == l as int < 16
  {
  }

  lemma Split4(b: bv32)
    ensures b as int % 16 == (b & 15) as int
  {
    var h, l := Parts4(b);
    Join4(h, l);
    Value4(l);
  }
}
