/** 32-bit words as numbers, with C's bitwise operators on them. */
module Words {
  // uint32_t, size_t and uintptr_t are all 32 bits wide on the target.
  type Word = x: nat | x < 0x1_0000_0000

  /** Reduction modulo 2^32, as unsigned arithmetic does it. */
  function Wrap(x: int): (w: Word)
    ensures 0 <= x < 0x1_0000_0000 ==> w == x
    ensures 0x1_0000_0000 <= x < 0x2_0000_0000 ==> w == x - 0x1_0000_0000
    ensures -0x1_0000_0000 <= x < 0 ==> w == x + 0x1_0000_0000
  {
    x % 0x1_0000_0000
  }

  /** The 32-bit sum. */
  function Plus(a: Word, b: Word): (r: Word)
    ensures a + b < 0x1_0000_0000 ==> r == a + b
    ensures a + b >= 0x1_0000_0000 ==> r < a && r < b
  {
    (a + b) % 0x1_0000_0000
  }

  function Pow2(k: nat): (p: nat)
    ensures p > 0
  {
    if k == 0 then 1 else 2 * Pow2(k - 1)
  }

  /** Bitwise conjunction, from the lowest bit up. */
  function And(a: nat, b: nat): (c: nat)
    ensures c <= a && c <= b
  {
    if a == 0 || b == 0 then 0
    else 2 * And(a / 2, b / 2) + (if a % 2 == 1 && b % 2 == 1 then 1 else 0)
  }

  /** Bitwise disjunction, from the lowest bit up. */
  function Or(a: nat, b: nat): (c: nat)
    ensures c == a + b - And(a, b)
  {
    if a == 0 || b == 0 then a + b
    else 2 * Or(a / 2, b / 2) + (if a % 2 == 1 || b % 2 == 1 then 1 else 0)
  }

  lemma AndStep(a: nat, b: nat, c: nat, d: nat)
    requires c < 2 && d < 2
    ensures And(2 * a + c, 2 * b + d) == 2 * And(a, b) + (if c == 1 && d == 1 then 1 else 0)
  {
    assert (2 * a + c) / 2 == a && (2 * b + d) / 2 == b;
  }

  lemma TimesTwo(h: nat, p: nat)
    ensures h * (2 * p) == 2 * (h * p)
  {
  }

  /** Conjunction acts on the high and the low k bits separately. */
  lemma {:induction false} AndSplits(k: nat, h: nat, l: nat, g: nat, m: nat)
    requires l < Pow2(k) && m < Pow2(k)
    ensures And(h * Pow2(k) + l, g * Pow2(k) + m) == And(h, g) * Pow2(k) + And(l, m)
  {
    hide And;
    if k == 0 {
      assert l == 0 && m == 0 && Pow2(0) == 1;
      AndStep(0, 0, 0, 0);
    } else {
      var P := Pow2(k - 1);
      AndSplits(k - 1, h, l / 2, g, m / 2);
      AndStep(h * P + l / 2, g * P + m / 2, l % 2, m % 2);
      AndStep(l / 2, m / 2, l % 2, m % 2);
      TimesTwo(h, P);
      TimesTwo(g, P);
      TimesTwo(And(h, g), P);
    }
  }

  /** Conjunction with k one bits is the remainder modulo 2^k. */
  lemma {:induction false} AndOnes(k: nat, q: nat, r: nat)
    requires r < Pow2(k)
    ensures And(q * Pow2(k) + r, Pow2(k) - 1) == r
  {
    hide And;
    if k == 0 {
      assert r == 0 && Pow2(0) == 1;
    } else {
      var P := Pow2(k - 1);
      AndOnes(k - 1, q, r / 2);
      AndStep(q * P + r / 2, P - 1, r % 2, 1);
      TimesTwo(q, P);
    }
  }

  lemma Powers()
    ensures Pow2(12) == 4096 && Pow2(20) == 0x10_0000
    ensures Pow2(31) == 0x8000_0000 && Pow2(32) == 0x1_0000_0000
  {
    assert Pow2(12) == 4096;
    assert Pow2(20) == 0x10_0000;
    assert Pow2(31) == 0x8000_0000;
  }

  lemma Split12(h: nat, l: nat, g: nat, m: nat)
    requires l < 4096 && m < 4096
    ensures And(h * 4096 + l, g * 4096 + m) == And(h, g) * 4096 + And(l, m)
  {
    hide And;
    Powers();
    AndSplits(12, h, l, g, m);
  }

  lemma Split31(h: nat, l: nat, g: nat, m: nat)
    requires l < 0x8000_0000 && m < 0x8000_0000
    ensures And(h * 0x8000_0000 + l, g * 0x8000_0000 + m) == And(h, g) * 0x8000_0000 + And(l, m)
  {
    hide And;
    Powers();
    AndSplits(31, h, l, g, m);
  }

  lemma Ones(l: nat)
    ensures l < 4096 ==> And(l, 0xFFF) == l
    ensures l < 0x10_0000 ==> And(l, 0xF_FFFF) == l
  {
    hide And;
    Powers();
    if l < 4096 { AndOnes(12, 0, l); }
    if l < 0x10_0000 { AndOnes(20, 0, l); }
  }
}
