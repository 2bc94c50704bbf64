/** 64-bit words as naturals, the C operators `&`, `|` and `~` defined bit by bit, and the
    arithmetic reading of every mask the translation code uses.

    `And` and `Or` are the reference meaning of the operators; the rest of the model computes
    with `/` and `%`, and the lemmas here say that both describe the same bits. */
module Bits {

  const TWO_32: int := 0x1_0000_0000
  const TWO_64: int := 0x1_0000_0000_0000_0000

  type U64 = x: nat | x < 0x1_0000_0000_0000_0000

  type Byte = x: nat | x < 256

  /** The value a 64-bit unsigned computation delivers for the exact integer `x`. */
  function Wrap64(x: int): U64 {
    x % TWO_64
  }

  function Wrap32(x: int): (r: nat)
    ensures r < TWO_32
  {
    x % TWO_32
  }

  function Pow2(k: nat): (p: nat)
    ensures p > 0
  {
    if k == 0 then 1 else 2 * Pow2(k - 1)
  }

  function And(x: nat, y: nat): nat {
    if x == 0 || y == 0 then 0 else (x % 2) * (y % 2) + 2 * And(x / 2, y / 2)
  }

  function Or(x: nat, y: nat): nat
    decreases x + y
  {
    if x == 0 then y else if y == 0 then x
    else (if x % 2 + y % 2 > 0 then 1 else 0) + 2 * Or(x / 2, y / 2)
  }

  /** Bitwise complement in 64 bits. */
  function Not64(x: U64): U64 {
    TWO_64 - 1 - x
  }

  /** Bits lo..hi-1 of `x`, left in place. */
  function Field(x: nat, lo: nat, hi: nat): nat
    requires lo <= hi
  {
    x / Pow2(lo) % Pow2(hi - lo) * Pow2(lo)
  }

  // ---- The named pieces of an address or of a table entry ----

  function PageOf(x: nat): (p: nat)
    ensures p <= x && p % 0x1000 == 0
  {
    x / 0x1000 * 0x1000
  }

  function OffsetOf(x: nat): (o: nat)
    ensures o < 0x1000
    ensures x == PageOf(x) + o
  {
    x % 0x1000
  }

  /** Bits 12..35, the table code's PMASK. */
  function Frame36(x: nat): (f: nat)
    ensures f % 0x1000 == 0 && f < 0x10_0000_0000
  {
    x / 0x1000 % 0x100_0000 * 0x1000
  }

  /** Bits 30..51, the frame of a 1 GB page. */
  function FrameGb(x: nat): (f: nat)
    ensures f % 0x4000_0000 == 0 && f < 0x10_0000_0000_0000
  {
    x / 0x4000_0000 % 0x40_0000 * 0x4000_0000
  }

  // ---- Proofs ----

  lemma HalfOfScaled(a: nat, m: nat, r: nat)
    requires m > 0 && r < m
    ensures (a * m + r) / m == a && (a * m + r) % m == r
  {
    var q := (a * m + r) / m;
    var s := (a * m + r) % m;
    assert a * m - q * m == s - r;
    assert (a - q) * m == s - r;
    assert (q - a) * m == r - s;
    if a > q { MulAtLeast(a - q, m); }
    if q > a { MulAtLeast(q - a, m); }
  }

  lemma MulAtLeast(a: nat, m: nat)
    requires a >= 1
    ensures a * m >= m
  {
    assert a * m == m + (a - 1) * m;
  }

  lemma DivUnique(n: nat, m: nat, q: nat, r: nat)
    requires r < m && n == q * m + r
    ensures n / m == q && n % m == r
  {
    HalfOfScaled(q, m, r);
  }

  lemma DigitsOf(n: nat, a: nat, b: nat, m: nat, q: nat, r2: nat, r: nat)
    requires r < a && r2 < b && m == a * b && n == (q * b + r2) * a + r
    ensures r2 * a + r < m && n / m == q && n % m == r2 * a + r && (r2 * a + r) / a == r2
  {
    DigitBound(r2, r, a, b);
    DigitSum(q, r2, r, a, b);
    DivUnique(n, m, q, r2 * a + r);
    DivUnique(r2 * a + r, a, r2, r);
  }

  lemma DivDef(n: nat, a: nat)
    requires a > 0
    ensures n == n / a * a + n % a && n % a < a
  {
  }

  /** Dividing by a product in two steps, and the digits this gives. */
  lemma Digits(n: nat, a: nat, b: nat)
    requires a > 0 && b > 0
    ensures a * b > 0
    ensures n / (a * b) == n / a / b
    ensures n % (a * b) == n / a % b * a + n % a
    ensures n % (a * b) / a == n / a % b
  {
    var q := n / a;
    DivDef(n, a);
    DivDef(q, b);
    DigitsOf(n, a, b, a * b, q / b, q % b, n % a);
  }

  /** A multiple of a product is a multiple of its factor. */
  lemma Coarser(x: nat, a: nat, b: nat)
    requires a > 0 && b > 0 && a * b > 0 && x % (a * b) == 0
    ensures x % b == 0
  {
    Digits(x, b, a);
    assert b * a == a * b;
  }

  lemma DigitBound(r2: nat, r: nat, a: nat, b: nat)
    requires r < a && r2 < b
    ensures r2 * a + r < a * b
  {
    MulAtLeast(b - r2, a);
    assert (b - r2) * a == a * b - r2 * a;
  }

  lemma DigitSum(q2: nat, r2: nat, r: nat, a: nat, b: nat)
    ensures (q2 * b + r2) * a + r == q2 * (a * b) + (r2 * a + r)
  {
    assert q2 * b * a == q2 * (a * b);
  }

  lemma DivByDouble(x: nat, m: nat)
    requires m > 0
    ensures x / (2 * m) == (x / 2) / m
    ensures x % (2 * m) == x % 2 + 2 * ((x / 2) % m)
  {
    Digits(x, 2, m);
  }

  /** `x & (2^k - 1)` is the remainder by 2^k. */
  lemma {:induction false} AndLow(x: nat, k: nat)
    ensures And(x, Pow2(k) - 1) == x % Pow2(k)
  {
    if k == 0 {
    } else if x == 0 {
    } else {
      AndLow(x / 2, k - 1);
      DivByDouble(x, Pow2(k - 1));
      assert (Pow2(k) - 1) / 2 == Pow2(k - 1) - 1;
      assert (Pow2(k) - 1) % 2 == 1;
      assert And(x, Pow2(k) - 1) == x % 2 + 2 * And(x / 2, Pow2(k - 1) - 1);
    }
  }

  lemma {:induction false} PowMonotone(a: nat, b: nat)
    requires a <= b
    ensures Pow2(a) <= Pow2(b)
    decreases b
  {
    if a < b { PowMonotone(a, b - 1); }
  }

  lemma Times2(a: nat, b: nat)
    ensures a * (2 * b) == 2 * (a * b)
  {
  }

  lemma AndStep(x: nat, half: nat)
    ensures And(x, 2 * half) == 2 * And(x / 2, half)
  {
  }

  lemma FieldStep(x: nat, lo: nat, hi: nat)
    requires 0 < lo <= hi
    ensures Field(x, lo, hi) == 2 * Field(x / 2, lo - 1, hi - 1)
  {
    DivByDouble(x, Pow2(lo - 1));
    Times2(x / Pow2(lo) % Pow2(hi - lo), Pow2(lo - 1));
  }

  /** `x` masked by the ones at lo..hi-1 keeps exactly that field. */
  lemma {:induction false} AndField(x: nat, lo: nat, hi: nat)
    requires lo <= hi
    ensures Pow2(lo) <= Pow2(hi)
    ensures And(x, Pow2(hi) - Pow2(lo)) == Field(x, lo, hi)
    decreases lo
  {
    PowMonotone(lo, hi);
    if lo == 0 {
      AndLow(x, hi);
      assert x / Pow2(0) == x;
    } else {
      AndField(x / 2, lo - 1, hi - 1);
      FieldStep(x, lo, hi);
      AndStep(x, Pow2(hi - 1) - Pow2(lo - 1));
    }
  }

  /** Bit k of `x | y` is set iff it is set in either, and of `x & y` iff in both. */
  lemma {:induction false} OperatorBits(x: nat, y: nat, k: nat)
    ensures Or(x, y) / Pow2(k) % 2 == 1 <==> x / Pow2(k) % 2 == 1 || y / Pow2(k) % 2 == 1
    ensures And(x, y) / Pow2(k) % 2 == 1 <==> x / Pow2(k) % 2 == 1 && y / Pow2(k) % 2 == 1
    decreases k
  {
    LowBits(x, y);
    BitProduct(x % 2, y % 2);
    if k > 0 {
      OperatorBits(x / 2, y / 2, k - 1);
      var p := Pow2(k - 1);
      ZeroOver(p);
      DivByDouble(x, p);
      DivByDouble(y, p);
      DivByDouble(Or(x, y), p);
      DivByDouble(And(x, y), p);
      hide Or, And;
    }
  }

  lemma ZeroOver(p: nat)
    requires p > 0
    ensures 0 / p == 0
  {
  }

  lemma LowBits(x: nat, y: nat)
    ensures Or(x, y) % 2 == (if x % 2 + y % 2 > 0 then 1 else 0) && Or(x, y) / 2 == Or(x / 2, y / 2)
    ensures And(x, y) % 2 == (x % 2) * (y % 2) && And(x, y) / 2 == And(x / 2, y / 2)
  {
    hide *;
    OrUnfolds(x, y);
    AndUnfolds(x, y);
    BitProduct(x % 2, y % 2);
    BitOnTop(Or(x, y), if x % 2 + y % 2 > 0 then 1 else 0, Or(x / 2, y / 2));
    BitOnTop(And(x, y), (x % 2) * (y % 2), And(x / 2, y / 2));
  }

  lemma BitProduct(a: nat, b: nat)
    requires a < 2 && b < 2
    ensures a * b < 2 && (a * b == 1 <==> a == 1 && b == 1)
  {
  }

  lemma BitOnTop(n: nat, bit: nat, half: nat)
    requires n == bit + 2 * half && bit < 2
    ensures n % 2 == bit && n / 2 == half
  {
  }

  lemma {:induction false} OrUnfolds(x: nat, y: nat)
    ensures Or(x, y) == (if x % 2 + y % 2 > 0 then 1 else 0) + 2 * Or(x / 2, y / 2)
  {
    if x == 0 {
      assert Or(0, y / 2) == y / 2;
    } else if y == 0 {
      OrZero(x / 2);
    }
  }

  lemma {:induction false} OrZero(x: nat)
    ensures Or(x, 0) == x
  {
  }

  lemma {:induction false} AndUnfolds(x: nat, y: nat)
    ensures And(x, y) == (x % 2) * (y % 2) + 2 * And(x / 2, y / 2)
  {
  }

  lemma {:induction false} OrStep(h: nat, y: nat)
    ensures Or(2 * h, y) == y % 2 + 2 * Or(h, y / 2)
  {
    if h == 0 || y == 0 {
    } else {
      assert (2 * h) % 2 == 0 && (2 * h) / 2 == h;
    }
  }

  /** Or-ing a low field onto a word whose low bits are clear is addition. */
  lemma {:induction false} OrDisjoint(x: nat, y: nat, k: nat)
    requires y < Pow2(k)
    ensures Or(x * Pow2(k), y) == x * Pow2(k) + y
    decreases k
  {
    if k == 0 {
      assert x * Pow2(0) == x;
    } else {
      OrDisjoint(x, y / 2, k - 1);
      Times2(x, Pow2(k - 1));
      OrStep(x * Pow2(k - 1), y);
    }
  }

  lemma {:induction false} PowSum(a: nat, b: nat)
    ensures Pow2(a + b) == Pow2(a) * Pow2(b)
    decreases a
  {
    if a > 0 {
      PowSum(a - 1, b);
      assert Pow2(a + b) == 2 * (Pow2(a - 1) * Pow2(b));
    }
  }

  lemma SmallPowers()
    ensures Pow2(4) == 16 && Pow2(10) == 1024 && Pow2(12) == 0x1000
  {
    assert Pow2(4) == 16;
    PowSum(6, 4);
    assert Pow2(6) == 64;
    PowSum(6, 6);
  }

  lemma Powers()
    ensures Pow2(12) == 0x1000 && Pow2(22) == 0x40_0000 && Pow2(24) == 0x100_0000
    ensures Pow2(30) == 0x4000_0000 && Pow2(36) == 0x10_0000_0000
    ensures Pow2(52) == 0x10_0000_0000_0000
  {
    SmallPowers();
    PowSum(12, 10);
    PowSum(12, 12);
    PowSum(20, 10);
    PowSum(10, 10);
    PowSum(24, 12);
    PowSum(22, 30);
  }

  lemma TopPower()
    ensures Pow2(64) == TWO_64 && Pow2(60) == 0x1000_0000_0000_0000
  {
    SmallPowers();
    Powers();
    PowSum(30, 30);
    PowSum(4, 60);
  }

  lemma DivLess(x: nat, p: nat, q: nat)
    requires p > 0 && x < p * q
    ensures x / p < q
  {
    DivDef(x, p);
    var k := x / p;
    if k >= q {
      ProductMonotone(q, k, p);
    }
  }

  lemma ProductMonotone(a: nat, b: nat, p: nat)
    requires a <= b
    ensures p * a <= b * p
  {
    assert b * p == p * a + (b - a) * p;
  }

  lemma TopQuotient(x: nat, p: nat, q: nat)
    requires p > 0 && x < p * q
    ensures q > 0 && x / p % q == x / p
  {
    DivLess(x, p, q);
    var k := x / p;
    assert k == 0 * q + k;
    DivUnique(k, q, 0, k);
  }

  /** The ones from bit k up select the multiple of 2^k below `x`. */
  lemma HighMask(x: U64, k: nat)
    requires k <= 64
    ensures Pow2(64) >= Pow2(k)
    ensures And(x, Pow2(64) - Pow2(k)) == x / Pow2(k) * Pow2(k)
  {
    AndField(x, k, 64);
    TopQuotient(x, Pow2(k), Pow2(64 - k)) by {
      TopPower();
      PowSum(k, 64 - k);
    }
  }

  /** `x & ~0xfff` is the page of `x`. */
  lemma PageMask(x: U64)
    ensures And(x, Not64(0xfff)) == PageOf(x)
  {
    SmallPowers();
    TopPower();
    HighMask(x, 12);
  }

  /** `x & 0xfff` is the offset in the page. */
  lemma OffsetMask(x: U64)
    ensures And(x, 0xfff) == OffsetOf(x)
  {
    Powers();
    AndLow(x, 12);
  }

  /** PMASK, `(~0xfull << 8) & 0xfffffffff`, keeps bits 12..35. */
  lemma TableMask(x: U64)
    ensures And(x, 0xf_ffff_f000) == Frame36(x)
  {
    Powers();
    AndField(x, 12, 36);
  }

  /** `~0ull << 42 >> 12` keeps bits 30..51. */
  lemma GbMask(x: U64)
    ensures And(x, 0xf_ffff_c000_0000) == FrameGb(x)
  {
    Powers();
    AndField(x, 30, 52);
  }

  /** `x & ~0xf` clears the low four bits. */
  lemma DirBaseMask(x: U64)
    ensures And(x, Not64(0xf)) == x - x % 16
  {
    SmallPowers();
    TopPower();
    HighMask(x, 4);
    DivDef(x, 16);
  }

  /** A cached page or-ed with a page offset is the page plus the offset. */
  lemma OrOffsetIsSum(page: nat, address: nat)
    requires page % 0x1000 == 0
    ensures Or(page, OffsetOf(address)) == page + OffsetOf(address)
  {
    SmallPowers();
    OrDisjoint(page / 0x1000, OffsetOf(address), 12);
  }

  lemma OffsetOfSum(page: nat, off: nat)
    requires page % 0x1000 == 0 && off < 0x1000
    ensures PageOf(page + off) == page && OffsetOf(page + off) == off
  {
  }

  /** Addresses that wrap keep their place in the page. */
  lemma WrapKeepsOffset(x: nat)
    ensures OffsetOf(Wrap64(x)) == OffsetOf(x)
  {
    Digits(x, 0x1000, 0x10_0000_0000_0000);
  }

  lemma WrapKeepsAlignment(x: nat)
    requires x % 8 == 0
    ensures Wrap64(x) % 8 == 0
  {
    Digits(x, 8, 0x2000_0000_0000_0000);
  }
}
