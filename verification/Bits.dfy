/** Bit operations of the machine on natural numbers, and the arithmetic they stand for.

    The kernel is compiled for a 64-bit machine; `uintptr_t`, `size_t` and `paddr_t` are 64 bits
    wide.  The operators are defined bit by bit, so that a mask of any width can be reasoned about. */
module Bits {
  const TWO_32: nat := 0x1_0000_0000
  const TWO_64: nat := 0x1_0000_0000_0000_0000

  type Word = w: nat | w < TWO_32
  type Quad = q: nat | q < TWO_64

  function Min(a: int, b: int): int {
    if a < b then a else b
  }

  function Pow2(k: nat): (r: nat)
    ensures r > 0
  {
    if k == 0 then 1 else 2 * Pow2(k - 1)
  }

  function BitAnd(a: nat, b: nat): (r: nat)
    ensures r <= a && r <= b
  {
    if a == 0 || b == 0 then 0
    else (if a % 2 == 1 && b % 2 == 1 then 1 else 0) + 2 * BitAnd(a / 2, b / 2)
  }

  function BitOr(a: nat, b: nat): nat {
    if a == 0 then b
    else if b == 0 then a
    else (if a % 2 == 1 || b % 2 == 1 then 1 else 0) + 2 * BitOr(a / 2, b / 2)
  }

  function Shr(a: nat, k: nat): nat {
    if k == 0 then a else Shr(a / 2, k - 1)
  }

  /** The complement operator on a 64-bit word. */
  function Not64(a: nat): (r: nat)
    requires a < TWO_64
    ensures r < TWO_64
  {
    TWO_64 - 1 - a
  }

  function Add64(a: nat, b: nat): (r: nat)
    ensures r < TWO_64
  {
    (a + b) % TWO_64
  }

  function Sub64(a: nat, b: nat): (r: nat)
    requires a < TWO_64 && b < TWO_64
    ensures r < TWO_64
  {
    (a + TWO_64 - b) % TWO_64
  }

  lemma AddFits(a: nat, b: nat)
    requires a + b < TWO_64
    ensures Add64(a, b) == a + b
  {
  }

  lemma {:induction false} Pow2Add(a: nat, b: nat)
    ensures Pow2(a + b) == Pow2(a) * Pow2(b)
  {
    if a > 0 {
      Pow2Add(a - 1, b);
      assert a + b - 1 == (a - 1) + b;
    }
  }

  lemma Pow2Values()
    ensures Pow2(3) == 8 && Pow2(9) == 0x200 && Pow2(12) == 0x1000
    ensures Pow2(21) == 0x20_0000 && Pow2(31) == 0x8000_0000 && Pow2(30) == 0x4000_0000
    ensures Pow2(39) == 0x80_0000_0000 && Pow2(40) == 0x100_0000_0000
    ensures Pow2(52) == 0x10_0000_0000_0000 && Pow2(64) == TWO_64
  {
    assert Pow2(8) == 256;
    assert Pow2(16) == 65536 by { Pow2Add(8, 8); }
    assert Pow2(4) == 16;
    assert Pow2(12) == 4096 by { Pow2Add(8, 4); }
    assert Pow2(21) == 0x20_0000 by { Pow2Add(12, 9); assert Pow2(9) == 512; }
    assert Pow2(30) == 0x4000_0000 by { Pow2Add(21, 9); }
    assert Pow2(31) == 0x8000_0000;
    assert Pow2(39) == 0x80_0000_0000 by { Pow2Add(30, 9); }
    assert Pow2(40) == 0x100_0000_0000;
    assert Pow2(52) == 0x10_0000_0000_0000 by { Pow2Add(40, 12); }
    assert Pow2(64) == TWO_64 by { Pow2Add(52, 12); }
  }

  /** Dividing by two first, then reducing: the step every mask proof takes. */
  lemma HalveMod(x: nat, m: nat)
    requires m > 0
    ensures x % (2 * m) == x % 2 + 2 * ((x / 2) % m)
  {
    var q, r := (x / 2) / m, (x / 2) % m;
    assert x / 2 == q * m + r;
    assert x == (2 * m) * q + (x % 2 + 2 * r);
    ModUnique(x, 2 * m, q, x % 2 + 2 * r);
  }

  lemma MulGap(d: nat, q: nat, q': nat)
    requires q < q'
    ensures d * q + d <= d * q'
  {
    assert d * q' == d * q + d * (q' - q);
    assert d * (q' - q) == d + d * (q' - q - 1);
  }

  /** Quotient and remainder are determined by the division equation. */
  lemma ModUnique(x: nat, d: nat, q: nat, r: nat)
    requires d > 0 && r < d && x == d * q + r
    ensures x / d == q && x % d == r
  {
    var q', r' := x / d, x % d;
    assert x == d * q' + r';
    if q' < q {
      MulGap(d, q', q);
      assert false;
    } else if q' > q {
      MulGap(d, q, q');
      assert false;
    }
  }

  lemma MulAssoc(a: nat, b: nat, c: nat)
    ensures (a * b) * c == a * (b * c)
  {
  }

  lemma MulDist(a: nat, b: nat, c: nat)
    ensures a * (b + c) == a * b + a * c
  {
  }

  /** The remainder by a divisor of the divisor. */
  lemma ModOfMod(x: nat, d: nat, k: nat, m: nat)
    requires d > 0 && m > 0 && m == d * k
    ensures x % m % d == x % d && x % d <= x % m
  {
    var r := x % m;
    DivideTwice(x, d, k, m, x / m, r, r / d, r % d);
  }

  lemma DivideTwice(x: nat, d: nat, k: nat, m: nat, q: nat, r: nat, q2: nat, r2: nat)
    requires m == d * k && x == m * q + r && r == d * q2 + r2 && r2 < d
    ensures x % d == r2 && r2 <= r
  {
    MulAssoc(d, k, q);
    MulDist(d, k * q, q2);
    ModUnique(x, d, k * q + q2, r2);
  }

  /** A multiple plus something smaller than the divisor. */
  lemma ModOfSum(t: nat, f: nat, d: nat)
    requires d > 0 && t % d == 0 && f < d
    ensures (t + f) % d == f && (t + f) / d == t / d
  {
    ModUnique(t + f, d, t / d, f);
  }

  lemma ModSmall(x: nat, d: nat)
    requires x < d
    ensures x % d == x && x / d == 0
  {
    ModUnique(x, d, 0, x);
  }

  lemma AndOddMask(x: nat, w: nat)
    ensures BitAnd(x, 2 * w + 1) == x % 2 + 2 * BitAnd(x / 2, w)
  {
    assert (2 * w + 1) / 2 == w && (2 * w + 1) % 2 == 1;
  }

  lemma AndEvenMask(x: nat, w: nat, m: nat)
    requires m == 2 * w
    ensures BitAnd(x, m) == 2 * BitAnd(x / 2, w)
  {
    assert m / 2 == w && m % 2 == 0;
  }

  /** Shifting right divides. */
  lemma {:induction false} ShrIsDiv(a: nat, k: nat)
    ensures Shr(a, k) == a / Pow2(k)
  {
    if k > 0 {
      ShrIsDiv(a / 2, k - 1);
      HalveDiv(a, Pow2(k - 1), Pow2(k));
    }
  }

  lemma HalveDiv(a: nat, p: nat, p2: nat)
    requires p > 0 && p2 == 2 * p
    ensures a / p2 == a / 2 / p
  {
    var h := a / 2;
    var q, r := h / p, h % p;
    assert h == p * q + r;
    MulAssoc(2, p, q);
    ModUnique(a, p2, q, 2 * r + a % 2);
  }

  /** Masking with `2^m - 1` keeps the value modulo `2^m`. */
  lemma {:induction false} AndLow(x: nat, m: nat)
    ensures BitAnd(x, Pow2(m) - 1) == x % Pow2(m)
  {
    if m > 0 {
      AndLow(x / 2, m - 1);
      LowStep(x, Pow2(m - 1), Pow2(m), x / 2 % Pow2(m - 1));
      HalveMod(x, Pow2(m - 1));
    }
  }

  lemma LowStep(x: nat, p: nat, p2: nat, low: nat)
    requires p > 0 && p2 == 2 * p && BitAnd(x / 2, p - 1) == low
    ensures BitAnd(x, p2 - 1) == x % 2 + 2 * low
  {
    AndOddMask(x, p - 1);
  }

  lemma {:induction false} Pow2Mono(a: nat, b: nat)
    requires a <= b
    ensures Pow2(a) <= Pow2(b)
  {
    if a < b {
      Pow2Mono(a, b - 1);
    }
  }

  /** Masking with `u` and with `v` together keeps what masking with `w` keeps. */
  ghost predicate Parts(x: nat, u: nat, v: nat, w: nat) {
    forall k :: Open(x, k) ==> BitAnd(x, u) + BitAnd(x, v) == BitAnd(x, w)
  }

  lemma PartsDouble(x: nat, u: nat, v: nat, w: nat, u2: nat, v2: nat, w2: nat)
    requires u2 == 2 * u && v2 == 2 * v + 1 && w2 == 2 * w + 1
    requires Parts(x / 2, u, v, w)
    ensures Parts(x, u2, v2, w2)
  {
    var half: nat := x / 2;
    assert Open(half, 0);
    AndEvenMask(x, u, u2);
    AndOddMask(x, v);
    AndOddMask(x, w);
  }

  lemma PartsNone(x: nat, v: nat, w: nat)
    requires v == 0
    ensures Parts(x, w, v, w)
  {
  }

  /** The bits below `lo` and the bits from `lo` up to `hi` make the bits below `hi`. */
  lemma {:induction false} PartsOfField(x: nat, lo: nat, hi: nat, p: nat, q: nat)
    requires lo <= hi && p == Pow2(lo) && q == Pow2(hi)
    ensures p <= q
    ensures Parts(x, q - p, p - 1, q - 1)
  {
    Pow2Mono(lo, hi);
    if lo == 0 {
      PartsNone(x, p - 1, q - 1);
    } else {
      var p0, q0 := Pow2(lo - 1), Pow2(hi - 1);
      PartsOfField(x / 2, lo - 1, hi - 1, p0, q0);
      PartsGrow(x, p0, q0, p, q);
    }
  }

  lemma PartsGrow(x: nat, p: nat, q: nat, p2: nat, q2: nat)
    requires 0 < p <= q && p2 == 2 * p && q2 == 2 * q
    requires Parts(x / 2, q - p, p - 1, q - 1)
    ensures Parts(x, q2 - p2, p2 - 1, q2 - 1)
  {
    PartsDouble(x, q - p, p - 1, q - 1, q2 - p2, p2 - 1, q2 - 1);
  }

  /** Masking with the ones of bits `lo` up to (not including) `hi` cuts that bit field out. */
  lemma AndField(x: nat, lo: nat, hi: nat)
    requires lo <= hi
    ensures Pow2(lo) <= Pow2(hi)
    ensures BitAnd(x, Pow2(hi) - Pow2(lo)) == x % Pow2(hi) - x % Pow2(lo)
  {
    PartsOfField(x, lo, hi, Pow2(lo), Pow2(hi));
    assert Open(x, 0);
    AndLow(x, lo);
    AndLow(x, hi);
  }

  lemma OrEven(a: nat, b: nat)
    ensures BitOr(a, b) == (if a % 2 == 1 || b % 2 == 1 then 1 else 0) + 2 * BitOr(a / 2, b / 2)
  {
  }

  /** Or-ing values that share no bit adds them. */
  lemma {:induction false} OrDisjoint(a: nat, b: nat, k: nat)
    requires a % Pow2(k) == 0 && b < Pow2(k)
    ensures BitOr(a, b) == a + b
  {
    if k > 0 {
      var p := Pow2(k - 1);
      HalveMod(a, p);
      OrDisjoint(a / 2, b / 2, k - 1);
      OrEven(a, b);
    }
  }

  /** A long property of `x` is kept shut behind this predicate, so that a proof that only passes it
      on does not look inside; `assert Open(x, 0)` opens it. */
  ghost predicate Open<T>(x: T, k: nat) {
    true
  }
}
