/** The address-rounding macros: mask arithmetic, and the rounding it stands for. */
module Rounding {
  import opened Bits

  function RoundUp(addr: nat, align: nat): (r: nat)
    requires 0 < align <= TWO_64 && addr < TWO_64
    ensures r <= TWO_64
  {
    BitAnd(Add64(addr, align - 1), Not64(align - 1))
  }

  function RoundDown(addr: nat, align: nat): (r: nat)
    requires 0 < align <= TWO_64 && addr < TWO_64
    ensures r <= addr
  {
    BitAnd(addr, Not64(align - 1))
  }

  predicate IsAligned(addr: nat, align: nat)
    requires 0 < align
  {
    BitAnd(addr, align - 1) == 0
  }

  /** For every power of two, rounding down by mask is subtracting the remainder. */
  lemma RoundDownIsArithmetic(addr: nat, k: nat)
    requires addr < TWO_64 && k <= 64
    ensures Pow2(k) <= TWO_64
    ensures RoundDown(addr, Pow2(k)) == addr - addr % Pow2(k)
  {
    Pow2Values();
    AndField(addr, k, 64);
    ModUnique(addr, TWO_64, 0, addr);
    MaskedDown(addr, Pow2(k), addr % Pow2(k));
  }

  lemma MaskedDown(addr: nat, p: nat, rest: nat)
    requires addr < TWO_64 && 0 < p <= TWO_64
    requires BitAnd(addr, TWO_64 - p) == addr - rest
    ensures RoundDown(addr, p) == addr - rest
  {
    assert Not64(p - 1) == TWO_64 - p;
  }

  /** The least multiple of `p` that is not below `addr`. */
  function Ceiling(addr: nat, p: nat): nat
    requires p > 0
  {
    addr + p - 1 - (addr + p - 1) % p
  }

  /** `Ceiling` is a multiple, not below the address, and no multiple lies between. */
  lemma CeilingIsLeast(addr: nat, p: nat, q: nat)
    requires p > 0 && addr <= q * p
    ensures addr <= Ceiling(addr, p) < addr + p
    ensures Ceiling(addr, p) % p == 0
    ensures Ceiling(addr, p) <= q * p
  {
    var t := (addr + p - 1) / p;
    assert addr + p - 1 == p * t + (addr + p - 1) % p;
    ModUnique(p * t, p, t, 0);
    if q < t {
      MulGap(p, q, t);
      assert false;
    }
    if t < q {
      MulGap(p, t, q);
    }
    assert p * q == q * p;
  }

  /** The sum the macro masks, when it does not wrap and when it does. */
  lemma RoundUpMasks(addr: nat, align: nat, sum: nat)
    requires 0 < align <= TWO_64 && addr < TWO_64 && sum < TWO_64
    requires addr + align - 1 == sum || addr + align - 1 == sum + TWO_64
    ensures RoundUp(addr, align) == RoundDown(sum, align)
  {
    assert Add64(addr, align - 1) == sum;
  }

  lemma Pow2Fits(k: nat)
    requires k <= 64
    ensures Pow2(k) <= TWO_64
  {
    Pow2Mono(k, 64);
    Pow2Values();
  }

  /** For every power of two, rounding up by mask gives the least multiple not below the address,
      unless that multiple is beyond the address space: then the sum wraps and the result is 0. */
  lemma RoundUpIsArithmetic(addr: nat, k: nat)
    requires addr < TWO_64 && k <= 64
    ensures Pow2(k) <= TWO_64
    ensures RoundUp(addr, Pow2(k)) == if addr + Pow2(k) - 1 < TWO_64 then Ceiling(addr, Pow2(k)) else 0
  {
    Pow2Fits(k);
    if addr + Pow2(k) - 1 < TWO_64 {
      RoundUpFits(addr, k, Pow2(k));
    } else {
      RoundUpWraps(addr, k, Pow2(k));
    }
  }

  lemma RoundUpFits(addr: nat, k: nat, p: nat)
    requires k <= 64 && p == Pow2(k) && p <= TWO_64 && addr + p - 1 < TWO_64
    ensures RoundUp(addr, p) == Ceiling(addr, p)
  {
    RoundUpMasks(addr, p, addr + p - 1);
    RoundDownIsArithmetic(addr + p - 1, k);
  }

  lemma RoundUpWraps(addr: nat, k: nat, p: nat)
    requires k <= 64 && p == Pow2(k) && p <= TWO_64 && addr < TWO_64 <= addr + p - 1
    ensures RoundUp(addr, p) == 0
  {
    var rest := addr + p - 1 - TWO_64;
    RoundUpMasks(addr, p, rest);
    RoundDownIsArithmetic(rest, k);
    ModSmall(rest, p);
  }

  /** The alignment test is divisibility. */
  lemma IsAlignedIsDivisible(addr: nat, k: nat)
    ensures IsAligned(addr, Pow2(k)) <==> addr % Pow2(k) == 0
  {
    AndLow(addr, k);
  }

  /** The two alignments the kernel uses, with the rounding written out. */
  lemma RoundPageDown(addr: nat)
    requires addr < TWO_64
    ensures RoundDown(addr, 4096) == addr - addr % 4096
  {
    Pow2Values();
    RoundDownIsArithmetic(addr, 12);
  }

  lemma RoundPageUp(addr: nat)
    requires addr < TWO_64
    ensures RoundUp(addr, 4096) == if addr + 4095 < TWO_64 then (addr + 4095) / 4096 * 4096 else 0
  {
    Pow2Values();
    RoundUpIsArithmetic(addr, 12);
  }

  lemma RoundEight(addr: nat)
    requires addr + 7 < TWO_64
    ensures RoundUp(addr, 8) == (addr + 7) / 8 * 8
  {
    Pow2Values();
    RoundUpIsArithmetic(addr, 3);
  }
}
