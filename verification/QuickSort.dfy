/** The three-way quicksort, in place on bytes.  Cursors count elements; `At` turns one into the
    address the source holds. */
module QuickSort {
  import opened Bits
  import opened Bytes
  import opened Blocks
  import opened Order

  /** `SWAPINIT`: 2 exchanges bytes, 1 exchanges words, 0 also keeps the pivot in a word. */
  function SwapType(addr: nat, es: nat): int {
    if BitOr(addr, es) % WORD != 0 then 2 else if es > WORD then 1 else 0
  }

  /** Alignment of an or: the low `k` bits are clear just when both operands' are. */
  lemma {:induction false} OrAligned(a: nat, b: nat, k: nat)
    ensures BitOr(a, b) % Pow2(k) == 0 <==> a % Pow2(k) == 0 && b % Pow2(k) == 0
  {
    if k > 0 {
      var p := Pow2(k - 1);
      OrAligned(a / 2, b / 2, k - 1);
      OrEven(a, b);
      HalveMod(a, p);
      HalveMod(b, p);
      HalveMod(BitOr(a, b), p);
    }
  }

  lemma SwapTypeMeans(addr: nat, es: nat)
    requires es > 0
    ensures SwapType(addr, es) <= 1 ==> addr % WORD == 0 && es % WORD == 0
    ensures SwapType(addr, es) == 0 <==> addr % WORD == 0 && es == WORD
  {
    OrAligned(addr, es, 3);
    assert Pow2(3) == WORD;
  }

  /** The bytes before and after the array are the same. */
  ghost predicate SameOutside(before: seq<Byte>, after: seq<Byte>, base: nat, n: nat, es: nat) {
    && |before| == |after|
    && forall p :: 0 <= p < |before| && (p < base || At(base, es, n) <= p) ==> after[p] == before[p]
  }

  /** The element at index `i`, as `cmp` sees it through a pointer. */
  function Read(mem: array<Byte>, base: nat, es: nat, i: nat): (e: Element)
    requires At(base, es, i) + es <= mem.Length
    reads mem
    ensures e == ElementAt(mem[..], base, es, i)
  {
    mem[At(base, es, i)..At(base, es, i) + es]
  }

  /** `vecswap`: exchanges `k` whole elements at `i` and at `j`. */
  method VecSwap(mem: array<Byte>, base: nat, n: nat, es: nat, swaptype: int, i: nat, j: nat, k: nat)
    requires At(base, es, n) <= mem.Length && i + k <= n && j + k <= n && Apart(i, j, k)
    requires swaptype <= 1 ==> es % WORD == 0
    modifies mem
    ensures View(mem[..], base, n, es) == SwapBlocks(View(old(mem[..]), base, n, es), i, j, k)
    ensures SameOutside(old(mem[..]), mem[..], base, n, es)
  {
    ghost var before := mem[..];
    AtPlus(base, es, i, k);
    AtPlus(base, es, j, k);
    AtMono(base, es, i + k, n);
    AtMono(base, es, j + k, n);
    SpanApart(base, es, i, j, k);
    if swaptype <= 1 {
      SpanWords(es, k);
    }
    if k > 0 {
      SwapFunc(mem, At(base, es, i), At(base, es, j), Span(es, k), swaptype);
    } else {
      assert mem[..] == SwapBlocks(before, At(base, es, i), At(base, es, j), 0);
    }
    ViewOfSwap(before, base, n, es, i, j, k);
  }

  lemma SpanApart(base: nat, es: nat, i: nat, j: nat, k: nat)
    requires Apart(i, j, k)
    ensures Apart(At(base, es, i), At(base, es, j), Span(es, k))
  {
    AtPlus(base, es, i, k);
    AtPlus(base, es, j, k);
    if i + k <= j {
      AtMono(base, es, i + k, j);
    } else if j + k <= i {
      AtMono(base, es, j + k, i);
    }
  }

  /** `swap`: exchanges two elements, through one word when the array allows it. */
  method Exchange(mem: array<Byte>, base: nat, n: nat, es: nat, swaptype: int, i: nat, j: nat)
    requires At(base, es, n) <= mem.Length && i < n && j < n
    requires es > 0 && swaptype == SwapType(base, es)
    modifies mem
    ensures View(mem[..], base, n, es) == SwapBlocks(View(old(mem[..]), base, n, es), i, j, 1)
    ensures SameOutside(old(mem[..]), mem[..], base, n, es)
  {
    SwapTypeMeans(base, es);
    if swaptype != 0 {
      VecSwap(mem, base, n, es, swaptype, i, j, 1);
    } else {
      ghost var before := mem[..];
      AtMono(base, es, i, n);
      AtMono(base, es, j, n);
      SpanApart(base, es, i, j, 1);
      assert Span(es, 1) == es == WORD;
      ExchangeWords(mem, At(base, es, i), At(base, es, j));
      ViewOfSwap(before, base, n, es, i, j, 1);
    }
  }

  /** The four zones of the partition loop, with the part still to be looked at in between:
      equivalent to the pivot, below it, unseen, above it, equivalent to it. */
  ghost predicate Zones(e: seq<Element>, cmp: Comparator, p: Element, pa: nat, pb: nat, pc: int, pd: int) {
    && pa <= pb <= pc + 1 && pc <= pd < |e|
    && (forall k :: 0 <= k < pa ==> cmp(e[k], p) == 0)
    && (forall k :: pa <= k < pb ==> cmp(e[k], p) < 0)
    && (forall k :: pc < k <= pd ==> cmp(e[k], p) > 0)
    && (forall k :: pd < k < |e| ==> cmp(e[k], p) == 0)
  }

  /** Where the pivot is read from: the first element itself when `swaptype` is not 0, and then no
      exchange may move it; the saved word `v` otherwise. */
  ghost predicate PivotKept(e: seq<Element>, swaptype: int, v: Element, p: Element) {
    if swaptype != 0 then |e| > 0 && e[0] == p else v == p
  }

  /** Everything an exchange inside the array keeps: the elements, up to order, and all else. */
  ghost predicate Rearranged(before: seq<Byte>, after: seq<Byte>, base: nat, n: nat, es: nat)
    requires At(base, es, n) <= |before|
  {
    && SameOutside(before, after, base, n, es)
    && multiset(View(after, base, n, es)) == multiset(View(before, base, n, es))
  }

  /** The same, shut. */
  ghost predicate Kept(start: seq<Byte>, now: seq<Byte>, base: nat, n: nat, es: nat)
    requires At(base, es, n) <= |start|
  {
    forall k: nat :: Open(now, k) ==> Rearranged(start, now, base, n, es)
  }

  lemma KeptIs(start: seq<Byte>, now: seq<Byte>, base: nat, n: nat, es: nat)
    requires At(base, es, n) <= |start|
    ensures Kept(start, now, base, n, es) <==> Rearranged(start, now, base, n, es)
  {
    assert Open(now, 0);
  }

  lemma KeptOn(start: seq<Byte>, was: seq<Byte>, now: seq<Byte>, base: nat, n: nat, es: nat)
    requires At(base, es, n) <= |start| == |was| && Kept(start, was, base, n, es)
    requires Rearranged(was, now, base, n, es)
    ensures Kept(start, now, base, n, es)
  {
    KeptIs(start, was, base, n, es);
  }

  /** The elements are these; shut. */
  ghost predicate Shows(m: seq<Byte>, base: nat, n: nat, es: nat, e: seq<Element>)
    requires At(base, es, n) <= |m|
  {
    forall x: nat :: Open(e, x) ==> e == View(m, base, n, es)
  }

  lemma ShowsIs(m: seq<Byte>, base: nat, n: nat, es: nat, e: seq<Element>)
    requires At(base, es, n) <= |m|
    ensures Shows(m, base, n, es, e) <==> e == View(m, base, n, es)
  {
    assert Open(e, 0);
  }

  /** One block exchange, shut. */
  ghost predicate Swapped(e: seq<Element>, f: seq<Element>, i: nat, j: nat, k: nat)
    requires i + k <= |e| && j + k <= |e|
  {
    forall x: nat :: Open(f, x) ==> f == SwapBlocks(e, i, j, k)
  }

  lemma Untouched(e: seq<Element>, f: seq<Element>, i: nat, j: nat, k: nat)
    requires i < |e| && j < |e| && k < |e| && k != i && k != j && Swapped(e, f, i, j, 1)
    ensures k < |f| && f[k] == e[k]
  {
    assert Open(f, 0);
  }

  lemma PivotStays(e: seq<Element>, f: seq<Element>, i: nat, j: nat, swaptype: int, v: Element, p: Element)
    requires PivotKept(e, swaptype, v, p) && i < |e| && j < |e| && Swapped(e, f, i, j, 1)
    requires swaptype != 0 ==> (i == 0 <==> j == 0)
    ensures PivotKept(f, swaptype, v, p)
  {
    assert Open(f, 0);
  }

  /** The four zones, shut but for their bounds. */
  ghost predicate Zoned(e: seq<Element>, cmp: Comparator, p: Element, pa: nat, pb: nat, pc: int, pd: int) {
    && pa <= pb <= pc + 1 && pc <= pd < |e|
    && forall k: nat :: Open(e, k) ==> Zones(e, cmp, p, pa, pb, pc, pd)
  }

  /** An element equivalent to the pivot joins the zone at the left end, or that at the right end. */
  lemma GrowLow(e: seq<Element>, f: seq<Element>, cmp: Comparator, p: Element, pa: nat, pb: nat, pc: int, pd: int)
    requires Zoned(e, cmp, p, pa, pb, pc, pd) && pb <= pc && cmp(e[pb], p) == 0 && Swapped(e, f, pa, pb, 1)
    ensures Zoned(f, cmp, p, pa + 1, pb + 1, pc, pd)
  {
    assert Open(e, 0) && Open(f, 0);
  }

  lemma GrowHigh(e: seq<Element>, f: seq<Element>, cmp: Comparator, p: Element, pa: nat, pb: nat, pc: int, pd: int)
    requires Zoned(e, cmp, p, pa, pb, pc, pd) && pb <= pc && cmp(e[pc], p) == 0 && Swapped(e, f, pc, pd, 1)
    ensures Zoned(f, cmp, p, pa, pb, pc - 1, pd - 1)
  {
    assert Open(e, 0) && Open(f, 0);
  }

  /** One above the pivot and one below it change places. */
  lemma GrowBoth(e: seq<Element>, f: seq<Element>, cmp: Comparator, p: Element, pa: nat, pb: nat, pc: int, pd: int)
    requires Zoned(e, cmp, p, pa, pb, pc, pd) && pb < pc && cmp(e[pb], p) > 0 && cmp(e[pc], p) < 0
    requires Swapped(e, f, pb, pc, 1)
    ensures Zoned(f, cmp, p, pa, pb + 1, pc - 1, pd)
  {
    assert Open(e, 0) && Open(f, 0);
  }

  /** An element below the pivot stays where it is, and so does one above it. */
  lemma GrowLess(e: seq<Element>, cmp: Comparator, p: Element, pa: nat, pb: nat, pc: int, pd: int)
    requires Zoned(e, cmp, p, pa, pb, pc, pd) && pb <= pc
    ensures cmp(e[pb], p) < 0 ==> Zoned(e, cmp, p, pa, pb + 1, pc, pd)
    ensures cmp(e[pc], p) > 0 ==> Zoned(e, cmp, p, pa, pb, pc - 1, pd)
  {
    assert Open(e, 0);
  }

  /** `swap` as the sort uses it: from the elements `e` to the elements `f`. */
  method SwapInZone(mem: array<Byte>, base: nat, n: nat, es: nat, swaptype: int, i: nat, j: nat, ghost start: seq<Byte>,
                    ghost e: seq<Element>)
    returns (ghost f: seq<Element>)
    requires At(base, es, n) <= mem.Length && i < n && j < n
    requires es > 0 && swaptype == SwapType(base, es)
    requires |start| == mem.Length && Kept(start, mem[..], base, n, es) && |e| == n && Shows(mem[..], base, n, es, e)
    modifies mem
    ensures |f| == n && Shows(mem[..], base, n, es, f) && Swapped(e, f, i, j, 1)
    ensures Kept(start, mem[..], base, n, es)
  {
    ghost var was := mem[..];
    ShowsIs(was, base, n, es, e);
    SwapBlocksPermutes(e, i, j, 1);
    Exchange(mem, base, n, es, swaptype, i, j);
    f := View(mem[..], base, n, es);
    ShowsIs(mem[..], base, n, es, f);
    KeptOn(start, was, mem[..], base, n, es);
  }

  /** `cmp` applied to element `i` and the pivot, which is read where it is kept. */
  method ComparePivot(mem: array<Byte>, base: nat, n: nat, es: nat, cmp: Comparator, swaptype: int, v: Element,
                      ghost p: Element, i: nat, ghost e: seq<Element>)
    returns (r: int)
    requires At(base, es, n) <= mem.Length && i < n == |e| && Shows(mem[..], base, n, es, e)
    requires PivotKept(e, swaptype, v, p)
    ensures r == cmp(e[i], p)
  {
    ShowsIs(mem[..], base, n, es, e);
    ViewAt(mem[..], base, n, es, i);
    ViewAt(mem[..], base, n, es, 0);
    r := cmp(Read(mem, base, es, i), if swaptype != 0 then Read(mem, base, es, 0) else v);
  }

  /** First inner loop: moves `pb` up over elements not above the pivot, collecting the
      equivalent ones at the left end. */
  method ScanUp(mem: array<Byte>, base: nat, n: nat, es: nat, cmp: Comparator, swaptype: int, v: Element,
                ghost p: Element, pa0: nat, pb0: nat, pc: int, ghost pd: int, ghost start: seq<Byte>,
                ghost e0: seq<Element>)
    returns (pa: nat, pb: nat, ghost e: seq<Element>)
    requires At(base, es, n) <= mem.Length && es > 0 && swaptype == SwapType(base, es)
    requires cmp(p, p) == 0
    requires |start| == mem.Length && Kept(start, mem[..], base, n, es) && |e0| == n && Shows(mem[..], base, n, es, e0)
    requires Zoned(e0, cmp, p, pa0, pb0, pc, pd) && PivotKept(e0, swaptype, v, p)
    requires swaptype != 0 ==> pa0 >= 1 || pb0 == 0 <= pc
    modifies mem
    ensures Kept(start, mem[..], base, n, es) && |e| == n && Shows(mem[..], base, n, es, e)
    ensures Zoned(e, cmp, p, pa, pb, pc, pd) && PivotKept(e, swaptype, v, p)
    ensures swaptype != 0 ==> pa >= 1
    ensures pb0 <= pb
    ensures pb <= pc ==> cmp(e[pb], p) > 0
  {
    pa, pb, e := pa0, pb0, e0;
    while pb <= pc
      invariant Kept(start, mem[..], base, n, es) && |e| == n && Shows(mem[..], base, n, es, e)
      invariant Zoned(e, cmp, p, pa, pb, pc, pd) && PivotKept(e, swaptype, v, p)
      invariant swaptype != 0 ==> pa >= 1 || pb == 0 <= pc
      invariant pb0 <= pb
      decreases pc - pb
    {
      var r := ComparePivot(mem, base, n, es, cmp, swaptype, v, p, pb, e);
      if r > 0 {
        return;
      }
      if r == 0 {
        ghost var f := SwapInZone(mem, base, n, es, swaptype, pa, pb, start, e);
        GrowLow(e, f, cmp, p, pa, pb, pc, pd);
        PivotStays(e, f, pa, pb, swaptype, v, p);
        e := f;
        pa := pa + 1;
      } else {
        GrowLess(e, cmp, p, pa, pb, pc, pd);
      }
      pb := pb + 1;
    }
  }

  /** Second inner loop: moves `pc` down over elements not below the pivot, collecting the
      equivalent ones at the right end. */
  method ScanDown(mem: array<Byte>, base: nat, n: nat, es: nat, cmp: Comparator, swaptype: int, v: Element,
                  ghost p: Element, ghost pa: nat, pb: nat, pc0: int, pd0: int, ghost start: seq<Byte>,
                  ghost e0: seq<Element>)
    returns (pc: int, pd: int, ghost e: seq<Element>)
    requires At(base, es, n) <= mem.Length && es > 0 && swaptype == SwapType(base, es)
    requires |start| == mem.Length && Kept(start, mem[..], base, n, es) && |e0| == n && Shows(mem[..], base, n, es, e0)
    requires Zoned(e0, cmp, p, pa, pb, pc0, pd0) && PivotKept(e0, swaptype, v, p)
    requires swaptype != 0 ==> pa >= 1
    requires pb <= pc0 ==> cmp(e0[pb], p) > 0
    modifies mem
    ensures Kept(start, mem[..], base, n, es) && |e| == n && Shows(mem[..], base, n, es, e)
    ensures Zoned(e, cmp, p, pa, pb, pc, pd) && PivotKept(e, swaptype, v, p)
    ensures pc <= pc0
    ensures pb <= pc ==> pb < pc && cmp(e[pb], p) > 0 && cmp(e[pc], p) < 0
  {
    pc, pd, e := pc0, pd0, e0;
    while pc >= pb
      invariant Kept(start, mem[..], base, n, es) && |e| == n && Shows(mem[..], base, n, es, e)
      invariant Zoned(e, cmp, p, pa, pb, pc, pd) && PivotKept(e, swaptype, v, p)
      invariant pc <= pc0
      invariant pb <= pc ==> cmp(e[pb], p) > 0
      decreases pc - pb
    {
      var r := ComparePivot(mem, base, n, es, cmp, swaptype, v, p, pc, e);
      if r < 0 {
        return;
      }
      if r == 0 {
        ghost var f := SwapInZone(mem, base, n, es, swaptype, pc, pd, start, e);
        GrowHigh(e, f, cmp, p, pa, pb, pc, pd);
        PivotStays(e, f, pc, pd, swaptype, v, p);
        Untouched(e, f, pc, pd, pb);
        e := f;
        pd := pd - 1;
      } else {
        GrowLess(e, cmp, p, pa, pb, pc, pd);
      }
      pc := pc - 1;
    }
  }

  /** The partition loop.  It ends with `pb` exactly one past `pc`, every element placed in one of
      the four zones, and the pivot, when it is read in place, never moved. */
  method Partition(mem: array<Byte>, base: nat, n: nat, es: nat, cmp: Comparator, swaptype: int, v: Element,
                   ghost p: Element)
    returns (pa: nat, pb: nat, pc: int, pd: int)
    requires At(base, es, n) <= mem.Length && es > 0 && n > 0 && swaptype == SwapType(base, es)
    requires cmp(p, p) == 0
    requires PivotKept(View(mem[..], base, n, es), swaptype, v, p)
    modifies mem
    ensures Rearranged(old(mem[..]), mem[..], base, n, es)
    ensures Zones(View(mem[..], base, n, es), cmp, p, pa, pb, pc, pd)
    ensures PivotKept(View(mem[..], base, n, es), swaptype, v, p)
    ensures pb == pc + 1
  {
    ghost var start, e := mem[..], View(mem[..], base, n, es);
    KeptIs(start, start, base, n, es);
    ShowsIs(start, base, n, es, e);
    pa, pb, pc, pd, e := ScanBoth(mem, base, n, es, cmp, swaptype, v, p, start, e);
    KeptIs(start, mem[..], base, n, es);
    ShowsIs(mem[..], base, n, es, e);
    assert Open(e, 0);
  }

  method ScanBoth(mem: array<Byte>, base: nat, n: nat, es: nat, cmp: Comparator, swaptype: int, v: Element,
                  ghost p: Element, ghost start: seq<Byte>, ghost e0: seq<Element>)
    returns (pa: nat, pb: nat, pc: int, pd: int, ghost e: seq<Element>)
    requires At(base, es, n) <= mem.Length && es > 0 && n > 0 && swaptype == SwapType(base, es)
    requires cmp(p, p) == 0 && PivotKept(e0, swaptype, v, p)
    requires |start| == mem.Length && Kept(start, mem[..], base, n, es) && |e0| == n && Shows(mem[..], base, n, es, e0)
    modifies mem
    ensures Kept(start, mem[..], base, n, es) && |e| == n && Shows(mem[..], base, n, es, e)
    ensures Zoned(e, cmp, p, pa, pb, pc, pd) && PivotKept(e, swaptype, v, p) && pb == pc + 1
  {
    pa, pb, pc, pd, e := 0, 0, n - 1, n - 1, e0;
    while true
      invariant Kept(start, mem[..], base, n, es) && |e| == n && Shows(mem[..], base, n, es, e)
      invariant Zoned(e, cmp, p, pa, pb, pc, pd) && PivotKept(e, swaptype, v, p)
      invariant swaptype != 0 ==> pa >= 1 || pb == 0 <= pc
      decreases pc - pb + 1
    {
      pa, pb, e := ScanUp(mem, base, n, es, cmp, swaptype, v, p, pa, pb, pc, pd, start, e);
      pc, pd, e := ScanDown(mem, base, n, es, cmp, swaptype, v, p, pa, pb, pc, pd, start, e);
      if pb > pc {
        break;
      }
      ghost var f := SwapInZone(mem, base, n, es, swaptype, pb, pc, start, e);
      GrowBoth(e, f, cmp, p, pa, pb, pc, pd);
      PivotStays(e, f, pb, pc, swaptype, v, p);
      e := f;
      pb, pc := pb + 1, pc - 1;
    }
  }

  /** Elements below the pivot first, then the equivalent ones, then those above it. */
  ghost predicate ThreeWay(e: seq<Element>, cmp: Comparator, p: Element, less: nat, greater: nat) {
    && less + greater <= |e|
    && (forall i :: 0 <= i < less ==> cmp(e[i], p) < 0)
    && (forall i :: less <= i < |e| - greater ==> cmp(e[i], p) == 0)
    && (forall i :: |e| - greater <= i < |e| ==> cmp(e[i], p) > 0)
  }

  /** The two block exchanges act on disjoint blocks and make the three groups contiguous. */
  lemma GatherIsThreeWay(e: seq<Element>, cmp: Comparator, p: Element, pa: nat, pb: nat, pc: int, pd: int, s: nat,
                         t: nat)
    requires Zones(e, cmp, p, pa, pb, pc, pd) && pb == pc + 1
    requires s == Min(pa, pb - pa) && t == Min(pd - pc, |e| - 1 - pd)
    ensures Apart(0, pb - s, s) && Apart(pb, |e| - t, t)
    ensures s <= pb && t <= |e| - pb
    ensures ThreeWay(SwapBlocks(SwapBlocks(e, 0, pb - s, s), pb, |e| - t, t), cmp, p, pb - pa, pd - pc)
  {
    var f := SwapBlocks(e, 0, pb - s, s);
    GatherLow(e, f, cmp, p, pa, pb, pc, pd, s);
    GatherHigh(e, f, SwapBlocks(f, pb, |e| - t, t), cmp, p, pa, pb, pc, pd, t);
  }

  lemma GatherLow(e: seq<Element>, f: seq<Element>, cmp: Comparator, p: Element, pa: nat, pb: nat, pc: int, pd: int,
                  s: nat)
    requires Zones(e, cmp, p, pa, pb, pc, pd) && pb == pc + 1 && s == Min(pa, pb - pa) && s <= pb
    requires f == SwapBlocks(e, 0, pb - s, s)
    ensures forall k :: 0 <= k < pb - pa ==> cmp(f[k], p) < 0
    ensures forall k :: pb - pa <= k < pb ==> cmp(f[k], p) == 0
    ensures forall k :: pb <= k < |e| ==> f[k] == e[k]
  {
  }

  lemma GatherHigh(e: seq<Element>, f: seq<Element>, g: seq<Element>, cmp: Comparator, p: Element, pa: nat, pb: nat,
                   pc: int,
                   pd: int, t: nat)
    requires Zones(e, cmp, p, pa, pb, pc, pd) && pb == pc + 1 && |f| == |e| && t == Min(pd - pc, |e| - 1 - pd)
    requires t <= |e| - pb && g == SwapBlocks(f, pb, |e| - t, t)
    requires forall k :: 0 <= k < pb - pa ==> cmp(f[k], p) < 0
    requires forall k :: pb - pa <= k < pb ==> cmp(f[k], p) == 0
    requires forall k :: pb <= k < |e| ==> f[k] == e[k]
    ensures ThreeWay(g, cmp, p, pb - pa, pd - pc)
  {
    var from := |e| - (pd - pc);
    assert forall k :: 0 <= k < pb ==> g[k] == f[k];
    assert forall k :: pb <= k < from ==> cmp(g[k], p) == 0;
    assert forall k :: from <= k < |e| ==> cmp(g[k], p) > 0;
  }

  /** The block exchanges after the partition loop. */
  method Gather(mem: array<Byte>, base: nat, n: nat, es: nat, ghost cmp: Comparator, swaptype: int, ghost p: Element,
                pa: nat, pb: nat, pc: int, pd: int)
    requires At(base, es, n) <= mem.Length && es > 0 && swaptype == SwapType(base, es)
    requires Zones(View(mem[..], base, n, es), cmp, p, pa, pb, pc, pd) && pb == pc + 1
    modifies mem
    ensures Rearranged(old(mem[..]), mem[..], base, n, es)
    ensures ThreeWay(View(mem[..], base, n, es), cmp, p, pb - pa, pd - pc)
  {
    SwapTypeMeans(base, es);
    var s := Min(pa, pb - pa);
    var t := Min(pd - pc, n - 1 - pd);
    ghost var start := mem[..];
    ghost var e := View(start, base, n, es);
    GatherIsThreeWay(e, cmp, p, pa, pb, pc, pd, s, t);
    ShowsIs(start, base, n, es, e);
    ghost var g := SwapGroups(mem, base, n, es, swaptype, pb, s, t, e);
    ShowsIs(mem[..], base, n, es, g);
    KeptIs(start, mem[..], base, n, es);
  }

  method SwapGroups(mem: array<Byte>, base: nat, n: nat, es: nat, swaptype: int, pb: nat, s: nat, t: nat,
                    ghost e: seq<Element>)
    returns (ghost g: seq<Element>)
    requires At(base, es, n) <= mem.Length && (swaptype <= 1 ==> es % WORD == 0)
    requires s <= pb <= n && t <= n - pb && Apart(0, pb - s, s) && Apart(pb, n - t, t)
    requires |e| == n && Shows(mem[..], base, n, es, e)
    modifies mem
    ensures Kept(old(mem[..]), mem[..], base, n, es)
    ensures Shows(mem[..], base, n, es, g) && SwappedTwice(e, g, pb, s, t)
  {
    ghost var start := mem[..];
    KeptIs(start, start, base, n, es);
    ghost var f := BlocksInZone(mem, base, n, es, swaptype, 0, pb - s, s, start, e);
    g := BlocksInZone(mem, base, n, es, swaptype, pb, n - t, t, start, f);
    AreSwappedTwice(e, f, g, pb, s, t);
  }

  ghost predicate SwappedTwice(e: seq<Element>, g: seq<Element>, pb: nat, s: nat, t: nat)
    requires s <= pb <= |e| && t <= |e| - pb
  {
    g == SwapBlocks(SwapBlocks(e, 0, pb - s, s), pb, |e| - t, t)
  }

  lemma AreSwappedTwice(e: seq<Element>, f: seq<Element>, g: seq<Element>, pb: nat, s: nat, t: nat)
    requires s <= pb <= |e| == |f| && t <= |e| - pb
    requires Swapped(e, f, 0, pb - s, s) && Swapped(f, g, pb, |e| - t, t)
    ensures SwappedTwice(e, g, pb, s, t)
  {
    assert Open(f, 0) && Open(g, 0);
  }

  method BlocksInZone(mem: array<Byte>, base: nat, n: nat, es: nat, swaptype: int, i: nat, j: nat, k: nat,
                      ghost start: seq<Byte>, ghost e: seq<Element>)
    returns (ghost f: seq<Element>)
    requires At(base, es, n) <= mem.Length && i + k <= n && j + k <= n && Apart(i, j, k)
    requires swaptype <= 1 ==> es % WORD == 0
    requires |start| == mem.Length && Kept(start, mem[..], base, n, es) && |e| == n && Shows(mem[..], base, n, es, e)
    modifies mem
    ensures |f| == n && Shows(mem[..], base, n, es, f) && Swapped(e, f, i, j, k)
    ensures Kept(start, mem[..], base, n, es)
  {
    ghost var was := mem[..];
    ShowsIs(was, base, n, es, e);
    SwapBlocksPermutes(e, i, j, k);
    VecSwap(mem, base, n, es, swaptype, i, j, k);
    f := View(mem[..], base, n, es);
    ShowsIs(mem[..], base, n, es, f);
    KeptOn(start, was, mem[..], base, n, es);
  }

  ghost predicate SortedTo(e: seq<Element>, cmp: Comparator, end: nat)
    requires end <= |e|
  {
    forall k: nat :: Open(e, k) ==> Sorted(e[..end], cmp)
  }

  lemma SortedToIs(e: seq<Element>, cmp: Comparator)
    ensures |e| > 0 ==> SortedTo(e, cmp, 1)
    ensures SortedTo(e, cmp, |e|) ==> Sorted(e, cmp)
  {
    assert Open(e, 0);
    assert e[..|e|] == e;
  }

  /** An array in which element `i` alone may be too small, and what follows is not looked at. */
  ghost predicate SortedBut(e: seq<Element>, cmp: Comparator, end: nat, i: nat) {
    && end <= |e|
    && (forall j, k :: 0 <= j < k < end && j != i && k != i ==> cmp(e[j], e[k]) <= 0)
    && (forall k :: i < k < end ==> cmp(e[i], e[k]) <= 0)
  }

  /** The same, shut. */
  ghost predicate Sinking(e: seq<Element>, cmp: Comparator, end: nat, i: nat) {
    forall k: nat :: Open(e, k) ==> SortedBut(e, cmp, end, i)
  }

  lemma InsertStart(e: seq<Element>, cmp: Comparator, pm: nat)
    requires pm < |e| && SortedTo(e, cmp, pm)
    ensures Sinking(e, cmp, pm + 1, pm)
  {
    assert Open(e, 0);
    assert forall j :: 0 <= j < pm ==> e[..pm][j] == e[j];
  }

  lemma InsertStep(e: seq<Element>, f: seq<Element>, cmp: Comparator, end: nat, i: nat)
    requires Sinking(e, cmp, end, i) && 0 < i < end <= |e| && cmp(e[i], e[i - 1]) <= 0 && Swapped(e, f, i, i - 1, 1)
    ensures Sinking(f, cmp, end, i - 1)
  {
    assert Open(e, 0) && Open(f, 0);
    assert f == e[i := e[i - 1]][i - 1 := e[i]];
  }

  lemma InsertDone(e: seq<Element>, cmp: Comparator, es: nat, end: nat, i: nat)
    requires TotalPreorder(cmp, es) && Sized(e, es)
    requires Sinking(e, cmp, end, i) && i < end <= |e| && (i > 0 ==> cmp(e[i - 1], e[i]) <= 0)
    ensures SortedTo(e, cmp, end)
  {
    assert Open(e, 0);
    forall j | 0 <= j < i ensures cmp(e[j], e[i]) <= 0 {
      if j < i - 1 {
        Through(cmp, es, e[j], e[i - 1], e[i]);
      }
    }
  }

  /** `cmp` applied to elements `i` and `j`; both directions, since the order is total. */
  method CompareElements(mem: array<Byte>, base: nat, n: nat, es: nat, cmp: Comparator, i: nat, j: nat,
                         ghost e: seq<Element>)
    returns (r: int)
    requires At(base, es, n) <= mem.Length && i < n && j < n == |e| && Shows(mem[..], base, n, es, e)
    requires TotalPreorder(cmp, es)
    ensures r == cmp(e[i], e[j])
    ensures r >= 0 <==> cmp(e[j], e[i]) <= 0
  {
    ShowsIs(mem[..], base, n, es, e);
    ViewAt(mem[..], base, n, es, i);
    ViewAt(mem[..], base, n, es, j);
    r := cmp(Read(mem, base, es, i), Read(mem, base, es, j));
    assert Dual(cmp, e[j], e[i]);
  }

  /** The short-array branch: insertion sort. */
  method InsertionSort(mem: array<Byte>, base: nat, n: nat, es: nat, cmp: Comparator, swaptype: int)
    requires At(base, es, n) <= mem.Length && es > 0 && swaptype == SwapType(base, es)
    requires TotalPreorder(cmp, es)
    modifies mem
    ensures Rearranged(old(mem[..]), mem[..], base, n, es)
    ensures Sorted(View(mem[..], base, n, es), cmp)
  {
    ghost var start, e := mem[..], View(mem[..], base, n, es);
    KeptIs(start, start, base, n, es);
    ShowsIs(start, base, n, es, e);
    var pm := 1;
    SortedToIs(e, cmp);
    while pm < n
      invariant 1 <= pm
      invariant Kept(start, mem[..], base, n, es) && |e| == n && Shows(mem[..], base, n, es, e)
      invariant n > 0 ==> pm <= n && SortedTo(e, cmp, pm)
    {
      e := Insert(mem, base, n, es, cmp, swaptype, pm, start, e);
      pm := pm + 1;
    }
    KeptIs(start, mem[..], base, n, es);
    ShownSorted(mem[..], base, n, es, e, cmp);
  }

  lemma ShownSorted(m: seq<Byte>, base: nat, n: nat, es: nat, e: seq<Element>, cmp: Comparator)
    requires At(base, es, n) <= |m| && |e| == n && Shows(m, base, n, es, e) && (n > 0 ==> SortedTo(e, cmp, n))
    ensures Sorted(View(m, base, n, es), cmp)
  {
    ShowsIs(m, base, n, es, e);
    SortedToIs(e, cmp);
  }

  /** One step of the element that moves down: it changes places with the one before it. */
  method SwapDown(mem: array<Byte>, base: nat, n: nat, es: nat, cmp: Comparator, swaptype: int, pm: nat, pl: nat,
                  ghost start: seq<Byte>, ghost e: seq<Element>)
    returns (ghost f: seq<Element>)
    requires At(base, es, n) <= mem.Length && es > 0 && swaptype == SwapType(base, es) && 0 < pl <= pm < n
    requires |start| == mem.Length && Kept(start, mem[..], base, n, es) && |e| == n && Shows(mem[..], base, n, es, e)
    requires Sinking(e, cmp, pm + 1, pl) && cmp(e[pl], e[pl - 1]) <= 0
    modifies mem
    ensures Kept(start, mem[..], base, n, es) && |f| == n && Shows(mem[..], base, n, es, f)
    ensures Sinking(f, cmp, pm + 1, pl - 1)
  {
    f := SwapInZone(mem, base, n, es, swaptype, pl, pl - 1, start, e);
    InsertStep(e, f, cmp, pm + 1, pl);
  }

  /** The inner loop of the insertion sort: moves element `pm` down to its place. */
  method Insert(mem: array<Byte>, base: nat, n: nat, es: nat, cmp: Comparator, swaptype: int, pm: nat,
                ghost start: seq<Byte>, ghost e0: seq<Element>)
    returns (ghost e: seq<Element>)
    requires At(base, es, n) <= mem.Length && es > 0 && swaptype == SwapType(base, es)
    requires TotalPreorder(cmp, es) && 1 <= pm < n
    requires |start| == mem.Length && Kept(start, mem[..], base, n, es) && |e0| == n && Shows(mem[..], base, n, es, e0)
    requires SortedTo(e0, cmp, pm)
    modifies mem
    ensures Kept(start, mem[..], base, n, es) && |e| == n && Shows(mem[..], base, n, es, e)
    ensures SortedTo(e, cmp, pm + 1)
  {
    var pl := pm;
    e := e0;
    InsertStart(e, cmp, pm);
    while pl > 0
      invariant 0 <= pl <= pm
      invariant Kept(start, mem[..], base, n, es) && |e| == n && Shows(mem[..], base, n, es, e)
      invariant Sinking(e, cmp, pm + 1, pl)
      decreases pl
    {
      var r := CompareElements(mem, base, n, es, cmp, pl - 1, pl, e);
      if r <= 0 {
        break;
      }
      e := SwapDown(mem, base, n, es, cmp, swaptype, pm, pl, start, e);
      pl := pl - 1;
    }
    ShownSized(mem[..], base, n, es, e);
    InsertDone(e, cmp, es, pm + 1, pl);
  }

  lemma ShownSized(m: seq<Byte>, base: nat, n: nat, es: nat, e: seq<Element>)
    requires At(base, es, n) <= |m| && Shows(m, base, n, es, e)
    ensures Sized(e, es)
  {
    ShowsIs(m, base, n, es, e);
  }

  /** Element `m` is not a strict extreme: some other element is not above it, and yet another
      not below it. */
  ghost predicate Inner(e: seq<Element>, cmp: Comparator, m: nat) {
    && m < |e|
    && exists i, j :: 0 <= i < |e| && 0 <= j < |e| && i != m && j != m && i != j
                      && cmp(e[i], e[m]) <= 0 && cmp(e[m], e[j]) <= 0
  }

  lemma Med3IsInner(e: seq<Element>, a: nat, b: nat, c: nat, cmp: Comparator, es: nat)
    requires a < b < c < |e|
    requires TotalPreorder(cmp, es) && Sized(e, es)
    ensures Inner(e, cmp, Med3(e, a, b, c, cmp))
  {
    assert Dual(cmp, e[a], e[b]) && Dual(cmp, e[b], e[a]);
    assert Dual(cmp, e[b], e[c]) && Dual(cmp, e[c], e[b]);
    assert Dual(cmp, e[a], e[c]) && Dual(cmp, e[c], e[a]);
  }

  /** Pivot choice: the middle, the median of three, or the median of three medians of three.
      Above seven elements the pivot is never a strict extreme of the array. */
  method ChoosePivot(mem: array<Byte>, base: nat, n: nat, es: nat, cmp: Comparator) returns (pm: nat)
    requires At(base, es, n) <= mem.Length && n >= 7
    requires TotalPreorder(cmp, es)
    ensures pm < n
    ensures n > 7 ==> Inner(View(mem[..], base, n, es), cmp, pm)
  {
    var e := View(mem[..], base, n, es);
    pm := n / 2;
    if n > 7 {
      var pl, pn := 0, n - 1;
      if n > 40 {
        var s := n / 8;
        pl := Med3(e, pl, pl + s, pl + 2 * s, cmp);
        pm := Med3(e, pm - s, pm, pm + s, cmp);
        pn := Med3(e, pn - 2 * s, pn - s, pn, cmp);
        assert pl < pm < pn;
      }
      Med3IsInner(e, pl, pm, pn, cmp, es);
      pm := Med3(e, pl, pm, pn, cmp);
    }
  }

  /** `PVINIT`: brings the pivot to the front and reads it there, or copies it into a word. */
  method InitPivot(mem: array<Byte>, base: nat, n: nat, es: nat, swaptype: int, pm: nat)
    returns (v: Element, ghost p: Element)
    requires At(base, es, n) <= mem.Length && es > 0 && swaptype == SwapType(base, es) && pm < n
    modifies mem
    ensures Rearranged(old(mem[..]), mem[..], base, n, es)
    ensures p == old(View(mem[..], base, n, es)[pm])
    ensures PivotKept(View(mem[..], base, n, es), swaptype, v, p)
  {
    p := View(mem[..], base, n, es)[pm];
    v := [];
    if swaptype != 0 {
      ghost var start, e := mem[..], View(mem[..], base, n, es);
      KeptIs(start, start, base, n, es);
      ShowsIs(start, base, n, es, e);
      ghost var f := SwapInZone(mem, base, n, es, swaptype, 0, pm, start, e);
      assert Open(f, 0);
      KeptIs(start, mem[..], base, n, es);
      ShowsIs(mem[..], base, n, es, f);
    } else {
      ViewAt(mem[..], base, n, es, pm);
      v := Read(mem, base, es, pm);
    }
  }

  /** The chosen pivot ends in an equivalent zone, so the two groups left to sort are smaller. */
  lemma PivotLeavesGroups(e: seq<Element>, f: seq<Element>, cmp: Comparator, p: Element, k: nat, less: nat,
                          greater: nat)
    requires k < |e| && e[k] == p && cmp(p, p) == 0
    requires multiset(e) == multiset(f) && ThreeWay(f, cmp, p, less, greater)
    ensures less + greater < |f|
  {
    SameMembers(e, f);
    var i :| 0 <= i < |f| && f[i] == p;
    assert less <= i < |f| - greater;
  }

  /** Only the elements from `lo` up to `hi` are rearranged, among themselves. */
  ghost predicate OnlyPart(v: seq<Element>, w: seq<Element>, lo: nat, hi: nat) {
    && lo <= hi <= |v| == |w|
    && (forall i :: 0 <= i < |v| && (i < lo || hi <= i) ==> w[i] == v[i])
    && multiset(v[lo..hi]) == multiset(w[lo..hi])
  }

  lemma PartPermutes(v: seq<Element>, w: seq<Element>, lo: nat, hi: nat)
    requires OnlyPart(v, w, lo, hi)
    ensures multiset(v) == multiset(w)
  {
    ThreeParts(v, lo, hi);
    ThreeParts(w, lo, hi);
    assert v[..lo] == w[..lo] && v[hi..] == w[hi..];
  }

  lemma ThreeParts(v: seq<Element>, lo: nat, hi: nat)
    requires lo <= hi <= |v|
    ensures multiset(v) == multiset(v[..lo]) + multiset(v[lo..hi]) + multiset(v[hi..])
  {
    assert v == v[..lo] + v[lo..hi] + v[hi..];
  }

  lemma PartKeepsAll(v: seq<Element>, w: seq<Element>, lo: nat, hi: nat, ok: Element -> bool)
    requires OnlyPart(v, w, lo, hi)
    requires forall i :: lo <= i < hi ==> ok(v[i])
    ensures forall i :: lo <= i < hi ==> ok(w[i])
  {
    SameMembers(w[lo..hi], v[lo..hi]);
    forall i | lo <= i < hi ensures ok(w[i]) {
      assert w[lo..hi][i - lo] in v[lo..hi];
    }
  }

  /** What rearranging the elements from `lo` up to `hi` does to the whole array. */
  lemma PartRearranged(before: seq<Byte>, after: seq<Byte>, base: nat, n: nat, es: nat, lo: nat, hi: nat)
    requires At(base, es, n) <= |before| && lo <= hi <= n
    requires At(At(base, es, lo), es, hi - lo) <= |before| && Rearranged(before, after, At(base, es, lo), hi - lo, es)
    ensures Rearranged(before, after, base, n, es)
    ensures OnlyPart(View(before, base, n, es), View(after, base, n, es), lo, hi)
    ensures View(after, base, n, es)[lo..hi] == View(after, At(base, es, lo), hi - lo, es)
  {
    PartViews(before, after, base, n, es, lo, hi);
    PartPermutes(View(before, base, n, es), View(after, base, n, es), lo, hi);
    OutsideAll(before, after, base, n, es, lo, hi);
  }

  lemma OutsideAll(before: seq<Byte>, after: seq<Byte>, base: nat, n: nat, es: nat, lo: nat, hi: nat)
    requires lo <= hi <= n && SameOutside(before, after, At(base, es, lo), hi - lo, es)
    ensures SameOutside(before, after, base, n, es)
  {
    AtPlus(base, es, lo, hi - lo);
    AtMono(base, es, hi, n);
    AtMono(base, es, 0, lo);
  }

  lemma PartViews(before: seq<Byte>, after: seq<Byte>, base: nat, n: nat, es: nat, lo: nat, hi: nat)
    requires At(base, es, n) <= |before| && lo <= hi <= n
    requires At(At(base, es, lo), es, hi - lo) <= |before| && Rearranged(before, after, At(base, es, lo), hi - lo, es)
    ensures OnlyPart(View(before, base, n, es), View(after, base, n, es), lo, hi)
    ensures View(after, base, n, es)[lo..hi] == View(after, At(base, es, lo), hi - lo, es)
  {
    PartOutside(before, after, base, n, es, lo, hi);
    ViewPart(before, base, n, es, lo, hi);
    ViewPart(after, base, n, es, lo, hi);
  }

  lemma ViewPart(s: seq<Byte>, base: nat, n: nat, es: nat, lo: nat, hi: nat)
    requires At(base, es, n) <= |s| && lo <= hi <= n
    ensures At(At(base, es, lo), es, hi - lo) <= |s|
    ensures View(s, base, n, es)[lo..hi] == View(s, At(base, es, lo), hi - lo, es)
  {
    ViewSlice(s, base, n, es, lo, hi - lo);
  }

  lemma PartOutside(before: seq<Byte>, after: seq<Byte>, base: nat, n: nat, es: nat, lo: nat, hi: nat)
    requires At(base, es, n) <= |before| && lo <= hi <= n
    requires SameOutside(before, after, At(base, es, lo), hi - lo, es)
    ensures var v, w := View(before, base, n, es), View(after, base, n, es);
            forall i :: 0 <= i < n && (i < lo || hi <= i) ==> w[i] == v[i]
  {
    var v, w := View(before, base, n, es), View(after, base, n, es);
    forall i | 0 <= i < n && (i < lo || hi <= i) ensures w[i] == v[i] {
      ElementOutside(before, after, base, n, es, lo, hi, i);
    }
  }

  lemma ElementOutside(before: seq<Byte>, after: seq<Byte>, base: nat, n: nat, es: nat, lo: nat, hi: nat, i: nat)
    requires At(base, es, n) <= |before| && lo <= hi <= n && i < n && (i < lo || hi <= i)
    requires SameOutside(before, after, At(base, es, lo), hi - lo, es)
    ensures View(after, base, n, es)[i] == View(before, base, n, es)[i]
  {
    AtPlus(base, es, lo, hi - lo);
    ViewAt(before, base, n, es, i);
    ViewAt(after, base, n, es, i);
    if i < lo {
      AtMono(base, es, i, lo);
    } else {
      AtMono(base, es, hi, i);
    }
    assert ElementAt(before, base, es, i) == ElementAt(after, base, es, i);
  }

  /** One of the two recursive calls: sorts the elements from `lo` up to `hi`, when more than one. */
  method SortPart(mem: array<Byte>, base: nat, n: nat, es: nat, cmp: Comparator, lo: nat, hi: nat,
                  ghost start: seq<Byte>, ghost e: seq<Element>)
    returns (ghost f: seq<Element>)
    requires At(base, es, n) <= mem.Length && es > 0 && lo <= hi <= n
    requires TotalPreorder(cmp, es)
    requires |start| == mem.Length && Kept(start, mem[..], base, n, es) && |e| == n && Shows(mem[..], base, n, es, e)
    modifies mem
    ensures Kept(start, mem[..], base, n, es) && |f| == n && Shows(mem[..], base, n, es, f)
    ensures OnlyPart(e, f, lo, hi) && Sorted(f[lo..hi], cmp)
    decreases hi - lo, 2
  {
    ghost var before := mem[..];
    AtPlus(base, es, lo, hi - lo);
    AtMono(base, es, hi, n);
    if hi - lo > 1 {
      QSort(mem, At(base, es, lo), hi - lo, es, cmp);
    }
    f := View(mem[..], base, n, es);
    ShowsIs(before, base, n, es, e);
    ShowsIs(mem[..], base, n, es, f);
    PartRearranged(before, mem[..], base, n, es, lo, hi);
    KeptOn(start, before, mem[..], base, n, es);
  }

  /** Sorting the outer groups of a three-way arrangement sorts the whole. */
  lemma ThreeWaySorted(f: seq<Element>, g: seq<Element>, h: seq<Element>, cmp: Comparator, es: nat, p: Element,
                       n: nat, less: nat, lo: nat)
    requires TotalPreorder(cmp, es) && |p| == es && Sized(h, es)
    requires lo <= n == |f| && ThreeWay(f, cmp, p, less, n - lo)
    requires OnlyPart(f, g, 0, less) && Sorted(g[0..less], cmp)
    requires OnlyPart(g, h, lo, n) && Sorted(h[lo..n], cmp)
    ensures Sorted(h, cmp)
  {
    PartKeepsAll(f, g, 0, less, x => cmp(x, p) < 0);
    assert forall i :: lo <= i < n ==> cmp(g[i], p) > 0;
    PartKeepsAll(g, h, lo, n, x => cmp(x, p) > 0);
    forall i, j | 0 <= i < j < n ensures cmp(h[i], h[j]) <= 0 {
      if j < less {
        assert h[i] == g[0..less][i] && h[j] == g[0..less][j];
      } else if lo <= i {
        assert h[i] == h[lo..n][i - lo] && h[j] == h[lo..n][j - lo];
      } else {
        Chain(cmp, es, h[i], p, h[j]);
      }
    }
  }

  /** `qsort`: for every comparator that is a total preorder and every element size, the array is
      sorted, its elements are kept whole and up to order the same, and nothing else changes. */
  method QSort(mem: array<Byte>, base: nat, n: nat, es: nat, cmp: Comparator)
    requires At(base, es, n) <= mem.Length && es > 0
    requires TotalPreorder(cmp, es)
    modifies mem
    ensures Rearranged(old(mem[..]), mem[..], base, n, es)
    ensures Sorted(View(mem[..], base, n, es), cmp)
    decreases n, 1
  {
    var swaptype := SwapType(base, es);
    if n < 7 {
      InsertionSort(mem, base, n, es, cmp, swaptype);
      return;
    }
    PartitionSort(mem, base, n, es, cmp, swaptype);
  }

  /** The long-array branch: pivot, partition, gather, and the two recursive calls. */
  method PartitionSort(mem: array<Byte>, base: nat, n: nat, es: nat, cmp: Comparator, swaptype: int)
    requires At(base, es, n) <= mem.Length && es > 0 && n >= 7 && swaptype == SwapType(base, es)
    requires TotalPreorder(cmp, es)
    modifies mem
    ensures Rearranged(old(mem[..]), mem[..], base, n, es)
    ensures Sorted(View(mem[..], base, n, es), cmp)
    decreases n, 0
  {
    ghost var p;
    var less, greater;
    ghost var start := mem[..];
    less, greater, p := Divide(mem, base, n, es, cmp, swaptype);
    ghost var e := View(mem[..], base, n, es);
    KeptIs(start, mem[..], base, n, es);
    ShowsIs(mem[..], base, n, es, e);
    ghost var f := SortPart(mem, base, n, es, cmp, 0, less, start, e);
    ghost var g := SortPart(mem, base, n, es, cmp, n - greater, n, start, f);
    ShownSized(mem[..], base, n, es, g);
    ThreeWaySorted(e, f, g, cmp, es, p, n, less, n - greater);
    KeptIs(start, mem[..], base, n, es);
    ShowsIs(mem[..], base, n, es, g);
  }

  /** Pivot, partition and gather: the array ends in three-way order around a pivot of its own,
      so the two groups left to sort have together fewer elements than the array. */
  method Divide(mem: array<Byte>, base: nat, n: nat, es: nat, cmp: Comparator, swaptype: int)
    returns (less: nat, greater: nat, ghost p: Element)
    requires At(base, es, n) <= mem.Length && es > 0 && n >= 7 && swaptype == SwapType(base, es)
    requires TotalPreorder(cmp, es)
    modifies mem
    ensures Rearranged(old(mem[..]), mem[..], base, n, es)
    ensures |p| == es && ThreeWay(View(mem[..], base, n, es), cmp, p, less, greater)
    ensures less + greater < n
  {
    ghost var e := View(mem[..], base, n, es);
    var pm := ChoosePivot(mem, base, n, es, cmp);
    var v: Element;
    v, p := InitPivot(mem, base, n, es, swaptype, pm);
    Reflexive(cmp, es, p);
    var pa, pb, pc, pd := Partition(mem, base, n, es, cmp, swaptype, v, p);
    Gather(mem, base, n, es, cmp, swaptype, p, pa, pb, pc, pd);
    less, greater := pb - pa, pd - pc;
    PivotLeavesGroups(e, View(mem[..], base, n, es), cmp, p, pm, less, greater);
  }
}
