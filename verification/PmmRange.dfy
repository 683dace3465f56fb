/** Allocating a range of frames by address, across zones. */
module PmmRange {
  import opened Bits
  import opened Sequences
  import opened PmmModel

  /** `ADDRESS_BELONGS_TO_ZONE` */
  predicate Belongs(addr: nat, zone: Zone) {
    zone.base <= addr < zone.base + zone.size
  }

  /** The page whose frame holds the address, by the index computation of `pmm_alloc_range`. */
  function PageAt(z: nat, addr: nat, zone: Zone): (p: Page)
    requires Belongs(addr, zone)
    ensures p.zone == z
  {
    Page(z, (addr - zone.base) / PAGE_SIZE)
  }

  /** The zone holds the address, but its page array has no entry for it: the index is that of the
      entry past the end. */
  predicate BeyondArray(addr: nat, zone: Zone) {
    Belongs(addr, zone) && (addr - zone.base) / PAGE_SIZE >= |zone.nonfree|
  }

  /** Every zone is a whole number of pages. */
  ghost predicate WholePages(s: State) {
    forall z :: 0 <= z < |s.zones| ==> s.zones[z].size % PAGE_SIZE == 0
  }

  lemma BeyondIsLastPart(s: State, z: nat, addr: nat)
    requires Inv(s) && z < |s.zones|
    ensures BeyondArray(addr, s.zones[z]) <==>
              var zone := s.zones[z]; zone.base + zone.size - zone.size % PAGE_SIZE <= addr < zone.base + zone.size
  {
    InvLaws(s);
    assert ZoneOk(s, z);
    if Belongs(addr, s.zones[z]) {
      IndexBelowIff(addr - s.zones[z].base, s.zones[z].size);
    }
  }

  lemma IndexBelowIff(d: nat, size: nat)
    ensures d / PAGE_SIZE < size / PAGE_SIZE <==> d < size - size % PAGE_SIZE
  {
  }

  /** Every address of a zone has a page exactly when the zone is a whole number of pages. */
  lemma ZoneIsPagedIff(s: State, z: nat)
    requires Inv(s) && z < |s.zones|
    ensures (forall addr: nat :: !BeyondArray(addr, s.zones[z])) <==> s.zones[z].size % PAGE_SIZE == 0
  {
    var zone := s.zones[z];
    forall addr: nat
      ensures BeyondArray(addr, zone) <==>
                zone.base + zone.size - zone.size % PAGE_SIZE <= addr < zone.base + zone.size
    {
      BeyondIsLastPart(s, z, addr);
    }
    if zone.size % PAGE_SIZE != 0 {
      assert BeyondArray(zone.base + zone.size - zone.size % PAGE_SIZE, zone);
    }
  }

  /** Zone `z` holds the address, and the page of that frame is free. */
  ghost predicate FreeIn(s: State, z: nat, addr: nat) {
    && z < |s.zones| && Belongs(addr, s.zones[z])
    && PageAt(z, addr, s.zones[z]) in s.zones[z].free
  }

  /** The free rings hold, once each, pages of their own zones, which are in the address space. */
  ghost predicate RingsOk(s: State) {
    forall z :: 0 <= z < |s.zones| ==> RingOk(s.zones[z], z)
  }

  ghost predicate RingOk(zone: Zone, z: nat) {
    && Distinct(zone.free) && zone.base + zone.size <= TWO_64
    && forall p :: p in zone.free ==> p.zone == z && p.index < |zone.nonfree|
  }

  lemma InvRings(s: State)
    requires Inv(s)
    ensures RingsOk(s)
  {
    InvLaws(s);
    forall z | 0 <= z < |s.zones| ensures RingOk(s.zones[z], z) {
      assert ZoneOk(s, z);
    }
  }

  lemma TakeOn(s: State, z: nat, p: Page, l: nat)
    requires RingsOk(s) && z < |s.zones| && p in s.zones[z].free && l in s.lists
    ensures IsPage(s, p) && p.zone == z
    ensures var t := Take(s, p, On(l));
            RingsOk(t) && l in t.lists && SameShape(s.zones, t.zones)
  {
    assert RingOk(s.zones[z], z);
    WithoutMembers(s.zones[z].free, IndexOf(s.zones[z].free, p));
    var t := Take(s, p, On(l));
    forall y | 0 <= y < |t.zones| ensures RingOk(t.zones[y], y) {
      assert RingOk(s.zones[y], y);
    }
  }

  /* ---- what the loop computes, on the state it starts from ---- */

  /** The zone that holds the address with its page free, if there is one. */
  ghost function FreeOwner(s: State, addr: nat): (o: Option<nat>)
    ensures o.Some? ==> FreeIn(s, o.value, addr)
    ensures o.None? ==> forall z :: 0 <= z < |s.zones| ==> !FreeIn(s, z, addr)
  {
    if z :| 0 <= z < |s.zones| && FreeIn(s, z, addr) then Some(z) else None
  }

  /** Zones do not overlap physically. */
  ghost predicate Apart(s: State) {
    forall y, z :: 0 <= y < z < |s.zones| ==> ZonesApart(s.zones[y], s.zones[z])
  }

  predicate ZonesApart(a: Zone, b: Zone) {
    a.base + a.size <= b.base || b.base + b.size <= a.base
  }

  lemma OwnerIsUnique(s: State, z: nat, addr: nat)
    requires Apart(s) && FreeIn(s, z, addr)
    ensures FreeOwner(s, addr) == Some(z)
  {
    forall y | 0 <= y < |s.zones| && y != z ensures !FreeIn(s, y, addr) {
      NotInTwo(s, z, y, addr);
    }
  }

  lemma NotInTwo(s: State, z: nat, y: nat, addr: nat)
    requires Apart(s) && z < |s.zones| && Belongs(addr, s.zones[z]) && y < |s.zones| && y != z
    ensures !Belongs(addr, s.zones[y])
  {
    assert if y < z then ZonesApart(s.zones[y], s.zones[z]) else ZonesApart(s.zones[z], s.zones[y]);
  }

  /** The pages the loop hands out: frame after frame, as long as the frame is in a zone and free,
      and that zone is not listed before the zone of the frame before. */
  ghost function Climb(s: State, z: nat, addr: nat, want: nat): seq<Page>
    decreases want
  {
    var o := FreeOwner(s, addr);
    if want == 0 || o.None? || o.value < z then []
    else [PageAt(o.value, addr, s.zones[o.value])] + Climb(s, o.value, addr + PAGE_SIZE, want - 1)
  }

  /** Pages taken one by one onto list `l`. */
  ghost function TakeAll(s: State, ps: seq<Page>, l: nat): State
    decreases |ps|
  {
    if ps != [] && IsPage(s, ps[0]) && ps[0] in s.zones[ps[0].zone].free && l in s.lists
    then TakeAll(Take(s, ps[0], On(l)), ps[1..], l)
    else s
  }

  /** Taking the page of one frame does not change what later frames offer. */
  lemma FreeInAfterTake(s: State, z: nat, a: nat, l: nat, y: nat, b: nat)
    requires RingsOk(s) && FreeIn(s, z, a) && l in s.lists && a + PAGE_SIZE <= b
    ensures IsPage(s, PageAt(z, a, s.zones[z]))
    ensures FreeIn(Take(s, PageAt(z, a, s.zones[z]), On(l)), y, b) <==> FreeIn(s, y, b)
  {
    var p := PageAt(z, a, s.zones[z]);
    assert RingOk(s.zones[z], z);
    WithoutMembers(s.zones[z].free, IndexOf(s.zones[z].free, p));
    if y == z && Belongs(b, s.zones[z]) {
      LaterFrame(a - s.zones[z].base, b - s.zones[z].base);
    }
  }

  lemma OffersAfterTake(s: State, t: State, z: nat, a: nat, l: nat)
    requires RingsOk(s) && FreeIn(s, z, a) && l in s.lists && IsPage(s, PageAt(z, a, s.zones[z]))
    requires t == Take(s, PageAt(z, a, s.zones[z]), On(l))
    ensures SameOffers(s, t, a + PAGE_SIZE)
  {
    forall y: nat, c: nat | c >= a + PAGE_SIZE ensures FreeIn(t, y, c) <==> FreeIn(s, y, c) {
      FreeInAfterTake(s, z, a, l, y, c);
    }
  }

  lemma LaterFrame(d: nat, e: nat)
    requires d + PAGE_SIZE <= e
    ensures d / PAGE_SIZE < e / PAGE_SIZE
  {
  }

  /** From an address on, the two states have the same frames free; shut. */
  ghost predicate SameOffers(s: State, t: State, a: nat) {
    forall k: nat :: Open(t.zones, k) ==> forall y: nat, b: nat :: b >= a ==> (FreeIn(t, y, b) <==> FreeIn(s, y, b))
  }

  lemma OffersLater(s: State, t: State, a: nat, b: nat)
    requires SameOffers(s, t, a) && a <= b
    ensures SameOffers(s, t, b)
  {
    assert Open(t.zones, 0);
  }

  lemma OwnerSame(s: State, t: State, a: nat)
    requires Apart(s) && SameShape(s.zones, t.zones) && SameOffers(s, t, a)
    ensures FreeOwner(t, a) == FreeOwner(s, a)
  {
    assert Open(t.zones, 0);
    var o := FreeOwner(s, a);
    if o.Some? {
      assert FreeIn(t, o.value, a);
      ApartSame(s, t);
      OwnerIsUnique(t, o.value, a);
    }
  }

  lemma ApartSame(s: State, t: State)
    requires Apart(s) && SameShape(s.zones, t.zones)
    ensures Apart(t)
  {
    forall y, z | 0 <= y < z < |t.zones| ensures ZonesApart(t.zones[y], t.zones[z]) {
      assert ZonesApart(s.zones[y], s.zones[z]);
    }
  }

  lemma {:induction false} ClimbSame(s: State, t: State, z: nat, a: nat, want: nat)
    requires Apart(s) && SameShape(s.zones, t.zones) && SameOffers(s, t, a)
    ensures Climb(t, z, a, want) == Climb(s, z, a, want)
    decreases want
  {
    if want > 0 {
      OwnerSame(s, t, a);
      var o := FreeOwner(s, a);
      OffersLater(s, t, a, a + PAGE_SIZE);
      if o.Some? {
        ClimbSame(s, t, o.value, a + PAGE_SIZE, want - 1);
      }
      ClimbSameStep(s, t, z, a, want);
    }
  }

  lemma ClimbSameStep(s: State, t: State, z: nat, a: nat, want: nat)
    requires want > 0 && SameShape(s.zones, t.zones) && FreeOwner(t, a) == FreeOwner(s, a)
    requires var o := FreeOwner(s, a);
             o.Some? ==> Climb(t, o.value, a + PAGE_SIZE, want - 1) == Climb(s, o.value, a + PAGE_SIZE, want - 1)
    ensures Climb(t, z, a, want) == Climb(s, z, a, want)
  {
  }

  /** A zone that reaches the top of the address space is listed after every zone that starts at
      address 0; so a range cannot wrap round from one into the other. */
  ghost predicate TopAfterBottom(s: State) {
    forall y, z :: 0 <= y <= z < |s.zones| && TWO_64 - PAGE_SIZE < s.zones[y].base + s.zones[y].size ==>
      s.zones[z].base > 0
  }

  lemma NothingBeyond(s: State, a: nat)
    requires RingsOk(s) && a >= TWO_64
    ensures FreeOwner(s, a).None?
  {
    forall z | 0 <= z < |s.zones| ensures !FreeIn(s, z, a) {
      assert RingOk(s.zones[z], z);
    }
  }

  /** `r` is the state, and `n` the count, that handing out the climb page by page gives. */
  ghost predicate HandsOutClimb(s: State, r: State, n: nat, z: nat, a: nat, want: nat, l: nat) {
    r == TakeAll(s, Climb(s, z, a, want), l) && n == |Climb(s, z, a, want)|
  }

  /** What the loop of `pmm_alloc_range` achieves from zone `z` and 64-bit address `addr` on. */
  ghost predicate RangeDone(s: State, r: State, n: nat, z: nat, addr: nat, want: nat, l: nat) {
    forall k: nat :: OpenLoop(s, z, want, k) && RingsOk(s) && z <= |s.zones| && l in s.lists && addr < TWO_64 ==>
      && (Inv(s) ==> TakenOnto(s, r, l) && |r.lists[l]| == |s.lists[l]| + n)
      && (addr == 0 && NothingStartsAtZero(s, z) ==> r == s && n == 0)
      && (Apart(s) && TopAfterBottom(s) && addr % PAGE_SIZE == 0 ==> HandsOutClimb(s, r, n, z, addr, want, l))
  }

  ghost predicate NothingStartsAtZero(s: State, z: nat) {
    forall y :: z <= y < |s.zones| ==> s.zones[y].base > 0
  }

  /** The loop of `pmm_alloc_range`, from zone `z` and 64-bit address `addr` on: the state it
      leaves, and the number of pages it allocates. */
  ghost function RangeFrom(s: State, z: nat, addr: nat, want: nat, l: nat): (r: (State, nat))
    ensures RangeDone(s, r.0, r.1, z, addr, want, l)
    decreases want + |s.zones| - z
  {
    if want == 0 || z >= |s.zones| then
      NothingTaken(s, z, addr, want, l);
      (s, 0)
    else if FreeIn(s, z, addr) then
      var p := PageAt(z, addr, s.zones[z]);
      if IsPage(s, p) && l in s.lists then
        var t := Take(s, p, On(l));
        var r := RangeFrom(t, z, Add64(addr, PAGE_SIZE), want - 1, l);
        OneTaken(s, t, r.0, r.1, z, addr, want, l);
        (r.0, r.1 + 1)
      else
        NeverTaken(s, z, addr, l);
        (s, 0)
    else
      var r := RangeFrom(s, z + 1, addr, want, l);
      NextZone(s, r.0, r.1, z, addr, want, l);
      r
  }

  lemma NeverTaken(s: State, z: nat, addr: nat, l: nat)
    requires FreeIn(s, z, addr)
    requires !(IsPage(s, PageAt(z, addr, s.zones[z])) && l in s.lists)
    ensures !(RingsOk(s) && l in s.lists)
  {
    if RingsOk(s) {
      assert RingOk(s.zones[z], z);
    }
  }

  lemma NothingTaken(s: State, z: nat, addr: nat, want: nat, l: nat)
    requires want == 0 || z >= |s.zones|
    ensures RangeDone(s, s, 0, z, addr, want, l)
  {
    assert Climb(s, z, addr, want) == [];
    if Inv(s) && l in s.lists {
      NoneTakenOnto(s, l);
    }
  }

  lemma NextZone(s: State, r: State, n: nat, z: nat, addr: nat, want: nat, l: nat)
    requires z < |s.zones| && !FreeIn(s, z, addr)
    requires RangeDone(s, r, n, z + 1, addr, want, l)
    ensures RangeDone(s, r, n, z, addr, want, l)
  {
    assert OpenLoop(s, z + 1, want, 0);
    ClimbFromNext(s, z, addr, want);
  }

  lemma OneTaken(s: State, t: State, r: State, n: nat, z: nat, a: nat, want: nat, l: nat)
    requires l in s.lists && want > 0 && FreeIn(s, z, a)
    requires IsPage(s, PageAt(z, a, s.zones[z])) && t == Take(s, PageAt(z, a, s.zones[z]), On(l))
    requires RangeDone(t, r, n, z, Add64(a, PAGE_SIZE), want - 1, l)
    ensures RangeDone(s, r, n + 1, z, a, want, l)
  {
    if RingsOk(s) && a < TWO_64 {
      assert OpenLoop(t, z, want - 1, 0);
      TakeOn(s, z, PageAt(z, a, s.zones[z]), l);
      TakenOneMore(s, t, r, l, z, PageAt(z, a, s.zones[z]));
      if Apart(s) && TopAfterBottom(s) && a % PAGE_SIZE == 0 {
        KeepsLayout(s, t);
        ClimbContinues(s, t, r, n, z, a, want, l);
        ClimbStep(s, t, r, n, z, a, want, l);
      }
    }
  }

  lemma ClimbContinues(s: State, t: State, r: State, n: nat, z: nat, a: nat, want: nat, l: nat)
    requires a < TWO_64 && want > 0 && FreeIn(s, z, a) && a % PAGE_SIZE == 0
    requires RingsOk(t) && SameShape(s.zones, t.zones) && TopAfterBottom(s)
    requires Add64(a, PAGE_SIZE) == 0 && NothingStartsAtZero(t, z) ==> r == t && n == 0
    requires Add64(a, PAGE_SIZE) % PAGE_SIZE == 0 ==> HandsOutClimb(t, r, n, z, Add64(a, PAGE_SIZE), want - 1, l)
    ensures HandsOutClimb(t, r, n, z, a + PAGE_SIZE, want - 1, l)
  {
    if a + PAGE_SIZE < TWO_64 {
      assert Add64(a, PAGE_SIZE) == a + PAGE_SIZE;
    } else {
      WrapEnds(s, t, z, a, want - 1);
    }
  }

  /** Past the top of the address space the 64-bit address is 0, and nothing more is found. */
  lemma WrapEnds(s: State, t: State, z: nat, a: nat, want: nat)
    requires RingsOk(t) && SameShape(s.zones, t.zones) && TopAfterBottom(s) && FreeIn(s, z, a)
    requires a % PAGE_SIZE == 0 && a < TWO_64 <= a + PAGE_SIZE
    ensures Add64(a, PAGE_SIZE) == 0 && a + PAGE_SIZE == TWO_64
    ensures NothingStartsAtZero(t, z)
    ensures Climb(t, z, a + PAGE_SIZE, want) == []
  {
    NothingBeyond(t, a + PAGE_SIZE);
  }

  lemma ClimbFromNext(s: State, z: nat, a: nat, want: nat)
    requires !FreeIn(s, z, a)
    ensures Climb(s, z, a, want) == Climb(s, z + 1, a, want)
  {
    var o := FreeOwner(s, a);
    assert o.Some? ==> o.value != z;
  }

  lemma ClimbUnfold(s: State, t: State, z: nat, a: nat, want: nat, l: nat)
    requires RingsOk(s) && Apart(s) && FreeIn(s, z, a) && l in s.lists && want > 0
    requires IsPage(s, PageAt(z, a, s.zones[z])) && t == Take(s, PageAt(z, a, s.zones[z]), On(l))
    requires SameShape(s.zones, t.zones)
    ensures Climb(s, z, a, want) == [PageAt(z, a, s.zones[z])] + Climb(t, z, a + PAGE_SIZE, want - 1)
  {
    OffersAfterTake(s, t, z, a, l);
    ClimbSplits(s, t, z, a, want);
  }

  lemma ClimbSplits(s: State, t: State, z: nat, a: nat, want: nat)
    requires Apart(s) && SameShape(s.zones, t.zones) && FreeIn(s, z, a) && SameOffers(s, t, a + PAGE_SIZE) && want > 0
    ensures Climb(s, z, a, want) == [PageAt(z, a, s.zones[z])] + Climb(t, z, a + PAGE_SIZE, want - 1)
  {
    ClimbHead(s, z, a, want);
    ClimbSame(s, t, z, a + PAGE_SIZE, want - 1);
  }

  lemma ClimbHead(s: State, z: nat, a: nat, want: nat)
    requires Apart(s) && FreeIn(s, z, a) && want > 0
    ensures Climb(s, z, a, want) == [PageAt(z, a, s.zones[z])] + Climb(s, z, a + PAGE_SIZE, want - 1)
  {
    OwnerIsUnique(s, z, a);
  }

  lemma ClimbStep(s: State, t: State, r: State, n: nat, z: nat, a: nat, want: nat, l: nat)
    requires RingsOk(s) && Apart(s) && FreeIn(s, z, a) && l in s.lists && want > 0
    requires IsPage(s, PageAt(z, a, s.zones[z])) && t == Take(s, PageAt(z, a, s.zones[z]), On(l))
    requires SameShape(s.zones, t.zones)
    requires HandsOutClimb(t, r, n, z, a + PAGE_SIZE, want - 1, l)
    ensures HandsOutClimb(s, r, n + 1, z, a, want, l)
  {
    ClimbUnfold(s, t, z, a, want, l);
    TakeAllStep(s, PageAt(z, a, s.zones[z]), Climb(t, z, a + PAGE_SIZE, want - 1), l);
  }

  lemma KeepsLayout(s: State, t: State)
    requires Apart(s) && TopAfterBottom(s) && SameShape(s.zones, t.zones)
    ensures Apart(t) && TopAfterBottom(t)
  {
    assert forall y :: 0 <= y < |s.zones| ==> s.zones[y].base == t.zones[y].base && s.zones[y].size == t.zones[y].size;
  }

  lemma TakeAllStep(s: State, p: Page, rest: seq<Page>, l: nat)
    requires IsPage(s, p) && p in s.zones[p.zone].free && l in s.lists
    ensures TakeAll(s, [p] + rest, l) == TakeAll(Take(s, p, On(l)), rest, l)
  {
    assert ([p] + rest)[1..] == rest;
  }

  /* ---- when the loop reads past a page array ---- */

  /** The loop of `pmm_alloc_range`, from zone `z` and 64-bit address `addr` on, comes to an address
      that a zone holds and its page array does not. */
  ghost predicate OutOfArray(s: State, z: nat, addr: nat, want: nat, l: nat)
    decreases want + |s.zones| - z
  {
    if want == 0 || z >= |s.zones| then false
    else if BeyondArray(addr, s.zones[z]) then true
    else if FreeIn(s, z, addr) then
      var p := PageAt(z, addr, s.zones[z]);
      IsPage(s, p) && l in s.lists && OutOfArray(Take(s, p, On(l)), z, Add64(addr, PAGE_SIZE), want - 1, l)
    else OutOfArray(s, z + 1, addr, want, l)
  }

  /** In terms of the state the loop starts from: the frame at which the climb ends, wanting more,
      begins in the part of a zone past its last whole page, and that zone is still to come. */
  ghost predicate EndsBeyond(s: State, z: nat, addr: nat, want: nat)
    decreases want
  {
    var o := FreeOwner(s, addr);
    want > 0 &&
      if o.Some? && o.value >= z then EndsBeyond(s, o.value, addr + PAGE_SIZE, want - 1)
      else exists y :: z <= y < |s.zones| && BeyondArray(addr, s.zones[y])
  }

  lemma {:induction false} EndsBeyondSame(s: State, t: State, z: nat, a: nat, want: nat)
    requires Apart(s) && SameShape(s.zones, t.zones) && SameOffers(s, t, a)
    ensures EndsBeyond(t, z, a, want) == EndsBeyond(s, z, a, want)
    decreases want
  {
    if want > 0 {
      OwnerSame(s, t, a);
      var o := FreeOwner(s, a);
      if o.Some? && o.value >= z {
        OffersLater(s, t, a, a + PAGE_SIZE);
        EndsBeyondSame(s, t, o.value, a + PAGE_SIZE, want - 1);
      } else {
        assert forall y :: 0 <= y < |s.zones| ==> (BeyondArray(a, t.zones[y]) <==> BeyondArray(a, s.zones[y]));
      }
    }
  }

  /** From address 0 nothing is reached if no zone begins there. */
  lemma {:induction false} NotFromZero(s: State, z: nat, want: nat, l: nat)
    requires NothingStartsAtZero(s, z)
    ensures !OutOfArray(s, z, 0, want, l)
    decreases |s.zones| - z
  {
    if want > 0 && z < |s.zones| {
      NotFromZero(s, z + 1, want, l);
    }
  }

  /** For disjoint zones: the loop reads past a page array exactly when the climb ends so. */
  lemma {:induction false} OutOfArrayIff(s: State, z: nat, a: nat, want: nat, l: nat)
    requires RingsOk(s) && Apart(s) && TopAfterBottom(s) && l in s.lists && a < TWO_64 && a % PAGE_SIZE == 0
    ensures OutOfArray(s, z, a, want, l) <==> EndsBeyond(s, z, a, want)
    decreases want + |s.zones| - z, 0
  {
    if want == 0 || z >= |s.zones| {
      NothingToEnd(s, z, a, want);
    } else if BeyondArray(a, s.zones[z]) {
      BeyondIsNotFree(s, z, a);
    } else if FreeIn(s, z, a) {
      var t := TakenFor(s, z, a, want, l);
      OutOfArrayLater(s, t, z, a, want - 1, l);
    } else {
      OutOfArrayIff(s, z + 1, a, want, l);
      EndsBeyondNext(s, z, a, want);
    }
  }

  lemma NothingToEnd(s: State, z: nat, a: nat, want: nat)
    requires want == 0 || z >= |s.zones|
    ensures !EndsBeyond(s, z, a, want)
  {
  }

  lemma BeyondIsNotFree(s: State, z: nat, a: nat)
    requires RingsOk(s) && Apart(s) && z < |s.zones| && BeyondArray(a, s.zones[z])
    ensures FreeOwner(s, a).None?
  {
    assert RingOk(s.zones[z], z);
    forall y | 0 <= y < |s.zones| ensures !FreeIn(s, y, a) {
      if y != z {
        NotInTwo(s, z, y, a);
      }
    }
  }

  lemma EndsBeyondNext(s: State, z: nat, a: nat, want: nat)
    requires z < |s.zones| && !FreeIn(s, z, a) && !BeyondArray(a, s.zones[z])
    ensures EndsBeyond(s, z, a, want) == EndsBeyond(s, z + 1, a, want)
  {
    var o := FreeOwner(s, a);
    assert o.Some? ==> o.value != z;
  }

  /** After a page was taken. */
  lemma OutOfArrayLater(s: State, t: State, z: nat, a: nat, want: nat, l: nat)
    requires RingsOk(t) && SameShape(s.zones, t.zones) && Apart(t) && TopAfterBottom(t) && l in t.lists
    requires TopAfterBottom(s) && FreeIn(s, z, a) && a < TWO_64 && a % PAGE_SIZE == 0
    ensures OutOfArray(t, z, Add64(a, PAGE_SIZE), want, l) <==> EndsBeyond(t, z, a + PAGE_SIZE, want)
    decreases want + |t.zones| - z, 1
  {
    NextPage(a);
    if a + PAGE_SIZE < TWO_64 {
      OutOfArrayIff(t, z, a + PAGE_SIZE, want, l);
    } else {
      AtTheTop(s, t, z, a, want, l);
    }
  }

  lemma NextPage(a: nat)
    requires a % PAGE_SIZE == 0 && a < TWO_64
    ensures (a + PAGE_SIZE) % PAGE_SIZE == 0
    ensures a + PAGE_SIZE < TWO_64 ==> Add64(a, PAGE_SIZE) == a + PAGE_SIZE
  {
  }

  lemma TakenFor(s: State, z: nat, a: nat, want: nat, l: nat) returns (t: State)
    requires RingsOk(s) && Apart(s) && TopAfterBottom(s) && l in s.lists
    requires want > 0 && FreeIn(s, z, a) && !BeyondArray(a, s.zones[z])
    ensures RingsOk(t) && SameShape(s.zones, t.zones) && Apart(t) && TopAfterBottom(t) && l in t.lists
    ensures EndsBeyond(s, z, a, want) == EndsBeyond(t, z, a + PAGE_SIZE, want - 1)
    ensures OutOfArray(s, z, a, want, l) == OutOfArray(t, z, Add64(a, PAGE_SIZE), want - 1, l)
  {
    var p := PageAt(z, a, s.zones[z]);
    TakeOn(s, z, p, l);
    t := Take(s, p, On(l));
    KeepsLayout(s, t);
    EndsBeyondTaken(s, t, z, a, want, l);
    OutOfArrayStep(s, z, a, want, l);
  }

  lemma AtTheTop(s: State, t: State, z: nat, a: nat, want: nat, l: nat)
    requires RingsOk(t) && SameShape(s.zones, t.zones) && TopAfterBottom(s) && FreeIn(s, z, a)
    requires a % PAGE_SIZE == 0 && a < TWO_64 <= a + PAGE_SIZE
    ensures !OutOfArray(t, z, Add64(a, PAGE_SIZE), want, l) && !EndsBeyond(t, z, a + PAGE_SIZE, want)
  {
    WrapEnds(s, t, z, a, want);
    NotFromZero(t, z, want, l);
    NothingAtTop(t, z, want);
  }

  lemma OutOfArrayStep(s: State, z: nat, a: nat, want: nat, l: nat)
    requires want > 0 && l in s.lists && FreeIn(s, z, a) && !BeyondArray(a, s.zones[z])
    requires IsPage(s, PageAt(z, a, s.zones[z]))
    ensures OutOfArray(s, z, a, want, l)
         == OutOfArray(Take(s, PageAt(z, a, s.zones[z]), On(l)), z, Add64(a, PAGE_SIZE), want - 1, l)
  {
  }

  lemma EndsBeyondTaken(s: State, t: State, z: nat, a: nat, want: nat, l: nat)
    requires RingsOk(s) && Apart(s) && FreeIn(s, z, a) && l in s.lists && want > 0
    requires IsPage(s, PageAt(z, a, s.zones[z])) && t == Take(s, PageAt(z, a, s.zones[z]), On(l))
    requires SameShape(s.zones, t.zones)
    ensures EndsBeyond(s, z, a, want) == EndsBeyond(t, z, a + PAGE_SIZE, want - 1)
  {
    OwnerIsUnique(s, z, a);
    OffersAfterTake(s, t, z, a, l);
    EndsBeyondSame(s, t, z, a + PAGE_SIZE, want - 1);
  }

  lemma NothingAtTop(s: State, z: nat, want: nat)
    requires RingsOk(s)
    ensures !EndsBeyond(s, z, TWO_64, want)
  {
    NothingBeyond(s, TWO_64);
    forall y | 0 <= y < |s.zones| ensures !BeyondArray(TWO_64, s.zones[y]) {
      assert RingOk(s.zones[y], y);
    }
  }

  /** With whole pages only, never. */
  lemma {:induction false} WholePagesStayIn(s: State, z: nat, addr: nat, want: nat, l: nat)
    requires forall y, b :: 0 <= y < |s.zones| ==> !BeyondArray(b, s.zones[y])
    ensures !OutOfArray(s, z, addr, want, l)
    decreases want + |s.zones| - z
  {
    if want > 0 && z < |s.zones| {
      if FreeIn(s, z, addr) {
        var p := PageAt(z, addr, s.zones[z]);
        if IsPage(s, p) && l in s.lists {
          var t := Take(s, p, On(l));
          assert forall y, b :: 0 <= y < |t.zones| ==> BeyondArray(b, t.zones[y]) == BeyondArray(b, s.zones[y]);
          WholePagesStayIn(t, z, Add64(addr, PAGE_SIZE), want - 1, l);
        }
      } else {
        WholePagesStayIn(s, z + 1, addr, want, l);
      }
    }
  }

  lemma WholePagesAreSafe(s: State, addr: nat, want: nat, l: nat)
    requires Inv(s) && WholePages(s)
    ensures !OutOfArray(s, 0, addr, want, l)
  {
    forall y, b | 0 <= y < |s.zones| ensures !BeyondArray(b, s.zones[y]) {
      ZoneIsPagedIff(s, y);
    }
    WholePagesStayIn(s, 0, addr, want, l);
  }

  /* ---- what handing out a climb means ---- */

  /** Each page of a climb is the free page of its frame, and its zone is not listed before the
      last one's; and after the last page comes a frame with no such page, or enough are handed out. */
  lemma {:induction false} ClimbPages(s: State, z: nat, a: nat, want: nat, j: nat)
    requires j <= |Climb(s, z, a, want)|
    ensures |Climb(s, z, a, want)| <= want
    ensures j < |Climb(s, z, a, want)| ==>
              var o := FreeOwner(s, a + PAGE_SIZE * j);
              o.Some? && o.value >= z && Climb(s, z, a, want)[j] == PageAt(o.value, a + PAGE_SIZE * j, s.zones[o.value])
    ensures j == |Climb(s, z, a, want)| < want ==>
              var o := FreeOwner(s, a + PAGE_SIZE * j);
              o.None? || o.value < (if j == 0 then z else Climb(s, z, a, want)[j - 1].zone)
    decreases want
  {
    var o := FreeOwner(s, a);
    if want > 0 && o.Some? && o.value >= z {
      ClimbPages(s, o.value, a + PAGE_SIZE, want - 1, if j == 0 then 0 else j - 1);
    }
  }

  /** How many of the wanted frames, from the first on, lie in zones and are free. */
  ghost function LongestFree(s: State, a: nat, want: nat): (n: nat)
    ensures n <= want
    decreases want
  {
    if want == 0 || FreeOwner(s, a).None? then 0 else 1 + LongestFree(s, a + PAGE_SIZE, want - 1)
  }

  lemma {:induction false} LongestFreeIsLongest(s: State, a: nat, want: nat)
    ensures var n := LongestFree(s, a, want);
            && (forall j :: 0 <= j < n ==> FreeOwner(s, a + PAGE_SIZE * j).Some?)
            && (n < want ==> FreeOwner(s, a + PAGE_SIZE * n).None?)
    decreases want
  {
    if want > 0 && FreeOwner(s, a).Some? {
      LongestFreeIsLongest(s, a + PAGE_SIZE, want - 1);
      var n := LongestFree(s, a, want);
      forall j | 0 <= j < n ensures FreeOwner(s, a + PAGE_SIZE * j).Some? {
        if j > 0 {
          assert a + PAGE_SIZE + PAGE_SIZE * (j - 1) == a + PAGE_SIZE * j;
        }
      }
      assert a + PAGE_SIZE + PAGE_SIZE * (n - 1) == a + PAGE_SIZE * n;
    }
  }

  /** Along the free frames from `a` on, no frame's zone is listed before `z` or before the zone
      of the frame just below. */
  ghost predicate OwnersClimb(s: State, z: nat, a: nat, want: nat)
    decreases want
  {
    var o := FreeOwner(s, a);
    want == 0 || o.None? || (o.value >= z && OwnersClimb(s, o.value, a + PAGE_SIZE, want - 1))
  }

  /** Exactly when the zones along the request are listed in the order of their frames does the
      loop hand out all the longest free prefix; it never hands out more. */
  lemma {:induction false} ClimbIsLongestIff(s: State, z: nat, a: nat, want: nat)
    ensures |Climb(s, z, a, want)| <= LongestFree(s, a, want)
    ensures |Climb(s, z, a, want)| == LongestFree(s, a, want) <==> OwnersClimb(s, z, a, want)
    decreases want
  {
    var o := FreeOwner(s, a);
    if want > 0 && o.Some? && o.value >= z {
      ClimbIsLongestIff(s, o.value, a + PAGE_SIZE, want - 1);
    }
  }

  /** Zones are disjoint and listed in ascending order of address. */
  ghost predicate Ascending(s: State) {
    forall y, z :: 0 <= y < z < |s.zones| ==> s.zones[y].base + s.zones[y].size <= s.zones[z].base
  }

  lemma {:induction false} AscendingClimbs(s: State, z: nat, a: nat, want: nat)
    requires Ascending(s)
    requires forall y :: 0 <= y < |s.zones| && y < z ==> s.zones[y].base + s.zones[y].size <= a
    ensures OwnersClimb(s, z, a, want)
    decreases want
  {
    var o := FreeOwner(s, a);
    if want > 0 && o.Some? {
      AscendingClimbs(s, o.value, a + PAGE_SIZE, want - 1);
    }
  }

  lemma AscendingLayout(s: State)
    requires RingsOk(s) && Ascending(s)
    requires forall z :: 0 <= z < |s.zones| ==> 0 < s.zones[z].size <= TWO_64 - PAGE_SIZE
    ensures Apart(s) && TopAfterBottom(s)
  {
    forall y, z | 0 <= y <= z < |s.zones| && TWO_64 - PAGE_SIZE < s.zones[y].base + s.zones[y].size
      ensures s.zones[z].base > 0
    {
      assert RingOk(s.zones[y], y);
    }
  }

  /** Pages that are all free, taken one by one: the list gains them in order, every other page
      keeps its place, and each ring keeps the rest of its pages in order. */
  ghost predicate PagesMoved(s: State, r: State, ps: seq<Page>, l: nat) {
    && l in s.lists
    && r.lists == s.lists[l := s.lists[l] + ps]
    && (forall p :: p in s.place ==> p in r.place && r.place[p] == if p in ps then On(l) else s.place[p])
    && |r.zones| == |s.zones|
    && (forall z :: 0 <= z < |s.zones| ==> r.zones[z].free == Except(s.zones[z].free, ps))
  }

  function Except(t: seq<Page>, ps: seq<Page>): seq<Page> {
    if t == [] then [] else (if t[0] in ps then [] else [t[0]]) + Except(t[1..], ps)
  }

  lemma {:induction false} ExceptNone(t: seq<Page>, ps: seq<Page>)
    requires forall p :: p in t ==> p !in ps
    ensures Except(t, ps) == t
  {
    if t != [] {
      ExceptNone(t[1..], ps);
    }
  }

  lemma {:induction false} ExceptTwice(t: seq<Page>, p: Page, ps: seq<Page>)
    ensures Except(Except(t, [p]), ps) == Except(t, [p] + ps)
  {
    if t != [] {
      ExceptTwice(t[1..], p, ps);
      var e := Except(t[1..], [p]);
      assert t[0] in [p] + ps <==> t[0] == p || t[0] in ps;
      if t[0] == p {
        assert Except(t, [p]) == e;
      } else {
        assert Except(t, [p]) == [t[0]] + e && ([t[0]] + e)[1..] == e;
      }
    }
  }

  lemma {:induction false} WithoutIsExcept(t: seq<Page>, p: Page)
    requires Distinct(t) && p in t
    ensures Without(t, IndexOf(t, p)) == Except(t, [p])
  {
    if t[0] == p {
      assert forall q :: q in t[1..] ==> q != p;
      ExceptNone(t[1..], [p]);
    } else {
      WithoutIsExcept(t[1..], p);
      assert Without(t, IndexOf(t, p)) == [t[0]] + Without(t[1..], IndexOf(t[1..], p));
    }
  }

  ghost predicate AllFree(s: State, ps: seq<Page>) {
    forall p :: p in ps ==> IsPage(s, p) && p in s.zones[p.zone].free
  }

  lemma {:induction false} TakeAllMoves(s: State, ps: seq<Page>, l: nat)
    requires RingsOk(s) && l in s.lists && Distinct(ps) && AllFree(s, ps)
    ensures PagesMoved(s, TakeAll(s, ps, l), ps, l)
    decreases |ps|
  {
    if ps == [] {
      NoneMoved(s, l);
    } else {
      var p, rest := ps[0], ps[1..];
      var t := FirstTaken(s, ps, l);
      TakeAllMoves(t, rest, l);
      assert ps == [p] + rest;
      MovedOneMore(s, t, TakeAll(t, rest, l), p, rest, l);
    }
  }

  lemma FirstTaken(s: State, ps: seq<Page>, l: nat) returns (t: State)
    requires RingsOk(s) && l in s.lists && ps != [] && Distinct(ps) && AllFree(s, ps)
    ensures IsPage(s, ps[0]) && ps[0] in s.zones[ps[0].zone].free && ps[0] !in ps[1..]
    ensures t == Take(s, ps[0], On(l)) && RingsOk(t) && l in t.lists && AllFree(t, ps[1..])
    ensures TakeAll(s, ps, l) == TakeAll(t, ps[1..], l)
  {
    var p := ps[0];
    assert p in ps;
    TakeOn(s, p.zone, p, l);
    TakeKeepsFree(s, ps, l);
    t := Take(s, p, On(l));
  }

  lemma NoneMoved(s: State, l: nat)
    requires RingsOk(s) && l in s.lists
    ensures PagesMoved(s, s, [], l)
  {
    assert s.lists[l] + [] == s.lists[l];
    forall z | 0 <= z < |s.zones| ensures Except(s.zones[z].free, []) == s.zones[z].free {
      ExceptNone(s.zones[z].free, []);
    }
  }

  lemma TakeKeepsFree(s: State, ps: seq<Page>, l: nat)
    requires RingsOk(s) && l in s.lists && ps != [] && Distinct(ps) && AllFree(s, ps)
    ensures ps[0] in ps && AllFree(Take(s, ps[0], On(l)), ps[1..])
  {
    var p := ps[0];
    assert p in ps;
    assert RingOk(s.zones[p.zone], p.zone);
    WithoutMembers(s.zones[p.zone].free, IndexOf(s.zones[p.zone].free, p));
    forall q | q in ps[1..] ensures q in ps && q != p {
    }
  }

  lemma MovedOneMore(s: State, t: State, r: State, p: Page, rest: seq<Page>, l: nat)
    requires RingsOk(s) && l in s.lists && IsPage(s, p) && p in s.zones[p.zone].free && p !in rest
    requires t == Take(s, p, On(l))
    requires PagesMoved(t, r, rest, l)
    ensures PagesMoved(s, r, [p] + rest, l)
  {
    assert s.lists[l] + ([p] + rest) == (s.lists[l] + [p]) + rest;
    forall z | 0 <= z < |s.zones| ensures r.zones[z].free == Except(s.zones[z].free, [p] + rest) {
      assert RingOk(s.zones[z], z);
      ExceptTwice(s.zones[z].free, p, rest);
      if z == p.zone {
        WithoutIsExcept(s.zones[z].free, p);
      } else {
        ExceptNone(s.zones[z].free, [p]);
      }
    }
    assert forall q :: q in [p] + rest <==> q == p || q in rest;
  }

  lemma ClimbIsFree(s: State, z: nat, a: nat, want: nat)
    requires RingsOk(s)
    ensures Distinct(Climb(s, z, a, want)) && AllFree(s, Climb(s, z, a, want))
  {
    var ps := Climb(s, z, a, want);
    forall i, j | 0 <= i < j < |ps| ensures ps[i] != ps[j] {
      ClimbPages(s, z, a, want, i);
      ClimbPages(s, z, a, want, j);
      var y := ps[i].zone;
      if ps[j].zone == y {
        LaterFrame(a + PAGE_SIZE * i - s.zones[y].base, a + PAGE_SIZE * j - s.zones[y].base);
      }
    }
    forall p | p in ps ensures IsPage(s, p) && p in s.zones[p.zone].free {
      var i :| 0 <= i < |ps| && ps[i] == p;
      ClimbPages(s, z, a, want, i);
      assert RingOk(s.zones[p.zone], p.zone);
    }
  }

  /* ---- which frames these are ---- */

  /** The address lies in the frame of the page: the 4096 bytes at that place of its zone. */
  predicate AtFrame(s: State, p: Page, addr: nat) {
    p.zone < |s.zones| && s.zones[p.zone].base + 4096 * p.index <= addr < s.zones[p.zone].base + 4096 * p.index + 4096
  }

  lemma PageAtFrame(s: State, z: nat, addr: nat)
    requires z < |s.zones| && Belongs(addr, s.zones[z])
    ensures AtFrame(s, PageAt(z, addr, s.zones[z]), addr)
  {
  }

  lemma FrameIsPageAt(s: State, p: Page, addr: nat)
    requires Inv(s) && IsPage(s, p) && AtFrame(s, p, addr)
    ensures Belongs(addr, s.zones[p.zone]) && PageAt(p.zone, addr, s.zones[p.zone]) == p
  {
    InvLaws(s);
    var zone := s.zones[p.zone];
    assert ZoneOk(s, p.zone);
    assert 4096 * (p.index + 1) <= 4096 * zone.Frames() <= zone.size;
    ModUnique(addr - zone.base, 4096, p.index, addr - zone.base - 4096 * p.index);
  }

  /** A frame is on offer exactly when the address lies in the frame of a free page. */
  lemma FreeOwnerIff(s: State, addr: nat)
    requires Inv(s)
    ensures FreeOwner(s, addr).Some? <==> exists p :: p in s.place && s.place[p] == InFree && AtFrame(s, p, addr)
  {
    InvLaws(s);
    var o := FreeOwner(s, addr);
    if o.Some? {
      var p := PageAt(o.value, addr, s.zones[o.value]);
      FreeHasPage(s, o.value, p);
      PageAtFrame(s, o.value, addr);
      assert p in s.place && s.place[p] == InFree && AtFrame(s, p, addr);
    }
    if p :| p in s.place && s.place[p] == InFree && AtFrame(s, p, addr) {
      FrameIsPageAt(s, p, addr);
      assert ZoneOk(s, p.zone);
      assert FreeIn(s, p.zone, addr);
    }
  }

  /** The address the loop looks at after `j` pages. */
  function FrameNumber(a: nat, j: nat): nat { (a + 4096 * j) % TWO_64 }

  lemma FrameNumberNext(a: nat, j: nat)
    requires j > 0
    ensures FrameNumber(Add64(a, PAGE_SIZE), j - 1) == FrameNumber(a, j)
  {
    var q, r := (a + 4096) / TWO_64, (a + 4096) % TWO_64;
    var x := r + 4096 * (j - 1);
    ModUnique(a + 4096 * j, TWO_64, q + x / TWO_64, x % TWO_64);
  }

  /** The pages the loop puts on the list are those of the frames from its address on, one by one. */
  lemma {:induction false} RangeAtFrames(s: State, z: nat, a: nat, want: nat, l: nat, j: nat)
    requires Inv(s) && z <= |s.zones| && l in s.lists && a < TWO_64
    ensures var r := RangeFrom(s, z, a, want, l).0;
            && TakenOnto(s, r, l)
            && (j < |r.lists[l]| - |s.lists[l]| ==> AtFrame(s, r.lists[l][|s.lists[l]| + j], FrameNumber(a, j)))
    decreases want + |s.zones| - z
  {
    RangeTakenOnto(s, z, a, want, l);
    if want > 0 && z < |s.zones| {
      if FreeIn(s, z, a) {
        RangeFirst(s, z, a, want, l, j);
        if j > 0 {
          var t := Take(s, PageAt(z, a, s.zones[z]), On(l));
          var r := RangeFrom(t, z, Add64(a, PAGE_SIZE), want - 1, l).0;
          RangeAtFrames(t, z, Add64(a, PAGE_SIZE), want - 1, l, j - 1);
          FrameNumberNext(a, j);
          OneMoreAtFrame(s, t, r, l, j, FrameNumber(a, j));
        }
      } else {
        RangeAtFrames(s, z + 1, a, want, l, j);
        RangeSkips(s, z, a, want, l);
      }
    }
  }

  lemma RangeSkips(s: State, z: nat, a: nat, want: nat, l: nat)
    requires want > 0 && z < |s.zones| && !FreeIn(s, z, a)
    ensures RangeFrom(s, z, a, want, l) == RangeFrom(s, z + 1, a, want, l)
  {
  }

  /** Pages `n` in number are at the end of list `l`, at consecutive frames from `a` on. */
  ghost predicate AtFrames(s: State, r: State, l: nat, n: nat, a: nat) {
    && l in s.lists && l in r.lists && |r.lists[l]| == |s.lists[l]| + n
    && forall j :: 0 <= j < n ==> AtFrame(s, r.lists[l][|s.lists[l]| + j], (a + 4096 * j) % TWO_64)
  }

  lemma RangeAllAtFrames(s: State, address: nat, want: nat, l: nat)
    requires Inv(s) && l in s.lists && address < TWO_64
    ensures var r := RangeFrom(s, 0, PageBase(address), want, l);
            AtFrames(s, r.0, l, r.1, address - address % 4096)
  {
    AllocRangeCounts(s, address, want, l);
    var r := RangeFrom(s, 0, PageBase(address), want, l);
    forall j | 0 <= j < r.1
      ensures AtFrame(s, r.0.lists[l][|s.lists[l]| + j], (address - address % 4096 + 4096 * j) % TWO_64)
    {
      RangeAtFrames(s, 0, PageBase(address), want, l, j);
    }
  }

  lemma RangeTakenOnto(s: State, z: nat, a: nat, want: nat, l: nat)
    requires Inv(s) && z <= |s.zones| && l in s.lists && a < TWO_64
    ensures TakenOnto(s, RangeFrom(s, z, a, want, l).0, l)
  {
    InvRings(s);
    var r := RangeFrom(s, z, a, want, l);
    assert OpenLoop(s, z, want, 0);
  }

  lemma OneMoreAtFrame(s: State, t: State, r: State, l: nat, j: nat, addr: nat)
    requires l in s.lists && l in t.lists && l in r.lists && |t.lists[l]| == |s.lists[l]| + 1 && j > 0
    requires SameShape(s.zones, t.zones)
    requires j - 1 < |r.lists[l]| - |t.lists[l]| ==> AtFrame(t, r.lists[l][|t.lists[l]| + (j - 1)], addr)
    ensures j < |r.lists[l]| - |s.lists[l]| ==> AtFrame(s, r.lists[l][|s.lists[l]| + j], addr)
  {
    if j < |r.lists[l]| - |s.lists[l]| {
      assert |t.lists[l]| + (j - 1) == |s.lists[l]| + j;
    }
  }

  lemma RangeFirst(s: State, z: nat, a: nat, want: nat, l: nat, j: nat)
    requires Inv(s) && z < |s.zones| && l in s.lists && a < TWO_64 && want > 0 && FreeIn(s, z, a)
    ensures IsPage(s, PageAt(z, a, s.zones[z]))
    ensures var t := Take(s, PageAt(z, a, s.zones[z]), On(l));
            var r := RangeFrom(s, z, a, want, l).0;
            && Inv(t) && SameShape(s.zones, t.zones) && l in t.lists && |t.lists[l]| == |s.lists[l]| + 1
            && r == RangeFrom(t, z, Add64(a, PAGE_SIZE), want - 1, l).0
            && l in r.lists && |r.lists[l]| > |s.lists[l]| && AtFrame(s, r.lists[l][|s.lists[l]|], FrameNumber(a, 0))
  {
    var p := PageAt(z, a, s.zones[z]);
    FreeHasPage(s, z, p);
    TakeInv(s, p, On(l));
    var t := Take(s, p, On(l));
    RangeTakenOnto(t, z, Add64(a, PAGE_SIZE), want - 1, l);
    PageAtFrame(s, z, a);
    ModSmall(a, TWO_64);
    assert t.lists[l][|s.lists[l]|] == p;
  }

  /** `pmm_alloc_range`: the requested address, rounded down to a page. */
  function PageBase(address: nat): nat {
    address - address % PAGE_SIZE
  }

  /** Whatever the zones, the list grows by the returned count and the summed free counts drop by it. */
  lemma AllocRangeCounts(s: State, address: nat, want: nat, l: nat)
    requires Inv(s) && l in s.lists && address < TWO_64
    ensures var r := RangeFrom(s, 0, PageBase(address), want, l);
            && TakenOnto(s, r.0, l) && |r.0.lists[l]| == |s.lists[l]| + r.1
            && TotalFree(r.0.zones, 0) + r.1 == TotalFree(s.zones, 0)
  {
    InvRings(s);
    var r := RangeFrom(s, 0, PageBase(address), want, l);
    assert OpenLoop(s, 0, want, 0);
  }

  /** The whole effect of `pmm_alloc_range`, for disjoint zones in any list order: the pages of the
      climb, in address order, end the caller's list, nothing else moves, and they are counted. */
  lemma AllocRangeMeaning(s: State, address: nat, want: nat, l: nat)
    requires RingsOk(s) && Apart(s) && TopAfterBottom(s) && l in s.lists && address < TWO_64
    ensures var ps := Climb(s, 0, PageBase(address), want);
            var r := RangeFrom(s, 0, PageBase(address), want, l);
            r.1 == |ps| && PagesMoved(s, r.0, ps, l)
  {
    var a := PageBase(address);
    RangeIsClimb(s, a, want, l);
    ClimbIsFree(s, 0, a, want);
    TakeAllMoves(s, Climb(s, 0, a, want), l);
  }

  lemma RangeIsClimb(s: State, a: nat, want: nat, l: nat)
    requires RingsOk(s) && Apart(s) && TopAfterBottom(s) && l in s.lists && a < TWO_64 && a % PAGE_SIZE == 0
    ensures HandsOutClimb(s, RangeFrom(s, 0, a, want, l).0, RangeFrom(s, 0, a, want, l).1, 0, a, want, l)
  {
    var r := RangeFrom(s, 0, a, want, l);
    assert OpenLoop(s, 0, want, 0);
  }

  /** For zones in ascending order the count is exactly the length of the longest prefix of the
      requested frames that lie in zones and are free, and the pages are those of that prefix. */
  lemma AscendingRange(s: State, address: nat, want: nat, l: nat)
    requires RingsOk(s) && Ascending(s) && l in s.lists && address < TWO_64
    requires forall z :: 0 <= z < |s.zones| ==> 0 < s.zones[z].size <= TWO_64 - PAGE_SIZE
    ensures Apart(s) && TopAfterBottom(s)
    ensures RangeFrom(s, 0, PageBase(address), want, l).1 == LongestFree(s, PageBase(address), want)
  {
    AscendingLayout(s);
    AllocRangeMeaning(s, address, want, l);
    AscendingClimbs(s, 0, PageBase(address), want);
    ClimbIsLongestIff(s, 0, PageBase(address), want);
  }

  /** In any list order: the count is that length just when the zones along it are listed in order. */
  lemma RangeIsLongestIff(s: State, address: nat, want: nat, l: nat)
    requires RingsOk(s) && Apart(s) && TopAfterBottom(s) && l in s.lists && address < TWO_64
    ensures RangeFrom(s, 0, PageBase(address), want, l).1 == LongestFree(s, PageBase(address), want)
       <==> OwnersClimb(s, 0, PageBase(address), want)
  {
    AllocRangeMeaning(s, address, want, l);
    ClimbIsLongestIff(s, 0, PageBase(address), want);
  }

  /** Two adjacent one-page zones, the higher one listed first. */
  const HIGH_FIRST: State := TwoPages(0x2000, 0x1000, 0x10_0000)

  lemma HighFirstIsReal()
    ensures Inv(HIGH_FIRST) && RingsOk(HIGH_FIRST) && Apart(HIGH_FIRST) && TopAfterBottom(HIGH_FIRST)
  {
    TwoPagesInv(0x2000, 0x1000, 0x10_0000);
    InvRings(HIGH_FIRST);
  }

  lemma HighFirstOwners()
    requires Apart(HIGH_FIRST)
    ensures FreeOwner(HIGH_FIRST, 0x1000) == Some(1) && FreeOwner(HIGH_FIRST, 0x2000) == Some(0)
  {
    OwnerIsUnique(HIGH_FIRST, 1, 0x1000);
    OwnerIsUnique(HIGH_FIRST, 0, 0x2000);
  }

  /** There a request for both frames is cut short after the first. */
  lemma HighFirstIsCutShort()
    ensures Inv(HIGH_FIRST) && RingsOk(HIGH_FIRST)
    ensures LongestFree(HIGH_FIRST, 0x1000, 2) == 2
    ensures RangeFrom(HIGH_FIRST, 0, 0x1000, 2, 0).1 == 1
  {
    HighFirstIsReal();
    HighFirstOwners();
    assert LongestFree(HIGH_FIRST, 0x2000, 1) == 1 + LongestFree(HIGH_FIRST, 0x3000, 0);
    assert Climb(HIGH_FIRST, 1, 0x2000, 1) == [];
    AllocRangeMeaning(HIGH_FIRST, 0x1000, 2, 0);
  }
}
