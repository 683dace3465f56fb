/** What each allocator call does, and what that means for the free rings and the callers' lists. */
module PmmOps {
  import opened Bits
  import opened Rounding
  import opened Sequences
  import opened PmmModel

  /* ---- adding a zone ---- */

  /** `balloc`: where an allocation of `len` bytes is placed when allocation has reached `brk`. */
  function BallocAt(brk: nat): nat
    requires brk < TWO_64
  {
    RoundUp(brk, 8)
  }

  function BallocEnd(brk: nat, len: nat): nat
    requires brk < TWO_64 && len < TWO_64
  {
    Add64(BallocAt(brk), RoundUp(len, 8))
  }

  /** The boot allocator does not run past the end of the address space. */
  predicate RoomFor(brk: nat, len: nat) {
    (brk + 7) / 8 * 8 + (len + 7) / 8 * 8 < TWO_64
  }

  lemma RoomIsBelowEnd(brk: nat, len: nat)
    requires RoomFor(brk, len)
    ensures brk + 7 < TWO_64 && len + 7 < TWO_64
  {
  }

  /** Consecutive allocations are aligned and do not overlap. */
  lemma BallocIsApart(brk: nat, len: nat)
    requires RoomFor(brk, len)
    ensures BallocAt(brk) % 8 == 0 && brk <= BallocAt(brk) < brk + 8
    ensures BallocAt(brk) + len <= BallocEnd(brk, len) < BallocAt(brk) + len + 8
    ensures BallocEnd(brk, len) < TWO_64 && BallocEnd(brk, len) % 8 == 0
  {
    RoomIsBelowEnd(brk, len);
    EightUp(brk);
    EightUp(len);
    EightsAdd(BallocAt(brk), RoundUp(len, 8));
    AddFits(BallocAt(brk), RoundUp(len, 8));
  }

  /** Without room it fails: what is handed out begins below what was handed out before, or ends beyond what will
      be handed out next. */
  lemma BallocIsApartIff(brk: nat, len: nat)
    requires brk < TWO_64 && len < TWO_64
    ensures brk <= BallocAt(brk) && BallocAt(brk) + len <= BallocEnd(brk, len) <==> RoomFor(brk, len)
  {
    if RoomFor(brk, len) {
      BallocIsApart(brk, len);
    } else if brk + 7 >= TWO_64 {
      WrapsToZero(brk);
    } else {
      EightUp(brk);
      if len + 7 >= TWO_64 {
        WrapsToZero(len);
        AddFits(BallocAt(brk), 0);
      } else {
        EightUp(len);
        AddWraps(BallocAt(brk), RoundUp(len, 8));
      }
    }
  }

  lemma WrapsToZero(x: nat)
    requires x < TWO_64 <= x + 7
    ensures RoundUp(x, 8) == 0
  {
    Pow2Values();
    RoundUpIsArithmetic(x, 3);
  }

  lemma AddWraps(a: nat, b: nat)
    requires a < TWO_64 && b < TWO_64 <= a + b
    ensures Add64(a, b) < a
  {
    ModUnique(a + b, TWO_64, 1, a + b - TWO_64);
  }

  lemma EightsAdd(a: nat, b: nat)
    requires a % 8 == 0 && b % 8 == 0
    ensures (a + b) % 8 == 0
  {
    ModUnique(a + b, 8, a / 8 + b / 8, 0);
  }

  lemma EightUp(x: nat)
    requires x + 7 < TWO_64
    ensures x <= RoundUp(x, 8) < x + 8 && RoundUp(x, 8) % 8 == 0 && RoundUp(x, 8) == (x + 7) / 8 * 8
  {
    RoundEight(x);
    NextEight(x);
  }

  lemma NextEight(x: nat)
    ensures x <= (x + 7) / 8 * 8 < x + 8
    ensures (x + 7) / 8 * 8 % 8 == 0
  {
  }

  /** The 32-bit counter of the loop over a new zone's pages gets to their number, so that the loop ends. */
  ghost predicate CounterArrives(frames: nat) {
    exists k: nat :: k % TWO_32 >= frames
  }

  lemma CounterArrivesIff(frames: nat)
    ensures CounterArrives(frames) <==> frames < TWO_32
  {
    if frames < TWO_32 {
      ModUnique(frames, TWO_32, 0, frames);
      assert frames % TWO_32 >= frames;
    }
  }

  function NewPages(z: nat, frames: nat): (t: seq<Page>)
    ensures |t| == frames
    ensures forall i :: 0 <= i < frames ==> t[i] == Page(z, i)
  {
    seq(frames, i requires 0 <= i < frames => Page(z, i))
  }

  function NewZone(s: State, base: nat, size: nat): Zone
    requires s.brk < TWO_64
  {
    var frames := size / PAGE_SIZE;
    Zone(base, size, BallocAt(s.brk), NewPages(|s.zones|, frames), seq(frames, _ => false))
  }

  /** `pmm_add_zone` of a zone that is not empty: it goes last, all its pages free in order. */
  function AddZone(s: State, base: nat, size: nat): State
    requires RoomFor(s.brk, PAGE_STRUCT * (size / PAGE_SIZE))
  {
    var zone := NewZone(s, base, size);
    var added := map p | p in zone.free :: InFree;
    State(s.zones + [zone], s.lists, s.place + added, BallocEnd(s.brk, PAGE_STRUCT * (size / PAGE_SIZE)))
  }

  /** The new zone, added to any state: behind those there are, its pages all free and unmarked, the free ring
      in the order of the page array. */
  lemma AddedZoneIs(s: State, base: nat, size: nat)
    requires RoomFor(s.brk, PAGE_STRUCT * (size / PAGE_SIZE))
    ensures var z, r := |s.zones|, AddZone(s, base, size);
            && |r.zones| == z + 1 && r.zones[..z] == s.zones && r.lists == s.lists
            && r.zones[z].base == base && r.zones[z].size == size
            && r.zones[z].arrayAt == BallocAt(s.brk) && r.brk == BallocEnd(s.brk, 24 * (size / 4096))
            && |r.zones[z].free| == size / 4096 == |r.zones[z].nonfree|
            && (forall i :: 0 <= i < size / 4096 ==> r.zones[z].free[i] == Page(z, i) && !r.zones[z].nonfree[i])
            && (forall i :: 0 <= i < size / 4096 ==> Page(z, i) in r.place && r.place[Page(z, i)] == InFree)
  {
    var z, r := |s.zones|, AddZone(s, base, size);
    forall i | 0 <= i < size / 4096 ensures Page(z, i) in r.place && r.place[Page(z, i)] == InFree {
      assert r.zones[z].free[i] == Page(z, i) && Page(z, i) in r.zones[z].free;
    }
  }

  lemma AddZonePagesOk(s: State, base: nat, size: nat)
    requires Inv(s) && RoomFor(s.brk, PAGE_STRUCT * (size / PAGE_SIZE))
    ensures PagesOk(AddZone(s, base, size))
  {
    InvLaws(s);
    AddZonePlaces(s, base, size);
    AddZoneFlags(s, base, size);
  }

  lemma AddZonePlaces(s: State, base: nat, size: nat)
    requires PagesOk(s) && RoomFor(s.brk, PAGE_STRUCT * (size / PAGE_SIZE))
    ensures forall p :: p in AddZone(s, base, size).place <==> IsPage(AddZone(s, base, size), p)
  {
    var r := AddZone(s, base, size);
    var free := r.zones[|s.zones|].free;
    forall p ensures p in r.place <==> IsPage(r, p) {
      if p.zone == |s.zones| && p.index < |free| {
        assert free[p.index] == p;
      }
    }
  }

  lemma AddZoneFlags(s: State, base: nat, size: nat)
    requires PagesOk(s) && RoomFor(s.brk, PAGE_STRUCT * (size / PAGE_SIZE))
    ensures var r := AddZone(s, base, size);
            forall p :: p in r.place ==> IsPage(r, p) && (r.zones[p.zone].nonfree[p.index] <==> r.place[p] != InFree)
  {
    var r := AddZone(s, base, size);
    AddZonePlaces(s, base, size);
    forall p | p in r.place ensures r.zones[p.zone].nonfree[p.index] <==> r.place[p] != InFree {
      assert p in s.place ==> IsPage(s, p);
    }
  }

  lemma AddZoneArraysOk(s: State, base: nat, size: nat)
    requires Inv(s) && RoomFor(s.brk, PAGE_STRUCT * (size / PAGE_SIZE))
    ensures ArraysOk(AddZone(s, base, size))
  {
    InvLaws(s);
    BallocIsApart(s.brk, PAGE_STRUCT * (size / PAGE_SIZE));
  }

  lemma AddZoneZoneOk(s: State, base: nat, size: nat, z: nat)
    requires Inv(s) && RoomFor(s.brk, PAGE_STRUCT * (size / PAGE_SIZE)) && z <= |s.zones|
    requires size > 0 && base + size <= TWO_64 && size < TWO_64
    ensures ZoneOk(AddZone(s, base, size), z)
  {
    InvLaws(s);
    if z < |s.zones| {
      OldZoneOk(s, base, size, z);
    } else {
      NewZoneOk(s, base, size);
    }
  }

  lemma OldZoneOk(s: State, base: nat, size: nat, z: nat)
    requires PagesOk(s) && RoomFor(s.brk, PAGE_STRUCT * (size / PAGE_SIZE)) && z < |s.zones| && ZoneOk(s, z)
    ensures ZoneOk(AddZone(s, base, size), z)
  {
    var r := AddZone(s, base, size);
    assert r.zones[z] == s.zones[z];
    forall p ensures p in r.zones[z].free <==> p in r.place && p.zone == z && r.place[p] == InFree {
      assert p in s.place ==> IsPage(s, p);
    }
  }

  lemma NewZoneOk(s: State, base: nat, size: nat)
    requires PagesOk(s) && RoomFor(s.brk, PAGE_STRUCT * (size / PAGE_SIZE))
    requires size > 0 && base + size <= TWO_64 && size < TWO_64
    ensures ZoneOk(AddZone(s, base, size), |s.zones|)
  {
    var r, z := AddZone(s, base, size), |s.zones|;
    var free := r.zones[z].free;
    assert forall p :: p in s.place ==> IsPage(s, p);
    assert forall p :: p in free ==> p in r.place && r.place[p] == InFree;
  }

  /** Adding a zone keeps the invariant: its page array lies beyond all earlier ones. */
  lemma AddZoneInv(s: State, base: nat, size: nat)
    requires Inv(s) && RoomFor(s.brk, PAGE_STRUCT * (size / PAGE_SIZE))
    requires size > 0 && base + size <= TWO_64 && size < TWO_64
    ensures Inv(AddZone(s, base, size))
  {
    var r := AddZone(s, base, size);
    AddZonePagesOk(s, base, size);
    AddZoneArraysOk(s, base, size);
    forall z | 0 <= z < |r.zones| ensures ZoneOk(r, z) {
      AddZoneZoneOk(s, base, size, z);
    }
    forall l | l in r.lists ensures ListOk(r, l) {
      AddZoneListOk(s, base, size, l);
    }
  }

  lemma AddZoneListOk(s: State, base: nat, size: nat, l: nat)
    requires Inv(s) && RoomFor(s.brk, PAGE_STRUCT * (size / PAGE_SIZE)) && l in s.lists
    ensures ListOk(AddZone(s, base, size), l)
  {
    InvLaws(s);
    assert ListOk(s, l);
    var r := AddZone(s, base, size);
    assert forall p :: p in s.place ==> p in r.place && p.zone < |s.zones| && r.place[p] == s.place[p];
  }

  /* ---- allocating ---- */

  /** The first zone, from `z` on, with a free page. */
  function FirstFree(s: State, z: nat): (h: Option<nat>)
    requires z <= |s.zones|
    ensures h.Some? ==> z <= h.value < |s.zones| && s.zones[h.value].free != []
    ensures forall y :: z <= y < (if h.Some? then h.value else |s.zones|) ==> s.zones[y].free == []
    decreases |s.zones| - z
  {
    if z == |s.zones| then None else if s.zones[z].free != [] then Some(z) else FirstFree(s, z + 1)
  }

  /** The free pages of the zones from `z` on, in the order they will be handed out. */
  function FreeSeq(s: State, z: nat): seq<Page>
    requires z <= |s.zones|
    decreases |s.zones| - z
  {
    if z == |s.zones| then [] else s.zones[z].free + FreeSeq(s, z + 1)
  }

  /** The page `pmm_alloc_page` hands out, if any. */
  function AllocPage(s: State): (r: (State, Option<Page>))
    requires Inv(s)
  {
    match FirstFree(s, 0)
    case None => (s, None)
    case Some(z) =>
      FreeIsPage(s, z, 0);
      var p := s.zones[z].free[0];
      (Take(s, p, Held), Some(p))
  }

  lemma FreeIsPage(s: State, z: nat, k: nat)
    requires Inv(s) && z < |s.zones| && k < |s.zones[z].free|
    ensures var p := s.zones[z].free[k]; IsPage(s, p) && p.zone == z && p in s.zones[z].free
  {
    InvLaws(s);
    assert ZoneOk(s, z);
    assert s.zones[z].free[k] in s.zones[z].free;
  }

  lemma {:induction false} FreeSeqFirst(s: State, z: nat)
    requires z <= |s.zones|
    ensures match FirstFree(s, z)
            case None => FreeSeq(s, z) == []
            case Some(h) => FreeSeq(s, z) != [] && FreeSeq(s, z)[0] == s.zones[h].free[0]
    decreases |s.zones| - z
  {
    if z < |s.zones| && s.zones[z].free == [] {
      FreeSeqFirst(s, z + 1);
    }
  }

  /** `pmm_alloc_page` hands out the first free page, or nothing just when no page is free. */
  lemma AllocPageMeaning(s: State)
    requires Inv(s)
    ensures Inv(AllocPage(s).0)
    ensures AllocPage(s).1 == if FreeSeq(s, 0) == [] then None else Some(FreeSeq(s, 0)[0])
    ensures AllocPage(s).1.Some? ==>
              var p := AllocPage(s).1.value;
              IsPage(s, p) && p in s.place && s.place[p] == InFree && AllocPage(s).0.place == s.place[p := Held]
    ensures TotalFree(AllocPage(s).0.zones, 0) + (if AllocPage(s).1.Some? then 1 else 0) == TotalFree(s.zones, 0)
  {
    InvLaws(s);
    FreeSeqFirst(s, 0);
    match FirstFree(s, 0)
    case None =>
    case Some(z) =>
      FreeIsPage(s, z, 0);
      assert ZoneOk(s, z);
      TakeInv(s, s.zones[z].free[0], Held);
      TakeCounts(s, s.zones[z].free[0], Held);
  }

  /** What the loop of `pmm_alloc_pages` achieves: it hands out exactly as many pages as are asked
      for and free, the heads of the free rings in zone order, in that order. */
  ghost predicate AllocDone(s: State, r: State, z: nat, want: nat, l: nat) {
    forall k: nat :: OpenLoop(s, z, want, k) ==>
      (Inv(s) && z <= |s.zones| && l in s.lists ==> TakenOnto(s, r, l) && FirstPagesMoved(s, r, z, want, l))
  }

  /** That loop, which takes first pages, zone after zone, onto the end of list `l`. */
  ghost function AllocFrom(s: State, z: nat, want: nat, l: nat): (r: State)
    ensures AllocDone(s, r, z, want, l)
    decreases want + |s.zones| - z
  {
    if want == 0 || z >= |s.zones| then
      AllocDoneEnd(s, z, want, l);
      s
    else if s.zones[z].free == [] then
      var r := AllocFrom(s, z + 1, want, l);
      AllocDoneNext(s, r, z, want, l);
      r
    else
      var p := s.zones[z].free[0];
      if IsPage(s, p) && p.zone == z && l in s.lists then
        var t := Take(s, p, On(l));
        var r := AllocFrom(t, z, want - 1, l);
        AllocDoneStep(s, t, r, z, want, l, p);
        r
      else
        AllocDoneNever(s, z, l);
        s
  }

  lemma AllocDoneEnd(s: State, z: nat, want: nat, l: nat)
    requires want == 0 || z >= |s.zones|
    ensures AllocDone(s, s, z, want, l)
  {
    if Inv(s) && z <= |s.zones| && l in s.lists {
      NoneMoved(s, z, want, l);
      NoneTakenOnto(s, l);
    }
  }

  lemma AllocDoneNext(s: State, r: State, z: nat, want: nat, l: nat)
    requires z < |s.zones| && s.zones[z].free == [] && AllocDone(s, r, z + 1, want, l)
    ensures AllocDone(s, r, z, want, l)
  {
    if Inv(s) && l in s.lists {
      assert OpenLoop(s, z + 1, want, 0);
      MoveFromNext(s, r, z, want, l);
    }
  }

  lemma AllocDoneNever(s: State, z: nat, l: nat)
    requires z < |s.zones| && s.zones[z].free != []
    requires !(IsPage(s, s.zones[z].free[0]) && s.zones[z].free[0].zone == z && l in s.lists)
    ensures !(Inv(s) && l in s.lists)
  {
    if Inv(s) {
      FreeIsPage(s, z, 0);
    }
  }

  lemma AllocDoneStep(s: State, t: State, r: State, z: nat, want: nat, l: nat, p: Page)
    requires z < |s.zones| && l in s.lists && want > 0 && s.zones[z].free != [] && p == s.zones[z].free[0]
    requires IsPage(s, p) && p.zone == z && t == Take(s, p, On(l))
    requires AllocDone(t, r, z, want - 1, l)
    ensures AllocDone(s, r, z, want, l)
  {
    if Inv(s) {
      assert OpenLoop(t, z, want - 1, 0);
      TakeFirst(s, z, On(l));
      TakenOneMore(s, t, r, l, z, p);
      MoveOneMore(s, t, r, z, want, l, p);
    }
  }

  lemma NoneMoved(s: State, z: nat, want: nat, l: nat)
    requires z <= |s.zones| && l in s.lists && (want == 0 || z == |s.zones|)
    ensures FirstPagesMoved(s, s, z, want, l)
  {
    assert s.lists[l] + FreeSeq(s, z)[..0] == s.lists[l];
  }

  lemma TakeFirst(s: State, z: nat, d: Place)
    requires Inv(s) && z < |s.zones| && s.zones[z].free != []
    requires d.On? ==> d.list in s.lists
    ensures IsPage(s, s.zones[z].free[0]) && s.zones[z].free[0].zone == z
    ensures var r := Take(s, s.zones[z].free[0], d);
            && |r.zones| == |s.zones|
            && r.zones[z].free == s.zones[z].free[1..] && s.zones[z].free == [s.zones[z].free[0]] + r.zones[z].free
            && forall y :: 0 <= y < |s.zones| && y != z ==> r.zones[y] == s.zones[y]
  {
    FreeIsPage(s, z, 0);
  }

  lemma {:induction false} FreeSeqSame(s: State, r: State, z: nat)
    requires z <= |s.zones| == |r.zones|
    requires forall y :: z <= y < |s.zones| ==> r.zones[y].free == s.zones[y].free
    ensures FreeSeq(r, z) == FreeSeq(s, z)
    decreases |s.zones| - z
  {
    if z < |s.zones| {
      FreeSeqSame(s, r, z + 1);
    }
  }

  /** From `s` to `r`, the first free pages of the zones from `z` on, as many as wanted and there
      are, moved in order to the end of list `l`; earlier zones are as they were. */
  ghost predicate FirstPagesMoved(s: State, r: State, z: nat, want: nat, l: nat)
    requires z <= |s.zones| && l in s.lists
  {
    var free := FreeSeq(s, z);
    var n := Min(want, |free|);
    && |r.zones| == |s.zones|
    && r.lists == s.lists[l := s.lists[l] + free[..n]]
    && FreeSeq(r, z) == free[n..]
    && forall y :: 0 <= y < z ==> r.zones[y] == s.zones[y]
  }

  lemma MoveOneMore(s: State, t: State, r: State, z: nat, want: nat, l: nat, p: Page)
    requires z < |s.zones| == |t.zones| && l in s.lists && want > 0
    requires s.zones[z].free == [p] + t.zones[z].free
    requires forall y :: 0 <= y < |s.zones| && y != z ==> t.zones[y] == s.zones[y]
    requires t.lists == s.lists[l := s.lists[l] + [p]]
    requires FirstPagesMoved(t, r, z, want - 1, l)
    ensures FirstPagesMoved(s, r, z, want, l)
  {
    FreeSeqAfterTake(s, t, z, p);
    TakeOneMore(s.lists[l], FreeSeq(s, z), FreeSeq(t, z), p, want);
  }

  lemma MoveFromNext(s: State, r: State, z: nat, want: nat, l: nat)
    requires z < |s.zones| && l in s.lists && s.zones[z].free == []
    requires FirstPagesMoved(s, r, z + 1, want, l)
    ensures FirstPagesMoved(s, r, z, want, l)
  {
    assert r.zones[z] == s.zones[z];
    assert FreeSeq(s, z) == FreeSeq(s, z + 1) && FreeSeq(r, z) == FreeSeq(r, z + 1);
  }

  lemma FreeSeqAfterTake(s: State, t: State, z: nat, p: Page)
    requires z < |s.zones| == |t.zones|
    requires s.zones[z].free == [p] + t.zones[z].free
    requires forall y :: z < y < |s.zones| ==> t.zones[y].free == s.zones[y].free
    ensures FreeSeq(s, z) == [p] + FreeSeq(t, z)
  {
    FreeSeqSame(s, t, z + 1);
    assert ([p] + t.zones[z].free) + FreeSeq(t, z + 1) == [p] + (t.zones[z].free + FreeSeq(t, z + 1));
  }

  lemma TakeOneMore(list: seq<Page>, a: seq<Page>, b: seq<Page>, p: Page, want: nat)
    requires a == [p] + b && want > 0
    ensures list + a[..Min(want, |a|)] == (list + [p]) + b[..Min(want - 1, |b|)]
    ensures a[Min(want, |a|)..] == b[Min(want - 1, |b|)..]
  {
    var n := Min(want - 1, |b|);
    assert a[..n + 1] == [p] + b[..n];
  }

  /** `pmm_alloc_pages` either returns with a count, or comes to use the page pointer that
      `pmm_alloc_page` left unset while reporting success. */
  datatype Outcome = Done(state: State, count: nat) | Stray

  ghost function AllocPages(s: State, count: nat, l: nat): Outcome
    requires Inv(s) && l in s.lists
  {
    if count == 0 then Done(s, 0)
    else if count == 1 then
      match FirstFree(s, 0)
      case None => Stray
      case Some(z) =>
        FreeIsPage(s, z, 0);
        Done(Take(s, s.zones[z].free[0], On(l)), 1)
    else
      var r := AllocFrom(s, 0, count, l);
      assert OpenLoop(s, 0, count, 0);
      Done(r, |r.lists[l]| - |s.lists[l]|)
  }

  /** The unset pointer is used exactly when one page is asked for and none is free.  Otherwise the
      count is the smaller of the pages asked for and the pages free, and so many pages move. */
  lemma AllocPagesMeaning(s: State, count: nat, l: nat)
    requires Inv(s) && l in s.lists
    ensures AllocPages(s, count, l).Stray? <==> count == 1 && FreeSeq(s, 0) == []
    ensures AllocPages(s, count, l).Done? ==>
              var r := AllocPages(s, count, l);
              && r.count == Min(count, |FreeSeq(s, 0)|)
              && TakenOnto(s, r.state, l) && FirstPagesMoved(s, r.state, 0, count, l)
              && TotalFree(r.state.zones, 0) + r.count == TotalFree(s.zones, 0)
  {
    FreeSeqFirst(s, 0);
    if count == 0 {
      NoneMoved(s, 0, 0, l);
    } else if count == 1 {
      if FirstFree(s, 0).Some? {
        TakeOneMeaning(s, FirstFree(s, 0).value, l);
      }
    } else {
      var r := AllocFrom(s, 0, count, l);
      assert OpenLoop(s, 0, count, 0);
      assert |r.lists[l]| == |s.lists[l]| + Min(count, |FreeSeq(s, 0)|);
    }
  }

  lemma {:induction false} FreeSeqFrom(s: State, z: nat, h: nat)
    requires z <= h < |s.zones| && forall y :: z <= y < h ==> s.zones[y].free == []
    ensures FreeSeq(s, z) == FreeSeq(s, h)
    decreases h - z
  {
    if z < h {
      FreeSeqFrom(s, z + 1, h);
    }
  }

  lemma TakeOneMeaning(s: State, z: nat, l: nat)
    requires Inv(s) && l in s.lists && FirstFree(s, 0) == Some(z)
    ensures IsPage(s, s.zones[z].free[0]) && s.zones[z].free[0].zone == z && s.zones[z].free[0] in s.zones[z].free
    ensures TakenOnto(s, Take(s, s.zones[z].free[0], On(l)), l)
    ensures FirstPagesMoved(s, Take(s, s.zones[z].free[0], On(l)), 0, 1, l)
  {
    var p := s.zones[z].free[0];
    TakeFirst(s, z, On(l));
    TakeOneTaken(s, z, l, p);
    FirstOfAll(s, Take(s, p, On(l)), z, l, p);
  }

  lemma TakeOneTaken(s: State, z: nat, l: nat, p: Page)
    requires Inv(s) && l in s.lists && z < |s.zones| && IsPage(s, p) && p.zone == z && p in s.zones[z].free
    ensures TakenOnto(s, Take(s, p, On(l)), l)
  {
    TakenOneMore(s, Take(s, p, On(l)), Take(s, p, On(l)), l, z, p);
  }

  lemma FirstOfAll(s: State, t: State, z: nat, l: nat, p: Page)
    requires FirstFree(s, 0) == Some(z) && l in s.lists && |t.zones| == |s.zones|
    requires s.zones[z].free == [p] + t.zones[z].free
    requires forall y :: 0 <= y < |s.zones| && y != z ==> t.zones[y] == s.zones[y]
    requires t.lists == s.lists[l := s.lists[l] + [p]]
    ensures FirstPagesMoved(s, t, 0, 1, l)
  {
    FreeSeqFrom(s, 0, z);
    FreeSeqFrom(t, 0, z);
    FreeSeqAfterTake(s, t, z, p);
    assert FreeSeq(s, 0)[..1] == [p] && FreeSeq(s, 0)[1..] == FreeSeq(t, 0);
  }

  /* ---- freeing ---- */

  function HomeCount(s: State, p: Page): nat
    requires p.zone < |s.zones|
  {
    if Home(s, p).Some? then 1 else 0
  }

  /** `pmm_free_pages`: the state it leaves and the count it returns. */
  ghost function FreeAll(s: State, l: nat): (State, nat)
    decreases if l in s.lists then |s.lists[l]| else 0
  {
    if l !in s.lists || s.lists[l] == [] || !IsPage(s, s.lists[l][0]) then (s, 0)
    else
      var rest := FreeAll(FreeFirst(s, l), l);
      (rest.0, rest.1 + HomeCount(s, s.lists[l][0]))
  }

  /** The listed pages are back in a ring if accepted, else lost; no other page changes its place. */
  ghost predicate FreedPlaces(s: State, r: State, l: nat) {
    && l in s.lists && SameShape(s.zones, r.zones) && r.brk == s.brk
    && forall p :: p in s.place && p.zone < |s.zones| ==>
         p in r.place && r.place[p] == if p in s.lists[l] then (if Accepted(s, p) then InFree else Lost) else s.place[p]
  }

  lemma FreeFirstIs(s: State, l: nat)
    requires Inv(s) && l in s.lists && s.lists[l] != [] && IsPage(s, s.lists[l][0])
    ensures var p, q := s.lists[l][0], FreeFirst(s, l);
            && SameShape(s.zones, q.zones) && q.brk == s.brk
            && q.lists == s.lists[l := s.lists[l][1..]]
            && q.place == s.place[p := if Accepted(s, p) then InFree else Lost]
            && (Home(s, p).Some? <==> Accepted(s, p))
            && q.zones == if Accepted(s, p) then Rehome(s.zones, p, p.zone) else s.zones
  {
    HomeIsOwnZone(s, s.lists[l][0]);
  }

  lemma PlacesOneMore(s: State, q: State, r: State, l: nat)
    requires l in s.lists && s.lists[l] != [] && Distinct(s.lists[l]) && SameShape(s.zones, q.zones)
    requires q.brk == s.brk && q.lists == s.lists[l := s.lists[l][1..]]
    requires s.lists[l][0] in s.place && s.lists[l][0].zone < |s.zones|
    requires q.place == s.place[s.lists[l][0] := if Accepted(s, s.lists[l][0]) then InFree else Lost]
    requires FreedPlaces(q, r, l)
    ensures FreedPlaces(s, r, l)
  {
    var t := s.lists[l];
    assert t == [t[0]] + t[1..];
    assert forall y :: y in t <==> y == t[0] || y in t[1..];
    forall y | y in s.place && y.zone < |s.zones| ensures Accepted(q, y) <==> Accepted(s, y) {
    }
  }

  lemma {:induction false} FreeAllSound(s: State, l: nat)
    requires Inv(s) && l in s.lists
    ensures Inv(FreeAll(s, l).0) && FreedPlaces(s, FreeAll(s, l).0, l)
    decreases |s.lists[l]|
  {
    if s.lists[l] != [] {
      FreeFirstInv(s, l);
      var q := FreeFirst(s, l);
      FreeAllSound(q, l);
      FreeFirstPlaces(s, FreeAll(q, l).0, l);
    }
  }

  lemma FreeFirstPlaces(s: State, r: State, l: nat)
    requires Inv(s) && l in s.lists && s.lists[l] != [] && IsPage(s, s.lists[l][0])
    requires FreedPlaces(FreeFirst(s, l), r, l)
    ensures FreedPlaces(s, r, l)
  {
    InvLaws(s);
    FreeFirstIs(s, l);
    assert ListOk(s, l);
    PlacesOneMore(s, FreeFirst(s, l), r, l);
  }

  /** The pages of `t` that belong to zone `z` and that its window accepts, last one first. */
  function AcceptedOf(s: State, t: seq<Page>, z: nat): seq<Page>
    requires forall p :: p in t ==> p.zone < |s.zones|
  {
    if t == [] then []
    else AcceptedOf(s, t[1..], z) + if t[0].zone == z && Accepted(s, t[0]) then [t[0]] else []
  }

  function AcceptedCount(s: State, t: seq<Page>): nat
    requires forall p :: p in t ==> p.zone < |s.zones|
  {
    if t == [] then 0 else AcceptedCount(s, t[1..]) + if Accepted(s, t[0]) then 1 else 0
  }

  lemma ListPages(s: State, l: nat)
    requires Inv(s) && l in s.lists
    ensures forall p :: p in s.lists[l] ==> IsPage(s, p)
  {
    InvLaws(s);
    assert ListOk(s, l);
  }

  lemma {:induction false} AcceptedSame(s: State, r: State, t: seq<Page>, z: nat)
    requires SameShape(s.zones, r.zones)
    requires forall p :: p in t ==> p.zone < |s.zones|
    ensures AcceptedOf(r, t, z) == AcceptedOf(s, t, z)
    ensures AcceptedCount(r, t) == AcceptedCount(s, t)
  {
    if t != [] {
      AcceptedSame(s, r, t[1..], z);
    }
  }

  lemma FreeFirstMeaning(s: State, l: nat, z: nat)
    requires Inv(s) && l in s.lists && s.lists[l] != [] && z < |s.zones|
    ensures var p := s.lists[l][0];
            && IsPage(s, p) && SameShape(s.zones, FreeFirst(s, l).zones)
            && FreeFirst(s, l).lists == s.lists[l := s.lists[l][1..]]
            && FreeFirst(s, l).zones[z].free
                 == (if p.zone == z && Accepted(s, p) then [p] else []) + s.zones[z].free
            && (Home(s, p).Some? <==> Accepted(s, p))
  {
    var p := s.lists[l][0];
    ListPages(s, l);
    assert p in s.lists[l];
    HomeIsOwnZone(s, p);
  }

  /** From `s` to `r`, list `l` emptied: its accepted pages of zone `z` are in front of that ring,
      and `n` pages were accepted in all. */
  ghost predicate ListFreed(s: State, r: State, n: nat, l: nat, z: nat)
    requires l in s.lists && z < |s.zones|
    requires forall p :: p in s.lists[l] ==> p.zone < |s.zones|
  {
    && SameShape(s.zones, r.zones)
    && r.lists == s.lists[l := []]
    && r.zones[z].free == AcceptedOf(s, s.lists[l], z) + s.zones[z].free
    && n == AcceptedCount(s, s.lists[l])
  }

  lemma FreeOneMore(s: State, q: State, r: State, n: nat, l: nat, z: nat)
    requires l in s.lists && s.lists[l] != [] && z < |s.zones|
    requires forall p :: p in s.lists[l] ==> p.zone < |s.zones|
    requires SameShape(s.zones, q.zones) && q.lists == s.lists[l := s.lists[l][1..]]
    requires var p := s.lists[l][0];
             q.zones[z].free == (if p.zone == z && Accepted(s, p) then [p] else []) + s.zones[z].free
    requires ListFreed(q, r, n, l, z)
    ensures ListFreed(s, r, n + if Accepted(s, s.lists[l][0]) then 1 else 0, l, z)
  {
    var t := s.lists[l];
    AcceptedSame(s, q, t[1..], z);
    var a := if t[0].zone == z && Accepted(s, t[0]) then [t[0]] else [];
    assert AcceptedOf(s, t[1..], z) + (a + s.zones[z].free) == AcceptedOf(s, t, z) + s.zones[z].free;
  }

  /** `pmm_free_pages` ends with an empty list; each zone's ring gains in front exactly those of
      its own pages that its window accepts; and the returned count is how many those are. */
  lemma {:induction false} FreeAllMeaning(s: State, l: nat, z: nat)
    requires Inv(s) && l in s.lists && z < |s.zones|
    ensures forall p :: p in s.lists[l] ==> p.zone < |s.zones|
    ensures ListFreed(s, FreeAll(s, l).0, FreeAll(s, l).1, l, z)
    decreases |s.lists[l]|
  {
    ListPages(s, l);
    if s.lists[l] != [] {
      var q := FreeFirst(s, l);
      FreedStep(s, l, z);
      FreeAllMeaning(q, l, z);
      FreeOneMore(s, q, FreeAll(q, l).0, FreeAll(q, l).1, l, z);
    }
  }

  lemma FreedStep(s: State, l: nat, z: nat)
    requires Inv(s) && l in s.lists && s.lists[l] != [] && z < |s.zones|
    ensures IsPage(s, s.lists[l][0]) && Inv(FreeFirst(s, l))
    ensures SameShape(s.zones, FreeFirst(s, l).zones) && FreeFirst(s, l).lists == s.lists[l := s.lists[l][1..]]
    ensures var p := s.lists[l][0];
            && FreeFirst(s, l).zones[z].free == (if p.zone == z && Accepted(s, p) then [p] else []) + s.zones[z].free
            && (Home(s, p).Some? <==> Accepted(s, p))
  {
    FreeFirstInv(s, l);
    FreeFirstMeaning(s, l, z);
  }

  /** The returned count is the growth of the summed free counts. */
  lemma {:induction false} FreeAllCounts(s: State, l: nat)
    requires Inv(s) && l in s.lists
    ensures TotalFree(FreeAll(s, l).0.zones, 0) == TotalFree(s.zones, 0) + FreeAll(s, l).1
    decreases |s.lists[l]|
  {
    if s.lists[l] != [] {
      FreeFirstInv(s, l);
      FreeFirstIs(s, l);
      FreeAllCounts(FreeFirst(s, l), l);
      RehomeCounts(s, s.lists[l][0]);
    }
  }

  lemma RehomeCounts(s: State, p: Page)
    requires IsPage(s, p)
    ensures TotalFree(Rehome(s.zones, p, p.zone), 0) == TotalFree(s.zones, 0) + 1
  {
    TotalFreeGrows(s.zones, Rehome(s.zones, p, p.zone), p.zone, 0);
  }

  /** `pmm_free_page`: the page goes on a list of its own, which is then freed. */
  ghost function FreePage(s: State, p: Page, tmp: nat): (r: (State, nat))
    requires Inv(s) && IsPage(s, p) && p in s.place && s.place[p] == Held && tmp !in s.lists
  {
    ListedInv(s, p, tmp);
    var r := FreeAll(Listed(s, p, tmp), tmp);
    (r.0.(lists := r.0.lists - {tmp}), r.1)
  }

  function Listed(s: State, p: Page, tmp: nat): State {
    s.(lists := s.lists[tmp := [p]], place := s.place[p := On(tmp)])
  }

  /** It is the page in hand put on a new list. */
  lemma ListedIsHanded(s: State, p: Page, tmp: nat)
    requires tmp !in s.lists
    ensures Hand(s.(lists := s.lists[tmp := []]), p, tmp) == Listed(s, p, tmp)
  {
    UpdateTwice(s.lists, tmp, [], [p]);
    assert [] + [p] == [p];
  }

  lemma ListedInv(s: State, p: Page, tmp: nat)
    requires Inv(s) && p in s.place && s.place[p] == Held && tmp !in s.lists
    ensures Inv(Listed(s, p, tmp))
  {
    NewListInv(s, tmp);
    HandInv(s.(lists := s.lists[tmp := []]), p, tmp);
    ListedIsHanded(s, p, tmp);
  }

  lemma DropListInv(s: State, l: nat)
    requires Inv(s) && l in s.lists && s.lists[l] == []
    ensures Inv(s.(lists := s.lists - {l}))
  {
    InvLaws(s);
    var r := s.(lists := s.lists - {l});
    assert ListOk(s, l);
    forall z | 0 <= z < |r.zones| ensures ZoneOk(r, z) {
      assert ZoneOk(s, z);
    }
    forall m | m in r.lists ensures ListOk(r, m) {
      assert ListOk(s, m);
    }
  }

  lemma NewListInv(s: State, id: nat)
    requires Inv(s) && id !in s.lists
    ensures Inv(s.(lists := s.lists[id := []]))
  {
    InvLaws(s);
    var r := s.(lists := s.lists[id := []]);
    forall z | 0 <= z < |r.zones| ensures ZoneOk(r, z) {
      assert ZoneOk(s, z);
    }
    forall l | l in r.lists ensures ListOk(r, l) {
      if l != id {
        assert ListOk(s, l);
      }
    }
  }

  /** Freeing one page: an accepted page becomes the first of its zone's ring, any other is lost. */
  function AfterFree(s: State, p: Page): State
    requires IsPage(s, p)
  {
    if Accepted(s, p) then s.(zones := Rehome(s.zones, p, p.zone), place := s.place[p := InFree])
    else s.(place := s.place[p := Lost])
  }

  lemma FreePageIs(s: State, p: Page, tmp: nat)
    requires Inv(s) && IsPage(s, p) && p in s.place && s.place[p] == Held && tmp !in s.lists
    ensures FreePage(s, p, tmp) == (AfterFree(s, p), if Accepted(s, p) then 1 else 0)
    ensures Inv(AfterFree(s, p))
  {
    ListedInv(s, p, tmp);
    HomeIsOwnZone(s, p);
    var q := Listed(s, p, tmp);
    FreeAllOfOne(q, tmp);
    FirstOfOne(s, p, tmp, FreeFirst(q, tmp));
    AfterFreeInv(s, p, tmp);
  }

  lemma AfterFreeInv(s: State, p: Page, tmp: nat)
    requires Inv(s) && IsPage(s, p) && p in s.place && s.place[p] == Held && tmp !in s.lists
    ensures Inv(AfterFree(s, p))
  {
    ListedInv(s, p, tmp);
    HomeIsOwnZone(s, p);
    var f := FreeFirst(Listed(s, p, tmp), tmp);
    FreeFirstInv(Listed(s, p, tmp), tmp);
    FirstOfOne(s, p, tmp, f);
    DropListInv(f, tmp);
  }

  lemma FirstOfOne(s: State, p: Page, tmp: nat, f: State)
    requires IsPage(s, p) && tmp !in s.lists
    requires Home(s, p) == if Accepted(s, p) then Some(p.zone) else None
    requires f == FreeFirst(Listed(s, p, tmp), tmp)
    ensures f.lists[tmp := []] == f.lists && f.(lists := f.lists - {tmp}) == AfterFree(s, p)
  {
    var q := Listed(s, p, tmp);
    assert q.lists[tmp][1..] == [] && Home(q, p) == Home(s, p) && Accepted(q, p) == Accepted(s, p);
    AddAndDrop(s.lists, tmp, [p], []);
    UpdateTwice(s.place, p, On(tmp), InFree);
    UpdateTwice(s.place, p, On(tmp), Lost);
    assert f.lists == s.lists[tmp := [p]][tmp := []];
  }

  lemma FreeAllOfOne(q: State, l: nat)
    requires Inv(q) && l in q.lists && |q.lists[l]| == 1
    ensures IsPage(q, q.lists[l][0])
    ensures FreeAll(q, l) == (FreeFirst(q, l), HomeCount(q, q.lists[l][0]))
  {
    FreeFirstInv(q, l);
    assert FreeFirst(q, l).lists[l] == [];
  }

  lemma UpdateTwice<K, V>(m: map<K, V>, k: K, a: V, b: V)
    ensures m[k := a][k := b] == m[k := b]
  {
  }

  lemma AddAndDrop<K, V>(m: map<K, V>, k: K, a: V, b: V)
    requires k !in m
    ensures m[k := a][k := b] - {k} == m
  {
  }

  /** An accepted page that is freed is the next one handed out, when no earlier zone has any. */
  lemma FreeThenAllocReturnsIt(s: State, p: Page, tmp: nat)
    requires Inv(s) && IsPage(s, p) && p in s.place && s.place[p] == Held && tmp !in s.lists
    requires Accepted(s, p)
    requires forall z :: 0 <= z < p.zone ==> s.zones[z].free == []
    ensures Inv(FreePage(s, p, tmp).0)
    ensures AllocPage(FreePage(s, p, tmp).0).1 == Some(p)
  {
    FreePageIs(s, p, tmp);
    AllocAfterFree(s, p);
  }

  lemma AllocAfterFree(s: State, p: Page)
    requires IsPage(s, p) && Accepted(s, p) && Inv(AfterFree(s, p))
    requires forall z :: 0 <= z < p.zone ==> s.zones[z].free == []
    ensures AllocPage(AfterFree(s, p)).1 == Some(p)
  {
    FirstFreeIs(AfterFree(s, p), p.zone);
  }

  lemma FirstFreeIs(r: State, z: nat)
    requires z < |r.zones| && r.zones[z].free != []
    requires forall y :: 0 <= y < z ==> r.zones[y].free == []
    ensures FirstFree(r, 0) == Some(z)
  {
  }

  /* ---- the single moves the loops are made of ---- */

  /** A page in hand is put last on a list. */
  function Hand(s: State, p: Page, l: nat): State
    requires l in s.lists
  {
    s.(lists := s.lists[l := s.lists[l] + [p]], place := s.place[p := On(l)])
  }

  /** Page `k` of a list is taken in hand. */
  function Unhand(s: State, l: nat, k: nat): State
    requires l in s.lists && k < |s.lists[l]|
  {
    s.(lists := s.lists[l := Without(s.lists[l], k)], place := s.place[s.lists[l][k] := Held])
  }

  /** A page that is out goes somewhere else that is not a ring. */
  ghost predicate OutMove(s: State, r: State, p: Page, d: Place) {
    && p in s.place && s.place[p] != InFree && d != InFree && (d.On? ==> d.list in r.lists)
    && r.zones == s.zones && r.brk == s.brk && r.place == s.place[p := d] && r.lists.Keys == s.lists.Keys
  }

  lemma OutMoveInv(s: State, r: State, p: Page, d: Place)
    requires Inv(s) && OutMove(s, r, p, d)
    requires forall l :: l in r.lists ==> ListOk(r, l)
    ensures Inv(r)
  {
    InvLaws(s);
    OutMovePages(s, r, p, d);
    OutMoveZones(s, r, p, d);
  }

  lemma OutMovePages(s: State, r: State, p: Page, d: Place)
    requires PagesOk(s) && ArraysOk(s) && OutMove(s, r, p, d)
    ensures PagesOk(r) && ArraysOk(r)
  {
    SameShapeKeeps(s, r);
    assert s.zones[p.zone].nonfree[p.index := true] == s.zones[p.zone].nonfree;
    FlagFollowsPlace(s, r, p, d);
  }

  lemma OutMoveZones(s: State, r: State, p: Page, d: Place)
    requires OutMove(s, r, p, d) && forall z :: 0 <= z < |s.zones| ==> ZoneOk(s, z)
    ensures forall z :: 0 <= z < |r.zones| ==> ZoneOk(r, z)
  {
    forall z | 0 <= z < |r.zones| ensures ZoneOk(r, z) {
      assert ZoneOk(s, z);
    }
  }

  lemma HandInv(s: State, p: Page, l: nat)
    requires Inv(s) && p in s.place && s.place[p] == Held && l in s.lists
    ensures Inv(Hand(s, p, l))
  {
    InvLaws(s);
    var r := Hand(s, p, l);
    forall m | m in r.lists ensures ListOk(r, m) {
      HandListOk(s, p, l, m);
    }
    OutMoveInv(s, r, p, On(l));
  }

  lemma HandListOk(s: State, p: Page, l: nat, m: nat)
    requires p in s.place && s.place[p] == Held && l in s.lists && m in s.lists && ListOk(s, m)
    ensures ListOk(Hand(s, p, l), m)
  {
  }

  lemma UnhandInv(s: State, l: nat, k: nat)
    requires Inv(s) && l in s.lists && k < |s.lists[l]|
    ensures s.lists[l][k] in s.place && s.place[s.lists[l][k]] == On(l)
    ensures Inv(Unhand(s, l, k))
  {
    InvLaws(s);
    var p, r := s.lists[l][k], Unhand(s, l, k);
    assert ListOk(s, l) && p in s.lists[l];
    WithoutMembers(s.lists[l], k);
    forall m | m in r.lists ensures ListOk(r, m) {
      assert ListOk(s, m);
    }
    OutMoveInv(s, r, p, Held);
  }

  /** A page in hand goes back to the free ring of zone `h`. */
  function Restore(s: State, p: Page, h: nat): State
    requires h < |s.zones| && p.zone < |s.zones| && p.index < |s.zones[p.zone].nonfree|
  {
    s.(zones := Rehome(s.zones, p, h), place := s.place[p := InFree])
  }

  lemma TakeIsTwoMoves(s: State, p: Page, l: nat)
    requires IsPage(s, p) && p in s.zones[p.zone].free && l in s.lists
    ensures Take(s, p, On(l)) == Hand(Take(s, p, Held), p, l)
  {
    UpdateTwice(s.place, p, Held, On(l));
  }

  lemma FreeFirstIsTwoMoves(s: State, l: nat)
    requires Inv(s) && l in s.lists && s.lists[l] != [] && IsPage(s, s.lists[l][0])
    ensures var p := s.lists[l][0];
            && (Home(s, p).Some? <==> Accepted(s, p))
            && (Accepted(s, p) ==> Home(s, p) == Some(p.zone))
            && FreeFirst(s, l) == if Accepted(s, p) then Restore(Unhand(s, l, 0), p, p.zone)
                                  else Unhand(s, l, 0).(place := Unhand(s, l, 0).place[p := Lost])
  {
    var p := s.lists[l][0];
    HomeIsOwnZone(s, p);
    WithoutFirst(s.lists[l]);
    UpdateTwice(s.place, p, Held, InFree);
    UpdateTwice(s.place, p, Held, Lost);
  }

  lemma WithoutFirst<T>(t: seq<T>)
    requires t != []
    ensures Without(t, 0) == t[1..]
  {
  }

  /** The page is in no ring and on no list. */
  ghost predicate Nowhere(s: State, p: Page) {
    && (forall z :: 0 <= z < |s.zones| ==> p !in s.zones[z].free)
    && (forall l :: l in s.lists ==> p !in s.lists[l])
  }

  lemma HeldIsNowhere(s: State, p: Page)
    requires Inv(s) && p in s.place && s.place[p] == Held
    ensures Nowhere(s, p)
  {
    InvLaws(s);
    forall z | 0 <= z < |s.zones| ensures p !in s.zones[z].free {
      assert ZoneOk(s, z);
    }
    forall l | l in s.lists ensures p !in s.lists[l] {
      assert ListOk(s, l);
    }
  }

  lemma UnhandedIsNowhere(s: State, l: nat)
    requires Inv(s) && l in s.lists && s.lists[l] != []
    ensures Nowhere(Unhand(s, l, 0), s.lists[l][0])
  {
    WithoutFirst(s.lists[l]);
    InvLaws(s);
    var p := s.lists[l][0];
    assert ListOk(s, l);
    assert p in s.lists[l];
    forall z | 0 <= z < |s.zones| ensures p !in s.zones[z].free {
      assert ZoneOk(s, z);
    }
    forall m | m in s.lists && m != l ensures p !in s.lists[m] {
      assert ListOk(s, m);
    }
  }

  /* ---- page addresses ---- */

  /** `vm_page_to_paddr`: all ones when no zone claims the page. */
  function VmPageToPaddr(s: State, p: Page): nat
    requires p.zone < |s.zones|
  {
    match Home(s, p)
    case None => TWO_64 - 1
    case Some(h) => ((PageAddr(s, p) - s.zones[h].arrayAt) / PAGE_STRUCT * PAGE_SIZE + s.zones[h].base) % TWO_64
  }

  /** An accepted page has the address of its own frame: inside its zone, and turned back into the
      page by the index computation of `pmm_alloc_range`.  Any other page has no address. */
  lemma PaddrOfPage(s: State, p: Page)
    requires Inv(s) && IsPage(s, p)
    ensures Accepted(s, p) ==>
              var zone, a := s.zones[p.zone], VmPageToPaddr(s, p);
              && a == zone.base + PAGE_SIZE * p.index
              && zone.base <= a && a + PAGE_SIZE <= zone.base + zone.size
              && (a - zone.base) / PAGE_SIZE == p.index
    ensures !Accepted(s, p) ==> VmPageToPaddr(s, p) == TWO_64 - 1
  {
    InvLaws(s);
    HomeIsOwnZone(s, p);
    assert ZoneOk(s, p.zone);
    FrameInside(s.zones[p.zone].size, p.index);
  }

  lemma FrameInside(size: nat, i: nat)
    requires i < size / PAGE_SIZE
    ensures PAGE_SIZE * i + PAGE_SIZE <= size && PAGE_SIZE * i / PAGE_SIZE == i && PAGE_STRUCT * i / PAGE_STRUCT == i
  {
  }

  /** Across zones that do not overlap, no two accepted pages have the same address. */
  lemma PaddrIsInjective(s: State, p: Page, q: Page)
    requires Inv(s) && IsPage(s, p) && IsPage(s, q) && Accepted(s, p) && Accepted(s, q)
    requires p.zone != q.zone ==>
               var a, b := s.zones[p.zone], s.zones[q.zone];
               a.base + a.size <= b.base || b.base + b.size <= a.base
    requires VmPageToPaddr(s, p) == VmPageToPaddr(s, q)
    ensures p == q
  {
    PaddrOfPage(s, p);
    PaddrOfPage(s, q);
  }

  /** `paddr_to_vm_page`: the address of the page structure, or nothing.  It asks whether the
      physical address lies in the window of a page array. */
  function PaddrToVmPage(s: State, addr: nat): Option<nat>
    requires addr < TWO_64
    requires forall z :: 0 <= z < |s.zones| ==> s.zones[z].base < TWO_64
  {
    match WindowZone(s.zones, addr, 0)
    case None => None
    case Some(h) => Some((s.zones[h].arrayAt + PAGE_STRUCT * (Sub64(addr, s.zones[h].base) / PAGE_SIZE)) % TWO_64)
  }

  /** Physical memory is below 2^52 (Intel SDM Vol. 3A, section 4.1.4), and all page arrays lie within
      as many bytes, in the address space. */
  predicate Addressable(s: State) {
    && s.brk < TWO_64
    && forall z :: 0 <= z < |s.zones| ==>
         s.zones[z].base + s.zones[z].size <= SPAN && s.brk < s.zones[z].arrayAt + SPAN
  }

  const SPAN: nat := 0x10_0000_0000_0000

  /** What the search for a physical address comes to: the page structure as far into the array of the
      first zone whose window holds the address as the address is, in frames, into that zone. */
  predicate LeadsBack(s: State, addr: nat, pageAddr: nat) {
    match WindowZone(s.zones, addr, 0)
    case None => false
    case Some(h) =>
      s.zones[h].base <= addr && pageAddr == s.zones[h].arrayAt + PAGE_STRUCT * ((addr - s.zones[h].base) / PAGE_SIZE)
  }

  /** `paddr_to_vm_page` undoes `vm_page_to_paddr` for an accepted page exactly when some window holds
      the page's physical address, the first such zone does not begin above that address, and it leads to
      the page.  That zone need not be the page's own. */
  lemma PaddrToVmPageFindsIff(s: State, p: Page)
    requires Inv(s) && Addressable(s) && IsPage(s, p) && Accepted(s, p)
    ensures VmPageToPaddr(s, p) < TWO_64
    ensures forall z :: 0 <= z < |s.zones| ==> s.zones[z].base < TWO_64
    ensures PaddrToVmPage(s, VmPageToPaddr(s, p)) == Some(PageAddr(s, p))
       <==> LeadsBack(s, s.zones[p.zone].base + PAGE_SIZE * p.index, PageAddr(s, p))
  {
    var a, x := s.zones[p.zone].base + PAGE_SIZE * p.index, PageAddr(s, p);
    PaddrIs(s, p, a);
    FrameBounds(s, p);
    SearchIff(s, a, x);
  }

  lemma PaddrIs(s: State, p: Page, a: nat)
    requires Inv(s) && IsPage(s, p) && Accepted(s, p) && a == s.zones[p.zone].base + PAGE_SIZE * p.index
    ensures VmPageToPaddr(s, p) == a
  {
    PaddrOfPage(s, p);
  }

  lemma SearchIff(s: State, a: nat, x: nat)
    requires Addressable(s) && a <= SPAN && x <= s.brk < x + SPAN
    requires forall z :: 0 <= z < |s.zones| ==> s.zones[z].base < TWO_64 && s.zones[z].arrayAt <= s.brk
    ensures PaddrToVmPage(s, a) == Some(x) <==> LeadsBack(s, a, x)
  {
    match WindowZone(s.zones, a, 0)
    case None =>
    case Some(h) => LeadsBackIff(s.zones[h].arrayAt, s.zones[h].base, a, x);
  }

  lemma FrameBounds(s: State, p: Page)
    requires Inv(s) && Addressable(s) && IsPage(s, p)
    ensures s.zones[p.zone].base + PAGE_SIZE * p.index <= SPAN && PageAddr(s, p) <= s.brk < PageAddr(s, p) + SPAN
    ensures forall z :: 0 <= z < |s.zones| ==> s.zones[z].base < TWO_64 && s.zones[z].arrayAt <= s.brk
  {
    InvLaws(s);
    assert ZoneOk(s, p.zone);
    FrameInside(s.zones[p.zone].size, p.index);
    assert ArrayEnd(s.zones[p.zone]) <= s.brk;
    forall z | 0 <= z < |s.zones| ensures s.zones[z].arrayAt <= s.brk {
      assert ArrayEnd(s.zones[z]) <= s.brk;
    }
  }

  /** In 64-bit arithmetic, with a base above the address as well. */
  lemma LeadsBackIff(at: nat, base: nat, a: nat, x: nat)
    requires base <= SPAN && a <= SPAN && at < TWO_64 && x < TWO_64 && x < at + SPAN && at < x + SPAN
    ensures base < TWO_64 && a < TWO_64
    ensures (at + PAGE_STRUCT * (Sub64(a, base) / PAGE_SIZE)) % TWO_64 == x
       <==> base <= a && x == at + PAGE_STRUCT * ((a - base) / PAGE_SIZE)
  {
    if base <= a {
      NoWrap(at, (a - base) / PAGE_SIZE, x);
    } else {
      var d := base - a;
      assert Sub64(a, base) == TWO_64 - d;
      FarIndex(d);
      TooFar(at, (TWO_64 - d) / PAGE_SIZE, x);
    }
  }

  lemma NoWrap(at: nat, i: nat, x: nat)
    requires i <= SPAN / PAGE_SIZE && at < TWO_64 && x < TWO_64 && at < x + SPAN
    ensures (at + PAGE_STRUCT * i) % TWO_64 == x <==> x == at + PAGE_STRUCT * i
  {
  }

  lemma FarIndex(d: nat)
    requires 0 < d <= SPAN
    ensures SPAN - SPAN / PAGE_SIZE <= (TWO_64 - d) / PAGE_SIZE < SPAN
  {
  }

  lemma TooFar(at: nat, i: nat, x: nat)
    requires SPAN - SPAN / PAGE_SIZE <= i < SPAN && at < TWO_64 && x < TWO_64 && x < at + SPAN && at < x + SPAN
    ensures (at + PAGE_STRUCT * i) % TWO_64 != x
  {
  }

  /** With the page arrays above all zones, as the kernel places them, it never does. */
  lemma ArraysAboveLeadNowhere(s: State, p: Page)
    requires Inv(s) && Addressable(s) && IsPage(s, p) && Accepted(s, p) && ArraysAbove(s)
    ensures !LeadsBack(s, s.zones[p.zone].base + PAGE_SIZE * p.index, PageAddr(s, p))
  {
    InvLaws(s);
    assert ZoneOk(s, p.zone);
    FrameInside(s.zones[p.zone].size, p.index);
    AboveFindsNothing(s, s.zones[p.zone].base + PAGE_SIZE * p.index, p.zone);
  }

  ghost predicate ArraysAbove(s: State) {
    forall x, y :: 0 <= x < |s.zones| && 0 <= y < |s.zones| ==> s.zones[x].base + s.zones[x].size <= s.zones[y].arrayAt
  }

  lemma AboveFindsNothing(s: State, addr: nat, z: nat)
    requires z < |s.zones| && addr < s.zones[z].base + s.zones[z].size && ArraysAbove(s)
    ensures WindowZone(s.zones, addr, 0) == None
  {
    forall y | 0 <= y < |s.zones| ensures !InWindow(addr, s.zones[y]) {
      assert s.zones[z].base + s.zones[z].size <= s.zones[y].arrayAt;
    }
  }

  /** No address of any zone is then turned back into a page, whether a page's or not. */
  lemma PaddrToVmPageFindsNothing(s: State, addr: nat, z: nat)
    requires Inv(s) && z < |s.zones| && s.zones[z].base <= addr < s.zones[z].base + s.zones[z].size && ArraysAbove(s)
    ensures addr < TWO_64 && (forall y :: 0 <= y < |s.zones| ==> s.zones[y].base < TWO_64)
    ensures PaddrToVmPage(s, addr) == None
  {
    InvLaws(s);
    forall y | 0 <= y < |s.zones| ensures s.zones[y].base < TWO_64 {
      assert ZoneOk(s, y);
    }
    assert ZoneOk(s, z);
    AboveFindsNothing(s, addr, z);
  }

  /** One zone of one page at 1 MiB, with its page array in the kernel's upper half. */
  const ONE_ZONE: State := AddZone(EMPTY.(brk := 0xffff_ffff_8020_0000), 0x10_0000, 0x1000)

  /** There the page has its address and is not found again. */
  lemma OneZoneIsNotFound()
    ensures Inv(ONE_ZONE) && IsPage(ONE_ZONE, Page(0, 0)) && Accepted(ONE_ZONE, Page(0, 0))
    ensures VmPageToPaddr(ONE_ZONE, Page(0, 0)) == 0x10_0000
    ensures ONE_ZONE.zones[0].base < TWO_64 && PaddrToVmPage(ONE_ZONE, 0x10_0000) == None
  {
    var brk := 0xffff_ffff_8020_0000;
    EmptyInv(brk);
    AddZoneInv(EMPTY.(brk := brk), 0x10_0000, 0x1000);
    BallocIsApart(brk, 24);
    PaddrOfPage(ONE_ZONE, Page(0, 0));
    AboveFindsNothing(ONE_ZONE, 0x10_0000, 0);
  }

  /** Two adjacent zones of one page, with their page arrays one after the other and the first of
      them, of all places, at the second zone's address: there the second zone's page is found
      again, through the first zone. */
  lemma FoundThroughAnother()
    ensures var s := TwoPages(0x1000, 0x2000, 0x2000);
            && Inv(s) && Addressable(s) && IsPage(s, Page(1, 0)) && Accepted(s, Page(1, 0))
            && WindowZone(s.zones, 0x2000, 0) == Some(0)
            && LeadsBack(s, 0x2000, PageAddr(s, Page(1, 0)))
  {
    TwoPagesInv(0x1000, 0x2000, 0x2000);
  }
}
