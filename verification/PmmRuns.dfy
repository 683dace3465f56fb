/** Runs of the page allocator: any sequence of its calls, from an empty allocator on. */
module PmmRuns {
  import opened Bits
  import opened Sequences
  import opened PmmModel
  import opened PmmOps
  import opened PmmRange

  /** A call of the allocator, or what a caller does with pages that are out: one in hand goes last on a
      list, or one of a list is taken in hand. */
  datatype Op =
    | OpAddZone(base: nat, size: nat)
    | OpNewList(id: nat)
    | OpHand(page: Page, list: nat)
    | OpUnhand(list: nat, k: nat)
    | OpAllocPage
    | OpAllocPages(count: nat, list: nat)
    | OpAllocRange(address: nat, count: nat, list: nat)
    | OpFreePages(list: nat)
    | OpFreePage(page: Page, tmp: nat)

  /** What the source asks of the caller: real lists, a page the caller holds, zones inside the
      address space, room for their page arrays, and no range past the end of one. */
  ghost predicate Enabled(s: State, op: Op)
    requires Inv(s)
  {
    match op
    case OpAddZone(base, size) =>
      size > 0 ==>
        && base + size <= TWO_64 && size < TWO_64 && size / PAGE_SIZE < TWO_32
        && RoomFor(s.brk, PAGE_STRUCT * (size / PAGE_SIZE))
    case OpNewList(id) => id !in s.lists
    case OpHand(p, l) => p in s.place && s.place[p] == Held && l in s.lists
    case OpUnhand(l, k) => l in s.lists && k < |s.lists[l]|
    case OpAllocPage => true
    case OpAllocPages(count, l) => l in s.lists && AllocPages(s, count, l).Done?
    case OpAllocRange(address, count, l) =>
      l in s.lists && address < TWO_64 && !OutOfArray(s, 0, PageBase(address), count, l)
    case OpFreePages(l) => l in s.lists
    case OpFreePage(p, tmp) => IsPage(s, p) && p in s.place && s.place[p] == Held && tmp !in s.lists
  }

  ghost function Step(s: State, op: Op): (r: State)
    requires Inv(s) && Enabled(s, op)
    ensures Inv(r)
  {
    match op
    case OpAddZone(base, size) =>
      if size == 0 then s else AddZoneInv(s, base, size); AddZone(s, base, size)
    case OpNewList(id) => NewListInv(s, id); s.(lists := s.lists[id := []])
    case OpHand(p, l) => HandInv(s, p, l); Hand(s, p, l)
    case OpUnhand(l, k) => UnhandInv(s, l, k); Unhand(s, l, k)
    case OpAllocPage => AllocPageMeaning(s); AllocPage(s).0
    case OpAllocPages(count, l) => AllocPagesMeaning(s, count, l); AllocPages(s, count, l).state
    case OpAllocRange(address, count, l) =>
      AllocRangeCounts(s, address, count, l);
      RangeFrom(s, 0, PageBase(address), count, l).0
    case OpFreePages(l) => FreeAllSound(s, l); FreeAll(s, l).0
    case OpFreePage(p, tmp) => FreePageIs(s, p, tmp); FreePage(s, p, tmp).0
  }

  /** The pages a call hands to its caller. */
  ghost function Received(s: State, op: Op): seq<Page>
    requires Inv(s) && Enabled(s, op)
  {
    match op
    case OpAllocPage => (match AllocPage(s).1 case None => [] case Some(p) => [p])
    case OpAllocPages(_, l) => Added(s, Step(s, op), l)
    case OpAllocRange(_, _, l) => Added(s, Step(s, op), l)
    case _ => []
  }

  ghost function Added(s: State, r: State, l: nat): seq<Page> {
    if l in s.lists && l in r.lists && |s.lists[l]| <= |r.lists[l]| then r.lists[l][|s.lists[l]|..] else []
  }

  /** The pages a call takes back into free rings. */
  ghost predicate Returned(s: State, op: Op, p: Page)
    requires Inv(s) && Enabled(s, op)
  {
    match op
    case OpFreePages(l) => p in s.lists[l] && IsPage(s, p) && Accepted(s, p)
    case OpFreePage(q, _) => p == q && Accepted(s, p)
    case _ => false
  }

  /** Only free pages are handed out, once each, and then they are not free. */
  lemma ReceivedWasFree(s: State, op: Op, p: Page)
    requires Inv(s) && Enabled(s, op) && p in Received(s, op)
    ensures p in s.place && s.place[p] == InFree
    ensures p in Step(s, op).place && Step(s, op).place[p] != InFree
    ensures Distinct(Received(s, op))
  {
    match op
    case OpAllocPage => AllocPageMeaning(s);
    case OpAllocPages(count, l) => AllocPagesMeaning(s, count, l); AddedWasFree(s, Step(s, op), l, p);
    case OpAllocRange(address, count, l) => AllocRangeCounts(s, address, count, l); AddedWasFree(s, Step(s, op), l, p);
    case _ =>
  }

  lemma AddedWasFree(s: State, r: State, l: nat, p: Page)
    requires TakenOnto(s, r, l) && p in Added(s, r, l)
    ensures p in s.place && s.place[p] == InFree
    ensures p in r.place && r.place[p] == On(l)
    ensures Distinct(Added(s, r, l))
  {
    InvLaws(r);
    assert ListOk(r, l);
    var k := |s.lists[l]|;
    forall i, j | 0 <= i < j < |Added(s, r, l)| ensures Added(s, r, l)[i] != Added(s, r, l)[j] {
      assert r.lists[l][k + i] != r.lists[l][k + j];
    }
  }

  /** The pages a call gives up. */
  ghost predicate GivenUp(s: State, op: Op, p: Page)
    requires Inv(s) && Enabled(s, op)
  {
    match op
    case OpFreePages(l) => p in s.lists[l] && IsPage(s, p) && !Accepted(s, p)
    case OpFreePage(q, _) => p == q && !Accepted(s, p)
    case _ => false
  }

  /* ---- what a call can do to one page ---- */

  predicate IsOut(d: Place) { d == Held || d.On? }

  /** A page that is out comes back if the call takes it back, and is given up if the call gives it up.
      Otherwise it stays out, here or there; a free page may go out; and that is all. */
  predicate MayGo(from: Place, to: Place, back: bool, up: bool) {
    if back then IsOut(from) && to == InFree
    else if up then IsOut(from) && to == Lost
    else to == from || ((from == InFree || IsOut(from)) && IsOut(to))
  }

  lemma AddZonePlaces(s: State, base: nat, size: nat, p: Page)
    requires PagesOk(s) && RoomFor(s.brk, PAGE_STRUCT * (size / PAGE_SIZE)) && p in s.place
    ensures var r := AddZone(s, base, size); p in r.place && r.place[p] == s.place[p]
  {
    assert IsPage(s, p);
  }

  lemma AllocPagePlaces(s: State, p: Page)
    requires Inv(s) && p in s.place
    ensures var r := AllocPage(s).0; p in r.place && MayGo(s.place[p], r.place[p], false, false)
  {
    var h := AllocPage(s).1;
    AllocPageMeaning(s);
    if h.Some? {
      assert AllocPage(s).0.place == s.place[h.value := Held];
    }
  }

  lemma TakenPlaces(s: State, r: State, l: nat, p: Page)
    requires TakenOnto(s, r, l) && p in s.place
    ensures p in r.place && MayGo(s.place[p], r.place[p], false, false)
  {
  }

  lemma AllocPagesPlaces(s: State, count: nat, l: nat, p: Page)
    requires Inv(s) && Enabled(s, OpAllocPages(count, l)) && p in s.place
    ensures var r := Step(s, OpAllocPages(count, l)); p in r.place && MayGo(s.place[p], r.place[p], false, false)
  {
    AllocPagesMeaning(s, count, l);
    TakenPlaces(s, AllocPages(s, count, l).state, l, p);
  }

  lemma RangePlaces(s: State, address: nat, count: nat, l: nat, p: Page)
    requires Inv(s) && Enabled(s, OpAllocRange(address, count, l)) && p in s.place
    ensures var r := Step(s, OpAllocRange(address, count, l));
            p in r.place && MayGo(s.place[p], r.place[p], false, false)
  {
    AllocRangeCounts(s, address, count, l);
    TakenPlaces(s, RangeFrom(s, 0, PageBase(address), count, l).0, l, p);
  }

  lemma FreedPlace(s: State, l: nat, p: Page)
    requires Inv(s) && l in s.lists && p in s.place
    ensures var r := FreeAll(s, l).0;
            && p in r.place && IsPage(s, p)
            && MayGo(s.place[p], r.place[p], p in s.lists[l] && Accepted(s, p), p in s.lists[l] && !Accepted(s, p))
  {
    InvLaws(s);
    FreeAllSound(s, l);
    assert IsPage(s, p) && ListOk(s, l);
  }

  lemma FreePagePlaces(s: State, q: Page, p: Page)
    requires IsPage(s, q) && q in s.place && s.place[q] == Held && p in s.place
    ensures var r := AfterFree(s, q);
            p in r.place && MayGo(s.place[p], r.place[p], p == q && Accepted(s, q), p == q && !Accepted(s, q))
  {
  }

  lemma StepPlaces(s: State, op: Op, p: Page)
    requires Inv(s) && Enabled(s, op) && p in s.place
    ensures p in Step(s, op).place
    ensures MayGo(s.place[p], Step(s, op).place[p], Returned(s, op, p), GivenUp(s, op, p))
  {
    match op
    case OpAddZone(base, size) => AddStepPlaces(s, base, size, p);
    case OpNewList(_) =>
    case OpHand(_, _) =>
    case OpUnhand(l, k) => UnhandPlaces(s, l, k, p);
    case OpAllocPage => AllocPagePlaces(s, p);
    case OpAllocPages(count, l) => AllocPagesPlaces(s, count, l, p);
    case OpAllocRange(address, count, l) => RangePlaces(s, address, count, l, p);
    case OpFreePages(_) => FreeStepPlaces(s, op, p);
    case OpFreePage(_, _) => FreeStepPlaces(s, op, p);
  }

  /** So what a call hands out is what was free and is no longer, what it takes back is what was out and is
      free, and what it gives up is what was out and is lost. */
  lemma StepSays(s: State, op: Op, p: Page)
    requires Inv(s) && Enabled(s, op) && p in s.place
    ensures p in Step(s, op).place
    ensures var from, to := s.place[p], Step(s, op).place[p];
            && (p in Received(s, op) <==> from == InFree && to != InFree)
            && (Returned(s, op, p) <==> from != InFree && to == InFree)
            && (GivenUp(s, op, p) <==> from != Lost && to == Lost)
  {
    StepPlaces(s, op, p);
    if p in Received(s, op) {
      ReceivedWasFree(s, op, p);
    } else if s.place[p] == InFree {
      NotReceivedStays(s, op, p);
    }
  }

  lemma NotReceivedStays(s: State, op: Op, p: Page)
    requires Inv(s) && Enabled(s, op) && p in s.place && s.place[p] == InFree && p !in Received(s, op)
    ensures p in Step(s, op).place && Step(s, op).place[p] == InFree
  {
    StepPlaces(s, op, p);
    match op
    case OpAddZone(base, size) => AddStepPlaces(s, base, size, p);
    case OpNewList(_) =>
    case OpHand(_, _) =>
    case OpUnhand(l, k) => UnhandInv(s, l, k);
    case OpAllocPage => AllocPageMeaning(s);
    case OpAllocPages(count, l) => AllocPagesMeaning(s, count, l); NotAddedStays(s, Step(s, op), l, p);
    case OpAllocRange(address, count, l) => AllocRangeCounts(s, address, count, l); NotAddedStays(s, Step(s, op), l, p);
    case OpFreePages(_) => FreeKeepsFree(s, op, p);
    case OpFreePage(_, _) => FreeKeepsFree(s, op, p);
  }

  lemma FreeKeepsFree(s: State, op: Op, p: Page)
    requires Inv(s) && Enabled(s, op) && p in s.place && s.place[p] == InFree && (op.OpFreePages? || op.OpFreePage?)
    ensures p in Step(s, op).place && Step(s, op).place[p] == InFree
  {
    match op
    case OpFreePages(l) => FreeAllSound(s, l); PlacedElsewhere(s, l, p);
    case OpFreePage(q, tmp) => FreePageIs(s, q, tmp);
  }

  lemma PlacedElsewhere(s: State, l: nat, p: Page)
    requires Inv(s) && l in s.lists && p in s.place && s.place[p] == InFree
    ensures p !in s.lists[l] && p.zone < |s.zones|
  {
    InvLaws(s);
    assert ListOk(s, l) && IsPage(s, p);
  }

  lemma NotAddedStays(s: State, r: State, l: nat, p: Page)
    requires TakenOnto(s, r, l) && p in s.place && s.place[p] == InFree && p !in Added(s, r, l) && Inv(s)
    ensures p in r.place && r.place[p] == InFree
  {
    InvLaws(r);
    PlacedElsewhere(s, l, p);
    assert ListOk(r, l);
    AddedHas(s, r, l, p);
  }

  lemma AddedHas(s: State, r: State, l: nat, p: Page)
    requires l in s.lists && l in r.lists && s.lists[l] <= r.lists[l]
    ensures p in r.lists[l] ==> p in s.lists[l] || p in Added(s, r, l)
  {
    assert r.lists[l] == s.lists[l] + Added(s, r, l);
  }

  lemma FreeStepPlaces(s: State, op: Op, p: Page)
    requires Inv(s) && Enabled(s, op) && p in s.place && (op.OpFreePages? || op.OpFreePage?)
    ensures p in Step(s, op).place
    ensures MayGo(s.place[p], Step(s, op).place[p], Returned(s, op, p), GivenUp(s, op, p))
  {
    match op
    case OpFreePages(l) => FreedPlace(s, l, p);
    case OpFreePage(q, tmp) => FreePageIs(s, q, tmp); FreePagePlaces(s, q, p);
  }

  lemma AddStepPlaces(s: State, base: nat, size: nat, p: Page)
    requires Inv(s) && Enabled(s, OpAddZone(base, size)) && p in s.place
    ensures var r := Step(s, OpAddZone(base, size)); p in r.place && r.place[p] == s.place[p]
  {
    InvLaws(s);
    if size > 0 {
      AddZonePlaces(s, base, size, p);
    }
  }

  lemma UnhandPlaces(s: State, l: nat, k: nat, p: Page)
    requires Inv(s) && l in s.lists && k < |s.lists[l]| && p in s.place
    ensures var r := Unhand(s, l, k); p in r.place && MayGo(s.place[p], r.place[p], false, false)
  {
    UnhandInv(s, l, k);
  }

  /* ---- how many pages are free ---- */

  /** The pages a call adds to the free rings: those of a new zone, or as many as it returns. */
  ghost function Gained(s: State, op: Op): nat
    requires Inv(s) && Enabled(s, op)
  {
    match op
    case OpAddZone(_, size) => size / PAGE_SIZE
    case OpFreePages(l) => FreeAll(s, l).1
    case OpFreePage(p, tmp) => FreePage(s, p, tmp).1
    case _ => 0
  }

  lemma {:induction false} TotalFreeAppends(zones: seq<Zone>, zone: Zone, z: nat)
    requires z <= |zones|
    ensures TotalFree(zones + [zone], z) == TotalFree(zones, z) + |zone.free|
    decreases |zones| - z
  {
    if z < |zones| {
      TotalFreeAppends(zones, zone, z + 1);
    }
  }

  lemma AfterFreeCounts(s: State, p: Page)
    requires IsPage(s, p)
    ensures TotalFree(AfterFree(s, p).zones, 0) == TotalFree(s.zones, 0) + if Accepted(s, p) then 1 else 0
  {
    RehomeCounts(s, p);
  }

  /** **The sum of the free counts is conserved**: every call changes it by the pages it hands out and those
      it adds, and by nothing else. */
  lemma StepCounts(s: State, op: Op)
    requires Inv(s) && Enabled(s, op)
    ensures TotalFree(Step(s, op).zones, 0) + |Received(s, op)| == TotalFree(s.zones, 0) + Gained(s, op)
  {
    match op
    case OpAddZone(base, size) => AddStepCounts(s, base, size);
    case OpNewList(_) =>
    case OpHand(_, _) =>
    case OpUnhand(_, _) =>
    case OpAllocPage => AllocPageMeaning(s);
    case OpAllocPages(count, l) => AllocPagesMeaning(s, count, l);
    case OpAllocRange(address, count, l) => AllocRangeCounts(s, address, count, l);
    case OpFreePages(l) => FreeAllCounts(s, l);
    case OpFreePage(p, tmp) => FreeStepCounts(s, p, tmp);
  }

  lemma AddStepCounts(s: State, base: nat, size: nat)
    requires Inv(s) && Enabled(s, OpAddZone(base, size))
    ensures TotalFree(Step(s, OpAddZone(base, size)).zones, 0) == TotalFree(s.zones, 0) + size / PAGE_SIZE
  {
    if size > 0 {
      TotalFreeAppends(s.zones, NewZone(s, base, size), 0);
    }
  }

  lemma FreeStepCounts(s: State, p: Page, tmp: nat)
    requires Inv(s) && Enabled(s, OpFreePage(p, tmp))
    ensures TotalFree(Step(s, OpFreePage(p, tmp)).zones, 0) == TotalFree(s.zones, 0) + FreePage(s, p, tmp).1
  {
    FreePageIs(s, p, tmp);
    AfterFreeCounts(s, p);
  }

  /** States and the calls between them, starting from an allocator without zones. */
  ghost predicate IsRun(states: seq<State>, ops: seq<Op>) {
    && |states| == |ops| + 1
    && (exists brk :: states[0] == EMPTY.(brk := brk))
    && forall i :: 0 <= i < |ops| ==> Moves(states[i], ops[i], states[i + 1])
  }

  ghost predicate Moves(s: State, op: Op, r: State) {
    Inv(s) ==> Enabled(s, op) && r == Step(s, op)
  }

  /** In every reachable state the rings, flags, lists and places agree. */
  lemma {:induction false} EveryStateIsSound(states: seq<State>, ops: seq<Op>, i: nat)
    requires IsRun(states, ops) && i < |states|
    ensures Inv(states[i])
    ensures i < |ops| ==> Enabled(states[i], ops[i]) && states[i + 1] == Step(states[i], ops[i])
  {
    if i == 0 {
      var brk :| states[0] == EMPTY.(brk := brk);
      EmptyInv(brk);
    } else {
      EveryStateIsSound(states, ops, i - 1);
    }
    if i < |ops| {
      assert Moves(states[i], ops[i], states[i + 1]);
    }
  }

  /** The call at `k` takes the page back. */
  ghost predicate TakenBackAt(states: seq<State>, ops: seq<Op>, k: nat, p: Page) {
    k < |ops| && k < |states| && Inv(states[k]) && Enabled(states[k], ops[k]) && Returned(states[k], ops[k], p)
  }

  /** The call at `k` gives the page up. */
  ghost predicate GivenUpAt(states: seq<State>, ops: seq<Op>, k: nat, p: Page) {
    k < |ops| && k < |states| && Inv(states[k]) && Enabled(states[k], ops[k]) && GivenUp(states[k], ops[k], p)
  }

  /** One call of a run, as it concerns one page. */
  lemma PageStep(states: seq<State>, ops: seq<Op>, k: nat, p: Page)
    requires IsRun(states, ops) && k < |ops| && p in states[k].place
    ensures p in states[k + 1].place
    ensures MayGo(states[k].place[p], states[k + 1].place[p], TakenBackAt(states, ops, k, p),
                  GivenUpAt(states, ops, k, p))
  {
    EveryStateIsSound(states, ops, k);
    StepPlaces(states[k], ops[k], p);
  }

  lemma {:induction false} OutUntilTakenBack(states: seq<State>, ops: seq<Op>, i: nat, j: nat, p: Page)
    requires IsRun(states, ops) && i <= j < |states|
    requires p in states[i].place && states[i].place[p] != InFree
    requires forall k :: i <= k < j ==> !TakenBackAt(states, ops, k, p)
    ensures p in states[j].place && states[j].place[p] != InFree
    decreases j
  {
    if i < j {
      OutUntilTakenBack(states, ops, i, j - 1, p);
      PageStep(states, ops, j - 1, p);
    }
  }

  /** Over every run, a page that is handed out twice was taken back in between. */
  lemma NoPageHandedOutTwice(states: seq<State>, ops: seq<Op>, i: nat, j: nat, p: Page)
    requires IsRun(states, ops) && i < j < |ops|
    requires Inv(states[i]) && Enabled(states[i], ops[i]) && p in Received(states[i], ops[i])
    requires Inv(states[j]) && Enabled(states[j], ops[j]) && p in Received(states[j], ops[j])
    ensures exists k :: i < k < j && TakenBackAt(states, ops, k, p)
  {
    EveryStateIsSound(states, ops, i);
    ReceivedWasFree(states[i], ops[i], p);
    ReceivedWasFree(states[j], ops[j], p);
    if forall k :: i < k < j ==> !TakenBackAt(states, ops, k, p) {
      OutUntilTakenBack(states, ops, i + 1, j, p);
      assert false;
    }
  }

  /** Over every run, no page that was ever added drops out: it is in exactly one place ever after. */
  lemma {:induction false} PagesNeverVanish(states: seq<State>, ops: seq<Op>, i: nat, j: nat, p: Page)
    requires IsRun(states, ops) && i <= j < |states| && p in states[i].place
    ensures p in states[j].place
    decreases j
  {
    if i < j {
      PagesNeverVanish(states, ops, i, j - 1, p);
      PageStep(states, ops, j - 1, p);
    }
  }
}
