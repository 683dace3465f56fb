/** The page allocator itself: zone objects, intrusive rings, flags and counters updated in place. */
module Pmm {
  import opened Bits
  import opened Rounding
  import opened Sequences
  import opened Lists
  import opened PmmModel
  import opened PmmOps
  import opened PmmRange

  /** `VM_PAGE_FLAG_NONFREE` */
  const NONFREE: bv8 := 1

  lemma TakeSound(s: State, p: Page, l: nat)
    requires Inv(s) && IsPage(s, p) && p in s.zones[p.zone].free
    ensures Inv(Take(s, p, Held)) && Nowhere(Take(s, p, Held), p)
    ensures l in s.lists ==> Inv(Take(s, p, On(l)))
  {
    TakeInv(s, p, Held);
    HeldIsNowhere(Take(s, p, Held), p);
    if l in s.lists {
      TakeInv(s, p, On(l));
    }
  }

  lemma AllocFromTake(s: State, z: nat, want: nat, l: nat, p: Page)
    requires z < |s.zones| && s.zones[z].free != [] && p == s.zones[z].free[0] && want > 0
    requires IsPage(s, p) && p.zone == z && l in s.lists
    ensures AllocFrom(s, z, want, l) == AllocFrom(Take(s, p, On(l)), z, want - 1, l)
    ensures l in Take(s, p, On(l)).lists && |Take(s, p, On(l)).lists[l]| == |s.lists[l]| + 1
  {
  }

  lemma AllocFromNext(s: State, z: nat, want: nat, l: nat)
    requires z < |s.zones| && (want == 0 || s.zones[z].free == [])
    ensures AllocFrom(s, z, want, l) == AllocFrom(s, z + 1, want, l)
  {
  }

  lemma AllocFromEnd(s: State, z: nat, want: nat, l: nat)
    requires want == 0 || z >= |s.zones|
    ensures AllocFrom(s, z, want, l) == s
    decreases |s.zones| - z
  {
    if z < |s.zones| {
      AllocFromEnd(s, z + 1, want, l);
    }
  }

  ghost function AddCount(r: (State, nat), k: nat): (State, nat) {
    (r.0, r.1 + k)
  }

  /** A page taken out singly and then put on a list has been taken onto that list. */
  lemma OneInHand(s: State, p: Page, l: nat)
    requires Inv(s) && l in s.lists && PmmOps.AllocPage(s).1 == Some(p)
    ensures var t := PmmOps.AllocPage(s).0;
            && l in t.lists && Nowhere(t, p) && p in t.place
            && Inv(Hand(t, p, l)) && PmmOps.AllocPages(s, 1, l) == Done(Hand(t, p, l), 1)
  {
    var z := FirstFree(s, 0).value;
    FreeIsPage(s, z, 0);
    TakeSound(s, p, l);
    TakeIsTwoMoves(s, p, l);
  }

  /** The zone's own fields say whether the frame at an address is free. */
  lemma FreeInIsFlag(s: State, z: nat, addr: nat)
    requires Inv(s) && z < |s.zones| && Belongs(addr, s.zones[z]) && !BeyondArray(addr, s.zones[z])
    ensures IsPage(s, PageAt(z, addr, s.zones[z]))
    ensures FreeIn(s, z, addr) <==> !s.zones[z].nonfree[PageAt(z, addr, s.zones[z]).index]
  {
    InvLaws(s);
    assert ZoneOk(s, z);
  }

  lemma BeyondIsNotFreeIn(s: State, z: nat, addr: nat)
    requires Inv(s) && z < |s.zones| && BeyondArray(addr, s.zones[z])
    ensures !FreeIn(s, z, addr)
  {
    if FreeIn(s, z, addr) {
      FreeHasPage(s, z, PageAt(z, addr, s.zones[z]));
    }
  }

  /** As `OpenLoop`, for what a loop has still to do. */
  ghost predicate OpenRest(s: State, z: int, want: int, k: nat) {
    true
  }

  datatype RangeOutcome = Took | Passed | OffTheEnd

  /** What is left of the range loop leads to the target state and count, and past an array or not; shut. */
  ghost predicate RangeRemains(s: State, z: nat, addr: nat, want: nat, l: nat, taken: nat, target: (State, nat),
                               out: bool) {
    forall k: nat :: OpenRest(s, z, want, k) ==>
      && AddCount(RangeFrom(s, z, addr, want, l), taken) == target
      && OutOfArray(s, z, addr, want, l) == out
  }

  lemma RangeStarts(s: State, addr: nat, want: nat, l: nat)
    ensures RangeRemains(s, 0, addr, want, l, 0, RangeFrom(s, 0, addr, want, l), OutOfArray(s, 0, addr, want, l))
  {
  }

  lemma RangeEnds(s: State, z: nat, addr: nat, want: nat, l: nat, taken: nat, target: (State, nat), out: bool)
    requires RangeRemains(s, z, addr, want, l, taken, target, out) && (want == 0 || z >= |s.zones|)
    ensures target == (s, taken) && !out
  {
    assert OpenRest(s, z, want, 0);
  }

  lemma RangeDoneHere(s: State, z: nat, addr: nat, l: nat, taken: nat, target: (State, nat), out: bool)
    requires RangeRemains(s, z, addr, 0, l, taken, target, out)
    ensures RangeRemains(s, z + 1, addr, 0, l, taken, target, out)
  {
    assert OpenRest(s, z, 0, 0);
  }

  lemma RangeIsOut(s: State, z: nat, addr: nat, want: nat, l: nat, taken: nat, target: (State, nat), out: bool)
    requires RangeRemains(s, z, addr, want, l, taken, target, out)
    requires want > 0 && z < |s.zones| && BeyondArray(addr, s.zones[z])
    ensures out
  {
    assert OpenRest(s, z, want, 0);
  }

  lemma RangePasses(s: State, z: nat, addr: nat, want: nat, l: nat, taken: nat, target: (State, nat), out: bool)
    requires RangeRemains(s, z, addr, want, l, taken, target, out)
    requires want > 0 && z < |s.zones| && !BeyondArray(addr, s.zones[z]) && !FreeIn(s, z, addr)
    ensures RangeRemains(s, z + 1, addr, want, l, taken, target, out)
  {
    assert OpenRest(s, z, want, 0);
  }

  lemma RangeTakes(s: State, z: nat, addr: nat, want: nat, l: nat, taken: nat, target: (State, nat), out: bool)
    requires RangeRemains(s, z, addr, want, l, taken, target, out)
    requires want > 0 && FreeIn(s, z, addr) && !BeyondArray(addr, s.zones[z]) && l in s.lists
    requires IsPage(s, PageAt(z, addr, s.zones[z]))
    ensures RangeRemains(Take(s, PageAt(z, addr, s.zones[z]), On(l)), z, Add64(addr, PAGE_SIZE), want - 1, l, taken + 1,
                         target, out)
  {
    assert OpenRest(s, z, want, 0);
    OutOfArrayStep(s, z, addr, want, l);
  }

  lemma BelongsAsComputed(s: State, z: nat, addr: nat)
    requires Inv(s) && z < |s.zones|
    ensures s.zones[z].base < TWO_64 && s.zones[z].size < TWO_64
    ensures Belongs(addr, s.zones[z]) <==>
            s.zones[z].base <= addr <= Sub64(Add64(s.zones[z].base, s.zones[z].size), 1)
  {
    InvLaws(s);
    assert ZoneOk(s, z);
  }

  lemma AllocPageTakes(s: State, z: nat, p: Page)
    requires Inv(s) && FirstFree(s, 0) == Some(z) && p == s.zones[z].free[0]
    ensures Inv(s) && IsPage(s, p) && p.zone == z && p in s.zones[p.zone].free
    ensures PmmOps.AllocPage(s) == (Take(s, p, Held), Some(p))
  {
    FreeIsPage(s, z, 0);
  }

  lemma AllocPageFinds(s: State)
    requires Inv(s) && FirstFree(s, 0) == None
    ensures Inv(s) && PmmOps.AllocPage(s) == (s, None)
  {
  }

  lemma FreeAllOnce(s: State, l: nat)
    requires Inv(s) && l in s.lists && s.lists[l] != []
    ensures IsPage(s, s.lists[l][0]) && l in FreeFirst(s, l).lists && |FreeFirst(s, l).lists[l]| == |s.lists[l]| - 1
    ensures FreeAll(s, l) == AddCount(FreeAll(FreeFirst(s, l), l), HomeCount(s, s.lists[l][0]))
  {
    FirstIsGone(s, l);
  }

  lemma FirstIsGone(s: State, l: nat)
    requires Inv(s) && l in s.lists && s.lists[l] != []
    ensures IsPage(s, s.lists[l][0]) && l in FreeFirst(s, l).lists && |FreeFirst(s, l).lists[l]| == |s.lists[l]| - 1
  {
    FirstOfFreed(s, l);
  }

  lemma FirstOfFreed(s: State, l: nat)
    requires Inv(s) && l in s.lists && s.lists[l] != []
    ensures IsPage(s, s.lists[l][0]) && s.lists[l][0] in s.place
    ensures Nowhere(Unhand(s, l, 0), s.lists[l][0])
    ensures var p := s.lists[l][0];
            && (Home(s, p).Some? ==> Home(s, p) == Some(p.zone))
            && FreeFirst(s, l) == if Home(s, p).Some? then Restore(Unhand(s, l, 0), p, p.zone)
                                  else Unhand(s, l, 0).(place := Unhand(s, l, 0).place[p := Lost])
  {
    InvLaws(s);
    ListPages(s, l);
    assert s.lists[l][0] in s.lists[l];
    FreeFirstIsTwoMoves(s, l);
    UnhandedIsNowhere(s, l);
  }

  /** A page in hand that is put on a list of its own: the state `pmm_free_page` frees from. */
  lemma HeldThenListed(s: State, p: Page, tmp: nat)
    requires Inv(s) && tmp !in s.lists && p in s.place && s.place[p] == Held
    ensures Inv(s) && IsPage(s, p) && Inv(Listed(s, p, tmp))
    ensures Nowhere(s.(lists := s.lists[tmp := []]), p)
  {
    HeldIsPage(s, p);
    ListedInv(s, p, tmp);
    HeldIsNowhere(s, p);
  }

  lemma HeldIsPage(s: State, p: Page)
    requires Inv(s) && p in s.place
    ensures IsPage(s, p)
  {
    InvLaws(s);
  }

  lemma PutAndRemoved<K, V>(m: map<K, V>, k: K, v: V)
    requires k !in m
    ensures m[k := v] - {k} == m
  {
  }

  /** What is left of a loop over the zones leads to the target state; shut. */
  ghost predicate Remains(s: State, z: nat, want: nat, l: nat, target: State) {
    forall k: nat :: OpenRest(s, z, want, k) ==> AllocFrom(s, z, want, l) == target
  }

  lemma RemainsIs(s: State, z: nat, want: nat, l: nat, target: State)
    ensures Remains(s, z, want, l, target) <==> AllocFrom(s, z, want, l) == target
  {
    assert OpenRest(s, z, want, 0);
  }

  lemma NoneRemain(s: State, z: nat, want: nat, l: nat, target: State)
    requires Remains(s, z, want, l, target) && (want == 0 || z >= |s.zones|)
    ensures s == target
  {
    RemainsIs(s, z, want, l, target);
    AllocFromEnd(s, z, want, l);
  }

  /** The boot allocator. */
  class BootAllocator {
    var bootAllocEnd: nat

    constructor (end: nat)
      ensures bootAllocEnd == end
    {
      bootAllocEnd := end;
    }

    /** `balloc` */
    method Balloc(len: nat) returns (ptr: nat)
      requires bootAllocEnd < TWO_64 && len < TWO_64
      modifies this
      ensures ptr == BallocAt(old(bootAllocEnd)) && bootAllocEnd == BallocEnd(old(bootAllocEnd), len)
      ensures RoomFor(old(bootAllocEnd), len) ==>
                && ptr % 8 == 0 && old(bootAllocEnd) <= ptr < old(bootAllocEnd) + 8
                && ptr + len <= bootAllocEnd < TWO_64 && bootAllocEnd % 8 == 0
    {
      if RoomFor(bootAllocEnd, len) {
        BallocIsApart(bootAllocEnd, len);
      }
      ptr := RoundUp(bootAllocEnd, 8);
      bootAllocEnd := Add64(ptr, RoundUp(len, 8));
    }
  }

  datatype ZoneFields = ZoneFields(base: nat, size: nat, freePages: ListNode, pageArray: nat, freeCount: nat,
                                   flags: seq<bv8>, nodes: seq<ListNode>)

  /** `pmm_zone_t`.  `nodes` and `flags` are the two fields of the entries of `page_array`, which is
      at address `pageArray`. */
  class ZoneObject {
    const base: nat
    const size: nat
    const freePages: ListNode
    var pageArray: nat
    var freeCount: nat
    var flags: seq<bv8>
    var nodes: seq<ListNode>

    constructor (base: nat, size: nat, freePages: ListNode)
      ensures this.base == base && this.size == size && this.freePages == freePages
    {
      this.base, this.size, this.freePages := base, size, freePages;
      pageArray, freeCount, flags, nodes := 0, 0, [], [];
    }

    ghost function Fields(): ZoneFields
      reads this
    {
      ZoneFields(base, size, freePages, pageArray, freeCount, flags, nodes)
    }
  }

  /** The listed nodes are those of the pages, in order. */
  ghost predicate Holds(nodeOf: map<Page, ListNode>, ns: seq<ListNode>, ps: seq<Page>) {
    && |ns| == |ps|
    && forall i :: 0 <= i < |ps| ==> ps[i] in nodeOf && ns[i] == nodeOf[ps[i]]
  }

  /** Each page has its node, which says so itself. */
  ghost predicate Tagged(nodeOf: map<Page, ListNode>) {
    forall p :: p in nodeOf ==> nodeOf[p].owner == PageOf(p.zone, p.index)
  }

  /** The values of a zone object's fields, and the ring they describe, agree with the model's zone. */
  ghost predicate ZoneMatches(v: ZoneFields, ring: seq<ListNode>, nodeOf: map<Page, ListNode>, m: Zone, z: nat) {
    && v.base == m.base && v.size == m.size && v.pageArray == m.arrayAt
    && v.freeCount == |m.free| && v.freePages.owner == FreeHead(z)
    && FlagsMatch(v.flags, m.nonfree)
    && |v.nodes| == |m.nonfree|
    && (forall i :: 0 <= i < |v.nodes| ==> Page(z, i) in nodeOf && v.nodes[i] == nodeOf[Page(z, i)])
    && Holds(nodeOf, ring, m.free)
  }

  ghost predicate FlagsMatch(flags: seq<bv8>, nonfree: seq<bool>) {
    && |flags| == |nonfree|
    && forall i :: 0 <= i < |flags| ==> (flags[i] & NONFREE != 0) == nonfree[i]
  }

  lemma SetFlag(flags: seq<bv8>, nonfree: seq<bool>, i: nat)
    requires FlagsMatch(flags, nonfree) && i < |flags|
    ensures FlagsMatch(flags[i := flags[i] | NONFREE], nonfree[i := true])
  {
    var f := flags[i];
    assert (f | 1) & 1 != 0;
  }

  lemma ClearFlag(flags: seq<bv8>, nonfree: seq<bool>, i: nat)
    requires FlagsMatch(flags, nonfree) && i < |flags|
    ensures FlagsMatch(flags[i := flags[i] & !NONFREE], nonfree[i := false])
  {
    var f := flags[i];
    assert (f & !1) & 1 == 0;
  }

  ghost predicate Extends(nodeOf: map<Page, ListNode>, nodeOf': map<Page, ListNode>) {
    forall p :: p in nodeOf ==> p in nodeOf' && nodeOf'[p] == nodeOf[p]
  }

  lemma HoldsMore(nodeOf: map<Page, ListNode>, nodeOf': map<Page, ListNode>, ns: seq<ListNode>, ps: seq<Page>)
    requires Holds(nodeOf, ns, ps) && Extends(nodeOf, nodeOf')
    ensures Holds(nodeOf', ns, ps)
  {
  }

  lemma MatchesMore(v: ZoneFields, ring: seq<ListNode>, nodeOf: map<Page, ListNode>, nodeOf': map<Page, ListNode>,
                    m: Zone, z: nat)
    requires ZoneMatches(v, ring, nodeOf, m, z) && Extends(nodeOf, nodeOf')
    ensures ZoneMatches(v, ring, nodeOf', m, z)
  {
  }

  ghost function NewNodes(z: nat, nodes: seq<ListNode>): (r: map<Page, ListNode>)
    ensures forall p :: p in r <==> p.zone == z && p.index < |nodes|
    ensures forall i :: 0 <= i < |nodes| ==> r[Page(z, i)] == nodes[i]
  {
    var pages := NewPages(z, |nodes|);
    assert forall i :: 0 <= i < |nodes| ==> pages[i] in pages;
    map p | p in pages :: nodes[p.index]
  }

  /** A zone object ready to be listed: its array placed, its pages zeroed, all of them free. */
  ghost predicate PreparedZone(v: ZoneFields, s: State, base: nat, size: nat) {
    && s.brk < TWO_64 && v.base == base && v.size == size
    && v.pageArray == BallocAt(s.brk) && v.freeCount == size / PAGE_SIZE
    && v.freePages.owner == FreeHead(|s.zones|)
    && v.flags == seq(size / PAGE_SIZE, _ => 0)
    && |v.nodes| == size / PAGE_SIZE
    && (forall i :: 0 <= i < |v.nodes| ==> v.nodes[i].owner == PageOf(|s.zones|, i))
  }

  lemma IsPrepared(v: ZoneFields, s: State, base: nat, size: nat, head: ListNode, nodes: seq<ListNode>)
    requires s.brk < TWO_64 && head.owner == FreeHead(|s.zones|) && |nodes| == size / PAGE_SIZE
    requires forall i :: 0 <= i < |nodes| ==> nodes[i].owner == PageOf(|s.zones|, i)
    requires v == ZoneFields(base, size, head, BallocAt(s.brk), size / PAGE_SIZE, seq(size / PAGE_SIZE, _ => 0), nodes)
    ensures PreparedZone(v, s, base, size)
  {
  }

  lemma PreparedMatches(v: ZoneFields, s: State, nodeOf: map<Page, ListNode>, base: nat, size: nat)
    requires PreparedZone(v, s, base, size)
    ensures ZoneMatches(v, v.nodes, nodeOf + NewNodes(|s.zones|, v.nodes), NewZone(s, base, size), |s.zones|)
  {
  }

  lemma AddZoneShape(s: State, base: nat, size: nat)
    requires RoomFor(s.brk, PAGE_STRUCT * (size / PAGE_SIZE))
    ensures var r := PmmOps.AddZone(s, base, size);
            && r.zones == s.zones + [NewZone(s, base, size)] && r.lists == s.lists
            && forall p :: p in r.place <==> p in s.place || (p.zone == |s.zones| && p.index < size / PAGE_SIZE)
  {
    var free := NewZone(s, base, size).free;
    assert forall i :: 0 <= i < |free| ==> free[i] in free;
  }

  lemma AddZoneSound(s: State, base: nat, size: nat)
    requires Inv(s) && RoomFor(s.brk, PAGE_STRUCT * (size / PAGE_SIZE))
    requires size > 0 && base + size <= TWO_64 && size < TWO_64
    ensures Inv(PmmOps.AddZone(s, base, size))
    ensures forall p :: p in s.place ==> p.zone < |s.zones|
  {
    InvLaws(s);
    AddZoneInv(s, base, size);
    assert forall p :: p in s.place ==> IsPage(s, p);
  }

  lemma HoldsWithout(nodeOf: map<Page, ListNode>, ns: seq<ListNode>, ps: seq<Page>, k: nat)
    requires Holds(nodeOf, ns, ps) && k < |ps|
    ensures Holds(nodeOf, Without(ns, k), Without(ps, k))
  {
  }

  lemma HoldsLonger(nodeOf: map<Page, ListNode>, ns: seq<ListNode>, ps: seq<Page>, p: Page)
    requires Holds(nodeOf, ns, ps) && p in nodeOf
    ensures Holds(nodeOf, ns + [nodeOf[p]], ps + [p]) && Holds(nodeOf, [nodeOf[p]] + ns, [p] + ps)
  {
  }

  lemma HoldsNot(nodeOf: map<Page, ListNode>, ns: seq<ListNode>, ps: seq<Page>, p: Page)
    requires Holds(nodeOf, ns, ps) && Tagged(nodeOf) && p in nodeOf && p !in ps
    ensures nodeOf[p] !in ns
  {
  }

  /** What taking a page out, and putting one back, does to its zone object. */
  function Taken(v: ZoneFields, i: nat): ZoneFields
    requires i < |v.flags| && v.freeCount > 0
  {
    v.(flags := v.flags[i := v.flags[i] | NONFREE], freeCount := v.freeCount - 1)
  }

  function Freed(v: ZoneFields, i: nat): ZoneFields
    requires i < |v.flags|
  {
    v.(flags := v.flags[i := v.flags[i] & !NONFREE], freeCount := v.freeCount + 1)
  }

  lemma RestoreMatches(v: ZoneFields, ring: seq<ListNode>, nodeOf: map<Page, ListNode>, s: State, p: Page)
    requires IsPage(s, p) && p in nodeOf && ZoneMatches(v, ring, nodeOf, s.zones[p.zone], p.zone)
    ensures p.index < |v.flags|
    ensures ZoneMatches(Freed(v, p.index), [nodeOf[p]] + ring, nodeOf, Restore(s, p, p.zone).zones[p.zone], p.zone)
  {
    HoldsLonger(nodeOf, ring, s.zones[p.zone].free, p);
    ClearFlag(v.flags, s.zones[p.zone].nonfree, p.index);
  }

  /** What taking page `p` out of its ring does to its zone object keeps the zone matching. */
  lemma TakeMatches(v: ZoneFields, ring: seq<ListNode>, nodeOf: map<Page, ListNode>, s: State, p: Page)
    requires IsPage(s, p) && p in s.zones[p.zone].free
    requires ZoneMatches(v, ring, nodeOf, s.zones[p.zone], p.zone)
    ensures v.freeCount > 0 && p.index < |v.flags| && IndexOf(s.zones[p.zone].free, p) < |ring|
    ensures ZoneMatches(Taken(v, p.index), Without(ring, IndexOf(s.zones[p.zone].free, p)), nodeOf,
                        Take(s, p, Held).zones[p.zone], p.zone)
  {
    HoldsWithout(nodeOf, ring, s.zones[p.zone].free, IndexOf(s.zones[p.zone].free, p));
    SetFlag(v.flags, s.zones[p.zone].nonfree, p.index);
  }

  /* ---- the objects' values and the model ---- */

  ghost predicate ZonesMatch(vs: seq<ZoneFields>, lists: map<ListNode, seq<ListNode>>, nodeOf: map<Page, ListNode>,
                             m: State) {
    && |vs| == |m.zones|
    && forall z :: 0 <= z < |vs| ==>
         vs[z].freePages in lists && ZoneMatches(vs[z], lists[vs[z].freePages], nodeOf, m.zones[z], z)
  }

  ghost predicate ListMatches(head: ListNode, lists: map<ListNode, seq<ListNode>>, nodeOf: map<Page, ListNode>,
                              l: nat, ps: seq<Page>) {
    head.owner == Head(l) && head in lists && Holds(nodeOf, lists[head], ps)
  }

  ghost predicate ListsMatch(heads: map<nat, ListNode>, lists: map<ListNode, seq<ListNode>>,
                             nodeOf: map<Page, ListNode>, m: State) {
    && heads.Keys == m.lists.Keys
    && forall l :: l in heads ==> ListMatches(heads[l], lists, nodeOf, l, m.lists[l])
  }

  /** A ring's head is that of a zone's free ring or of a caller's list. */
  ghost predicate KnownHead(h: ListNode, vs: seq<ZoneFields>, heads: map<nat, ListNode>) {
    match h.owner
    case FreeHead(z) => z < |vs| && h == vs[z].freePages
    case Head(l) => l in heads && h == heads[l]
    case PageOf(_, _) => false
  }

  /** The objects' values, with these rings, are what the model says they are. */
  ghost predicate AllMatches(vs: seq<ZoneFields>, heads: map<nat, ListNode>, lists: map<ListNode, seq<ListNode>>,
                             nodeOf: map<Page, ListNode>, m: State) {
    && nodeOf.Keys == m.place.Keys && Tagged(nodeOf)
    && ZonesMatch(vs, lists, nodeOf, m)
    && ListsMatch(heads, lists, nodeOf, m)
    && forall h :: h in lists ==> KnownHead(h, vs, heads)
  }

  /** The same, shut. */
  ghost predicate AllMatch(vs: seq<ZoneFields>, heads: map<nat, ListNode>, lists: map<ListNode, seq<ListNode>>,
                           nodeOf: map<Page, ListNode>, m: State) {
    forall k: nat :: Open(vs, k) ==> AllMatches(vs, heads, lists, nodeOf, m)
  }

  lemma OpenAllMatch(vs: seq<ZoneFields>, heads: map<nat, ListNode>, lists: map<ListNode, seq<ListNode>>,
                     nodeOf: map<Page, ListNode>, m: State)
    requires AllMatch(vs, heads, lists, nodeOf, m)
    ensures AllMatches(vs, heads, lists, nodeOf, m)
  {
    assert Open(vs, 0);
  }

  /** A page leaves its ring. */
  lemma TakeAllMatch(vs: seq<ZoneFields>, heads: map<nat, ListNode>, lists: map<ListNode, seq<ListNode>>,
                     nodeOf: map<Page, ListNode>, m: State, p: Page, v: ZoneFields, k: nat)
    requires AllMatch(vs, heads, lists, nodeOf, m) && IsPage(m, p) && p in m.zones[p.zone].free && p in nodeOf
    requires p.zone < |vs| && v == vs[p.zone] && k == IndexOf(m.zones[p.zone].free, p)
    ensures v.freePages in lists && k < |lists[v.freePages]| && v.freeCount > 0 && p.index < |v.flags|
    ensures AllMatch(vs[p.zone := Taken(v, p.index)], heads, lists[v.freePages := Without(lists[v.freePages], k)],
                     nodeOf, Take(m, p, Held))
  {
    OpenAllMatch(vs, heads, lists, nodeOf, m);
    TakeMatches(v, lists[v.freePages], nodeOf, m, p);
    OneZoneChanged(vs, heads, lists, lists[v.freePages := Without(lists[v.freePages], k)], nodeOf, m, Take(m, p, Held),
                   p.zone, Taken(v, p.index));
  }

  /** One zone object changes, with its ring and the model's zone. */
  lemma OneZoneChanged(vs: seq<ZoneFields>, heads: map<nat, ListNode>, lists: map<ListNode, seq<ListNode>>,
                       lists': map<ListNode, seq<ListNode>>, nodeOf: map<Page, ListNode>, m: State, r: State, z: nat,
                       v: ZoneFields)
    requires AllMatch(vs, heads, lists, nodeOf, m) && |vs| == |m.zones| && z < |vs| && v.freePages == vs[z].freePages
    requires v.freePages in lists' && lists' == lists[v.freePages := lists'[v.freePages]]
    requires r.lists == m.lists && r.place.Keys == m.place.Keys && |r.zones| == |m.zones|
    requires forall y :: 0 <= y < |m.zones| && y != z ==> r.zones[y] == m.zones[y]
    requires ZoneMatches(v, lists'[v.freePages], nodeOf, r.zones[z], z)
    ensures AllMatch(vs[z := v], heads, lists', nodeOf, r)
  {
    OpenAllMatch(vs, heads, lists, nodeOf, m);
    ListsElsewhere(vs, heads, lists, nodeOf, m, z);
    OtherZonesMatch(vs, lists, lists', nodeOf, m, r, z, v);
    SameListsMatch(heads, lists, lists', nodeOf, m, r, v.freePages);
    forall h | h in lists' ensures KnownHead(h, vs[z := v], heads) {
      assert KnownHead(h, vs, heads);
    }
  }

  lemma OtherZonesMatch(vs: seq<ZoneFields>, lists: map<ListNode, seq<ListNode>>, lists': map<ListNode, seq<ListNode>>,
                        nodeOf: map<Page, ListNode>, m: State, r: State, z: nat, v: ZoneFields)
    requires ZonesMatch(vs, lists, nodeOf, m) && z < |vs| && |r.zones| == |m.zones|
    requires v.freePages in lists' && lists' == lists[v.freePages := lists'[v.freePages]]
    requires forall y :: 0 <= y < |m.zones| && y != z ==> r.zones[y] == m.zones[y] && vs[y].freePages != v.freePages
    requires ZoneMatches(v, lists'[v.freePages], nodeOf, r.zones[z], z)
    ensures ZonesMatch(vs[z := v], lists', nodeOf, r)
  {
    var vs' := vs[z := v];
    forall y | 0 <= y < |vs'|
      ensures vs'[y].freePages in lists' && ZoneMatches(vs'[y], lists'[vs'[y].freePages], nodeOf, r.zones[y], y)
    {
      if y != z {
        assert vs'[y] == vs[y] && lists'[vs[y].freePages] == lists[vs[y].freePages];
      }
    }
  }

  lemma SameListsMatch(heads: map<nat, ListNode>, lists: map<ListNode, seq<ListNode>>,
                       lists': map<ListNode, seq<ListNode>>,
                       nodeOf: map<Page, ListNode>, m: State, r: State, h: ListNode)
    requires ListsMatch(heads, lists, nodeOf, m) && r.lists == m.lists
    requires h in lists' && lists' == lists[h := lists'[h]] && forall l :: l in heads ==> heads[l] != h
    ensures ListsMatch(heads, lists', nodeOf, r)
  {
    forall l | l in heads ensures ListMatches(heads[l], lists', nodeOf, l, r.lists[l]) {
      assert ListMatches(heads[l], lists, nodeOf, l, m.lists[l]);
    }
  }

  /** A free ring's head is no other list's. */
  lemma ListsElsewhere(vs: seq<ZoneFields>, heads: map<nat, ListNode>, lists: map<ListNode, seq<ListNode>>,
                       nodeOf: map<Page, ListNode>, m: State, z: nat)
    requires AllMatch(vs, heads, lists, nodeOf, m) && z < |vs|
    ensures forall l :: l in heads ==> heads[l] != vs[z].freePages
    ensures forall y :: 0 <= y < |vs| && y != z ==> vs[y].freePages != vs[z].freePages
  {
    OpenAllMatch(vs, heads, lists, nodeOf, m);
  }

  /** A page goes to the front of its ring. */
  lemma RestoreAllMatch(vs: seq<ZoneFields>, heads: map<nat, ListNode>, lists: map<ListNode, seq<ListNode>>,
                        nodeOf: map<Page, ListNode>, m: State, p: Page, v: ZoneFields)
    requires AllMatch(vs, heads, lists, nodeOf, m) && IsPage(m, p) && p in m.place && p in nodeOf
    requires p.zone < |vs| && v == vs[p.zone]
    ensures v.freePages in lists && p.index < |v.flags|
    ensures AllMatch(vs[p.zone := Freed(v, p.index)], heads, lists[v.freePages := [nodeOf[p]] + lists[v.freePages]],
                     nodeOf, Restore(m, p, p.zone))
  {
    OpenAllMatch(vs, heads, lists, nodeOf, m);
    RestoreMatches(v, lists[v.freePages], nodeOf, m, p);
    OneZoneChanged(vs, heads, lists, lists[v.freePages := [nodeOf[p]] + lists[v.freePages]], nodeOf, m,
                   Restore(m, p, p.zone), p.zone, Freed(v, p.index));
  }

  /** A page goes last on a list. */
  lemma HandAllMatch(vs: seq<ZoneFields>, heads: map<nat, ListNode>, lists: map<ListNode, seq<ListNode>>,
                     nodeOf: map<Page, ListNode>, m: State, p: Page, l: nat)
    requires AllMatch(vs, heads, lists, nodeOf, m) && p in nodeOf && p in m.place && l in heads
    ensures l in m.lists && heads[l] in lists
    ensures AllMatch(vs, heads, lists[heads[l] := lists[heads[l]] + [nodeOf[p]]], nodeOf, Hand(m, p, l))
  {
    OpenAllMatch(vs, heads, lists, nodeOf, m);
    assert ListMatches(heads[l], lists, nodeOf, l, m.lists[l]);
    HoldsLonger(nodeOf, lists[heads[l]], m.lists[l], p);
    OtherLists(vs, heads, lists, nodeOf, m, l);
  }

  lemma OtherLists(vs: seq<ZoneFields>, heads: map<nat, ListNode>, lists: map<ListNode, seq<ListNode>>,
                   nodeOf: map<Page, ListNode>, m: State, l: nat)
    requires AllMatch(vs, heads, lists, nodeOf, m) && l in heads
    ensures forall k :: k in heads && k != l ==> heads[k] != heads[l]
    ensures forall z :: 0 <= z < |vs| ==> vs[z].freePages != heads[l]
  {
    OpenAllMatch(vs, heads, lists, nodeOf, m);
    assert ListMatches(heads[l], lists, nodeOf, l, m.lists[l]);
  }

  /** The first page of a list leaves it. */
  lemma UnhandAllMatch(vs: seq<ZoneFields>, heads: map<nat, ListNode>, lists: map<ListNode, seq<ListNode>>,
                       nodeOf: map<Page, ListNode>, m: State, l: nat)
    requires AllMatch(vs, heads, lists, nodeOf, m) && l in heads && l in m.lists && m.lists[l] != []
    requires m.lists[l][0] in m.place
    ensures heads[l] in lists && lists[heads[l]] != []
    ensures AllMatch(vs, heads, lists[heads[l] := lists[heads[l]][1..]], nodeOf, Unhand(m, l, 0))
  {
    OpenAllMatch(vs, heads, lists, nodeOf, m);
    assert ListMatches(heads[l], lists, nodeOf, l, m.lists[l]);
    OtherLists(vs, heads, lists, nodeOf, m, l);
  }

  /** A page is given up. */
  lemma LostAllMatch(vs: seq<ZoneFields>, heads: map<nat, ListNode>, lists: map<ListNode, seq<ListNode>>,
                     nodeOf: map<Page, ListNode>, m: State, p: Page)
    requires AllMatch(vs, heads, lists, nodeOf, m) && p in m.place
    ensures AllMatch(vs, heads, lists, nodeOf, m.(place := m.place[p := Lost]))
  {
    OpenAllMatch(vs, heads, lists, nodeOf, m);
  }

  /** A list comes into being. */
  lemma NewListAllMatch(vs: seq<ZoneFields>, heads: map<nat, ListNode>, lists: map<ListNode, seq<ListNode>>,
                        nodeOf: map<Page, ListNode>, m: State, id: nat, list: ListNode)
    requires AllMatch(vs, heads, lists, nodeOf, m) && id !in m.lists && list.owner == Head(id) && list !in lists
    ensures AllMatch(vs, heads[id := list], lists[list := []], nodeOf, m.(lists := m.lists[id := []]))
  {
    OpenAllMatch(vs, heads, lists, nodeOf, m);
    assert id !in heads;
    var heads', lists', m' := heads[id := list], lists[list := []], m.(lists := m.lists[id := []]);
    forall l | l in heads' ensures ListMatches(heads'[l], lists', nodeOf, l, m'.lists[l]) {
      if l != id {
        assert ListMatches(heads[l], lists, nodeOf, l, m.lists[l]);
      }
    }
    forall h | h in lists' ensures KnownHead(h, vs, heads') {
      assert h != list ==> KnownHead(h, vs, heads);
    }
  }

  /** An empty list goes out of being. */
  lemma DropListAllMatch(vs: seq<ZoneFields>, heads: map<nat, ListNode>, lists: map<ListNode, seq<ListNode>>,
                         nodeOf: map<Page, ListNode>, m: State, id: nat)
    requires AllMatch(vs, heads, lists, nodeOf, m) && id in heads && id in m.lists
    ensures AllMatch(vs, heads - {id}, lists - {heads[id]}, nodeOf, m.(lists := m.lists - {id}))
  {
    OpenAllMatch(vs, heads, lists, nodeOf, m);
    OtherLists(vs, heads, lists, nodeOf, m, id);
    var heads', lists', m' := heads - {id}, lists - {heads[id]}, m.(lists := m.lists - {id});
    forall l | l in heads' ensures ListMatches(heads'[l], lists', nodeOf, l, m'.lists[l]) {
      assert ListMatches(heads[l], lists, nodeOf, l, m.lists[l]);
    }
  }

  /** A prepared zone joins, with the nodes of its pages. */
  lemma AddZoneAllMatch(vs: seq<ZoneFields>, heads: map<nat, ListNode>, lists: map<ListNode, seq<ListNode>>,
                        nodeOf: map<Page, ListNode>, m: State, v: ZoneFields, base: nat, size: nat)
    requires AllMatch(vs, heads, lists, nodeOf, m) && v.freePages !in lists
    requires RoomFor(m.brk, PAGE_STRUCT * (size / PAGE_SIZE)) && PreparedZone(v, m, base, size)
    requires forall p :: p in m.place ==> p.zone < |m.zones|
    ensures AllMatch(vs + [v], heads, lists[v.freePages := v.nodes], nodeOf + NewNodes(|m.zones|, v.nodes),
                     PmmOps.AddZone(m, base, size))
  {
    OpenAllMatch(vs, heads, lists, nodeOf, m);
    var nodeOf', lists' := nodeOf + NewNodes(|m.zones|, v.nodes), lists[v.freePages := v.nodes];
    var r := PmmOps.AddZone(m, base, size);
    AddZoneShape(m, base, size);
    assert Extends(nodeOf, nodeOf');
    assert nodeOf'.Keys == r.place.Keys;
    PreparedMatches(v, m, nodeOf, base, size);
    AddedZonesMatch(vs, lists, lists', nodeOf, nodeOf', m, r, v);
    AddedListsMatch(heads, lists, lists', nodeOf, nodeOf', m, r, v.freePages);
    forall h | h in lists' ensures KnownHead(h, vs + [v], heads) {
      assert h != v.freePages ==> KnownHead(h, vs, heads);
    }
  }

  lemma AddedZonesMatch(vs: seq<ZoneFields>, lists: map<ListNode, seq<ListNode>>, lists': map<ListNode, seq<ListNode>>,
                        nodeOf: map<Page, ListNode>, nodeOf': map<Page, ListNode>, m: State, r: State, v: ZoneFields)
    requires ZonesMatch(vs, lists, nodeOf, m) && Extends(nodeOf, nodeOf')
    requires v.freePages !in lists && lists' == lists[v.freePages := v.nodes]
    requires |r.zones| == |m.zones| + 1 && r.zones[..|m.zones|] == m.zones
    requires ZoneMatches(v, v.nodes, nodeOf', r.zones[|m.zones|], |m.zones|)
    ensures ZonesMatch(vs + [v], lists', nodeOf', r)
  {
    forall z | 0 <= z < |vs| ensures ZoneMatches(vs[z], lists'[vs[z].freePages], nodeOf', r.zones[z], z) {
      assert r.zones[z] == r.zones[..|m.zones|][z] == m.zones[z];
      MatchesMore(vs[z], lists[vs[z].freePages], nodeOf, nodeOf', m.zones[z], z);
    }
  }

  lemma AddedListsMatch(heads: map<nat, ListNode>, lists: map<ListNode, seq<ListNode>>,
                        lists': map<ListNode, seq<ListNode>>,
                        nodeOf: map<Page, ListNode>, nodeOf': map<Page, ListNode>, m: State, r: State, h: ListNode)
    requires ListsMatch(heads, lists, nodeOf, m) && Extends(nodeOf, nodeOf') && r.lists == m.lists
    requires h !in lists && h in lists' && lists' == lists[h := lists'[h]]
    ensures ListsMatch(heads, lists', nodeOf', r)
  {
    forall l | l in heads ensures ListMatches(heads[l], lists', nodeOf', l, r.lists[l]) {
      assert ListMatches(heads[l], lists, nodeOf, l, m.lists[l]);
      HoldsMore(nodeOf, nodeOf', lists[heads[l]], m.lists[l]);
    }
  }

  class Allocator {
    const rings: Rings
    const boot: BootAllocator
    var zones: seq<ZoneObject>

    ghost var heads: map<nat, ListNode>
    ghost var nodeOf: map<Page, ListNode>
    ghost var model: State

    /** The fields of the zone objects. */
    ghost function Values(): (vs: seq<ZoneFields>)
      reads this, zones
      ensures |vs| == |zones| && forall z :: 0 <= z < |zones| ==> vs[z] == zones[z].Fields()
    {
      seq(|zones|, z requires 0 <= z < |zones| reads this, zones => zones[z].Fields())
    }

    /** The objects, with these rings, are what the model says they are; shut. */
    ghost predicate Matched(lists: map<ListNode, seq<ListNode>>)
      reads this, zones
    {
      forall k: nat :: Open(lists, k) ==> AllMatch(Values(), heads, lists, nodeOf, model)
    }

    lemma OpenMatched(lists: map<ListNode, seq<ListNode>>)
      requires Matched(lists)
      ensures AllMatch(Values(), heads, lists, nodeOf, model) && |zones| == |model.zones|
    {
      assert Open(lists, 0);
      OpenAllMatch(Values(), heads, lists, nodeOf, model);
    }

    lemma LookInside(lists: map<ListNode, seq<ListNode>>)
      requires Matched(lists)
      ensures AllMatches(Values(), heads, lists, nodeOf, model) && |zones| == |model.zones|
    {
      OpenMatched(lists);
      OpenAllMatch(Values(), heads, lists, nodeOf, model);
    }

    lemma NowMatched(vs: seq<ZoneFields>, lists: map<ListNode, seq<ListNode>>)
      requires vs == Values() && AllMatch(vs, heads, lists, nodeOf, model)
      ensures Matched(lists)
    {
    }

    ghost predicate RingsShut()
      reads this, rings, rings.repr
    {
      forall k: nat :: Open(rings, k) ==> rings.Valid()
    }

    /** The rings are rings, the page nodes are theirs, and the objects match the model. */
    ghost predicate Linked()
      reads this, rings, rings.repr, zones
    {
      && RingsShut()
      && (forall p :: p in nodeOf ==> nodeOf[p] in rings.repr)
      && Matched(rings.lists)
    }

    lemma OpenRings()
      requires RingsShut()
      ensures rings.Valid()
    {
      assert Open(rings, 0);
    }

    ghost predicate Valid()
      reads this, rings, rings.repr, zones, boot
    {
      Linked() && Inv(model) && boot.bootAllocEnd == model.brk && |zones| == |model.zones|
    }

    constructor (boot: BootAllocator)
      ensures Valid() && model == EMPTY.(brk := boot.bootAllocEnd) && this.boot == boot
      ensures fresh(rings) && rings.repr == {}
      ensures heads == map[] && zones == []
    {
      this.boot := boot;
      rings := new Rings();
      zones := [];
      heads, nodeOf := map[], map[];
      model := EMPTY.(brk := boot.bootAllocEnd);
      new;
      EmptyInv(boot.bootAllocEnd);
    }

    /** Sets the page's flag and counts it out of its zone, whose ring it has just left. */
    method MarkTaken(zone: ZoneObject, i: nat, ghost p: Page, ghost lists: map<ListNode, seq<ListNode>>)
      requires Matched(lists) && IsPage(model, p) && p in model.zones[p.zone].free && p in nodeOf
      requires p.zone < |zones| && zone == zones[p.zone] && i == p.index
      modifies this`model, zone
      ensures model == Take(old(model), p, Held)
      ensures zone.freePages in lists && IndexOf(old(model).zones[p.zone].free, p) < |lists[zone.freePages]|
      ensures var k := IndexOf(old(model).zones[p.zone].free, p);
              Matched(lists[zone.freePages := Without(lists[zone.freePages], k)])
    {
      ghost var m, vs := model, Values();
      OpenMatched(lists);
      ghost var v, k := vs[p.zone], IndexOf(m.zones[p.zone].free, p);
      TakeAllMatch(vs, heads, lists, nodeOf, m, p, v, k);
      OneObjectEach(lists, p.zone);
      SetTaken(zone, i, p.zone);
      model := Take(m, p, Held);
      NowMatched(vs[p.zone := Taken(v, p.index)], lists[v.freePages := Without(lists[v.freePages], k)]);
    }

    /** The flag and the counter, as a page is taken and as it is freed. */
    method SetTaken(zone: ZoneObject, i: nat, ghost z: nat)
      requires z < |zones| && zone == zones[z] && forall y :: 0 <= y < |zones| && y != z ==> zones[y] != zone
      requires i < |zone.flags| && zone.freeCount > 0
      modifies zone
      ensures Values() == old(Values())[z := Taken(old(Values())[z], i)]
    {
      zone.flags := zone.flags[i := zone.flags[i] | NONFREE];
      zone.freeCount := zone.freeCount - 1;
    }

    method SetFreed(zone: ZoneObject, i: nat, ghost z: nat)
      requires z < |zones| && zone == zones[z] && forall y :: 0 <= y < |zones| && y != z ==> zones[y] != zone
      requires i < |zone.flags|
      modifies zone
      ensures Values() == old(Values())[z := Freed(old(Values())[z], i)]
    {
      zone.flags := zone.flags[i := zone.flags[i] & !NONFREE];
      zone.freeCount := zone.freeCount + 1;
    }

    /** No two entries of the zone list are one object. */
    lemma OneObjectEach(lists: map<ListNode, seq<ListNode>>, z: nat)
      requires Matched(lists) && z < |zones|
      ensures forall y :: 0 <= y < |zones| && y != z ==> zones[y] != zones[z]
    {
      LookInside(lists);
      ListsElsewhere(Values(), heads, lists, nodeOf, model, z);
    }

    /** The node of the `k`th free page of a zone. */
    lemma FreeNode(lists: map<ListNode, seq<ListNode>>, z: nat, k: nat)
      requires Matched(lists) && z < |zones| && z < |model.zones| && k < |model.zones[z].free|
      ensures zones[z].freePages in lists && k < |lists[zones[z].freePages]|
      ensures var p := model.zones[z].free[k];
              p in nodeOf && lists[zones[z].freePages][k] == nodeOf[p] && nodeOf[p].owner == PageOf(p.zone, p.index)
    {
      LookInside(lists);
    }

    lemma NodeTagged(p: Page)
      requires Linked() && p in nodeOf
      ensures nodeOf[p].owner == PageOf(p.zone, p.index)
    {
      LookInside(rings.lists);
    }

    lemma HeadListed(lists: map<ListNode, seq<ListNode>>, l: nat)
      requires Matched(lists) && l in heads
      ensures l in model.lists && heads[l] in lists
    {
      LookInside(lists);
      assert ListMatches(heads[l], lists, nodeOf, l, model.lists[l]);
    }

    /** Takes a free page out of its ring: unlink, set the flag, count down. */
    method TakeOut(zone: ZoneObject, node: ListNode, ghost p: Page)
      requires Linked() && IsPage(model, p) && p in model.zones[p.zone].free
      requires p.zone < |zones| && zone == zones[p.zone] && p in nodeOf && node == nodeOf[p]
      modifies this`model, rings, rings.repr, zone
      ensures Linked() && rings.repr == old(rings.repr)
      ensures model == Take(old(model), p, Held)
    {
      OpenRings();
      ghost var lists, k := rings.lists, IndexOf(model.zones[p.zone].free, p);
      FreeNode(lists, p.zone, k);
      rings.Delete(node, zone.freePages, k);
      MarkTaken(zone, node.owner.index, p, lists);
    }

    /** A page that is nowhere has a loose node. */
    lemma LooseIfNowhere(p: Page)
      requires Matched(rings.lists) && p in nodeOf && Nowhere(model, p)
      ensures rings.Loose(nodeOf[p])
    {
      LookInside(rings.lists);
      var n := nodeOf[p];
      forall h | h in rings.lists ensures n !in Nodes(h, rings.lists[h]) {
        match h.owner
        case FreeHead(z) =>
          HoldsNot(nodeOf, rings.lists[h], model.zones[z].free, p);
        case Head(l) =>
          assert ListMatches(heads[l], rings.lists, nodeOf, l, model.lists[l]);
          HoldsNot(nodeOf, rings.lists[h], model.lists[l], p);
        case PageOf(_, _) =>
      }
    }

    /** Records that a page in hand is now last on list `l`. */
    ghost method NoteHanded(p: Page, l: nat, lists: map<ListNode, seq<ListNode>>)
      requires Matched(lists) && p in nodeOf && p in model.place && l in heads
      modifies this`model
      ensures l in old(model).lists && model == Hand(old(model), p, l)
      ensures heads[l] in lists && Matched(lists[heads[l] := lists[heads[l]] + [nodeOf[p]]])
    {
      ghost var vs := Values();
      OpenMatched(lists);
      HandAllMatch(vs, heads, lists, nodeOf, model, p, l);
      model := Hand(model, p, l);
      NowMatched(vs, lists[heads[l] := lists[heads[l]] + [nodeOf[p]]]);
    }

    /** Puts a page that is in hand last on a caller's list. */
    method HandOver(list: ListNode, node: ListNode, ghost p: Page, ghost l: nat)
      requires Linked() && p in nodeOf && p in model.place && node == nodeOf[p] && Nowhere(model, p)
      requires l in heads && list == heads[l]
      modifies this`model, rings, rings.repr
      ensures Linked() && rings.repr == old(rings.repr)
      ensures l in old(model).lists && model == Hand(old(model), p, l)
    {
      OpenRings();
      ghost var lists := rings.lists;
      HeadListed(lists, l);
      LooseIfNowhere(p);
      rings.AddTail(list, node);
      NoteHanded(p, l, lists);
      assert rings.repr == old(rings.repr);
    }

    /** The step the allocation loops repeat: a free page goes last onto a caller's list. */
    method TakeOnto(zone: ZoneObject, node: ListNode, list: ListNode, ghost p: Page, ghost l: nat)
      requires Valid() && IsPage(model, p) && p in model.zones[p.zone].free
      requires p.zone < |zones| && zone == zones[p.zone] && p in nodeOf && node == nodeOf[p]
      requires l in heads && l in model.lists && list == heads[l]
      modifies this`model, rings, rings.repr, zone
      ensures Valid() && rings.repr == old(rings.repr)
      ensures model == Take(old(model), p, On(l))
    {
      ghost var m := model;
      TakeSound(m, p, l);
      TakeOut(zone, node, p);
      HandOver(list, node, p, l);
      TakeIsTwoMoves(m, p, l);
    }

    /** The first page of a zone's ring, when its count says there is one. */
    method FirstNode(zone: ZoneObject, ghost z: nat) returns (node: ListNode?, ghost p: Page)
      requires Valid() && z < |zones| && zone == zones[z]
      ensures z < |model.zones| && zone.freeCount == |model.zones[z].free|
      ensures node == null <==> model.zones[z].free == []
      ensures node != null ==>
                p == model.zones[z].free[0] && IsPage(model, p) && p.zone == z && p in model.zones[z].free
      ensures node != null ==> p in nodeOf && node == nodeOf[p]
    {
      OpenRings();
      LookInside(rings.lists);
      node := rings.PeekHead(zone.freePages);
      if node != null {
        FreeIsPage(model, z, 0);
        p := model.zones[z].free[0];
      } else {
        p := Page(0, 0);
      }
    }

    /** `pmm_alloc_page`.  The page is null when the source leaves its output unset. */
    method AllocPage() returns (status: Status, page: ListNode?, ghost p: Option<Page>)
      requires Valid()
      modifies this`model, rings, rings.repr, zones
      ensures Valid() && rings.repr == old(rings.repr)
      ensures status == NoError
      ensures Inv(old(model)) && (model, p) == PmmOps.AllocPage(old(model))
      ensures p.None? <==> page == null
      ensures p.Some? ==> p.value in nodeOf && page == nodeOf[p.value]
    {
      status, page, p := NoError, null, None;
      ghost var m := model;
      var z := FirstWithPages();
      if z < |zones| {
        var node;
        ghost var q;
        node, q := FirstNode(zones[z], z);
        AllocPageTakes(m, z, q);
        TakeSound(m, q, 0);
        TakeOut(zones[z], node, q);
        page, p := node, Some(q);
      } else {
        AllocPageFinds(m);
      }
    }

    /** The search of `pmm_alloc_page`: the first zone that counts free pages, or the end of the list. */
    method FirstWithPages() returns (z: nat)
      requires Valid()
      ensures z <= |zones| == |model.zones|
      ensures FirstFree(model, 0) == if z < |zones| then Some(z) else None
    {
      z := 0;
      while z < |zones|
        invariant z <= |zones| == |model.zones| && FirstFree(model, 0) == FirstFree(model, z)
      {
        var node;
        ghost var q;
        node, q := FirstNode(zones[z], z);
        if zones[z].freeCount > 0 {
          return;
        }
        z := z + 1;
      }
    }

    /** The inner loop of `pmm_alloc_pages`: takes pages of one zone while it has any. */
    method AllocFromZone(z: nat, count: nat, taken0: nat, list: ListNode, ghost l: nat, ghost target: State)
      returns (taken: nat)
      requires Valid() && z < |zones| && l in heads && l in model.lists && list == heads[l]
      requires taken0 <= count && Remains(model, z, count - taken0, l, target)
      modifies this`model, rings, rings.repr, zones[z]
      ensures Valid() && rings.repr == old(rings.repr) && l in model.lists
      ensures taken0 <= taken <= count && Remains(model, z + 1, count - taken, l, target)
      ensures |model.lists[l]| - taken == |old(model).lists[l]| - taken0
    {
      taken := taken0;
      while true
        invariant Valid() && rings.repr == old(rings.repr) && l in model.lists
        invariant taken0 <= taken <= count && Remains(model, z, count - taken, l, target)
        invariant |model.lists[l]| - taken == |old(model).lists[l]| - taken0
        decreases count - taken
      {
        var took := AllocOne(z, count - taken, list, l, target);
        if !took {
          return;
        }
        taken := taken + 1;
      }
    }

    /** The guard and the body of that loop. */
    method AllocOne(z: nat, want: nat, list: ListNode, ghost l: nat, ghost target: State) returns (took: bool)
      requires Valid() && z < |zones| && l in heads && l in model.lists && list == heads[l]
      requires Remains(model, z, want, l, target)
      modifies this`model, rings, rings.repr, zones[z]
      ensures Valid() && rings.repr == old(rings.repr) && l in model.lists
      ensures took ==>
                want > 0 && Remains(model, z, want - 1, l, target) && |model.lists[l]| == |old(model).lists[l]| + 1
      ensures !took ==> Remains(model, z + 1, want, l, target) && model == old(model)
    {
      var node;
      ghost var p;
      node, p := FirstNode(zones[z], z);
      took := want > 0 && zones[z].freeCount > 0;
      if took {
        AllocFromTake(model, z, want, l, p);
        RemainsIs(model, z, want, l, target);
        RemainsIs(Take(model, p, On(l)), z, want - 1, l, target);
        TakeOnto(zones[z], node, list, p, l);
      } else {
        AllocFromNext(model, z, want, l);
        RemainsIs(model, z, want, l, target);
        RemainsIs(model, z + 1, want, l, target);
      }
    }

    /** The general case of `pmm_alloc_pages`. */
    method AllocMany(count: nat, list: ListNode, ghost l: nat) returns (taken: nat)
      requires Valid() && l in heads && l in model.lists && list == heads[l]
      modifies this`model, rings, rings.repr, zones
      ensures Valid() && rings.repr == old(rings.repr)
      ensures model == AllocFrom(old(model), 0, count, l)
      ensures l in model.lists && |model.lists[l]| == |old(model).lists[l]| + taken
    {
      taken := 0;
      ghost var target := AllocFrom(model, 0, count, l);
      RemainsIs(model, 0, count, l, target);
      var z := 0;
      while z < |zones|
        invariant Valid() && rings.repr == old(rings.repr) && l in model.lists
        invariant z <= |zones| && taken <= count && Remains(model, z, count - taken, l, target)
        invariant |model.lists[l]| == |old(model).lists[l]| + taken
      {
        taken := AllocFromZone(z, count, taken, list, l, target);
        z := z + 1;
        if taken == count {
          break;
        }
      }
      assert taken == count || z == |model.zones|;
      NoneRemain(model, z, count - taken, l, target);
    }

    /** `pmm_alloc_pages`.  `stray` says that the call comes to link the page pointer which
        `pmm_alloc_page` left unset; the model stops there. */
    method AllocPages(count: nat, list: ListNode, ghost l: nat) returns (status: Status, taken: nat, stray: bool)
      requires Valid() && l in heads && l in model.lists && list == heads[l]
      modifies this`model, rings, rings.repr, zones
      ensures Valid() && rings.repr == old(rings.repr) && status == NoError
      ensures Inv(old(model)) && l in old(model).lists
      ensures stray <==> PmmOps.AllocPages(old(model), count, l).Stray?
      ensures !stray ==> PmmOps.AllocPages(old(model), count, l) == Done(model, taken)
      ensures stray ==> model == old(model)
    {
      ghost var m := model;
      status, taken, stray := NoError, 0, false;
      if count == 1 {
        var page;
        ghost var p;
        status, page, p := AllocPage();
        if page == null {
          stray := true;
        } else {
          OneInHand(m, p.value, l);
          HandOver(list, page, p.value, l);
          taken := 1;
        }
      } else if count != 0 {
        taken := AllocMany(count, list, l);
      }
    }

    /** The start of the page an address is in, by mask. */
    method PageStart(address: nat) returns (start: nat)
      requires address < TWO_64
      ensures start == PageBase(address) && start <= address
    {
      RoundPageDown(address);
      start := RoundDown(address, PAGE_SIZE);
    }

    /** `pmm_alloc_range`.  `stray` says that the call comes to read an entry past the end of a page
        array; the model stops there. */
    method AllocRange(address0: nat, count: nat, list: ListNode, ghost l: nat) returns (taken: nat, stray: bool)
      requires Valid() && l in heads && l in model.lists && list == heads[l]
      requires address0 < TWO_64
      modifies this`model, rings, rings.repr, zones
      ensures Valid() && rings.repr == old(rings.repr)
      ensures stray <==> OutOfArray(old(model), 0, PageBase(address0), count, l)
      ensures !stray ==> (model, taken) == RangeFrom(old(model), 0, PageBase(address0), count, l)
      ensures !stray ==> AtFrames(old(model), model, l, taken, address0 - address0 % 4096)
    {
      RangeAllAtFrames(model, address0, count, l);
      var address: nat := PageStart(address0);
      taken, stray := 0, false;
      if count == 0 {
        return;
      }
      ghost var target := RangeFrom(model, 0, address, count, l);
      ghost var out := OutOfArray(model, 0, address, count, l);
      RangeStarts(model, address, count, l);
      var z := 0;
      while z < |zones|
        invariant Valid() && rings.repr == old(rings.repr) && l in model.lists
        invariant z <= |zones| && taken <= count && address < TWO_64
        invariant RangeRemains(model, z, address, count - taken, l, taken, target, out)
      {
        address, taken, stray := RangeInZone(z, address, count, taken, list, l, target, out);
        if stray {
          return;
        }
        z := z + 1;
        if taken == count {
          break;
        }
      }
      RangeEnds(model, z, address, count - taken, l, taken, target, out);
    }

    /** The inner loop of `pmm_alloc_range`, in one zone. */
    method RangeInZone(z: nat, address0: nat, count: nat, taken0: nat, list: ListNode, ghost l: nat,
                       ghost target: (State, nat), ghost out: bool)
      returns (address: nat, taken: nat, stray: bool)
      requires Valid() && z < |zones| && l in heads && l in model.lists && list == heads[l]
      requires taken0 <= count && address0 < TWO_64
      requires RangeRemains(model, z, address0, count - taken0, l, taken0, target, out)
      modifies this`model, rings, rings.repr, zones[z]
      ensures Valid() && rings.repr == old(rings.repr) && l in model.lists
      ensures taken0 <= taken <= count && address < TWO_64
      ensures if stray then out else RangeRemains(model, z + 1, address, count - taken, l, taken, target, out)
    {
      address, taken, stray := address0, taken0, false;
      while taken < count
        invariant Valid() && rings.repr == old(rings.repr) && l in model.lists
        invariant taken0 <= taken <= count && address < TWO_64
        invariant RangeRemains(model, z, address, count - taken, l, taken, target, out)
        decreases count - taken
      {
        var step := RangeStep(z, address, count - taken, list, l, taken, target, out);
        match step
        case Passed => return;
        case OffTheEnd => stray := true; return;
        case Took =>
          taken := taken + 1;
          address := Add64(address, PAGE_SIZE);
      }
      RangeDoneHere(model, z, address, l, taken, target, out);
    }

    /** One round of that loop: the address is looked at, and its page taken if it is free. */
    method RangeStep(z: nat, address: nat, want: nat, list: ListNode, ghost l: nat, ghost taken: nat,
                     ghost target: (State, nat), ghost out: bool)
      returns (step: RangeOutcome)
      requires Valid() && z < |zones| && l in heads && l in model.lists && list == heads[l]
      requires want > 0 && address < TWO_64
      requires RangeRemains(model, z, address, want, l, taken, target, out)
      modifies this`model, rings, rings.repr, zones[z]
      ensures Valid() && rings.repr == old(rings.repr) && l in model.lists
      ensures match step
              case Passed => RangeRemains(model, z + 1, address, want, l, taken, target, out)
              case OffTheEnd => out
              case Took => RangeRemains(model, z, Add64(address, PAGE_SIZE), want - 1, l, taken + 1, target, out)
    {
      var free, beyond, node;
      ghost var p;
      free, beyond, node, p := FrameIsFree(z, address);
      if beyond {
        RangeIsOut(model, z, address, want, l, taken, target, out);
        step := OffTheEnd;
      } else if !free {
        RangePasses(model, z, address, want, l, taken, target, out);
        step := Passed;
      } else {
        RangeTakes(model, z, address, want, l, taken, target, out);
        TakeOnto(zones[z], node, list, p, l);
        step := Took;
      }
    }

    /** The two tests of that loop: the address is in the zone, and the page's flag is clear.  Before the
        flag is read, `beyond` says that the array has no such entry. */
    method FrameIsFree(z: nat, address: nat) returns (free: bool, beyond: bool, node: ListNode?, ghost p: Page)
      requires Valid() && z < |zones| && address < TWO_64
      ensures beyond <==> BeyondArray(address, model.zones[z])
      ensures free <==> FreeIn(model, z, address)
      ensures free ==> node != null && p == PageAt(z, address, model.zones[z]) && p in nodeOf && node == nodeOf[p]
      ensures free ==> IsPage(model, p) && p in model.zones[z].free && p.zone == z
    {
      LookInside(rings.lists);
      BelongsAsComputed(model, z, address);
      var zone := zones[z];
      free, beyond, node, p := false, false, null, Page(0, 0);
      if zone.base <= address <= Sub64(Add64(zone.base, zone.size), 1) {
        var index := (address - zone.base) / PAGE_SIZE;
        if index >= |zone.flags| {
          beyond := true;
          BeyondIsNotFreeIn(model, z, address);
        } else {
          FreeInIsFlag(model, z, address);
          if zone.flags[index] & NONFREE == 0 {
            free, node, p := true, zone.nodes[index], Page(z, index);
          }
        }
      }
    }

    /** Records that the first page of list `l` has been taken in hand. */
    ghost method NoteUnhanded(l: nat, lists: map<ListNode, seq<ListNode>>)
      requires Matched(lists) && l in heads && l in model.lists && model.lists[l] != []
      requires model.lists[l][0] in model.place
      modifies this`model
      ensures model == Unhand(old(model), l, 0)
      ensures heads[l] in lists && lists[heads[l]] != [] && Matched(lists[heads[l] := lists[heads[l]][1..]])
    {
      ghost var vs := Values();
      OpenMatched(lists);
      UnhandAllMatch(vs, heads, lists, nodeOf, model, l);
      model := Unhand(model, l, 0);
      NowMatched(vs, lists[heads[l] := lists[heads[l]][1..]]);
    }

    lemma HeadsAreLists()
      requires Matched(rings.lists)
      ensures heads.Keys == model.lists.Keys
    {
      LookInside(rings.lists);
    }

    /** What the head and the first node of a list are. */
    lemma FirstListed(lists: map<ListNode, seq<ListNode>>, l: nat)
      requires Matched(lists) && l in heads
      ensures l in model.lists && heads[l] in lists && |lists[heads[l]]| == |model.lists[l]|
      ensures model.lists[l] != [] ==>
                var p := model.lists[l][0];
                && p in nodeOf && p in model.place && lists[heads[l]][0] == nodeOf[p]
                && nodeOf[p].owner == PageOf(p.zone, p.index)
    {
      LookInside(lists);
      assert ListMatches(heads[l], lists, nodeOf, l, model.lists[l]);
    }

    /** `list_remove_head` of a caller's list that is not empty. */
    method Unlist(head: ListNode, ghost l: nat) returns (node: ListNode, ghost p: Page)
      requires Linked() && l in heads && l in model.lists && head == heads[l] && model.lists[l] != []
      modifies this`model, rings, rings.repr
      ensures Linked() && rings.repr == old(rings.repr) && model == Unhand(old(model), l, 0)
      ensures p == old(model).lists[l][0] && p in nodeOf && p in model.place && node == nodeOf[p]
      ensures node.owner == PageOf(p.zone, p.index)
    {
      OpenRings();
      ghost var lists := rings.lists;
      FirstListed(lists, l);
      p := model.lists[l][0];
      var item := rings.RemoveHead(head);
      node := item;
      NoteUnhanded(l, lists);
    }

    /** Clears the flag of a page and counts it into its zone, whose ring it is about to lead. */
    method MarkFree(zone: ZoneObject, i: nat, ghost p: Page, ghost lists: map<ListNode, seq<ListNode>>)
      requires Matched(lists) && IsPage(model, p) && p in nodeOf && p in model.place
      requires p.zone < |zones| && zone == zones[p.zone] && i == p.index
      modifies this`model, zone
      ensures model == Restore(old(model), p, p.zone)
      ensures zone.freePages in lists && Matched(lists[zone.freePages := [nodeOf[p]] + lists[zone.freePages]])
    {
      ghost var m, vs := model, Values();
      OpenMatched(lists);
      ghost var v := vs[p.zone];
      RestoreAllMatch(vs, heads, lists, nodeOf, m, p, v);
      OneObjectEach(lists, p.zone);
      SetFreed(zone, i, p.zone);
      model := Restore(m, p, p.zone);
      NowMatched(vs[p.zone := Freed(v, p.index)], lists[v.freePages := [nodeOf[p]] + lists[v.freePages]]);
    }

    lemma ZoneRing(lists: map<ListNode, seq<ListNode>>, z: nat)
      requires Matched(lists) && z < |zones| && z < |model.zones|
      ensures zones[z].freePages in lists
      ensures zones[z].pageArray == model.zones[z].arrayAt
      ensures zones[z].base == model.zones[z].base && zones[z].size == model.zones[z].size
    {
      LookInside(lists);
    }

    /** Puts a page that is in hand back: clear the flag, link it first, count up. */
    method PutBack(zone: ZoneObject, node: ListNode, ghost p: Page)
      requires Linked() && IsPage(model, p) && p in nodeOf && p in model.place && node == nodeOf[p] && Nowhere(model, p)
      requires p.zone < |zones| && zone == zones[p.zone] && node.owner == PageOf(p.zone, p.index)
      modifies this`model, rings, rings.repr, zone
      ensures Linked() && rings.repr == old(rings.repr) && model == Restore(old(model), p, p.zone)
    {
      OpenRings();
      ghost var lists := rings.lists;
      ZoneRing(lists, p.zone);
      LooseIfNowhere(p);
      rings.Add(zone.freePages, node);
      MarkFree(zone, node.owner.index, p, lists);
      assert rings.repr == old(rings.repr);
    }

    /** Records that a page in hand has been given up. */
    ghost method NoteLost(p: Page)
      requires Linked() && p in model.place
      modifies this`model
      ensures Linked() && model == old(model).(place := old(model).place[p := Lost])
    {
      ghost var vs := Values();
      OpenMatched(rings.lists);
      LostAllMatch(vs, heads, rings.lists, nodeOf, model, p);
      model := model.(place := model.place[p := Lost]);
      NowMatched(vs, rings.lists);
    }

    /** The search for the zone whose window holds the page, in list order. */
    method FindHome(node: ListNode, ghost p: Page) returns (h: Option<nat>)
      requires Linked() && |zones| == |model.zones| && IsPage(model, p)
      requires node.owner == PageOf(p.zone, p.index)
      ensures h == Home(model, p)
    {
      ZoneRing(rings.lists, p.zone);
      var pageaddr := zones[node.owner.zone].pageArray + PAGE_STRUCT * node.owner.index;
      h := None;
      for z := 0 to |zones|
        invariant WindowZone(model.zones, pageaddr, z) == Home(model, p)
      {
        ZoneRing(rings.lists, z);
        if zones[z].pageArray <= pageaddr < zones[z].pageArray + zones[z].size / PAGE_SIZE {
          return Some(z);
        }
      }
    }

    /** `vm_page_to_paddr` */
    method PageToPaddr(node: ListNode, ghost p: Page) returns (pa: Quad)
      requires Linked() && |zones| == |model.zones| && IsPage(model, p)
      requires node.owner == PageOf(p.zone, p.index)
      ensures pa == VmPageToPaddr(model, p)
    {
      var h := FindHome(node, p);
      match h
      case None => pa := TWO_64 - 1;
      case Some(z) =>
        ZoneRing(rings.lists, p.zone);
        ZoneRing(rings.lists, z);
        var pageaddr := zones[node.owner.zone].pageArray + PAGE_STRUCT * node.owner.index;
        pa := ((pageaddr - zones[z].pageArray) / PAGE_STRUCT * PAGE_SIZE + zones[z].base) % TWO_64;
    }

    /** One round of `pmm_free_pages`. */
    method FreeOne(head: ListNode, ghost l: nat) returns (n: nat)
      requires Valid() && l in heads && l in model.lists && head == heads[l] && model.lists[l] != []
      modifies this`model, rings, rings.repr, zones
      ensures Valid() && rings.repr == old(rings.repr)
      ensures IsPage(old(model), old(model).lists[l][0]) && model == FreeFirst(old(model), l)
      ensures n == HomeCount(old(model), old(model).lists[l][0])
    {
      ghost var m := model;
      FreeFirstInv(m, l);
      FirstOfFreed(m, l);
      var node;
      ghost var p;
      node, p := Unlist(head, l);
      var h := FindHome(node, p);
      assert Home(model, p) == Home(m, p);
      if h.Some? {
        PutBack(zones[h.value], node, p);
        n := 1;
      } else {
        NoteLost(p);
        n := 0;
      }
    }

    /** That round, and what remains to be freed after it. */
    method FreeRound(head: ListNode, ghost l: nat, count0: nat, ghost target: (State, nat)) returns (count: nat)
      requires Valid() && l in heads && l in model.lists && head == heads[l] && model.lists[l] != []
      requires AddCount(FreeAll(model, l), count0) == target
      modifies this`model, rings, rings.repr, zones
      ensures Valid() && rings.repr == old(rings.repr) && l in model.lists
      ensures AddCount(FreeAll(model, l), count) == target && |model.lists[l]| < |old(model).lists[l]|
    {
      FreeAllOnce(model, l);
      var n := FreeOne(head, l);
      count := count0 + n;
    }

    /** `pmm_free_pages` */
    method FreePages(head: ListNode, ghost l: nat) returns (count: nat)
      requires Valid() && l in heads && l in model.lists && head == heads[l]
      modifies this`model, rings, rings.repr, zones
      ensures Valid() && rings.repr == old(rings.repr)
      ensures (model, count) == FreeAll(old(model), l)
      ensures l in model.lists && model.lists[l] == []
    {
      count := 0;
      ghost var target := FreeAll(model, l);
      while true
        invariant Valid() && rings.repr == old(rings.repr) && l in model.lists
        invariant AddCount(FreeAll(model, l), count) == target
        decreases |model.lists[l]|
      {
        var empty := ListIsEmpty(head, l);
        if empty {
          return;
        }
        count := FreeRound(head, l, count, target);
      }
    }

    method ListIsEmpty(head: ListNode, ghost l: nat) returns (empty: bool)
      requires Linked() && l in heads && head == heads[l]
      ensures l in model.lists && (empty <==> model.lists[l] == [])
    {
      OpenRings();
      FirstListed(rings.lists, l);
      empty := rings.IsEmpty(head);
    }

    /** A caller's list comes into being: `list_init` of a head of its own. */
    method NewList(id: nat) returns (list: ListNode)
      requires Valid() && id !in model.lists
      modifies this`model, this`heads, rings
      ensures Valid() && fresh(list) && rings.repr == old(rings.repr) + {list}
      ensures heads == old(heads)[id := list] && model == old(model).(lists := old(model).lists[id := []])
    {
      ghost var lists := rings.lists;
      NewListInv(model, id);
      list := NewHead(Head(id));
      NoteList(id, list, lists);
    }

    /** A list head that nothing else uses, initialised. */
    method NewHead(owner: Owner) returns (list: ListNode)
      requires RingsShut()
      modifies rings
      ensures RingsShut() && fresh(list) && list.owner == owner && list !in old(rings.lists)
      ensures rings.lists == old(rings.lists)[list := []] && rings.repr == old(rings.repr) + {list}
    {
      OpenRings();
      list := new ListNode(owner);
      assert rings.Loose(list);
      rings.Init(list);
    }

    ghost method NoteList(id: nat, list: ListNode, lists: map<ListNode, seq<ListNode>>)
      requires Matched(lists) && id !in model.lists && list.owner == Head(id) && list !in lists
      modifies this`model, this`heads
      ensures heads == old(heads)[id := list] && model == old(model).(lists := old(model).lists[id := []])
      ensures Matched(lists[list := []])
    {
      ghost var vs := Values();
      OpenMatched(lists);
      NewListAllMatch(vs, heads, lists, nodeOf, model, id, list);
      model := model.(lists := model.lists[id := []]);
      heads := heads[id := list];
      NowMatched(vs, lists[list := []]);
    }

    /** A list head goes out of scope, with its list empty. */
    ghost method DropList(id: nat)
      requires Valid() && id in heads && id in model.lists && model.lists[id] == []
      modifies this`model, this`heads, rings
      ensures Valid() && rings.repr == old(rings.repr)
      ensures heads == old(heads) - {id} && model == old(model).(lists := old(model).lists - {id})
    {
      OpenRings();
      var lists, list := rings.lists, heads[id];
      FirstListed(lists, id);
      DropListInv(model, id);
      rings.Forget(list);
      NoteDropped(id, lists);
    }

    ghost method NoteDropped(id: nat, lists: map<ListNode, seq<ListNode>>)
      requires Matched(lists) && id in heads && id in model.lists && model.lists[id] == []
      modifies this`model, this`heads
      ensures heads == old(heads) - {id} && model == old(model).(lists := old(model).lists - {id})
      ensures Matched(lists - {old(heads)[id]})
    {
      ghost var vs, list := Values(), heads[id];
      OpenMatched(lists);
      DropListAllMatch(vs, heads, lists, nodeOf, model, id);
      model := model.(lists := model.lists - {id});
      heads := heads - {id};
      NowMatched(vs, lists - {list});
    }

    /** `list_add` of a page in hand to a list that is empty. */
    method HandOverFirst(list: ListNode, node: ListNode, ghost p: Page, ghost l: nat)
      requires Linked() && p in nodeOf && p in model.place && node == nodeOf[p] && Nowhere(model, p)
      requires l in heads && l in model.lists && list == heads[l] && model.lists[l] == []
      modifies this`model, rings, rings.repr
      ensures Linked() && rings.repr == old(rings.repr)
      ensures l in old(model).lists && model == Hand(old(model), p, l)
    {
      OpenRings();
      ghost var lists := rings.lists;
      FirstListed(lists, l);
      LooseIfNowhere(p);
      rings.Add(list, node);
      assert [node] + lists[list] == lists[list] + [node];
      NoteHanded(p, l, lists);
      assert rings.repr == old(rings.repr);
    }

    /** The list that `pmm_free_page` makes on its stack, holding the one page. */
    method ListAlone(node: ListNode, tmp: nat, ghost p: Page) returns (list: ListNode)
      requires Valid() && tmp !in model.lists && p in model.place && model.place[p] == Held
      requires p in nodeOf && node == nodeOf[p]
      modifies this`model, this`heads, rings, rings.repr
      ensures Valid() && model == Listed(old(model), p, tmp)
      ensures fresh(rings.repr - old(rings.repr)) && tmp !in old(heads) && heads == old(heads)[tmp := list]
    {
      HeadsAreLists();
      HeldThenListed(model, p, tmp);
      ListedIsHanded(model, p, tmp);
      list := NewList(tmp);
      HandOverFirst(list, node, p, tmp);
    }

    /** `pmm_free_page`.  `tmp` names the list head the source keeps on its stack. */
    method FreePage(node: ListNode, tmp: nat, ghost p: Page) returns (count: nat)
      requires Valid() && tmp !in model.lists && p in model.place && model.place[p] == Held
      requires p in nodeOf && node == nodeOf[p]
      modifies this`model, this`heads, rings, rings.repr, zones
      ensures Valid() && heads == old(heads) && fresh(rings.repr - old(rings.repr))
      ensures Inv(old(model)) && IsPage(old(model), p)
      ensures (model, count) == PmmOps.FreePage(old(model), p, tmp)
    {
      HeldIsPage(model, p);
      var list := ListAlone(node, tmp, p);
      PutAndRemoved(old(heads), tmp, list);
      count := FreePages(list, tmp);
      DropList(tmp);
    }

    /** One entry of a new page array: its node goes last on the zone's free ring. */
    method AddNewPage(head: ListNode, z: nat, nodes: seq<ListNode>) returns (more: seq<ListNode>)
      requires RingsShut() && head in rings.lists && rings.lists[head] == nodes
      modifies rings, rings.repr
      ensures RingsShut() && |more| == |nodes| + 1 && more[..|nodes|] == nodes
      ensures more[|nodes|].owner == PageOf(z, |nodes|) && more[|nodes|] in rings.repr
      ensures rings.lists == old(rings.lists)[head := more]
      ensures old(rings.repr) <= rings.repr && fresh(rings.repr - old(rings.repr))
    {
      OpenRings();
      var node := new ListNode(PageOf(z, |nodes|));
      assert rings.Loose(node);
      rings.AddTail(head, node);
      more := nodes + [node];
    }

    /** The new zone's free ring: its pages' nodes, one after the other. */
    method NewFreeRing(z: nat, frameCount: nat) returns (head: ListNode, nodes: seq<ListNode>, count: nat)
      requires RingsShut()
      modifies rings, rings.repr
      ensures RingsShut() && head.owner == FreeHead(z) && |nodes| == frameCount == count
      ensures forall i :: 0 <= i < frameCount ==> nodes[i].owner == PageOf(z, i) && nodes[i] in rings.repr
      ensures head !in old(rings.lists) && rings.lists == old(rings.lists)[head := nodes]
      ensures old(rings.repr) <= rings.repr && fresh(rings.repr - old(rings.repr))
    {
      ghost var lists := rings.lists;
      head := NewHead(FreeHead(z));
      nodes, count := [], 0;
      while count < frameCount
        invariant RingsShut() && count <= frameCount && |nodes| == count
        invariant forall i :: 0 <= i < count ==> nodes[i].owner == PageOf(z, i) && nodes[i] in rings.repr
        invariant rings.lists == lists[head := nodes]
        invariant old(rings.repr) <= rings.repr && fresh(rings.repr - old(rings.repr))
      {
        nodes := AddNewPage(head, z, nodes);
        count := count + 1;
      }
    }

    /** The zone's page array, zeroed, and its free ring. */
    method PrepareZone(base: nat, size: nat) returns (zone: ZoneObject)
      requires RingsShut() && size < TWO_64 && |zones| == |model.zones|
      requires boot.bootAllocEnd == model.brk && RoomFor(model.brk, PAGE_STRUCT * (size / PAGE_SIZE))
      modifies boot, rings, rings.repr
      ensures RingsShut() && fresh(zone) && PreparedZone(zone.Fields(), model, base, size)
      ensures boot.bootAllocEnd == BallocEnd(model.brk, PAGE_STRUCT * (size / PAGE_SIZE))
      ensures zone.freePages !in old(rings.lists) && rings.lists == old(rings.lists)[zone.freePages := zone.nodes]
      ensures forall n :: n in zone.nodes ==> n in rings.repr
      ensures old(rings.repr) <= rings.repr && fresh(rings.repr - old(rings.repr))
    {
      var frameCount := size / PAGE_SIZE;
      var head, nodes, count := NewFreeRing(|zones|, frameCount);
      zone := FillZone(base, size, head, nodes, count);
      IsPrepared(zone.Fields(), model, base, size, head, nodes);
    }

    /** The zone object with its page array, on a free ring that is ready. */
    method FillZone(base: nat, size: nat, head: ListNode, nodes: seq<ListNode>, count: nat) returns (zone: ZoneObject)
      requires boot.bootAllocEnd < TWO_64 && PAGE_STRUCT * count < TWO_64
      modifies boot
      ensures fresh(zone) && boot.bootAllocEnd == BallocEnd(old(boot.bootAllocEnd), PAGE_STRUCT * count)
      ensures zone.Fields()
           == ZoneFields(base, size, head, BallocAt(old(boot.bootAllocEnd)), count, seq(count, _ => 0), nodes)
    {
      zone := new ZoneObject(base, size, head);
      zone.pageArray := boot.Balloc(PAGE_STRUCT * count);
      zone.nodes, zone.flags := nodes, seq(count, _ => 0);
      zone.freeCount := count;
    }

    /** `list_add_tail` of a prepared zone to the zone list. */
    method LinkZone(zone: ZoneObject, ghost base: nat, ghost size: nat, ghost lists: map<ListNode, seq<ListNode>>)
      requires Matched(lists) && |zones| == |model.zones| && zone.freePages !in lists
      requires RoomFor(model.brk, PAGE_STRUCT * (size / PAGE_SIZE))
      requires forall p :: p in model.place ==> p.zone < |model.zones|
      requires PreparedZone(zone.Fields(), model, base, size)
      modifies this`zones, this`model, this`nodeOf
      ensures zones == old(zones) + [zone] && model == PmmOps.AddZone(old(model), base, size)
      ensures Matched(lists[zone.freePages := zone.nodes])
      ensures forall p :: p in nodeOf ==> (p in old(nodeOf) && nodeOf[p] == old(nodeOf)[p]) || nodeOf[p] in zone.nodes
    {
      ghost var m, vs, was := model, Values(), nodeOf;
      OpenMatched(lists);
      AddZoneAllMatch(vs, heads, lists, was, m, zone.Fields(), base, size);
      zones := zones + [zone];
      model := PmmOps.AddZone(m, base, size);
      nodeOf := was + NewNodes(|m.zones|, zone.nodes);
      assert Values() == vs + [zone.Fields()];
    }

    /** `pmm_add_zone` of a zone at `base` of `size` bytes. */
    method AddZone(base: nat, size: nat) returns (status: Status)
      requires Valid()
      requires size > 0 ==>
        && base + size <= TWO_64 && size < TWO_64 && size / PAGE_SIZE < TWO_32
        && RoomFor(model.brk, PAGE_STRUCT * (size / PAGE_SIZE))
      modifies this, boot, rings, rings.repr
      ensures Valid() && heads == old(heads) && fresh(rings.repr - old(rings.repr))
      ensures status == if size == 0 then InvalidArgs else NoError
      ensures if size == 0 then model == old(model) && zones == old(zones)
              else model == PmmOps.AddZone(old(model), base, size) && |zones| == |old(zones)| + 1 && old(zones) < zones
    {
      if !(size > 0) {
        return InvalidArgs;
      }
      status := NoError;
      ghost var m, lists := model, rings.lists;
      AddZoneSound(m, base, size);
      OpenRings();
      var zone := PrepareZone(base, size);
      LinkZone(zone, base, size, lists);
    }
  }
}
