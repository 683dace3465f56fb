/** The page allocator's state, and what each of its operations does to it. */
module PmmModel {
  import opened Bits
  import opened Sequences

  const PAGE_SIZE: nat := 4096
  /** Size of `vm_page_t`: two pointers and a flag byte, padded to the pointers' alignment. */
  const PAGE_STRUCT: nat := 24

  datatype Option<T> = None | Some(value: T)

  datatype Status = NoError | InvalidArgs

  datatype Page = Page(zone: nat, index: nat)

  /** Where a page is: in its zone's free ring, on a caller's list, handed out singly, or given up
      by `pmm_free_pages`, which found no zone for it. */
  datatype Place = InFree | On(list: nat) | Held | Lost

  datatype Zone = Zone(base: nat, size: nat, arrayAt: nat, free: seq<Page>, nonfree: seq<bool>) {
    /** `ZONE_FRAME_COUNT` */
    function Frames(): nat { size / PAGE_SIZE }
  }

  /** The zones in list order, the callers' lists, the place of every page, and `boot_alloc_end`. */
  datatype State = State(zones: seq<Zone>, lists: map<nat, seq<Page>>, place: map<Page, Place>, brk: nat)

  /** As `Open`, for what is known of a loop that stands at zone `z` with `want` pages to go. */
  ghost predicate OpenLoop(s: State, z: int, want: int, k: nat) {
    true
  }

  ghost predicate IsPage(s: State, p: Page) {
    p.zone < |s.zones| && p.index < |s.zones[p.zone].nonfree|
  }

  /** One zone's own bookkeeping: the ring holds, once each, the zone's pages with a clear flag. */
  ghost predicate ZoneOk(s: State, z: nat)
    requires z < |s.zones|
  {
    var zone := s.zones[z];
    && zone.size > 0 && zone.base + zone.size <= TWO_64 && zone.size < TWO_64
    && |zone.nonfree| == zone.Frames()
    && Distinct(zone.free)
    && (forall p :: p in zone.free <==> p in s.place && p.zone == z && s.place[p] == InFree)
  }

  ghost predicate ListOk(s: State, l: nat)
    requires l in s.lists
  {
    && Distinct(s.lists[l])
    && (forall p :: p in s.lists[l] <==> p in s.place && s.place[p] == On(l))
  }

  ghost predicate PagesOk(s: State) {
    && (forall p :: p in s.place <==> IsPage(s, p))
    && (forall p :: p in s.place ==> (s.zones[p.zone].nonfree[p.index] <==> s.place[p] != InFree))
    && (forall p :: p in s.place && s.place[p].On? ==> s.place[p].list in s.lists)
  }

  /** The page arrays are aligned, lie one after the other, and end below the next allocation. */
  ghost predicate ArraysOk(s: State) {
    && (forall z :: 0 <= z < |s.zones| ==> s.zones[z].arrayAt % 8 == 0 && ArrayEnd(s.zones[z]) <= s.brk)
    && (forall y, z :: 0 <= y < z < |s.zones| ==> ArrayEnd(s.zones[y]) <= s.zones[z].arrayAt)
  }

  function ArrayEnd(zone: Zone): nat {
    zone.arrayAt + PAGE_STRUCT * |zone.nonfree|
  }

  /** What holds in every reachable state, written out. */
  ghost predicate Laws(s: State) {
    && PagesOk(s)
    && ArraysOk(s)
    && (forall z :: 0 <= z < |s.zones| ==> ZoneOk(s, z))
    && (forall l :: l in s.lists ==> ListOk(s, l))
  }

  /** The invariant: what holds in every reachable state; shut. */
  ghost predicate Inv(s: State) {
    forall k: nat :: Open(s, k) ==> Laws(s)
  }

  lemma InvLaws(s: State)
    requires Inv(s)
    ensures Laws(s)
  {
    assert Open(s, 0);
  }

  const EMPTY: State := State([], map[], map[], 0)

  lemma EmptyInv(brk: nat)
    ensures Inv(EMPTY.(brk := brk))
  {
  }

  /** Two zones of one page each, their page arrays one after the other, and an empty list. */
  function TwoPages(base0: nat, base1: nat, at: nat): State {
    State([Zone(base0, PAGE_SIZE, at, [Page(0, 0)], [false]),
           Zone(base1, PAGE_SIZE, at + PAGE_STRUCT, [Page(1, 0)], [false])],
          map[0 := []], map[Page(0, 0) := InFree, Page(1, 0) := InFree], at + 2 * PAGE_STRUCT)
  }

  lemma TwoPagesInv(base0: nat, base1: nat, at: nat)
    requires base0 + PAGE_SIZE <= TWO_64 && base1 + PAGE_SIZE <= TWO_64 && at % 8 == 0
    ensures Inv(TwoPages(base0, base1, at))
  {
    var s := TwoPages(base0, base1, at);
    forall p ensures p in s.place <==> IsPage(s, p) {
      assert p.zone < 2 && p.index < 1 ==> p == Page(0, 0) || p == Page(1, 0);
    }
    assert ZoneOk(s, 0) && ZoneOk(s, 1);
  }

  /** A page is in exactly one place, and that is its own zone's ring, one caller's list, or neither:
      a page in a caller's hand or given up is in no ring and on no list. */
  lemma PagesArePartitioned(s: State, p: Page)
    requires Inv(s) && IsPage(s, p)
    ensures p in s.place
    ensures forall z :: 0 <= z < |s.zones| && p in s.zones[z].free ==> z == p.zone
    ensures forall l :: l in s.lists && p in s.lists[l] ==> p !in s.zones[p.zone].free
    ensures forall l, m :: l in s.lists && m in s.lists && p in s.lists[l] && p in s.lists[m] ==> l == m
    ensures s.zones[p.zone].nonfree[p.index] <==> p !in s.zones[p.zone].free
    ensures p in s.zones[p.zone].free <==> s.place[p] == InFree
    ensures forall l :: l in s.lists ==> (p in s.lists[l] <==> s.place[p] == On(l))
    ensures s.place[p].On? ==> s.place[p].list in s.lists
  {
    InvLaws(s);
    assert ZoneOk(s, p.zone);
    forall z | 0 <= z < |s.zones| && p in s.zones[z].free ensures z == p.zone {
      assert ZoneOk(s, z);
    }
    forall l | l in s.lists ensures p in s.lists[l] <==> s.place[p] == On(l) {
      assert ListOk(s, l);
    }
  }

  /* ---- one page moves ---- */

  function IndexOf(t: seq<Page>, p: Page): (k: nat)
    requires p in t
    ensures k < |t| && t[k] == p
  {
    if t[0] == p then 0 else 1 + IndexOf(t[1..], p)
  }

  /** A free page leaves its ring, its flag is set, and it goes to `dest`; onto a list, last. */
  function Take(s: State, p: Page, dest: Place): State
    requires IsPage(s, p) && p in s.zones[p.zone].free
    requires dest.On? ==> dest.list in s.lists
  {
    var zone := s.zones[p.zone];
    var zone' := zone.(free := Without(zone.free, IndexOf(zone.free, p)), nonfree := zone.nonfree[p.index := true]);
    var lists' := if dest.On? then s.lists[dest.list := s.lists[dest.list] + [p]] else s.lists;
    State(s.zones[p.zone := zone'], lists', s.place[p := dest], s.brk)
  }

  lemma WithoutMembers(t: seq<Page>, k: nat)
    requires Distinct(t) && k < |t|
    ensures Distinct(Without(t, k))
    ensures forall p :: p in Without(t, k) <==> p in t && p != t[k]
  {
    forall p | p in t && p != t[k] ensures p in Without(t, k) {
      var j :| 0 <= j < |t| && t[j] == p;
      assert if j < k then Without(t, k)[j] == p else Without(t, k)[j - 1] == p;
    }
    forall p | p in Without(t, k) ensures p in t && p != t[k] {
      var j :| 0 <= j < |t| - 1 && Without(t, k)[j] == p;
      assert p == if j < k then t[j] else t[j + 1];
    }
  }

  lemma TakeZoneOk(s: State, p: Page, dest: Place, z: nat)
    requires Laws(s) && IsPage(s, p) && p in s.zones[p.zone].free && z < |s.zones|
    requires dest != InFree && (dest.On? ==> dest.list in s.lists)
    ensures ZoneOk(Take(s, p, dest), z)
  {
    assert ZoneOk(s, z);
    var free := s.zones[p.zone].free;
    if z == p.zone {
      WithoutMembers(free, IndexOf(free, p));
    }
  }

  lemma TakeListOk(s: State, p: Page, dest: Place, l: nat)
    requires Laws(s) && IsPage(s, p) && p in s.zones[p.zone].free && l in s.lists
    requires dest != InFree && (dest.On? ==> dest.list in s.lists)
    ensures ListOk(Take(s, p, dest), l)
  {
    assert ListOk(s, l);
    assert ZoneOk(s, p.zone);
    var t, t' := s.lists[l], Take(s, p, dest).lists[l];
    if dest == On(l) {
      assert forall q :: q in t' <==> q in t || q == p;
    }
  }

  /** Same zones with same page arrays; contents may differ. */
  ghost predicate SameShape(a: seq<Zone>, b: seq<Zone>) {
    && |a| == |b|
    && forall z :: 0 <= z < |a| ==>
         && a[z].base == b[z].base && a[z].size == b[z].size
         && a[z].arrayAt == b[z].arrayAt && |a[z].nonfree| == |b[z].nonfree|
  }

  lemma SameShapeTwice(a: seq<Zone>, b: seq<Zone>, c: seq<Zone>)
    requires SameShape(a, b) && SameShape(b, c)
    ensures SameShape(a, c)
  {
  }

  lemma SameShapeKeeps(s: State, r: State)
    requires SameShape(s.zones, r.zones) && s.brk == r.brk && ArraysOk(s)
    ensures forall p :: IsPage(r, p) <==> IsPage(s, p)
    ensures ArraysOk(r)
  {
    forall z | 0 <= z < |r.zones| ensures ArrayEnd(r.zones[z]) == ArrayEnd(s.zones[z]) {
    }
  }

  /** The flag of `p` alone changes, with its place. */
  lemma FlagFollowsPlace(s: State, r: State, p: Page, d: Place)
    requires PagesOk(s) && IsPage(s, p) && SameShape(s.zones, r.zones)
    requires r.place == s.place[p := d] && r.zones[p.zone].nonfree == s.zones[p.zone].nonfree[p.index := d != InFree]
    requires forall z :: 0 <= z < |s.zones| && z != p.zone ==> r.zones[z].nonfree == s.zones[z].nonfree
    requires forall l :: l in s.lists ==> l in r.lists
    requires d.On? ==> d.list in r.lists
    ensures forall q :: q in r.place ==> IsPage(r, q) && (r.zones[q.zone].nonfree[q.index] <==> r.place[q] != InFree)
    ensures forall q :: q in r.place && r.place[q].On? ==> r.place[q].list in r.lists
  {
    forall q | q in r.place ensures IsPage(r, q) && (r.zones[q.zone].nonfree[q.index] <==> r.place[q] != InFree) {
      assert q in s.place;
    }
  }

  lemma TakePagesOk(s: State, p: Page, dest: Place)
    requires Laws(s) && IsPage(s, p) && p in s.zones[p.zone].free
    requires dest != InFree && (dest.On? ==> dest.list in s.lists)
    ensures PagesOk(Take(s, p, dest)) && ArraysOk(Take(s, p, dest))
  {
    var r := Take(s, p, dest);
    SameShapeKeeps(s, r);
    FlagFollowsPlace(s, r, p, dest);
  }

  lemma TakeLaws(s: State, p: Page, dest: Place)
    requires Laws(s) && IsPage(s, p) && p in s.zones[p.zone].free
    requires dest != InFree && (dest.On? ==> dest.list in s.lists)
    ensures Laws(Take(s, p, dest))
  {
    var r := Take(s, p, dest);
    TakePagesOk(s, p, dest);
    forall z | 0 <= z < |r.zones| ensures ZoneOk(r, z) {
      TakeZoneOk(s, p, dest, z);
    }
    forall l | l in r.lists ensures ListOk(r, l) {
      TakeListOk(s, p, dest, l);
    }
  }

  /** Taking a free page keeps the invariant; that it is in its ring is what makes unlinking it legal. */
  lemma TakeInv(s: State, p: Page, dest: Place)
    requires Inv(s) && IsPage(s, p) && p in s.zones[p.zone].free
    requires dest != InFree && (dest.On? ==> dest.list in s.lists)
    ensures Inv(Take(s, p, dest)) && p in s.place && s.place[p] == InFree
  {
    InvLaws(s);
    TakeLaws(s, p, dest);
    FreeHasPage(s, p.zone, p);
  }

  lemma FreeHasPage(s: State, z: nat, p: Page)
    requires Inv(s) && z < |s.zones| && p in s.zones[z].free
    ensures IsPage(s, p) && p.zone == z && p in s.place && s.place[p] == InFree
  {
    InvLaws(s);
    assert ZoneOk(s, z);
  }

  /** A page that was free may have gone onto list `l`; no other page has changed its place. */
  ghost predicate OnlyTakenOnto(s: State, r: State, l: nat) {
    forall p :: p in s.place ==>
      p in r.place && (r.place[p] == s.place[p] || (s.place[p] == InFree && r.place[p] == On(l)))
  }

  /** A list keeps what it holds, and what is added was free. */
  ghost predicate GrewFromFree(s: State, r: State, l: nat) {
    && l in s.lists && l in r.lists && s.lists[l] <= r.lists[l]
    && forall i :: |s.lists[l]| <= i < |r.lists[l]| ==> r.lists[l][i] in s.place && s.place[r.lists[l][i]] == InFree
  }

  lemma GrewOneMore(s: State, t: State, r: State, l: nat, p: Page)
    requires l in s.lists && p in s.place && s.place[p] == InFree
    requires t.lists == s.lists[l := s.lists[l] + [p]] && t.place == s.place[p := On(l)]
    requires OnlyTakenOnto(t, r, l) && GrewFromFree(t, r, l)
    ensures OnlyTakenOnto(s, r, l) && GrewFromFree(s, r, l)
  {
    var a, b := s.lists[l], r.lists[l];
    assert (a + [p])[|a|] == p && b[|a|] == p;
  }

  /** The number of free pages of the zones from `z` on: the sum of the `free_count` fields. */
  function TotalFree(zones: seq<Zone>, z: nat): nat
    requires z <= |zones|
    decreases |zones| - z
  {
    if z == |zones| then 0 else |zones[z].free| + TotalFree(zones, z + 1)
  }

  lemma {:induction false} TotalFreeGrows(a: seq<Zone>, b: seq<Zone>, h: nat, z: nat)
    requires z <= |a| == |b| && h < |a|
    requires |b[h].free| == |a[h].free| + 1
    requires forall y :: 0 <= y < |a| && y != h ==> b[y].free == a[y].free
    ensures TotalFree(b, z) == TotalFree(a, z) + if z <= h then 1 else 0
    decreases |a| - z
  {
    if z < |a| {
      TotalFreeGrows(a, b, h, z + 1);
    }
  }

  lemma TakeCounts(s: State, p: Page, d: Place)
    requires IsPage(s, p) && p in s.zones[p.zone].free && (d.On? ==> d.list in s.lists)
    ensures TotalFree(Take(s, p, d).zones, 0) + 1 == TotalFree(s.zones, 0)
  {
    TotalFreeGrows(Take(s, p, d).zones, s.zones, p.zone, 0);
  }

  /** Pages went from free rings to the end of list `l`, as many as the list grew by; the zones are the
      same, and the state is sound. */
  ghost predicate TakenOnto(s: State, r: State, l: nat) {
    && Inv(r) && OnlyTakenOnto(s, r, l) && GrewFromFree(s, r, l) && SameShape(s.zones, r.zones) && r.brk == s.brk
    && TotalFree(r.zones, 0) + |r.lists[l]| == TotalFree(s.zones, 0) + |s.lists[l]|
  }

  lemma NoneTakenOnto(s: State, l: nat)
    requires Inv(s) && l in s.lists
    ensures TakenOnto(s, s, l)
  {
  }

  lemma TakenOneMore(s: State, t: State, r: State, l: nat, z: nat, p: Page)
    requires z < |s.zones| && p in s.zones[z].free && l in s.lists
    requires IsPage(s, p) && p.zone == z && t == Take(s, p, On(l))
    ensures Inv(s) ==> Inv(t)
    ensures Inv(s) && TakenOnto(t, r, l) ==> TakenOnto(s, r, l)
  {
    if Inv(s) {
      TakeInv(s, p, On(l));
      if TakenOnto(t, r, l) {
        GrewOneMore(s, t, r, l, p);
        TakeCounts(s, p, On(l));
        SameShapeTwice(s.zones, t.zones, r.zones);
      }
    }
  }

  /** A page address, as `PAGE_BELONGS_TO_ZONE` sees it, and the window of addresses that macro
      accepts: as many bytes as the zone has frames, not as many page structures. */
  function PageAddr(s: State, p: Page): nat
    requires p.zone < |s.zones|
  {
    s.zones[p.zone].arrayAt + PAGE_STRUCT * p.index
  }

  predicate InWindow(addr: nat, zone: Zone) {
    zone.arrayAt <= addr < zone.arrayAt + zone.Frames()
  }

  /** The first zone, from `z` on, whose window holds the address. */
  function WindowZone(zones: seq<Zone>, addr: nat, z: nat): (h: Option<nat>)
    requires z <= |zones|
    ensures h.Some? ==> z <= h.value < |zones| && InWindow(addr, zones[h.value])
    ensures forall y :: z <= y < (if h.Some? then h.value else |zones|) ==> !InWindow(addr, zones[y])
    decreases |zones| - z
  {
    if z == |zones| then None
    else if InWindow(addr, zones[z]) then Some(z)
    else WindowZone(zones, addr, z + 1)
  }

  function Home(s: State, p: Page): Option<nat>
    requires p.zone < |s.zones|
  {
    WindowZone(s.zones, PageAddr(s, p), 0)
  }

  /** Only the pages in the first twenty-fourth of a zone's array fall in its window. */
  predicate Accepted(s: State, p: Page)
    requires p.zone < |s.zones|
  {
    PAGE_STRUCT * p.index < s.zones[p.zone].Frames()
  }

  /** At most one zone ever claims a page: its own, and that one just for the accepted pages. */
  lemma HomeIsOwnZone(s: State, p: Page)
    requires Inv(s) && IsPage(s, p)
    ensures Home(s, p) == if Accepted(s, p) then Some(p.zone) else None
    ensures forall z :: 0 <= z < |s.zones| && InWindow(PageAddr(s, p), s.zones[z]) ==> z == p.zone
  {
    InvLaws(s);
    forall z | 0 <= z < |s.zones| && z != p.zone ensures !InWindow(PageAddr(s, p), s.zones[z]) {
      OtherWindow(s, p, z);
    }
    assert ZoneOk(s, p.zone);
  }

  lemma OtherWindow(s: State, p: Page, z: nat)
    requires Laws(s) && IsPage(s, p) && z < |s.zones| && z != p.zone
    ensures !InWindow(PageAddr(s, p), s.zones[z])
  {
    var own, other := s.zones[p.zone], s.zones[z];
    assert ZoneOk(s, z);
    assert ArrayEnd(other) <= own.arrayAt || ArrayEnd(own) <= other.arrayAt;
  }

  /** What becomes of the first page of a list that is being freed. */
  function FreeFirst(s: State, l: nat): State
    requires l in s.lists && s.lists[l] != [] && IsPage(s, s.lists[l][0])
  {
    var p := s.lists[l][0];
    var rest := s.lists[l := s.lists[l][1..]];
    match Home(s, p)
    case None => State(s.zones, rest, s.place[p := Lost], s.brk)
    case Some(h) => State(Rehome(s.zones, p, h), rest, s.place[p := InFree], s.brk)
  }

  /** The page goes first on the free ring of zone `h`, and its own flag is cleared. */
  function Rehome(zones: seq<Zone>, p: Page, h: nat): (r: seq<Zone>)
    requires h < |zones| && p.zone < |zones| && p.index < |zones[p.zone].nonfree|
    ensures |r| == |zones|
  {
    var marked := zones[p.zone := zones[p.zone].(nonfree := zones[p.zone].nonfree[p.index := false])];
    marked[h := marked[h].(free := [p] + marked[h].free)]
  }

  /** The first page of a list, as the proofs about freeing it need it. */
  lemma FirstListedPage(s: State, l: nat)
    requires Laws(s) && l in s.lists && s.lists[l] != []
    ensures var p := s.lists[l][0];
            && IsPage(s, p) && p in s.place && s.place[p] == On(l) && p !in s.lists[l][1..]
            && Home(s, p) == (if Accepted(s, p) then Some(p.zone) else None) && ZoneOk(s, p.zone)
  {
    var p := s.lists[l][0];
    assert ListOk(s, l);
    assert p in s.lists[l];
    HomeIsOwnZone(s, p);
  }

  lemma FreeFirstZoneOk(s: State, l: nat, z: nat)
    requires l in s.lists && s.lists[l] != [] && z < |s.zones| && ZoneOk(s, z)
    requires var p := s.lists[l][0];
             && IsPage(s, p) && p in s.place && s.place[p] == On(l)
             && Home(s, p) == (if Accepted(s, p) then Some(p.zone) else None)
    ensures ZoneOk(FreeFirst(s, l), z)
  {
    var p := s.lists[l][0];
    var r := FreeFirst(s, l);
    assert r.zones[z].free == (if z == p.zone && Accepted(s, p) then [p] else []) + s.zones[z].free;
  }

  lemma FreeFirstListOk(s: State, l: nat, m: nat)
    requires l in s.lists && s.lists[l] != [] && m in s.lists && ListOk(s, l) && ListOk(s, m)
    requires IsPage(s, s.lists[l][0])
    ensures ListOk(FreeFirst(s, l), m)
  {
    var t := s.lists[l];
    var p := t[0];
    assert p in t;
    if l == m {
      assert t == [p] + t[1..];
      assert forall q :: q in t <==> q == p || q in t[1..];
    }
  }

  lemma FreeFirstPagesOk(s: State, l: nat)
    requires PagesOk(s) && ArraysOk(s) && l in s.lists && s.lists[l] != []
    requires var p := s.lists[l][0];
             && IsPage(s, p) && p in s.place && s.place[p] == On(l)
             && Home(s, p) == (if Accepted(s, p) then Some(p.zone) else None)
    ensures PagesOk(FreeFirst(s, l)) && ArraysOk(FreeFirst(s, l))
  {
    var p, r := s.lists[l][0], FreeFirst(s, l);
    SameShapeKeeps(s, r);
    if Accepted(s, p) {
      FlagFollowsPlace(s, r, p, InFree);
    } else {
      assert s.zones[p.zone].nonfree[p.index := true] == s.zones[p.zone].nonfree;
      FlagFollowsPlace(s, r, p, Lost);
    }
  }

  lemma FreeFirstInv(s: State, l: nat)
    requires Inv(s) && l in s.lists && s.lists[l] != []
    ensures IsPage(s, s.lists[l][0]) && Inv(FreeFirst(s, l))
  {
    InvLaws(s);
    FirstListedPage(s, l);
    FreeFirstPagesOk(s, l);
    FreeFirstZonesOk(s, l);
    FreeFirstListsOk(s, l);
  }

  lemma FreeFirstZonesOk(s: State, l: nat)
    requires Laws(s) && l in s.lists && s.lists[l] != []
    ensures IsPage(s, s.lists[l][0])
    ensures forall z :: 0 <= z < |FreeFirst(s, l).zones| ==> ZoneOk(FreeFirst(s, l), z)
  {
    FirstListedPage(s, l);
    forall z | 0 <= z < |s.zones| ensures ZoneOk(FreeFirst(s, l), z) {
      FreeFirstZoneOk(s, l, z);
    }
  }

  lemma FreeFirstListsOk(s: State, l: nat)
    requires Laws(s) && l in s.lists && s.lists[l] != []
    ensures IsPage(s, s.lists[l][0])
    ensures forall m :: m in FreeFirst(s, l).lists ==> ListOk(FreeFirst(s, l), m)
  {
    FirstListedPage(s, l);
    forall m | m in s.lists ensures ListOk(FreeFirst(s, l), m) {
      FreeFirstListOk(s, l, m);
    }
  }
}
