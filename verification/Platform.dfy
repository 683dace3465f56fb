/** The page allocator set up from the recorded boot state. */
module Platform {
  import opened Bits
  import opened Bytes
  import opened Rounding
  import opened PmmModel
  import opened PmmRange
  import opened BootInfo
  import opened BootBlock
  import opened BootZones
  import Pmm

  /** Adding the zones leads to the target state; shut. */
  ghost predicate LeadsTo(s: State, zs: seq<PhysZone>, target: State) {
    forall k: nat :: Open(zs, k) ==> CanAdd(s, zs) && Added(s, zs) == target
  }

  lemma LeadsOn(s: State, zs: seq<PhysZone>, target: State)
    requires LeadsTo(s, zs, target)
    ensures if zs == [] then s == target else AddOk(s, zs[0]) && LeadsTo(AddTo(s, zs[0]), zs[1..], target)
  {
    assert Open(zs, 0);
  }

  lemma LeadsNext(s: State, all: seq<PhysZone>, i: nat, target: State)
    requires i < |all| && LeadsTo(s, all[i..], target)
    ensures AddOk(s, all[i]) && LeadsTo(AddTo(s, all[i]), all[i + 1..], target)
  {
    assert all[i..][0] == all[i] && all[i..][1..] == all[i + 1..];
    LeadsOn(s, all[i..], target);
  }

  lemma LeadsNowhere(s: State, all: seq<PhysZone>, target: State)
    requires LeadsTo(s, all[|all|..], target)
    ensures s == target
  {
    LeadsOn(s, all[|all|..], target);
  }

  /** The regions that the table has place for, up to the count. */
  ghost function Table(bst: BootState): (rs: seq<PhysZone>)
    requires bst.zones.Length == MAX_ZONES
    reads bst, bst.zones
    ensures |rs| == Min(bst.numHighZones, MAX_ZONES)
  {
    bst.zones[..Min(bst.numHighZones, MAX_ZONES)]
  }

  /** `pmm_zone_init`.  With more regions counted than the tables have places, the model stops where the
      source would read and write past them. */
  method PmmZoneInit(bst: BootState, phyZones: array<PhysZone>, pmm: Pmm.Allocator) returns (overrun: bool)
    requires bst.zones.Length == MAX_ZONES == phyZones.Length && bst.zones != phyZones
    requires pmm.Valid() && forall k :: 0 <= k < |Table(bst)| ==> InRange(Table(bst)[k])
    requires CanAdd(pmm.model, PageZones(Table(bst)))
    modifies phyZones, pmm, pmm.boot, pmm.rings, pmm.rings.repr
    ensures pmm.Valid() && Table(bst) == old(Table(bst))
    ensures overrun <==> bst.numHighZones > MAX_ZONES
    ensures phyZones[..|Table(bst)|] == PageZones(Table(bst))
    ensures CanAdd(old(pmm.model), PageZones(Table(bst))) && pmm.model == Added(old(pmm.model), PageZones(Table(bst)))
  {
    overrun := AddRegions(bst, phyZones, pmm, Table(bst));
  }

  /** The loop over the recorded regions. */
  method AddRegions(bst: BootState, phyZones: array<PhysZone>, pmm: Pmm.Allocator, ghost rs: seq<PhysZone>)
    returns (overrun: bool)
    requires bst.zones.Length == MAX_ZONES == phyZones.Length && bst.zones != phyZones && rs == Table(bst)
    requires pmm.Valid() && (forall k :: 0 <= k < |rs| ==> InRange(rs[k])) && CanAdd(pmm.model, PageZones(rs))
    modifies phyZones, pmm, pmm.boot, pmm.rings, pmm.rings.repr
    ensures pmm.Valid() && overrun == (bst.numHighZones > MAX_ZONES)
    ensures phyZones[..|rs|] == PageZones(rs) && pmm.model == Added(old(pmm.model), PageZones(rs))
  {
    ghost var all := PageZones(rs);
    ghost var target := Added(pmm.model, all);
    var i := 0;
    while i < bst.numHighZones
      invariant i <= |all| && phyZones[..i] == all[..i]
      invariant pmm.Valid() && fresh(pmm.rings.repr - old(pmm.rings.repr))
      invariant LeadsTo(pmm.model, all[i..], target)
    {
      if i == MAX_ZONES {
        break;
      }
      assert bst.zones[i] == rs[i];
      NextZone(bst.zones[i], i, phyZones, pmm, all, target);
      i := i + 1;
    }
    overrun := i < bst.numHighZones;
    LeadsNowhere(pmm.model, all, target);
  }

  /** One round of that loop: the zone of a region is written down and added. */
  method NextZone(r: PhysZone, i: nat, phyZones: array<PhysZone>, pmm: Pmm.Allocator,
                  ghost all: seq<PhysZone>, ghost target: State)
    requires pmm.Valid() && i < |all| && i < phyZones.Length && phyZones[..i] == all[..i]
    requires InRange(r) && all[i] == PageZone(r) && LeadsTo(pmm.model, all[i..], target)
    modifies phyZones, pmm, pmm.boot, pmm.rings, pmm.rings.repr
    ensures pmm.Valid() && fresh(pmm.rings.repr - old(pmm.rings.repr)) && phyZones[..i + 1] == all[..i + 1]
    ensures LeadsTo(pmm.model, all[i + 1..], target)
  {
    LeadsNext(pmm.model, all, i, target);
    var z := RoundZone(r);
    phyZones[i] := z;
    var status := pmm.AddZone(z.base, z.size);
  }

  method RoundZone(r: PhysZone) returns (z: PhysZone)
    requires InRange(r)
    ensures z == PageZone(r)
  {
    var base := PageUp(r.base);
    var size := PageDown(r.size);
    z := PhysZone(base, size);
  }

  method PageUp(addr: nat) returns (r: nat)
    requires addr < TWO_64
    ensures r == if addr + 4095 < TWO_64 then (addr + 4095) / 4096 * 4096 else 0
  {
    RoundPageUp(addr);
    r := RoundUp(addr, 4096);
  }

  method PageDown(addr: nat) returns (r: nat)
    requires addr < TWO_64
    ensures r == addr - addr % 4096
  {
    RoundPageDown(addr);
    r := RoundDown(addr, 4096);
  }

  /** The regions recorded of a block: what is in the table in the end, up to the count. */
  function BootRegions(ts: seq<Tag>): seq<PhysZone>
    requires Fit(MapsIn(ts))
  {
    BeyondLongest(ClearTable(), MapsIn(ts));
    Recorded(ClearTable(), MapsIn(ts))[..Min(|AllHigh(MapsIn(ts))|, MAX_ZONES)]
  }

  /** They are the available regions of the block exactly if at most one map has any. */
  lemma BootRegionsAreAllIff(ts: seq<Tag>)
    requires Fit(MapsIn(ts))
    ensures BootRegions(ts) == AllHigh(MapsIn(ts)) <==> AtMostOne(MapsIn(ts))
    ensures AtMostOne(MapsIn(ts)) ==> forall r :: r in BootRegions(ts) <==> Describes(BlockEntries(ts), r)
  {
    InEntries(ts);
    BeyondLongest(ClearTable(), MapsIn(ts));
    RecordedExactlyIff(MapsIn(ts));
  }

  /** Every place of the table is as it was, or holds a region from 1 MiB up that fits 64 bits. */
  predicate Written(z: PhysZone, was: PhysZone) {
    z == was || (InRange(z) && z.base >= HIGHMEM_PADDR)
  }

  predicate GoodMap(m: seq<Entry>) {
    forall x :: x in m ==> IsEntry(x)
  }

  lemma {:induction false} HighInRange(es: seq<Entry>)
    requires GoodMap(es)
    ensures forall k :: 0 <= k < |High(es)| ==> InRange(High(es)[k])
  {
    if es != [] {
      assert es[0] in es;
      HighInRange(es[1..]);
    }
  }

  lemma {:induction false} RecordedIsWritten(zones: seq<PhysZone>, maps: seq<seq<Entry>>)
    requires |zones| == MAX_ZONES && Fit(maps) && forall m :: m in maps ==> GoodMap(m)
    ensures |Recorded(zones, maps)| == MAX_ZONES
    ensures forall k :: 0 <= k < MAX_ZONES ==> Written(Recorded(zones, maps)[k], zones[k])
    decreases maps
  {
    if maps != [] {
      assert maps[0] in maps;
      HighInRange(maps[0]);
      RecordedIsWritten(Over(zones, High(maps[0])), maps[1..]);
    }
  }

  lemma {:induction false} MapsHaveEntries(ts: seq<Tag>)
    requires forall t :: t in ts ==> IsTag(t)
    ensures forall m :: m in MapsIn(ts) ==> GoodMap(m)
  {
    if ts != [] {
      MapsHaveEntries(ts[1..]);
      assert ts[0] in ts;
    }
  }

  lemma RegionsInRange(ts: seq<Tag>)
    requires Fit(MapsIn(ts)) && forall t :: t in ts ==> IsTag(t)
    ensures forall k :: 0 <= k < |BootRegions(ts)| ==> InRange(BootRegions(ts)[k])
    ensures forall k :: 0 <= k < |BootRegions(ts)| ==> Written(BootRegions(ts)[k], PhysZone(0, 0))
  {
    MapsHaveEntries(ts);
    RecordedIsWritten(ClearTable(), MapsIn(ts));
  }

  /** The zones a block asks for. */
  function AskedZones(ts: seq<Tag>): seq<PhysZone>
    requires Fit(MapsIn(ts)) && forall t :: t in ts ==> IsTag(t)
  {
    RegionsInRange(ts);
    PageZones(BootRegions(ts))
  }

  ghost predicate NoOverlap(rs: seq<PhysZone>) {
    forall j, k :: 0 <= j < |rs| && 0 <= k < |rs| && j != k ==> Disjoint(rs[j], rs[k])
  }

  /** What boot makes of the recorded regions: one zone of whole pages for each, in order, but for those of
      less than a page.  Its frames all lie in recorded regions, when these do not overlap, exactly if
      every region fits; and if the regions also rise, its zones are disjoint and rise.  If all fit, it has
      every whole frame of every region, and no other. */
  ghost predicate IsBuilt(s: State, rs: seq<PhysZone>)
    requires forall k :: 0 <= k < |rs| ==> InRange(rs[k])
  {
    && WholePages(s) && Bounds(s) == NotEmpty(PageZones(rs))
    && (NoOverlap(rs) ==> (FramesIn(Bounds(s), rs) <==> AllFit(rs)))
    && (Rising(rs) && AllFit(rs) ==> Ascending(s) && Apart(s))
    && (AllFit(rs) ==> forall a: nat :: HasFrame(Bounds(s), a) <==> a % 4096 == 0 && InSome(a, rs))
  }

  /** `platform_init`, but for the consoles, over a block laid out in memory.  It runs past a table exactly if
      the block has more than ten available regions from 1 MiB up, and the model stops there. */
  method PlatformInit(ram: Ram, reserved: nat, ts: seq<Tag>, boot: Pmm.BootAllocator)
    returns (pmm: Pmm.Allocator?, overrun: bool)
    requires Bytes.Holds(ram, 0, InfoBytes(reserved, ts)) && |InfoBytes(reserved, ts)| < TWO_32
    requires forall t :: t in ts ==> IsTag(t)
    requires Fit(MapsIn(ts)) ==> CanAdd(EMPTY.(brk := boot.bootAllocEnd), AskedZones(ts))
    modifies boot
    ensures overrun <==> UsableIn(BlockEntries(ts), |BlockEntries(ts)|) > 10
    ensures Fit(MapsIn(ts)) ==>
              && pmm != null && pmm.Valid()
              && (forall k :: 0 <= k < |BootRegions(ts)| ==> InRange(BootRegions(ts)[k]))
              && IsBuilt(pmm.model, BootRegions(ts))
  {
    AllFitTogether(MapsIn(ts));
    InEntries(ts);
    var bst;
    bst, overrun := BootBlock.Boot(ram, reserved, ts);
    if overrun {
      return null, true;
    }
    RegionsInRange(ts);
    pmm, overrun := SetUp(bst, boot, BootRegions(ts));
    BootMeans(pmm.model, old(boot.bootAllocEnd), BootRegions(ts));
  }

  lemma {:induction false} AllFitTogether(maps: seq<seq<Entry>>)
    ensures |AllHigh(maps)| <= MAX_ZONES ==> Fit(maps)
  {
    if maps != [] {
      AllFitTogether(maps[1..]);
      assert forall m :: m in maps ==> m == maps[0] || m in maps[1..];
    }
  }

  /** An allocator with the recorded regions. */
  method SetUp(bst: BootState, boot: Pmm.BootAllocator, ghost rs: seq<PhysZone>)
    returns (pmm: Pmm.Allocator, overrun: bool)
    requires bst.zones.Length == MAX_ZONES && Table(bst) == rs
    requires (forall k :: 0 <= k < |rs| ==> InRange(rs[k])) && CanAdd(EMPTY.(brk := boot.bootAllocEnd), PageZones(rs))
    modifies boot
    ensures pmm.Valid() && pmm.model == Added(EMPTY.(brk := old(boot.bootAllocEnd)), PageZones(rs))
    ensures overrun <==> bst.numHighZones > MAX_ZONES
  {
    pmm := new Pmm.Allocator(boot);
    var phyZones := new PhysZone[MAX_ZONES](_ => PhysZone(0, 0));
    overrun := PmmZoneInit(bst, phyZones, pmm);
  }

  lemma BootHas(rs: seq<PhysZone>)
    requires (forall k :: 0 <= k < |rs| ==> InRange(rs[k])) && AllFit(rs)
    ensures forall a: nat :: HasFrame(NotEmpty(PageZones(rs)), a) <==> a % 4096 == 0 && InSome(a, rs)
  {
    forall a: nat ensures HasFrame(NotEmpty(PageZones(rs)), a) <==> a % 4096 == 0 && InSome(a, rs) {
      NotEmptyHas(PageZones(rs), a);
      AllFramesIff(rs, a);
    }
  }

  lemma BootFrames(rs: seq<PhysZone>)
    requires forall k :: 0 <= k < |rs| ==> InRange(rs[k]) && Written(rs[k], PhysZone(0, 0))
    ensures NoOverlap(rs) ==> (FramesIn(NotEmpty(PageZones(rs)), rs) <==> AllFit(rs))
  {
    NotEmptyFrames(PageZones(rs), rs);
    if NoOverlap(rs) {
      FramesInIff(rs);
    }
  }

  /** What the allocator's state is like, for regions recorded in a clear table. */
  lemma BootMeans(s: State, brk: nat, rs: seq<PhysZone>)
    requires forall k :: 0 <= k < |rs| ==> InRange(rs[k]) && Written(rs[k], PhysZone(0, 0))
    requires CanAdd(EMPTY.(brk := brk), PageZones(rs)) && s == Added(EMPTY.(brk := brk), PageZones(rs))
    ensures IsBuilt(s, rs)
  {
    BootZonesAreWhole(EMPTY.(brk := brk), rs);
    BootBounds(s, brk, rs);
    BootFrames(rs);
    if AllFit(rs) {
      BootHas(rs);
    }
    if Rising(rs) && AllFit(rs) {
      BootLayout(s, brk, rs);
    }
  }
}
