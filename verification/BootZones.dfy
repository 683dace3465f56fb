/** The zones made of the recorded regions: which frames they have, and the layout they give the allocator. */
module BootZones {
  import opened Bits
  import opened Sequences
  import opened PmmModel
  import opened PmmOps
  import opened PmmRange
  import opened PmmRuns
  import opened PmmLimits
  import opened BootInfo

  /** The zone made of a region: the base rounded up to a page, the size down. */
  function PageZone(r: PhysZone): PhysZone
    requires InRange(r)
  {
    PhysZone(if r.base + 4095 < TWO_64 then (r.base + 4095) / 4096 * 4096 else 0, r.size - r.size % 4096)
  }

  predicate InRange(r: PhysZone) { r.base < TWO_64 && r.size < TWO_64 }

  function PageZones(rs: seq<PhysZone>): (zs: seq<PhysZone>)
    requires forall k :: 0 <= k < |rs| ==> InRange(rs[k])
    ensures |zs| == |rs| && forall k :: 0 <= k < |rs| ==> zs[k] == PageZone(rs[k])
  {
    seq(|rs|, k requires 0 <= k < |rs| => PageZone(rs[k]))
  }

  /* ---- which frames the zones have ---- */

  /** What a region must be like for its zone to stay inside it: too small for a page, or so placed that
      rounding its base up takes no more than rounding its size down gives back, and does not wrap. */
  predicate Fits(r: PhysZone) {
    || r.size < PAGE_SIZE
    || (r.base + PAGE_SIZE - 1 < TWO_64 && (PAGE_SIZE - r.base % PAGE_SIZE) % PAGE_SIZE <= r.size % PAGE_SIZE)
  }

  ghost predicate AllFit(rs: seq<PhysZone>) {
    forall k :: 0 <= k < |rs| ==> Fits(rs[k])
  }

  predicate Inside(z: PhysZone, r: PhysZone) {
    z.size > 0 ==> r.base <= z.base && z.base + z.size <= r.base + r.size
  }

  /** The zone of a region lies inside it exactly when the region is like that. */
  lemma ZoneInRegionIff(r: PhysZone)
    requires InRange(r)
    ensures Inside(PageZone(r), r) <==> Fits(r)
  {
    if r.base + PAGE_SIZE - 1 < TWO_64 {
      UpBy(r.base);
    }
  }

  lemma UpBy(base: nat)
    ensures (base + PAGE_SIZE - 1) / PAGE_SIZE * PAGE_SIZE == base + (PAGE_SIZE - base % PAGE_SIZE) % PAGE_SIZE
  {
    var q, r := base / PAGE_SIZE, base % PAGE_SIZE;
    if r == 0 {
      ModUnique(base + PAGE_SIZE - 1, PAGE_SIZE, q, PAGE_SIZE - 1);
    } else {
      ModUnique(base + PAGE_SIZE - 1, PAGE_SIZE, q + 1, r - 1);
      ModSmall(PAGE_SIZE - r, PAGE_SIZE);
    }
  }

  /** Two regions whose zones do not: one of a page that begins in the middle of one, and one at the
      end of the address space, whose zone is at address 0. */
  lemma ZonesBeyondRegions()
    ensures PageZone(PhysZone(0x10_0800, 0x1000)) == PhysZone(0x10_1000, 0x1000) && !Fits(PhysZone(0x10_0800, 0x1000))
    ensures PageZone(PhysZone(TWO_64 - 0x800, 0x1000)) == PhysZone(0, 0x1000) && !Fits(PhysZone(TWO_64 - 0x800, 0x1000))
  {
  }

  function FrameAt(z: PhysZone, i: nat): nat { z.base + PAGE_SIZE * i }

  predicate FrameIn(a: nat, r: PhysZone) { r.base <= a && a + PAGE_SIZE <= r.base + r.size }

  ghost predicate InSome(a: nat, rs: seq<PhysZone>) {
    exists k :: 0 <= k < |rs| && FrameIn(a, rs[k])
  }

  /** Every frame of a zone lies in one of the regions. */
  ghost predicate FramesOf(z: PhysZone, rs: seq<PhysZone>) {
    forall i: nat :: i < z.size / PAGE_SIZE ==> InSome(FrameAt(z, i), rs)
  }

  ghost predicate FramesIn(zs: seq<PhysZone>, rs: seq<PhysZone>) {
    forall j :: 0 <= j < |zs| ==> FramesOf(zs[j], rs)
  }

  predicate Disjoint(a: PhysZone, b: PhysZone) { a.base + a.size <= b.base || b.base + b.size <= a.base }

  /** Regions as a memory map gives them: in range, from 1 MiB up, and disjoint; or places of the table
      that were never written. */
  ghost predicate Separate(rs: seq<PhysZone>) {
    && (forall k :: 0 <= k < |rs| ==> InRange(rs[k]) && (rs[k] == PhysZone(0, 0) || rs[k].base >= HIGHMEM_PADDR))
    && (forall j, k :: 0 <= j < |rs| && 0 <= k < |rs| && j != k ==> Disjoint(rs[j], rs[k]))
  }

  lemma FramesInside(r: PhysZone, rs: seq<PhysZone>, m: nat)
    requires m < |rs| && rs[m] == r && InRange(r) && Fits(r)
    ensures FramesOf(PageZone(r), rs)
  {
    ZoneInRegionIff(r);
    var z := PageZone(r);
    forall i: nat | i < z.size / PAGE_SIZE ensures InSome(FrameAt(z, i), rs) {
      FrameInside(z.size, i);
      assert FrameIn(FrameAt(z, i), rs[m]);
    }
  }

  /** The last frame of a zone that does not stay inside its region is in no region. */
  lemma LastFrameOutside(rs: seq<PhysZone>, m: nat)
    requires Separate(rs) && m < |rs| && !Fits(rs[m])
    ensures !FramesOf(PageZone(rs[m]), rs)
  {
    var r, z := rs[m], PageZone(rs[m]);
    ZoneInRegionIff(r);
    var n := z.size / PAGE_SIZE;
    assert z.size == PAGE_SIZE * n && n > 0;
    if r.base + PAGE_SIZE - 1 < TWO_64 {
      UpBy(r.base);
      var a := FrameAt(z, n - 1);
      forall k | 0 <= k < |rs| ensures !FrameIn(a, rs[k]) {
        assert k != m ==> Disjoint(rs[k], rs[m]);
      }
      assert !InSome(a, rs);
    } else {
      assert !InSome(FrameAt(z, 0), rs);
    }
  }

  /** **Every frame of every zone lies in a recorded region exactly when every region fits.** */
  lemma FramesInIff(rs: seq<PhysZone>)
    requires Separate(rs)
    ensures FramesIn(PageZones(rs), rs) <==> AllFit(rs)
  {
    var zs := PageZones(rs);
    forall k | 0 <= k < |rs| ensures FramesOf(zs[k], rs) <==> Fits(rs[k]) {
      if Fits(rs[k]) {
        FramesInside(rs[k], rs, k);
      } else {
        LastFrameOutside(rs, k);
      }
    }
  }

  /** An address is that of a frame of one of the zones. */
  ghost predicate HasFrame(zs: seq<PhysZone>, a: nat) {
    exists j :: 0 <= j < |zs| && IsFrameOf(zs[j], a)
  }

  ghost predicate IsFrameOf(z: PhysZone, a: nat) {
    exists i: nat :: i < z.size / 4096 && FrameAt(z, i) == a
  }

  lemma IsFrameOfIff(z: PhysZone, a: nat)
    requires z.base % 4096 == 0 && z.size % 4096 == 0
    ensures IsFrameOf(z, a) <==> a % 4096 == 0 && z.base <= a && a + 4096 <= z.base + z.size
  {
    var q, n := z.base / 4096, z.size / 4096;
    if IsFrameOf(z, a) {
      var i: nat :| i < n && FrameAt(z, i) == a;
      ModUnique(a, 4096, q + i, 0);
    }
    if a % 4096 == 0 && z.base <= a && a + 4096 <= z.base + z.size {
      assert FrameAt(z, a / 4096 - q) == a;
    }
  }

  /** A zone has every whole frame of its region: when the region fits, its frames are exactly the pages that
      begin at a multiple of 4096 and lie in the region. */
  lemma WholeFramesIff(r: PhysZone, a: nat)
    requires InRange(r) && Fits(r)
    ensures IsFrameOf(PageZone(r), a) <==> a % 4096 == 0 && r.base <= a && a + 4096 <= r.base + r.size
  {
    var z := PageZone(r);
    ModUnique(z.size, 4096, r.size / 4096, 0);
    if r.base + 4095 < TWO_64 {
      UpBy(r.base);
      ModUnique(z.base, 4096, (r.base + 4095) / 4096, 0);
      IsFrameOfIff(z, a);
      SameFrames(r.base, r.size, z.base, z.size, a);
    }
  }

  lemma SameFrames(base: nat, size: nat, up: nat, down: nat, a: nat)
    requires up % 4096 == 0 && base <= up < base + 4096 && down == size - size % 4096
    requires size < 4096 || up - base <= size % 4096
    ensures a % 4096 == 0 ==> (up <= a && a + 4096 <= up + down <==> base <= a && a + 4096 <= base + size)
  {
    if a % 4096 == 0 {
      var p, q, n := a / 4096, up / 4096, size / 4096;
      assert a == 4096 * p && up == 4096 * q && down == 4096 * n;
    }
  }

  /** So the zones together have every whole frame of the regions, and no other. */
  lemma AllFramesIff(rs: seq<PhysZone>, a: nat)
    requires AllFit(rs) && forall k :: 0 <= k < |rs| ==> InRange(rs[k])
    ensures HasFrame(PageZones(rs), a) <==> a % 4096 == 0 && InSome(a, rs)
  {
    forall k | 0 <= k < |rs| ensures IsFrameOf(PageZones(rs)[k], a) <==> a % 4096 == 0 && FrameIn(a, rs[k]) {
      WholeFramesIff(rs[k], a);
    }
  }

  lemma {:induction false} NotEmptyHas(zs: seq<PhysZone>, a: nat)
    ensures HasFrame(NotEmpty(zs), a) <==> HasFrame(zs, a)
  {
    if zs != [] {
      NotEmptyHas(zs[1..], a);
      assert zs == [zs[0]] + zs[1..];
      HasFrameBoth([zs[0]], zs[1..], a);
      HasFrameBoth(if zs[0].size > 0 then [zs[0]] else [], NotEmpty(zs[1..]), a);
      OneHasFrame(zs[0], a);
    }
  }

  lemma OneHasFrame(z: PhysZone, a: nat)
    ensures HasFrame([z], a) <==> IsFrameOf(z, a)
    ensures !HasFrame([], a) && (z.size == 0 ==> !IsFrameOf(z, a))
  {
    assert [z][0] == z;
  }

  lemma HasFrameBoth(x: seq<PhysZone>, y: seq<PhysZone>, a: nat)
    ensures HasFrame(x + y, a) <==> HasFrame(x, a) || HasFrame(y, a)
  {
    assert forall j :: 0 <= j < |x| ==> (x + y)[j] == x[j];
    assert forall j :: 0 <= j < |y| ==> (x + y)[|x| + j] == y[j];
  }

  /* ---- the allocator's zones ---- */

  /** A zone can be added, and the state it leads to: an empty one is turned away. */
  predicate AddOk(s: State, z: PhysZone) {
    z.size > 0 ==>
      && z.base + z.size <= TWO_64 && z.size < TWO_64 && z.size / PAGE_SIZE < TWO_32
      && RoomFor(s.brk, PAGE_STRUCT * (z.size / PAGE_SIZE))
  }

  function AddTo(s: State, z: PhysZone): State
    requires AddOk(s, z)
  {
    if z.size == 0 then s else AddZone(s, z.base, z.size)
  }

  /** It is a step of the allocator's runs. */
  lemma AddIsStep(s: State, z: PhysZone)
    requires Inv(s)
    ensures AddOk(s, z) <==> Enabled(s, OpAddZone(z.base, z.size))
    ensures AddOk(s, z) ==> AddTo(s, z) == Step(s, OpAddZone(z.base, z.size)) && Inv(AddTo(s, z))
  {
    InvLaws(s);
  }

  /** Each of the zones can be added, one after the other. */
  predicate CanAdd(s: State, zs: seq<PhysZone>)
    decreases zs
  {
    zs == [] || (AddOk(s, zs[0]) && CanAdd(AddTo(s, zs[0]), zs[1..]))
  }

  function Added(s: State, zs: seq<PhysZone>): State
    requires CanAdd(s, zs)
    decreases zs
  {
    if zs == [] then s else Added(AddTo(s, zs[0]), zs[1..])
  }

  /** The zones that are not empty. */
  function NotEmpty(zs: seq<PhysZone>): seq<PhysZone> {
    if zs == [] then [] else (if zs[0].size > 0 then [zs[0]] else []) + NotEmpty(zs[1..])
  }

  function Bounds(s: State): seq<PhysZone> {
    seq(|s.zones|, z requires 0 <= z < |s.zones| => PhysZone(s.zones[z].base, s.zones[z].size))
  }

  /** The allocator ends up with the zones that are not empty, in order, after those it had. */
  lemma {:induction false} AddedBounds(s: State, zs: seq<PhysZone>)
    requires CanAdd(s, zs)
    ensures Bounds(Added(s, zs)) == Bounds(s) + NotEmpty(zs)
    decreases zs
  {
    if zs != [] {
      AddToBounds(s, zs[0]);
      AddedBounds(AddTo(s, zs[0]), zs[1..]);
      Joined(Bounds(s), if zs[0].size > 0 then [zs[0]] else [], NotEmpty(zs[1..]));
    }
  }

  lemma AddToBounds(s: State, z: PhysZone)
    requires AddOk(s, z)
    ensures Bounds(AddTo(s, z)) == Bounds(s) + if z.size > 0 then [z] else []
  {
  }

  lemma {:induction false} NotEmptyWhole(rs: seq<PhysZone>)
    requires forall k :: 0 <= k < |rs| ==> InRange(rs[k])
    ensures forall z :: z in NotEmpty(PageZones(rs)) ==> z.size % 4096 == 0 && z.size > 0
  {
    if rs != [] {
      assert PageZones(rs)[1..] == PageZones(rs[1..]);
      NotEmptyWhole(rs[1..]);
    }
  }

  /** So an allocator that starts without zones has only zones of whole pages. */
  lemma BootZonesAreWhole(s: State, rs: seq<PhysZone>)
    requires (forall k :: 0 <= k < |rs| ==> InRange(rs[k])) && CanAdd(s, PageZones(rs)) && s.zones == []
    ensures WholePages(Added(s, PageZones(rs)))
  {
    var t := Added(s, PageZones(rs));
    AddedBounds(s, PageZones(rs));
    NotEmptyWhole(rs);
    forall z | 0 <= z < |t.zones| ensures t.zones[z].size % PAGE_SIZE == 0 {
      assert Bounds(t)[z] in NotEmpty(PageZones(rs));
    }
  }

  /** Zones turned away have no frames. */
  lemma {:induction false} NotEmptyFrames(zs: seq<PhysZone>, rs: seq<PhysZone>)
    ensures FramesIn(NotEmpty(zs), rs) <==> FramesIn(zs, rs)
  {
    if zs != [] {
      NotEmptyFrames(zs[1..], rs);
      var first, more := (if zs[0].size > 0 then [zs[0]] else []), NotEmpty(zs[1..]);
      assert zs == [zs[0]] + zs[1..];
      FramesInBoth(first, more, rs);
      FramesInBoth([zs[0]], zs[1..], rs);
      assert zs[0].size == 0 ==> FramesOf(zs[0], rs);
      assert FramesIn(first, rs) <==> FramesIn([zs[0]], rs);
    }
  }

  lemma FramesInBoth(a: seq<PhysZone>, b: seq<PhysZone>, rs: seq<PhysZone>)
    ensures FramesIn(a + b, rs) <==> FramesIn(a, rs) && FramesIn(b, rs)
  {
    if FramesIn(a + b, rs) {
      assert forall j :: 0 <= j < |a| ==> (a + b)[j] == a[j];
      assert forall j :: 0 <= j < |b| ==> (a + b)[|a| + j] == b[j];
    }
  }

  /* ---- their layout ---- */

  /** Regions in ascending order. */
  ghost predicate Rising(rs: seq<PhysZone>) {
    forall j, k :: 0 <= j < k < |rs| ==> rs[j].base + rs[j].size <= rs[k].base
  }

  /** The zones that are not empty rise as well, if each stays in its region. */
  lemma {:induction false} ZonesRise(rs: seq<PhysZone>)
    requires Rising(rs) && AllFit(rs) && forall k :: 0 <= k < |rs| ==> InRange(rs[k])
    ensures Rising(NotEmpty(PageZones(rs)))
    ensures rs != [] ==> forall z :: z in NotEmpty(PageZones(rs)) ==> rs[0].base <= z.base
  {
    if rs != [] {
      assert PageZones(rs)[1..] == PageZones(rs[1..]);
      ZonesRise(rs[1..]);
      LaterZones(rs);
      ZoneBelow(rs[0], PageZone(rs[0]), NotEmpty(PageZones(rs[1..])));
    }
  }

  lemma ZoneBelow(r: PhysZone, z: PhysZone, more: seq<PhysZone>)
    requires InRange(r) && Fits(r) && z == PageZone(r)
    requires Rising(more) && forall y :: y in more ==> r.base + r.size <= y.base
    ensures Rising((if z.size > 0 then [z] else []) + more)
    ensures forall y :: y in (if z.size > 0 then [z] else []) + more ==> r.base <= y.base
  {
    ZoneInRegionIff(r);
    if z.size > 0 {
      RiseOneMore(z, more);
    } else {
      assert [] + more == more;
    }
  }

  lemma RiseOneMore(z: PhysZone, more: seq<PhysZone>)
    requires Rising(more) && forall y :: y in more ==> z.base + z.size <= y.base
    ensures Rising([z] + more)
  {
    var zs := [z] + more;
    forall j, k | 0 <= j < k < |zs| ensures zs[j].base + zs[j].size <= zs[k].base {
      assert zs[k] == more[k - 1] && more[k - 1] in more;
    }
  }

  lemma LaterZones(rs: seq<PhysZone>)
    requires rs != [] && Rising(rs)
    requires (forall k :: 0 <= k < |rs| ==> InRange(rs[k])) && InRange(rs[0])
    requires |rs| > 1 ==> forall z :: z in NotEmpty(PageZones(rs[1..])) ==> rs[1..][0].base <= z.base
    ensures forall z :: z in NotEmpty(PageZones(rs[1..])) ==> rs[0].base + rs[0].size <= z.base
  {
    if |rs| > 1 {
      assert rs[1..][0] == rs[1];
    } else {
      assert PageZones(rs[1..]) == [];
    }
  }

  lemma {:induction false} AddedInv(s: State, zs: seq<PhysZone>)
    requires Inv(s) && CanAdd(s, zs)
    ensures Inv(Added(s, zs))
    decreases zs
  {
    InvLaws(s);
    if zs != [] {
      AddIsStep(s, zs[0]);
      AddedInv(AddTo(s, zs[0]), zs[1..]);
    }
  }

  /** So an allocator built of rising regions that fit has rising, disjoint zones of whole pages. */
  lemma BootLayout(s: State, brk: nat, rs: seq<PhysZone>)
    requires Rising(rs) && AllFit(rs) && forall k :: 0 <= k < |rs| ==> InRange(rs[k])
    requires CanAdd(EMPTY.(brk := brk), PageZones(rs)) && s == Added(EMPTY.(brk := brk), PageZones(rs))
    ensures Inv(s) && RingsOk(s) && Ascending(s) && Apart(s)
    ensures forall z :: 0 <= z < |s.zones| ==> 0 < s.zones[z].size <= TWO_64 - PAGE_SIZE
  {
    BootSound(s, brk, rs);
    BootBounds(s, brk, rs);
    ZonesRise(rs);
    BoundsRise(s);
  }

  lemma BootBounds(s: State, brk: nat, rs: seq<PhysZone>)
    requires forall k :: 0 <= k < |rs| ==> InRange(rs[k])
    requires CanAdd(EMPTY.(brk := brk), PageZones(rs)) && s == Added(EMPTY.(brk := brk), PageZones(rs))
    ensures Bounds(s) == NotEmpty(PageZones(rs))
  {
    AddedBounds(EMPTY.(brk := brk), PageZones(rs));
    NothingBefore(NotEmpty(PageZones(rs)), brk);
  }

  lemma NothingBefore(zs: seq<PhysZone>, brk: nat)
    ensures Bounds(EMPTY.(brk := brk)) + zs == zs
  {
  }

  lemma BootSound(s: State, brk: nat, rs: seq<PhysZone>)
    requires (forall k :: 0 <= k < |rs| ==> InRange(rs[k]))
    requires CanAdd(EMPTY.(brk := brk), PageZones(rs)) && s == Added(EMPTY.(brk := brk), PageZones(rs))
    ensures Inv(s) && RingsOk(s) && WholePages(s)
    ensures forall z :: 0 <= z < |s.zones| ==> 0 < s.zones[z].size <= TWO_64 - PAGE_SIZE
  {
    var start := EMPTY.(brk := brk);
    EmptyInv(brk);
    AddedInv(start, PageZones(rs));
    InvRings(s);
    BootZonesAreWhole(start, rs);
    SizesOfWhole(s);
  }

  lemma BoundsRise(s: State)
    requires Rising(Bounds(s))
    ensures Ascending(s) && Apart(s)
  {
    var b := Bounds(s);
    forall y, z | 0 <= y < z < |s.zones| ensures s.zones[y].base + s.zones[y].size <= s.zones[z].base {
      assert b[y].base + b[y].size <= b[z].base;
    }
  }

  /* ---- boot as the beginning of a run ---- */

  lemma {:induction false} AddsAreMoves(s: State, zs: seq<PhysZone>) returns (states: seq<State>, ops: seq<Op>)
    requires Inv(s) && CanAdd(s, zs)
    ensures |states| == |ops| + 1 && states[0] == s && states[|ops|] == Added(s, zs)
    ensures forall i :: 0 <= i < |ops| ==> Moves(states[i], ops[i], states[i + 1])
    ensures |ops| == |zs| && forall i :: 0 <= i < |ops| ==> ops[i] == OpAddZone(zs[i].base, zs[i].size)
    decreases zs
  {
    if zs == [] {
      states, ops := [s], [];
    } else {
      AddIsStep(s, zs[0]);
      var more, rest := AddsAreMoves(AddTo(s, zs[0]), zs[1..]);
      states, ops := [s] + more, [OpAddZone(zs[0].base, zs[0].size)] + rest;
      assert Moves(s, ops[0], more[0]);
      forall i | 0 <= i < |ops| ensures Moves(states[i], ops[i], states[i + 1]) {
        assert i > 0 ==> Moves(more[i - 1], rest[i - 1], more[i]);
      }
    }
  }

  /** The state boot builds is reached by a run of the allocator. */
  lemma BootIsRun(brk: nat, zs: seq<PhysZone>) returns (states: seq<State>, ops: seq<Op>)
    requires CanAdd(EMPTY.(brk := brk), zs)
    ensures IsRun(states, ops) && |ops| == |zs| && states[|ops|] == Added(EMPTY.(brk := brk), zs)
  {
    EmptyInv(brk);
    states, ops := AddsAreMoves(EMPTY.(brk := brk), zs);
  }

  /** Over every run that goes on from there, range calls grant exactly the longest free prefix. */
  lemma BootRangesAreLongest(states: seq<State>, ops: seq<Op>, i: nat, j: nat, brk: nat, rs: seq<PhysZone>,
                             address: nat, count: nat, l: nat)
    requires Rising(rs) && AllFit(rs) && forall k :: 0 <= k < |rs| ==> InRange(rs[k])
    requires CanAdd(EMPTY.(brk := brk), PageZones(rs)) && states != []
    requires IsRun(states, ops) && i <= j < |states| && states[i] == Added(EMPTY.(brk := brk), PageZones(rs))
    requires |states[j].zones| == |states[i].zones| && l in states[j].lists && address < TWO_64
    ensures Inv(states[j]) && Enabled(states[j], OpAllocRange(address, count, l))
    ensures |Received(states[j], OpAllocRange(address, count, l))| == LongestFree(states[j], PageBase(address), count)
    ensures FramesGranted(states[j], Received(states[j], OpAllocRange(address, count, l)), address - address % 4096)
  {
    BootSound(states[i], brk, rs);
    BootLayout(states[i], brk, rs);
    RangesStayLongest(states, ops, i, j, address, count, l);
  }
}
