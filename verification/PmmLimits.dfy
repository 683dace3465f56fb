/** What the allocator loses and where it can go wrong: pages that are never free again, and ranges
    that run past a page array. */
module PmmLimits {
  import opened Bits
  import opened PmmModel
  import opened PmmOps
  import opened PmmRange
  import opened PmmRuns

  /* ---- pages given up ---- */

  /** A page that is given up stays so, through every call of every run. */
  lemma {:induction false} LostForEver(states: seq<State>, ops: seq<Op>, i: nat, j: nat, p: Page)
    requires IsRun(states, ops) && i <= j < |states|
    requires p in states[i].place && states[i].place[p] == Lost
    ensures p in states[j].place && states[j].place[p] == Lost
    decreases j
  {
    if i < j {
      LostForEver(states, ops, i, j - 1, p);
      PageStep(states, ops, j - 1, p);
    }
  }

  /** A listed page is given up, when its list is freed, exactly when it lies beyond the byte bound of
      its zone: from index (n + 23) / 24 on, in a zone of n frames. */
  lemma FreedIsLostIff(s: State, l: nat, p: Page)
    requires Inv(s) && l in s.lists && p in s.lists[l]
    ensures IsPage(s, p) && p in FreeAll(s, l).0.place
    ensures FreeAll(s, l).0.place[p] == Lost <==> p.index >= Reachable(s.zones[p.zone].Frames())
  {
    InvLaws(s);
    FreeAllSound(s, l);
    ListPages(s, l);
    assert ListOk(s, l);
    AcceptedIff(p.index, s.zones[p.zone].Frames());
  }

  /** How many pages of a zone of `n` frames fall in its window. */
  function Reachable(n: nat): nat { (n + 23) / 24 }

  lemma AcceptedIff(i: nat, n: nat)
    ensures PAGE_STRUCT * i < n <==> i < Reachable(n)
  {
  }

  /* ---- zones stay as they are ---- */

  ghost predicate Prefix(a: seq<Zone>, b: seq<Zone>) {
    |a| <= |b| && SameShape(a, b[..|a|])
  }

  lemma SameIsPrefix(a: seq<Zone>, b: seq<Zone>)
    requires SameShape(a, b)
    ensures Prefix(a, b)
  {
    assert b[..|a|] == b;
  }

  lemma AddZoneKeepsZones(s: State, base: nat, size: nat)
    requires Inv(s) && Enabled(s, OpAddZone(base, size))
    ensures Prefix(s.zones, Step(s, OpAddZone(base, size)).zones)
  {
    if size > 0 {
      assert AddZone(s, base, size).zones[..|s.zones|] == s.zones;
    } else {
      SameIsPrefix(s.zones, s.zones);
    }
  }

  lemma AllocPageKeepsZones(s: State)
    requires Inv(s)
    ensures SameShape(s.zones, AllocPage(s).0.zones)
  {
    match FirstFree(s, 0)
    case None =>
    case Some(z) => FreeIsPage(s, z, 0);
  }

  lemma FreePageKeepsZones(s: State, q: Page)
    requires IsPage(s, q)
    ensures SameShape(s.zones, AfterFree(s, q).zones)
  {
  }

  lemma TakenKeepsZones(s: State, op: Op)
    requires Inv(s) && Enabled(s, op) && (op.OpAllocPages? || op.OpAllocRange?)
    ensures SameShape(s.zones, Step(s, op).zones)
  {
    match op
    case OpAllocPages(count, l) => AllocPagesMeaning(s, count, l);
    case OpAllocRange(address, count, l) => AllocRangeCounts(s, address, count, l);
  }

  lemma StepKeepsZones(s: State, op: Op)
    requires Inv(s) && Enabled(s, op)
    ensures Prefix(s.zones, Step(s, op).zones)
  {
    match op
    case OpAddZone(base, size) => AddZoneKeepsZones(s, base, size);
    case OpNewList(_) => SameIsPrefix(s.zones, s.zones);
    case OpHand(_, _) => SameIsPrefix(s.zones, s.zones);
    case OpUnhand(l, k) => UnhandInv(s, l, k); SameIsPrefix(s.zones, s.zones);
    case OpAllocPage => AllocPageKeepsZones(s); SameIsPrefix(s.zones, AllocPage(s).0.zones);
    case OpAllocPages(_, _) => TakenKeepsZones(s, op); SameIsPrefix(s.zones, Step(s, op).zones);
    case OpAllocRange(_, _, _) => TakenKeepsZones(s, op); SameIsPrefix(s.zones, Step(s, op).zones);
    case OpFreePages(l) => FreeAllSound(s, l); SameIsPrefix(s.zones, FreeAll(s, l).0.zones);
    case OpFreePage(q, tmp) =>
      FreePageIs(s, q, tmp);
      FreePageKeepsZones(s, q);
      SameIsPrefix(s.zones, AfterFree(s, q).zones);
  }

  lemma PrefixTwice(a: seq<Zone>, b: seq<Zone>, c: seq<Zone>)
    requires Prefix(a, b) && Prefix(b, c)
    ensures Prefix(a, c)
  {
    forall z | 0 <= z < |a| ensures c[..|a|][z] == c[..|b|][z] && b[..|a|][z] == b[z] {
    }
  }

  /** Over every run zones are only added: those there are keep their bounds and their page arrays. */
  lemma {:induction false} ZonesStay(states: seq<State>, ops: seq<Op>, i: nat, j: nat)
    requires IsRun(states, ops) && i <= j < |states|
    ensures Prefix(states[i].zones, states[j].zones)
    decreases j
  {
    if i < j {
      ZonesStay(states, ops, i, j - 1);
      EveryStateIsSound(states, ops, j - 1);
      StepKeepsZones(states[j - 1], ops[j - 1]);
      PrefixTwice(states[i].zones, states[j - 1].zones, states[j].zones);
    }
  }

  /** So once all zones are there, a layout that rises stays so. */
  lemma LayoutStays(states: seq<State>, ops: seq<Op>, i: nat, j: nat)
    requires IsRun(states, ops) && i <= j < |states| && |states[j].zones| == |states[i].zones|
    requires Ascending(states[i])
    ensures SameShape(states[i].zones, states[j].zones) && Ascending(states[j])
  {
    ZonesStay(states, ops, i, j);
    var a, b := states[i].zones, states[j].zones;
    assert b[..|a|] == b;
  }

  /** Whatever was done to the pages meanwhile, a range call on zones that rise and are whole pages can then
      be made, and grants exactly the longest free prefix of the frames asked for. */
  lemma RangesStayLongest(states: seq<State>, ops: seq<Op>, i: nat, j: nat, address: nat, count: nat, l: nat)
    requires IsRun(states, ops) && i <= j < |states| && |states[j].zones| == |states[i].zones|
    requires Ascending(states[i]) && WholePages(states[i])
    requires l in states[j].lists && address < TWO_64
    ensures Inv(states[j]) && Enabled(states[j], OpAllocRange(address, count, l))
    ensures |Received(states[j], OpAllocRange(address, count, l))| == LongestFree(states[j], PageBase(address), count)
    ensures FramesGranted(states[j], Received(states[j], OpAllocRange(address, count, l)), address - address % 4096)
  {
    LayoutStays(states, ops, i, j);
    EveryStateIsSound(states, ops, j);
    WholePagesAreSafe(states[j], PageBase(address), count, l);
    WholeRange(states[j], address, count, l);
  }

  /** The pages are those of consecutive frames from an address on. */
  ghost predicate FramesGranted(s: State, ps: seq<Page>, a: nat) {
    forall j :: 0 <= j < |ps| ==> AtFrame(s, ps[j], a + 4096 * j)
  }

  lemma WholeRange(s: State, address: nat, count: nat, l: nat)
    requires Inv(s) && Ascending(s) && WholePages(s) && Enabled(s, OpAllocRange(address, count, l))
    ensures |Received(s, OpAllocRange(address, count, l))| == LongestFree(s, PageBase(address), count)
    ensures FramesGranted(s, Received(s, OpAllocRange(address, count, l)), address - address % 4096)
  {
    InvRings(s);
    SizesOfWhole(s);
    AscendingRange(s, address, count, l);
    RangeReceives(s, address, count, l);
    var ps := Received(s, OpAllocRange(address, count, l));
    forall j | 0 <= j < |ps| ensures AtFrame(s, ps[j], address - address % 4096 + 4096 * j) {
      RangeGrantsFrames(s, address, count, l, j);
      RangeDoesNotWrap(s, address, count, l, j);
      ModSmall(address - address % 4096 + 4096 * j, TWO_64);
    }
  }

  lemma RangeReceives(s: State, address: nat, count: nat, l: nat)
    requires Inv(s) && Enabled(s, OpAllocRange(address, count, l))
    ensures |Received(s, OpAllocRange(address, count, l))| == RangeFrom(s, 0, PageBase(address), count, l).1
  {
    AllocRangeCounts(s, address, count, l);
  }

  /** **The pages a range call grants are those of the frames asked for**, one after the other from the one that
      holds the address, whatever the zones; past the end of the address space they go on at 0. */
  lemma RangeGrantsFrames(s: State, address: nat, count: nat, l: nat, j: nat)
    requires Inv(s) && Enabled(s, OpAllocRange(address, count, l)) && j < |Received(s, OpAllocRange(address, count, l))|
    ensures AtFrame(s, Received(s, OpAllocRange(address, count, l))[j], (address - address % 4096 + 4096 * j) % TWO_64)
  {
    RangeAtFrames(s, 0, PageBase(address), count, l, j);
  }

  /** They do not go past it where `TopAfterBottom` holds, as in zones that rise. */
  lemma RangeDoesNotWrap(s: State, address: nat, count: nat, l: nat, j: nat)
    requires Inv(s) && Enabled(s, OpAllocRange(address, count, l)) && j < |Received(s, OpAllocRange(address, count, l))|
    requires Apart(s) && TopAfterBottom(s)
    ensures address - address % 4096 + 4096 * j < TWO_64
  {
    InvRings(s);
    RangeReceives(s, address, count, l);
    RangeIsClimb(s, PageBase(address), count, l);
    ClimbDoesNotWrap(s, PageBase(address), count, j);
  }

  lemma ClimbDoesNotWrap(s: State, a: nat, want: nat, j: nat)
    requires RingsOk(s) && j < |Climb(s, 0, a, want)|
    ensures a + 4096 * j < TWO_64
  {
    ClimbPages(s, 0, a, want, j);
    var o := FreeOwner(s, a + PAGE_SIZE * j);
    assert RingOk(s.zones[o.value], o.value);
  }

  /** So in a zone that begins at a page, a granted page that its window accepts has the address asked for. */
  lemma RangeAddresses(s: State, address: nat, count: nat, l: nat, j: nat)
    requires Inv(s) && Enabled(s, OpAllocRange(address, count, l)) && j < |Received(s, OpAllocRange(address, count, l))|
    ensures var p := Received(s, OpAllocRange(address, count, l))[j];
            && IsPage(s, p)
            && (Accepted(s, p) && s.zones[p.zone].base % 4096 == 0 ==>
                  VmPageToPaddr(s, p) == (address - address % 4096 + 4096 * j) % TWO_64)
  {
    InvLaws(s);
    var p := Received(s, OpAllocRange(address, count, l))[j];
    ReceivedWasFree(s, OpAllocRange(address, count, l), p);
    RangeGrantsFrames(s, address, count, l, j);
    PaddrOfPage(s, p);
    if Accepted(s, p) && s.zones[p.zone].base % 4096 == 0 {
      FrameAddress(s.zones[p.zone].base, p.index, address, j);
    }
  }

  lemma FrameAddress(base: nat, index: nat, address: nat, j: nat)
    requires base % 4096 == 0
    requires var x := (address - address % 4096 + 4096 * j) % TWO_64;
             base + 4096 * index <= x < base + 4096 * index + 4096
    ensures base + 4096 * index == (address - address % 4096 + 4096 * j) % TWO_64
  {
    WholeFrames(address / 4096 + j);
    SameFrame(base / 4096 + index, (address / 4096 + j) % 0x10_0000_0000_0000);
  }

  lemma WholeFrames(n: nat)
    ensures 4096 * n % TWO_64 == 4096 * (n % 0x10_0000_0000_0000)
  {
    var q, r := n / 0x10_0000_0000_0000, n % 0x10_0000_0000_0000;
    ModUnique(4096 * n, TWO_64, q, 4096 * r);
  }

  lemma SameFrame(m: nat, n: nat)
    ensures 4096 * m <= 4096 * n < 4096 * m + 4096 ==> m == n
  {
  }

  lemma SizesOfWhole(s: State)
    requires Inv(s) && WholePages(s)
    ensures forall z :: 0 <= z < |s.zones| ==> 0 < s.zones[z].size <= TWO_64 - PAGE_SIZE
  {
    InvLaws(s);
    forall z | 0 <= z < |s.zones| ensures 0 < s.zones[z].size <= TWO_64 - PAGE_SIZE {
      assert ZoneOk(s, z);
    }
  }

  /* ---- page arrays above memory ---- */

  /** Only adding a zone moves the end of the boot allocations, and never down; a new array lies above it. */
  lemma StepEnd(s: State, op: Op)
    requires Inv(s) && Enabled(s, op)
    ensures if op.OpAddZone? && op.size > 0 then
              && s.brk <= Step(s, op).brk && |Step(s, op).zones| == |s.zones| + 1
              && s.brk <= Step(s, op).zones[|s.zones|].arrayAt
              && Step(s, op).zones[|s.zones|].base == op.base && Step(s, op).zones[|s.zones|].size == op.size
            else Step(s, op).brk == s.brk && |Step(s, op).zones| == |s.zones|
  {
    match op
    case OpAddZone(base, size) =>
      if size > 0 {
        BallocIsApart(s.brk, PAGE_STRUCT * (size / PAGE_SIZE));
      }
    case OpNewList(_) =>
    case OpHand(_, _) =>
    case OpUnhand(l, k) => UnhandInv(s, l, k);
    case OpAllocPage => AllocPageKeepsZones(s); AllocPageMeaning(s);
    case OpAllocPages(count, l) => AllocPagesMeaning(s, count, l);
    case OpAllocRange(address, count, l) => AllocRangeCounts(s, address, count, l);
    case OpFreePages(l) => FreeAllSound(s, l);
    case OpFreePage(q, tmp) => FreePageIs(s, q, tmp); FreePageKeepsZones(s, q);
  }

  /** Every zone ends at or below `top`, and its page array begins at or above it, as the next one will. */
  ghost predicate Above(s: State, top: nat) {
    && top <= s.brk
    && forall z :: 0 <= z < |s.zones| ==> s.zones[z].base + s.zones[z].size <= top <= s.zones[z].arrayAt
  }

  lemma StepStaysAbove(s: State, op: Op, top: nat)
    requires Inv(s) && Enabled(s, op) && Above(s, top)
    requires op.OpAddZone? ==> op.base + op.size <= top
    ensures Above(Step(s, op), top)
  {
    StepKeepsZones(s, op);
    StepEnd(s, op);
    var a, b := s.zones, Step(s, op).zones;
    forall z | 0 <= z < |b| ensures b[z].base + b[z].size <= top <= b[z].arrayAt {
      assert z < |a| ==> b[..|a|][z] == b[z];
    }
  }

  /** Over every run that begins with the boot allocations above all zones to be added, the page arrays
      are above all zones in every state; so no page is ever found again by its address. */
  lemma {:induction false} ArraysStayAbove(states: seq<State>, ops: seq<Op>, j: nat)
    requires IsRun(states, ops) && j < |states|
    requires forall i :: 0 <= i < |ops| && ops[i].OpAddZone? ==> ops[i].base + ops[i].size <= states[0].brk
    ensures Above(states[j], states[0].brk) && ArraysAbove(states[j])
    decreases j
  {
    EveryStateIsSound(states, ops, j);
    if j > 0 {
      ArraysStayAbove(states, ops, j - 1);
      EveryStateIsSound(states, ops, j - 1);
      StepStaysAbove(states[j - 1], ops[j - 1], states[0].brk);
    }
  }

  /* ---- how many pages can come back ---- */

  /** Over every run, the pages of a zone of n frames that are ever taken back are at most (n + 23) / 24. */
  lemma FewAreTakenBack(states: seq<State>, ops: seq<Op>, j: nat, z: nat, ps: set<Page>)
    requires IsRun(states, ops) && j < |states| && z < |states[j].zones|
    requires forall p :: p in ps ==> p.zone == z && exists k :: TakenBackAt(states, ops, k, p)
    ensures |ps| <= Reachable(states[j].zones[z].size / PAGE_SIZE)
  {
    var m := Reachable(states[j].zones[z].size / PAGE_SIZE);
    forall p | p in ps ensures p.zone == z && p.index < m {
      var k :| TakenBackAt(states, ops, k, p);
      TakenBackIsLow(states, ops, j, k, p);
    }
    AtMost(ps, z, m);
  }

  lemma TakenBackIsLow(states: seq<State>, ops: seq<Op>, j: nat, k: nat, p: Page)
    requires IsRun(states, ops) && j < |states| && p.zone < |states[j].zones| && TakenBackAt(states, ops, k, p)
    ensures p.index < Reachable(states[j].zones[p.zone].size / PAGE_SIZE)
  {
    ReturnedIsAccepted(states[k], ops[k], p);
    AcceptedIff(p.index, states[k].zones[p.zone].Frames());
    if k <= j {
      ZonesStay(states, ops, k, j);
    } else {
      ZonesStay(states, ops, j, k);
    }
  }

  lemma ReturnedIsAccepted(s: State, op: Op, p: Page)
    requires Inv(s) && Enabled(s, op) && Returned(s, op, p)
    ensures p.zone < |s.zones| && Accepted(s, p)
  {
  }

  lemma {:induction false} AtMost(ps: set<Page>, z: nat, m: nat)
    requires forall p :: p in ps ==> p.zone == z && p.index < m
    ensures |ps| <= m
  {
    if m > 0 {
      var last := Page(z, m - 1);
      AtMost(ps - {last}, z, m - 1);
      assert ps <= (ps - {last}) + {last};
    } else {
      assert ps == {};
    }
  }

  /* ---- a run that loses a page ---- */

  /** A zone and a list, in an allocator that had none. */
  lemma ZoneAndList(base: nat, size: nat, brk: nat) returns (s0: State, s1: State, s2: State)
    requires 0 < size < TWO_32 && base + size <= TWO_64 && RoomFor(brk, PAGE_STRUCT * (size / PAGE_SIZE))
    ensures s0 == EMPTY.(brk := brk) && Inv(s2)
    ensures Moves(s0, OpAddZone(base, size), s1) && Moves(s1, OpNewList(0), s2)
    ensures |s2.zones| == 1 && s2.zones[0].base == base && s2.zones[0].size == size
    ensures s2.zones[0].free == NewPages(0, size / PAGE_SIZE) && s2.lists == map[0 := []]
  {
    s0 := EMPTY.(brk := brk);
    EmptyInv(brk);
    s1 := Step(s0, OpAddZone(base, size));
    s2 := Step(s1, OpNewList(0));
  }

  /** A zone of two pages: both are handed out and freed again, and one of them is lost. */
  lemma OneOfTwoIsLost(base: nat, brk: nat) returns (states: seq<State>, ops: seq<Op>)
    requires base + 0x2000 <= TWO_64 && RoomFor(brk, 2 * PAGE_STRUCT)
    ensures ops == [OpAddZone(base, 0x2000), OpNewList(0), OpAllocPages(2, 0), OpFreePages(0)] && IsRun(states, ops)
    ensures states[3].lists == map[0 := [Page(0, 0), Page(0, 1)]] && FreeAll(states[3], 0).1 == 1
    ensures Page(0, 1) in states[4].place && states[4].place[Page(0, 1)] == Lost
  {
    var s0, s1, s2 := ZoneAndList(base, 0x2000, brk);
    var s3 := TwoPagesGo(s2);
    var s4 := TwoPagesReturn(s3);
    states := [s0, s1, s2, s3, s4];
    ops := [OpAddZone(base, 0x2000), OpNewList(0), OpAllocPages(2, 0), OpFreePages(0)];
    FourMoves(states, ops);
  }

  lemma FourMoves(states: seq<State>, ops: seq<Op>)
    requires |states| == 5 && |ops| == 4 && exists brk :: states[0] == EMPTY.(brk := brk)
    requires Moves(states[0], ops[0], states[1]) && Moves(states[1], ops[1], states[2])
    requires Moves(states[2], ops[2], states[3]) && Moves(states[3], ops[3], states[4])
    ensures IsRun(states, ops)
  {
  }

  lemma TwoPagesGo(s: State) returns (r: State)
    requires Inv(s) && |s.zones| == 1 && s.zones[0].Frames() == 2
    requires s.zones[0].free == NewPages(0, 2) && s.lists == map[0 := []]
    ensures Moves(s, OpAllocPages(2, 0), r) && Inv(r)
    ensures r.lists == map[0 := [Page(0, 0), Page(0, 1)]] && |r.zones| == 1 && r.zones[0].Frames() == 2
  {
    AllocPagesMeaning(s, 2, 0);
    r := Step(s, OpAllocPages(2, 0));
    TwoPagesAreFirst(s, r);
  }

  lemma TwoPagesAreFirst(s: State, r: State)
    requires |s.zones| == 1 && s.zones[0].free == NewPages(0, 2) && s.lists == map[0 := []]
    requires FirstPagesMoved(s, r, 0, 2, 0)
    ensures r.lists == map[0 := [Page(0, 0), Page(0, 1)]]
  {
    assert FreeSeq(s, 0) == s.zones[0].free + FreeSeq(s, 1) && FreeSeq(s, 1) == [];
    assert FreeSeq(s, 0) == [Page(0, 0), Page(0, 1)];
    assert s.lists[0] + FreeSeq(s, 0)[..2] == [Page(0, 0), Page(0, 1)];
  }

  lemma TwoPagesReturn(s: State) returns (r: State)
    requires Inv(s) && |s.zones| == 1 && s.zones[0].Frames() == 2 && s.lists == map[0 := [Page(0, 0), Page(0, 1)]]
    ensures Moves(s, OpFreePages(0), r) && FreeAll(s, 0).1 == 1
    ensures Page(0, 1) in r.place && r.place[Page(0, 1)] == Lost
  {
    r := FreeAll(s, 0).0;
    FreeAllSound(s, 0);
    OneOfTwoCounts(s, 0);
    assert Page(0, 1) == s.lists[0][1];
    FreedIsLostIff(s, 0, Page(0, 1));
  }

  lemma OneOfTwoCounts(s: State, l: nat)
    requires Inv(s) && |s.zones| == 1 && s.zones[0].Frames() == 2 && l in s.lists
    requires s.lists[l] == [Page(0, 0), Page(0, 1)]
    ensures FreeAll(s, l).1 == 1
  {
    FreeAllMeaning(s, l, 0);
    OneOfTwoAccepted(s, s.lists[l]);
  }

  lemma OneOfTwoAccepted(s: State, t: seq<Page>)
    requires |s.zones| == 1 && s.zones[0].Frames() == 2 && t == [Page(0, 0), Page(0, 1)]
    ensures AcceptedCount(s, t) == 1
  {
    assert t[1..] == [Page(0, 1)] && t[1..][1..] == [];
    assert !Accepted(s, Page(0, 1)) && AcceptedCount(s, t[1..]) == AcceptedCount(s, t[1..][1..]) == 0;
    assert Accepted(s, Page(0, 0)) && AcceptedCount(s, t) == AcceptedCount(s, t[1..]) + 1;
  }

  /* ---- a range past the end of a page array ---- */

  /** A zone of one page and a half: a range of two frames from its start takes the page and then
      reads the array entry after the only one. */
  lemma HalfPageIsReached(base: nat, brk: nat) returns (s0: State, s1: State, s2: State)
    requires base % PAGE_SIZE == 0 && base + 0x1800 <= TWO_64 && RoomFor(brk, PAGE_STRUCT)
    ensures s0 == EMPTY.(brk := brk)
    ensures Moves(s0, OpAddZone(base, 0x1800), s1) && Moves(s1, OpNewList(0), s2)
    ensures OutOfArray(s2, 0, base, 2, 0)
  {
    s0, s1, s2 := ZoneAndList(base, 0x1800, brk);
    HalfPageEnds(s2, base);
  }

  lemma HalfPageEnds(s: State, base: nat)
    requires Inv(s) && |s.zones| == 1 && s.zones[0].base == base && s.zones[0].size == 0x1800
    requires base % PAGE_SIZE == 0 && s.zones[0].free == NewPages(0, 1) && 0 in s.lists
    ensures OutOfArray(s, 0, base, 2, 0)
  {
    InvLaws(s);
    InvRings(s);
    assert ZoneOk(s, 0);
    assert Page(0, 0) in s.zones[0].free;
    OwnerIsUnique(s, 0, base);
    BeyondIsNotFree(s, 0, base + PAGE_SIZE);
    assert EndsBeyond(s, 0, base + PAGE_SIZE, 1);
    OutOfArrayIff(s, 0, base, 2, 0);
  }

  /* ---- a page pointer that was never set ---- */

  /** An allocator without zones and a list: asking for one page comes to use the unset pointer. */
  lemma StrayIsReached(brk: nat) returns (states: seq<State>, ops: seq<Op>)
    ensures ops == [OpNewList(0)] && IsRun(states, ops)
    ensures Inv(states[1]) && 0 in states[1].lists && AllocPages(states[1], 1, 0).Stray?
  {
    var s := EMPTY.(brk := brk);
    EmptyInv(brk);
    ops := [OpNewList(0)];
    states := [s, Step(s, OpNewList(0))];
    AllocPagesMeaning(states[1], 1, 0);
  }

  /* ---- two zones of one page ---- */

  lemma OnePageAdded(s: State, base: nat)
    requires s.brk % 8 == 0 && RoomFor(s.brk, PAGE_STRUCT)
    ensures var z := |s.zones|;
            AddZone(s, base, PAGE_SIZE) ==
            State(s.zones + [Zone(base, PAGE_SIZE, s.brk, [Page(z, 0)], [false])], s.lists,
                  s.place[Page(z, 0) := InFree], s.brk + PAGE_STRUCT)
  {
    OnePageEnd(s.brk);
    var z, r := |s.zones|, AddZone(s, base, PAGE_SIZE);
    assert r.zones[z].free == [Page(z, 0)] && r.zones[z].nonfree == [false];
    assert r.place == s.place[Page(z, 0) := InFree];
  }

  lemma OnePageEnd(brk: nat)
    requires brk % 8 == 0 && RoomFor(brk, PAGE_STRUCT)
    ensures BallocAt(brk) == brk && BallocEnd(brk, PAGE_STRUCT) == brk + PAGE_STRUCT && (brk + PAGE_STRUCT) % 8 == 0
  {
    BallocIsApart(brk, PAGE_STRUCT);
    EightsAdd(brk, PAGE_STRUCT);
    SameEight(brk, BallocAt(brk));
    SameEight(brk + PAGE_STRUCT, BallocEnd(brk, PAGE_STRUCT));
  }

  lemma SameEight(a: nat, b: nat)
    requires a % 8 == 0 && b % 8 == 0 && a <= b < a + 8
    ensures a == b
  {
  }

  lemma RoomForBoth(at: nat)
    requires RoomFor(at, 2 * PAGE_STRUCT)
    ensures RoomFor(at, PAGE_STRUCT) && RoomFor(at + PAGE_STRUCT, PAGE_STRUCT)
  {
    assert (at + PAGE_STRUCT + 7) / 8 == (at + 7) / 8 + 3;
  }

  lemma TwoPagesAdded(base0: nat, base1: nat, at: nat, s: State)
    requires at % 8 == 0 && RoomFor(at, 2 * PAGE_STRUCT) && s == AddZone(EMPTY.(brk := at), base0, PAGE_SIZE)
    ensures s.brk == at + PAGE_STRUCT && RoomFor(s.brk, PAGE_STRUCT)
    ensures AddZone(s, base1, PAGE_SIZE).(lists := map[0 := []]) == TwoPages(base0, base1, at)
  {
    RoomForBoth(at);
    OnePageEnd(at);
    OnePageAdded(EMPTY.(brk := at), base0);
    OnePageAdded(s, base1);
  }

  /** They are reached from an allocator without any. */
  lemma TwoPagesAreReached(base0: nat, base1: nat, at: nat) returns (states: seq<State>, ops: seq<Op>)
    requires base0 + PAGE_SIZE <= TWO_64 && base1 + PAGE_SIZE <= TWO_64 && at % 8 == 0 && RoomFor(at, 2 * PAGE_STRUCT)
    ensures ops == [OpAddZone(base0, PAGE_SIZE), OpAddZone(base1, PAGE_SIZE), OpNewList(0)] && IsRun(states, ops)
    ensures states[3] == TwoPages(base0, base1, at)
  {
    var s0 := EMPTY.(brk := at);
    EmptyInv(at);
    RoomForBoth(at);
    var s1 := Step(s0, OpAddZone(base0, PAGE_SIZE));
    TwoPagesAdded(base0, base1, at, s1);
    var s2 := Step(s1, OpAddZone(base1, PAGE_SIZE));
    var s3 := Step(s2, OpNewList(0));
    ops := [OpAddZone(base0, PAGE_SIZE), OpAddZone(base1, PAGE_SIZE), OpNewList(0)];
    states := [s0, s1, s2, s3];
  }

  /** With the higher zone added first, a range is then cut short (`HighFirstIsCutShort`). */
  lemma HighFirstIsReached() returns (states: seq<State>, ops: seq<Op>)
    ensures ops == [OpAddZone(0x2000, PAGE_SIZE), OpAddZone(0x1000, PAGE_SIZE), OpNewList(0)] && IsRun(states, ops)
    ensures states[3] == HIGH_FIRST && Inv(states[3]) && Enabled(states[3], OpAllocRange(0x1000, 2, 0))
    ensures |Received(states[3], OpAllocRange(0x1000, 2, 0))| == 1 && LongestFree(states[3], 0x1000, 2) == 2
  {
    states, ops := TwoPagesAreReached(0x2000, 0x1000, 0x10_0000);
    HighFirstGrants();
  }

  lemma HighFirstGrants()
    ensures Inv(HIGH_FIRST) && Enabled(HIGH_FIRST, OpAllocRange(0x1000, 2, 0))
    ensures |Received(HIGH_FIRST, OpAllocRange(0x1000, 2, 0))| == 1 && LongestFree(HIGH_FIRST, 0x1000, 2) == 2
  {
    assert PageBase(0x1000) == 0x1000;
    HighFirstIsCutShort();
    WholePagesAreSafe(HIGH_FIRST, 0x1000, 2, 0);
    RangeReceives(HIGH_FIRST, 0x1000, 2, 0);
  }

  /** With the boot allocations at the second zone's address, its page is then found again through the
      first zone (`FoundThroughAnother`). */
  lemma FoundThroughAnotherIsReached() returns (states: seq<State>, ops: seq<Op>)
    ensures ops == [OpAddZone(0x1000, PAGE_SIZE), OpAddZone(0x2000, PAGE_SIZE), OpNewList(0)] && IsRun(states, ops)
    ensures WindowZone(states[3].zones, 0x2000, 0) == Some(0)
    ensures IsPage(states[3], Page(1, 0)) && LeadsBack(states[3], 0x2000, PageAddr(states[3], Page(1, 0)))
  {
    states, ops := TwoPagesAreReached(0x1000, 0x2000, 0x2000);
    FoundThroughAnother();
  }
}
