/** The boot-information block: its tags, the memory map in them, and what the kernel records of it. */
module BootInfo {
  import opened Bits
  import opened Rounding

  const TAG_END: nat := 0
  const TAG_MMAP: nat := 6
  const AVAILABLE: nat := 1
  const HIGHMEM_PADDR: nat := 0x10_0000
  const MAX_ZONES: nat := 10

  datatype Entry = Entry(addr: nat, len: nat, kind: nat, zero: nat)
  datatype PhysZone = PhysZone(base: nat, size: nat)

  /** The table before anything is written to it. */
  function ClearTable(): (zones: seq<PhysZone>)
    ensures |zones| == MAX_ZONES && forall k :: 0 <= k < MAX_ZONES ==> zones[k] == PhysZone(0, 0)
  {
    seq(MAX_ZONES, _ => PhysZone(0, 0))
  }

  /* ---- What the block says, by offsets from its start ---- */

  /** The block in memory: the 32-bit and the 64-bit value at each offset. */
  datatype Block = Block(w32: nat -> Word, w64: nat -> Quad)

  function EntryAt(block: Block, a: nat): Entry {
    Entry(block.w64(a), block.w64(a + 8), block.w32(a + 16), block.w32(a + 20))
  }

  /** The entries that begin below `e`, 24 bytes each. */
  function Entries(block: Block, s: nat, e: nat): (r: seq<Entry>)
    decreases if s < e then e - s else 0
  {
    if s < e then [EntryAt(block, s)] + Entries(block, s + 24, e) else []
  }

  function Kind(block: Block, tag: nat): Word { block.w32(tag) }
  function Size(block: Block, tag: nat): Word { block.w32(tag + 4) }

  /** The tag after this one: tags are padded to 8 bytes. */
  function Next(block: Block, tag: nat): (r: nat)
    ensures tag + Size(block, tag) <= r < tag + Size(block, tag) + 8
  {
    tag + (Size(block, tag) + 7) / 8 * 8
  }

  /** The step of the tag cursor, by mask. */
  method Advance(block: Block, tag: nat) returns (next: nat)
    ensures next == Next(block, tag)
  {
    RoundEight(Size(block, tag));
    next := tag + RoundUp(Size(block, tag), 8);
  }

  function MapOf(block: Block, tag: nat): seq<Entry> {
    Entries(block, tag + 16, tag + Size(block, tag))
  }

  /** The tag after `n` steps of the walk. */
  ghost function Cursor(block: Block, tag: nat, n: nat): nat
    decreases n
  {
    if n == 0 then tag else Cursor(block, Next(block, tag), n - 1)
  }

  /** The walk ends: after some number of steps its loop condition fails. */
  ghost predicate Stops(block: Block, tag: nat, end: nat) {
    exists n: nat :: Cursor(block, tag, n) >= end || Kind(block, Cursor(block, tag, n)) == TAG_END
  }

  /** Every tag visited has a size. */
  ghost predicate TagsSized(block: Block, tag: nat, end: nat)
    decreases if tag < end then end - tag else 0
  {
    tag < end && Kind(block, tag) != TAG_END ==> Size(block, tag) > 0 && TagsSized(block, Next(block, tag), end)
  }

  lemma {:induction false} StaysPut(block: Block, tag: nat, n: nat)
    requires Size(block, tag) == 0
    ensures Cursor(block, tag, n) == tag
  {
    if n > 0 {
      StaysPut(block, tag, n - 1);
    }
  }

  lemma StopsAfter(block: Block, tag: nat, end: nat)
    requires tag < end && Kind(block, tag) != TAG_END
    ensures Stops(block, tag, end) <==> Stops(block, Next(block, tag), end)
  {
    var next := Next(block, tag);
    if Stops(block, tag, end) {
      var n: nat :| Cursor(block, tag, n) >= end || Kind(block, Cursor(block, tag, n)) == TAG_END;
      assert Cursor(block, tag, n) == Cursor(block, next, n - 1);
    }
    if Stops(block, next, end) {
      var n: nat :| Cursor(block, next, n) >= end || Kind(block, Cursor(block, next, n)) == TAG_END;
      assert Cursor(block, tag, n + 1) == Cursor(block, next, n);
    }
  }

  /** The walk ends exactly when every tag it visits has a size: at one of size 0 it stands still. */
  lemma {:induction false} StopsIffSized(block: Block, tag: nat, end: nat)
    ensures Stops(block, tag, end) <==> TagsSized(block, tag, end)
    decreases if tag < end then end - tag else 0
  {
    if tag >= end || Kind(block, tag) == TAG_END {
      assert Cursor(block, tag, 0) == tag;
    } else if Size(block, tag) == 0 {
      forall n: nat ensures Cursor(block, tag, n) == tag {
        StaysPut(block, tag, n);
      }
    } else {
      StopsAfter(block, tag, end);
      StopsIffSized(block, Next(block, tag), end);
    }
  }

  /** A block of 16 bytes with one tag, of a kind that is skipped and of size 0. */
  function NoSizeBlock(): Block {
    Block((a: nat) => if a == 0 then 16 else if a == 8 then 1 else 0, (a: nat) => 0)
  }

  /** There the walk does not end. */
  lemma NoSizeNoEnd()
    ensures NoSizeBlock().w32(0) == 16 && Maps(NoSizeBlock(), 8, 16) == [] && !Stops(NoSizeBlock(), 8, 16)
  {
    StopsIffSized(NoSizeBlock(), 8, 16);
  }

  /** The memory maps in the tags from one on, in order. */
  function Maps(block: Block, tag: nat, end: nat): seq<seq<Entry>>
    decreases if tag < end then end - tag else 0
  {
    if !(tag < end) || Kind(block, tag) == TAG_END || Size(block, tag) == 0 then []
    else (if Kind(block, tag) == TAG_MMAP then [MapOf(block, tag)] else []) + Maps(block, Next(block, tag), end)
  }

  /* ---- What is recorded ---- */

  predicate Qualifies(x: Entry) { x.kind == AVAILABLE && x.addr >= HIGHMEM_PADDR }

  /** The available regions from 1 MiB up, in order. */
  function High(es: seq<Entry>): (r: seq<PhysZone>)
    ensures forall k :: 0 <= k < |r| ==> r[k].base >= HIGHMEM_PADDR
  {
    if es == [] then []
    else (if Qualifies(es[0]) then [PhysZone(es[0].addr, es[0].len)] else []) + High(es[1..])
  }

  /** The length of the last region at address 0, cut to 32 bits. */
  function Lower(es: seq<Entry>, before: nat): nat {
    if es == [] then before else Lower(es[1..], if es[0].addr == 0 then es[0].len % TWO_32 else before)
  }

  function LowerOfMaps(maps: seq<seq<Entry>>, before: nat): nat {
    if maps == [] then before else LowerOfMaps(maps[1..], Lower(maps[0], before))
  }

  /** The regions of all maps, one after the other. */
  function AllHigh(maps: seq<seq<Entry>>): (r: seq<PhysZone>)
    ensures forall k :: 0 <= k < |r| ==> r[k].base >= HIGHMEM_PADDR
  {
    if maps == [] then [] else High(maps[0]) + AllHigh(maps[1..])
  }

  /** The table after each map was written to it from its start on. */
  function Recorded(zones: seq<PhysZone>, maps: seq<seq<Entry>>): seq<PhysZone>
    decreases maps
  {
    if maps == [] then zones else Recorded(Over(zones, High(maps[0])), maps[1..])
  }

  function Over(zones: seq<PhysZone>, h: seq<PhysZone>): (r: seq<PhysZone>)
    ensures |h| <= |zones| ==> |r| == |zones|
  {
    if |h| <= |zones| then h + zones[|h|..] else h
  }

  predicate Fit(maps: seq<seq<Entry>>) {
    forall m :: m in maps ==> |High(m)| <= MAX_ZONES
  }

  /** How the walk over the tags ends: at the end; with more regions in one map than the table has
      places; or not at all, at a tag of size 0. */
  datatype WalkEnd = Complete | Overrun | Endless

  /** The state recorded at boot. */
  class BootState {
    var memLower: nat
    var numHighZones: nat
    const zones: array<PhysZone>

    constructor ()
      ensures memLower == 0 && numHighZones == 0 && fresh(zones)
      ensures zones[..] == ClearTable()
    {
      memLower, numHighZones := 0, 0;
      zones := new PhysZone[MAX_ZONES](_ => PhysZone(0, 0));
    }

    /** `init_boot_state`.  The model stops where the source would write past the table, and where it
        would visit one tag for ever. */
    method InitBootState(block: Block) returns (how: WalkEnd)
      requires zones.Length == MAX_ZONES
      modifies this, zones
      ensures how.Overrun? <==> !Fit(Maps(block, 8, block.w32(0)))
      ensures how.Endless? <==> Fit(Maps(block, 8, block.w32(0))) && !Stops(block, 8, block.w32(0))
      ensures how.Complete? ==>
                var maps := Maps(block, 8, block.w32(0));
                && zones[..] == Recorded(old(zones[..]), maps)
                && numHighZones == old(numHighZones) + |AllHigh(maps)|
                && memLower == LowerOfMaps(maps, old(memLower))
      ensures how.Overrun? <==> exists m :: m in Maps(block, 8, block.w32(0)) && UsableIn(m, |m|) > 10
      ensures how.Complete? ==>
                var es := AllEntries(Maps(block, 8, block.w32(0)));
                numHighZones == old(numHighZones) + UsableIn(es, |es|) && IsLowSize(memLower, es, old(memLower))
    {
      var tag, end := 8, block.w32(0);
      StopsIffSized(block, tag, end);
      MapsInEntries(Maps(block, tag, end), memLower);
      ghost var all, rest := Maps(block, 8, end), Maps(block, 8, end);
      while tag < end && Kind(block, tag) != TAG_END
        invariant TagsSized(block, tag, end) == TagsSized(block, 8, end)
        invariant rest == Maps(block, tag, end) && Fit(rest) == Fit(all)
        invariant Recorded(old(zones[..]), all) == Recorded(zones[..], rest)
        invariant numHighZones + |AllHigh(rest)| == old(numHighZones) + |AllHigh(all)|
        invariant LowerOfMaps(all, old(memLower)) == LowerOfMaps(rest, memLower)
        decreases if tag < end then end - tag else 0
      {
        if Size(block, tag) == 0 {
          return Endless;
        }
        rest := MapsStep(block, tag, end, zones[..], memLower);
        var overrun := ReadTag(block, tag);
        if overrun {
          return Overrun;
        }
        tag := Advance(block, tag);
      }
      how := Complete;
    }

    /** One tag: a memory map is read, any other kind is skipped. */
    method ReadTag(block: Block, tag: nat) returns (overrun: bool)
      requires zones.Length == MAX_ZONES
      modifies this, zones
      ensures overrun <==> |MapHigh(block, tag)| > MAX_ZONES
      ensures !overrun ==>
                var h := MapHigh(block, tag);
                && zones[..] == Over(old(zones[..]), h) && numHighZones == old(numHighZones) + |h|
                && memLower == MapLower(block, tag, old(memLower))
    {
      overrun := false;
      if Kind(block, tag) == TAG_MMAP {
        overrun := ReadMap(block, tag + 16, tag + Size(block, tag));
      } else {
        assert zones[..] == [] + zones[..][0..];
      }
    }

    /** The entries of one memory-map tag, from `s` up to `e`. */
    method ReadMap(block: Block, s: nat, e: nat) returns (overrun: bool)
      requires zones.Length == MAX_ZONES
      modifies this, zones
      ensures overrun <==> |High(Entries(block, s, e))| > MAX_ZONES
      ensures !overrun ==>
                && zones[..] == Over(old(zones[..]), High(Entries(block, s, e)))
                && numHighZones == old(numHighZones) + |High(Entries(block, s, e))|
                && memLower == Lower(Entries(block, s, e), old(memLower))
      ensures overrun <==> UsableIn(Entries(block, s, e), |Entries(block, s, e)|) > 10
      ensures !overrun ==>
                IsMapRead(Entries(block, s, e), Values(old(zones[..]), old(numHighZones), old(memLower)),
                          Values(zones[..], numHighZones, memLower))
    {
      MapIsRead(Entries(block, s, e), Values(zones[..], numHighZones, memLower));
      overrun := ReadEntries(block, s, e);
    }

    /** The loop over the entries. */
    method ReadEntries(block: Block, s: nat, e: nat) returns (overrun: bool)
      requires zones.Length == MAX_ZONES
      modifies this, zones
      ensures overrun <==> |High(Entries(block, s, e))| > MAX_ZONES
      ensures !overrun ==>
                && zones[..] == Over(old(zones[..]), High(Entries(block, s, e)))
                && numHighZones == old(numHighZones) + |High(Entries(block, s, e))|
                && memLower == Lower(Entries(block, s, e), old(memLower))
    {
      ghost var all := Entries(block, s, e);
      ghost var was := Values(zones[..], numHighZones, memLower);
      NothingRead(all, was);
      var mmap, count: nat := s, 0;
      while mmap < e
        invariant count <= MAX_ZONES
        invariant LeftToRead(all, Entries(block, mmap, e), count, was, Values(zones[..], numHighZones, memLower))
        decreases if mmap < e then e - mmap else 0
      {
        count, overrun := ReadNext(block, mmap, e, count, all, was);
        if overrun {
          return;
        }
        mmap := mmap + 24;
      }
      AllRead(all, count, was, Values(zones[..], numHighZones, memLower));
      overrun := false;
    }

    /** One round of that loop. */
    method ReadNext(block: Block, mmap: nat, e: nat, count: nat, ghost all: seq<Entry>, ghost was: Values)
      returns (n: nat, overrun: bool)
      requires zones.Length == MAX_ZONES && mmap < e && count <= MAX_ZONES && |was.zones| == MAX_ZONES
      requires LeftToRead(all, Entries(block, mmap, e), count, was, Values(zones[..], numHighZones, memLower))
      modifies this, zones
      ensures overrun ==> |High(all)| > MAX_ZONES
      ensures !overrun ==>
                && n <= MAX_ZONES
                && LeftToRead(all, Entries(block, mmap + 24, e), n, was, Values(zones[..], numHighZones, memLower))
    {
      var x := EntryAt(block, mmap);
      ghost var rest, before := Entries(block, mmap + 24, e), Values(zones[..], numHighZones, memLower);
      n, overrun := ReadEntry(x, count, High(rest));
      if overrun {
        TooManyRead(all, x, rest, count, was, before);
      } else {
        OneMoreRead(all, x, rest, count, n, was, before, Values(zones[..], numHighZones, memLower));
      }
    }

    /** One entry, the next free place in the table being `count`; with none left, it would be written
        past the table. */
    method ReadEntry(x: Entry, count: nat, ghost more: seq<PhysZone>) returns (n: nat, overrun: bool)
      requires zones.Length == MAX_ZONES && count <= MAX_ZONES
      modifies this, zones
      ensures overrun <==> count + |High([x])| > MAX_ZONES
      ensures !overrun ==>
                && n == count + |High([x])| && numHighZones == old(numHighZones) + |High([x])|
                && Put(zones[..], n, more) == Put(old(zones[..]), count, High([x]) + more)
                && memLower == Lower([x], old(memLower))
    {
      n, overrun := count, false;
      if x.addr == 0 {
        memLower := x.len % TWO_32;
      }
      if x.kind == AVAILABLE && x.addr >= HIGHMEM_PADDR {
        if n == zones.Length {
          overrun := true;
          return;
        }
        zones[n] := PhysZone(x.addr, x.len);
        assert zones[..] == old(zones[..])[n := PhysZone(x.addr, x.len)];
        assert (High([x]) + more)[1..] == more;
        n := n + 1;
        numHighZones := numHighZones + 1;
      } else {
        assert High([x]) + more == more;
      }
    }
  }

  /** What one tag adds. */
  function MapHigh(block: Block, tag: nat): seq<PhysZone> {
    if Kind(block, tag) == TAG_MMAP then High(MapOf(block, tag)) else []
  }

  function MapLower(block: Block, tag: nat, before: nat): nat {
    if Kind(block, tag) == TAG_MMAP then Lower(MapOf(block, tag), before) else before
  }

  /** One tag of the walk, and the maps in the tags after it. */
  lemma MapsStep(block: Block, tag: nat, end: nat, zones: seq<PhysZone>, lower: nat) returns (more: seq<seq<Entry>>)
    requires tag < end && Kind(block, tag) != TAG_END && Size(block, tag) > 0
    ensures more == Maps(block, Next(block, tag), end)
    ensures TagsSized(block, tag, end) == TagsSized(block, Next(block, tag), end)
    ensures var maps, h := Maps(block, tag, end), MapHigh(block, tag);
            && (Fit(maps) <==> |h| <= MAX_ZONES && Fit(more))
            && |AllHigh(maps)| == |h| + |AllHigh(more)|
            && Recorded(zones, maps) == Recorded(Over(zones, h), more)
            && LowerOfMaps(maps, lower) == LowerOfMaps(more, MapLower(block, tag, lower))
  {
    var maps, m := Maps(block, tag, end), MapOf(block, tag);
    more := Maps(block, Next(block, tag), end);
    if Kind(block, tag) == TAG_MMAP {
      assert maps == [m] + more;
      assert forall x :: x in maps <==> x == m || x in more;
      assert maps[1..] == more;
    } else {
      assert maps == more;
      assert Over(zones, []) == zones;
    }
  }

  lemma FirstEntry(x: Entry, rest: seq<Entry>, before: nat)
    ensures High([x] + rest) == High([x]) + High(rest)
    ensures Lower([x] + rest, before) == Lower(rest, Lower([x], before))
  {
    assert ([x] + rest)[0] == x && ([x] + rest)[1..] == rest;
  }

  /** The values of the recorded state. */
  datatype Values = Values(zones: seq<PhysZone>, count: nat, lower: nat)

  /** Reading the rest of the entries, with `n` regions in the table, leads where reading all did; shut. */
  ghost predicate LeftToRead(all: seq<Entry>, rest: seq<Entry>, n: nat, was: Values, now: Values) {
    forall k: nat :: Open(now, k) ==>
      && n + |High(rest)| == |High(all)| && now.count == was.count + n
      && |now.zones| == |was.zones| && Put(now.zones, n, High(rest)) == Put(was.zones, 0, High(all))
      && Lower(rest, now.lower) == Lower(all, was.lower)
  }

  lemma NothingRead(all: seq<Entry>, was: Values)
    ensures LeftToRead(all, all, 0, was, was)
  {
  }

  lemma OneMoreRead(all: seq<Entry>, x: Entry, rest: seq<Entry>, m: nat, n: nat, was: Values, mid: Values, now: Values)
    requires LeftToRead(all, [x] + rest, m, was, mid)
    requires n == m + |High([x])| && now.count == mid.count + |High([x])| && now.lower == Lower([x], mid.lower)
    requires |now.zones| == |mid.zones| && Put(now.zones, n, High(rest)) == Put(mid.zones, m, High([x]) + High(rest))
    ensures LeftToRead(all, rest, n, was, now)
  {
    assert Open(mid, 0);
    FirstEntry(x, rest, mid.lower);
  }

  lemma TooManyRead(all: seq<Entry>, x: Entry, rest: seq<Entry>, n: nat, was: Values, now: Values)
    requires LeftToRead(all, [x] + rest, n, was, now)
    ensures n + |High([x])| <= |High(all)|
  {
    assert Open(now, 0);
    FirstEntry(x, rest, now.lower);
  }

  lemma AllRead(all: seq<Entry>, n: nat, was: Values, now: Values)
    requires LeftToRead(all, [], n, was, now) && n <= |was.zones|
    ensures n == |High(all)|
    ensures now == Values(Over(was.zones, High(all)), was.count + |High(all)|, Lower(all, was.lower))
  {
    assert Open(now, 0);
    PutAll(was.zones, High(all));
  }

  /** Regions put into the table from a place on. */
  function Put(zones: seq<PhysZone>, count: nat, h: seq<PhysZone>): (r: seq<PhysZone>)
    decreases h
  {
    if h == [] || count >= |zones| then zones else Put(zones[count := h[0]], count + 1, h[1..])
  }

  lemma {:induction false} PutIsOver(zones: seq<PhysZone>, count: nat, h: seq<PhysZone>)
    requires count + |h| <= |zones|
    ensures Put(zones, count, h) == zones[..count] + h + zones[count + |h|..]
    decreases h
  {
    if h == [] {
      assert zones == zones[..count] + [] + zones[count..];
    } else {
      var z := zones[count := h[0]];
      PutIsOver(z, count + 1, h[1..]);
      assert z[..count + 1] + h[1..] == zones[..count] + h;
      assert z[count + 1 + |h[1..]|..] == zones[count + |h|..];
    }
  }

  lemma PutAll(zones: seq<PhysZone>, h: seq<PhysZone>)
    requires |h| <= |zones|
    ensures Put(zones, 0, h) == Over(zones, h)
  {
    PutIsOver(zones, 0, h);
    assert zones[..0] + h == h;
  }

  /* ---- Which regions these are ---- */

  /** How many of the first `n` entries are of available memory from 1 MiB up. */
  function UsableIn(es: seq<Entry>, n: nat): nat
    requires n <= |es|
    decreases n
  {
    if n == 0 then 0 else UsableIn(es, n - 1) + if es[n - 1].kind == 1 && es[n - 1].addr >= 0x10_0000 then 1 else 0
  }

  lemma {:induction false} HighJoins(a: seq<Entry>, b: seq<Entry>)
    ensures High(a + b) == High(a) + High(b)
  {
    if a == [] {
      assert a + b == b;
    } else {
      assert a + b == [a[0]] + (a[1..] + b) && a == [a[0]] + a[1..];
      FirstEntry(a[0], a[1..] + b, 0);
      FirstEntry(a[0], a[1..], 0);
      HighJoins(a[1..], b);
    }
  }

  lemma {:induction false} HighNext(es: seq<Entry>, n: nat)
    requires n < |es|
    ensures High(es[..n + 1])
         == High(es[..n]) + if es[n].kind == 1 && es[n].addr >= 0x10_0000 then [PhysZone(es[n].addr, es[n].len)] else []
  {
    assert es[..n + 1] == es[..n] + [es[n]];
    HighJoins(es[..n], [es[n]]);
    assert [es[n]][1..] == [];
  }

  lemma {:induction false} HighCount(es: seq<Entry>, n: nat)
    requires n <= |es|
    ensures |High(es[..n])| == UsableIn(es, n)
  {
    if n > 0 {
      HighCount(es, n - 1);
      HighNext(es, n - 1);
    }
  }

  /** **What is recorded of a map**: as many regions as it has entries of type 1 from 1 MiB up, each with the
      address and the length of its entry, in their order. */
  lemma {:induction false} HighIs(es: seq<Entry>, k: nat)
    requires k < |es| && es[k].kind == 1 && es[k].addr >= 0x10_0000
    ensures |High(es)| == UsableIn(es, |es|) > UsableIn(es, k)
    ensures High(es)[UsableIn(es, k)] == PhysZone(es[k].addr, es[k].len)
  {
    assert es[..|es|] == es;
    HighCount(es, |es|);
    HighCount(es, k);
    HighNext(es, k);
    HighJoins(es[..k + 1], es[k + 1..]);
    assert es == es[..k + 1] + es[k + 1..];
  }

  lemma {:induction false} HighHas(es: seq<Entry>, z: PhysZone)
    ensures z in High(es) ==> Describes(es, z)
  {
    if es != [] {
      HighHas(es[1..], z);
      if z in High(es[1..]) {
        var k :| 0 <= k < |es[1..]| && es[1..][k].kind == 1 && es[1..][k].addr >= 0x10_0000
                 && z == PhysZone(es[1..][k].addr, es[1..][k].len);
        assert es[k + 1] == es[1..][k];
      }
    }
  }

  /** An entry of type 1 from 1 MiB up describes the region. */
  ghost predicate Describes(es: seq<Entry>, z: PhysZone) {
    exists k :: 0 <= k < |es| && es[k].kind == 1 && es[k].addr >= 0x10_0000 && z == PhysZone(es[k].addr, es[k].len)
  }

  /** A region is recorded exactly if some entry does. */
  lemma {:induction false} HighIff(es: seq<Entry>, z: PhysZone)
    ensures z in High(es) <==> Describes(es, z)
  {
    HighHas(es, z);
    if k :| 0 <= k < |es| && es[k].kind == 1 && es[k].addr >= 0x10_0000 && z == PhysZone(es[k].addr, es[k].len) {
      HighIs(es, k);
    }
  }

  /** The length, in 32 bits, of the last entry at address 0; what it was without one. */
  ghost predicate IsLowSize(low: nat, es: seq<Entry>, before: nat) {
    && ((forall k :: 0 <= k < |es| ==> es[k].addr != 0) ==> low == before)
    && forall k :: 0 <= k < |es| && es[k].addr == 0 && (forall j :: k < j < |es| ==> es[j].addr != 0) ==>
         low == es[k].len % 0x1_0000_0000
  }

  lemma {:induction false} LowerIs(es: seq<Entry>, before: nat)
    ensures IsLowSize(Lower(es, before), es, before)
  {
    if es != [] {
      var now := if es[0].addr == 0 then es[0].len % 0x1_0000_0000 else before;
      LowerIs(es[1..], now);
      assert Lower(es, before) == Lower(es[1..], now);
      assert forall k :: 0 <= k < |es[1..]| ==> es[1..][k] == es[k + 1];
      forall k | 0 <= k < |es| && es[k].addr == 0 && (forall j :: k < j < |es| ==> es[j].addr != 0)
        ensures Lower(es, before) == es[k].len % 0x1_0000_0000
      {
        if k > 0 {
          assert es[1..][k - 1] == es[k];
        }
      }
    }
  }

  /** From one state to the next a map with these entries was read: each usable entry has the place that is its
      number among them, what is beyond them is as it was, and they are counted. */
  ghost predicate IsMapRead(es: seq<Entry>, was: Values, now: Values) {
    && |now.zones| == |was.zones| && now.count == was.count + UsableIn(es, |es|)
    && IsLowSize(now.lower, es, was.lower)
    && (forall k :: 0 <= k < |es| && es[k].kind == 1 && es[k].addr >= 0x10_0000 ==>
          UsableIn(es, k) < |now.zones| && now.zones[UsableIn(es, k)] == PhysZone(es[k].addr, es[k].len))
    && (forall i :: UsableIn(es, |es|) <= i < |was.zones| ==> now.zones[i] == was.zones[i])
  }

  lemma {:induction false} MapIsRead(es: seq<Entry>, was: Values)
    ensures |High(es)| == UsableIn(es, |es|)
    ensures |High(es)| <= |was.zones| ==>
              IsMapRead(es, was, Values(Over(was.zones, High(es)), was.count + |High(es)|, Lower(es, was.lower)))
  {
    HighCountAll(es);
    LowerIs(es, was.lower);
    if |High(es)| <= |was.zones| {
      MapPlaces(es, was.zones, High(es), Over(was.zones, High(es)));
    }
  }

  lemma {:induction false} MapPlaces(es: seq<Entry>, was: seq<PhysZone>, h: seq<PhysZone>, now: seq<PhysZone>)
    requires h == High(es) && |h| <= |was| && now == h + was[|h|..]
    ensures forall k :: 0 <= k < |es| && es[k].kind == 1 && es[k].addr >= 0x10_0000 ==>
              UsableIn(es, k) < |now| && now[UsableIn(es, k)] == PhysZone(es[k].addr, es[k].len)
  {
    forall k | 0 <= k < |es| && es[k].kind == 1 && es[k].addr >= 0x10_0000
      ensures UsableIn(es, k) < |now| && now[UsableIn(es, k)] == PhysZone(es[k].addr, es[k].len)
    {
      HighIs(es, k);
    }
  }

  lemma {:induction false} MapsInEntries(maps: seq<seq<Entry>>, before: nat)
    ensures Fit(maps) <==> forall m :: m in maps ==> UsableIn(m, |m|) <= 10
    ensures |AllHigh(maps)| == UsableIn(AllEntries(maps), |AllEntries(maps)|)
    ensures IsLowSize(LowerOfMaps(maps, before), AllEntries(maps), before)
  {
    MapsTogether(maps, before);
    LowerIs(AllEntries(maps), before);
    HighCountAll(AllEntries(maps));
    forall m | m in maps ensures |High(m)| == UsableIn(m, |m|) {
      HighCountAll(m);
    }
  }

  lemma HighCountAll(es: seq<Entry>)
    ensures |High(es)| == UsableIn(es, |es|)
  {
    assert es[..|es|] == es;
    HighCount(es, |es|);
  }

  /** The entries of all maps, one map after the other. */
  function AllEntries(maps: seq<seq<Entry>>): seq<Entry> {
    if maps == [] then [] else maps[0] + AllEntries(maps[1..])
  }

  lemma {:induction false} LowerJoins(a: seq<Entry>, b: seq<Entry>, before: nat)
    ensures Lower(a + b, before) == Lower(b, Lower(a, before))
    decreases |a|
  {
    if a == [] {
      assert a + b == b;
    } else {
      assert a + b == [a[0]] + (a[1..] + b) && a == [a[0]] + a[1..];
      FirstEntry(a[0], a[1..] + b, before);
      FirstEntry(a[0], a[1..], before);
      LowerJoins(a[1..], b, Lower([a[0]], before));
    }
  }

  /** What is counted and what is noted of low memory are those of all entries together. */
  lemma {:induction false} MapsTogether(maps: seq<seq<Entry>>, before: nat)
    ensures AllHigh(maps) == High(AllEntries(maps)) && LowerOfMaps(maps, before) == Lower(AllEntries(maps), before)
    decreases |maps|
  {
    if maps != [] {
      HighJoins(maps[0], AllEntries(maps[1..]));
      LowerJoins(maps[0], AllEntries(maps[1..]), before);
      MapsTogether(maps[1..], Lower(maps[0], before));
    }
  }

  /** Place `k` of the table in the end: the region number `k` of the last map that has so many, or what was there. */
  lemma {:induction false} RecordedAt(zones: seq<PhysZone>, maps: seq<seq<Entry>>, k: nat)
    requires |zones| == MAX_ZONES && Fit(maps) && k < MAX_ZONES
    ensures |Recorded(zones, maps)| == MAX_ZONES
    ensures (forall i :: 0 <= i < |maps| ==> |High(maps[i])| <= k) ==> Recorded(zones, maps)[k] == zones[k]
    ensures forall i ::
              0 <= i < |maps| && |High(maps[i])| > k && (forall j :: i < j < |maps| ==> |High(maps[j])| <= k) ==>
                Recorded(zones, maps)[k] == High(maps[i])[k]
    decreases |maps|
  {
    if maps != [] {
      assert maps[0] in maps;
      var now := Over(zones, High(maps[0]));
      RecordedAt(now, maps[1..], k);
      forall i | 0 <= i < |maps| && |High(maps[i])| > k && (forall j :: i < j < |maps| ==> |High(maps[j])| <= k)
        ensures Recorded(zones, maps)[k] == High(maps[i])[k]
      {
        if i > 0 {
          assert maps[1..][i - 1] == maps[i];
        }
      }
    }
  }

  /* ---- When what is recorded is what the block says ---- */

  predicate AtMostOne(maps: seq<seq<Entry>>) {
    forall i, j :: 0 <= i < j < |maps| ==> High(maps[i]) == [] || High(maps[j]) == []
  }

  function Longest(maps: seq<seq<Entry>>): (r: nat)
    ensures forall m :: m in maps ==> |High(m)| <= r
    ensures r <= |AllHigh(maps)|
  {
    if maps == [] then 0
    else
      var r := Longest(maps[1..]);
      assert forall m :: m in maps ==> m == maps[0] || m in maps[1..];
      if r < |High(maps[0])| then |High(maps[0])| else r
  }

  /** If no other map has regions, the table holds this one's. */
  lemma {:induction false} NothingMore(zones: seq<PhysZone>, maps: seq<seq<Entry>>)
    requires forall m :: m in maps ==> High(m) == []
    ensures Recorded(zones, maps) == zones && AllHigh(maps) == []
  {
    if maps != [] {
      assert maps[0] in maps;
      assert Over(zones, []) == zones;
      NothingMore(zones, maps[1..]);
    }
  }

  lemma {:induction false} OneMapIsKept(zones: seq<PhysZone>, maps: seq<seq<Entry>>)
    requires |zones| == MAX_ZONES && Fit(maps) && AtMostOne(maps)
    ensures |AllHigh(maps)| <= MAX_ZONES && AllHigh(maps) <= Recorded(zones, maps)
  {
    if maps != [] {
      assert maps[0] in maps;
      var h := High(maps[0]);
      if h == [] {
        assert Over(zones, h) == zones;
        OneMapIsKept(zones, maps[1..]);
      } else {
        forall m | m in maps[1..] ensures High(m) == [] {
          var j :| 0 <= j < |maps[1..]| && maps[1..][j] == m;
          assert maps[j + 1] == m;
        }
        NothingMore(Over(zones, h), maps[1..]);
      }
    }
  }

  /** Beyond the longest map the table stays as it was. */
  lemma {:induction false} BeyondLongest(zones: seq<PhysZone>, maps: seq<seq<Entry>>)
    requires |zones| == MAX_ZONES && Fit(maps)
    ensures |Recorded(zones, maps)| == MAX_ZONES && Longest(maps) <= MAX_ZONES
    ensures forall k :: Longest(maps) <= k < MAX_ZONES ==> Recorded(zones, maps)[k] == zones[k]
    decreases maps
  {
    if maps != [] {
      assert maps[0] in maps;
      BeyondLongest(Over(zones, High(maps[0])), maps[1..]);
    }
  }

  /** If all regions together are no more than those of one map, no other map has any. */
  lemma {:induction false} LongestIsAll(maps: seq<seq<Entry>>)
    requires |AllHigh(maps)| <= Longest(maps)
    ensures AtMostOne(maps)
  {
    if maps != [] {
      var rest := maps[1..];
      if High(maps[0]) == [] {
        LongestIsAll(rest);
      } else {
        assert Longest(rest) <= |AllHigh(rest)| == 0;
      }
      forall i, j | 0 <= i < j < |maps| ensures High(maps[i]) == [] || High(maps[j]) == [] {
        assert maps[j] == rest[j - 1] && rest[j - 1] in rest;
        assert i > 0 ==> maps[i] == rest[i - 1];
      }
    }
  }

  /** The table, cleared at first, ends up with exactly the available regions from 1 MiB up, in order,
      if and only if at most one of the memory maps has any: the position in the table starts again
      with every map, but the number of regions does not. */
  lemma RecordedExactlyIff(maps: seq<seq<Entry>>)
    requires Fit(maps)
    ensures |Recorded(ClearTable(), maps)| == MAX_ZONES
    ensures (|AllHigh(maps)| <= MAX_ZONES && Recorded(ClearTable(), maps)[..|AllHigh(maps)|] == AllHigh(maps))
       <==> AtMostOne(maps)
  {
    var zones := Recorded(ClearTable(), maps);
    BeyondLongest(ClearTable(), maps);
    if AtMostOne(maps) {
      OneMapIsKept(ClearTable(), maps);
    } else {
      var k := Longest(maps);
      if |AllHigh(maps)| <= k {
        LongestIsAll(maps);
      } else if |AllHigh(maps)| <= |zones| {
        assert zones[k] == ClearTable()[k] && AllHigh(maps)[k].base >= HIGHMEM_PADDR;
        assert zones[..|AllHigh(maps)|][k] != AllHigh(maps)[k];
      }
    }
  }

  /** A map of one region of available memory. */
  function OneRegion(r: PhysZone): (m: seq<Entry>)
    ensures r.base >= HIGHMEM_PADDR ==> High(m) == [r]
  {
    var m := [Entry(r.base, r.size, AVAILABLE, 0)];
    assert m[1..] == [];
    m
  }

  /** Two maps with one region each: the second is recorded over the first, and counted after it. */
  lemma SecondMapOverwrites()
    ensures var low, high := PhysZone(0x10_0000, 0x1000), PhysZone(0x20_0000, 0x1000);
            var maps := [OneRegion(low), OneRegion(high)];
            && Fit(maps) && AllHigh(maps) == [low, high]
            && Recorded(ClearTable(), maps) == [high] + ClearTable()[1..]
  {
    var low, high := PhysZone(0x10_0000, 0x1000), PhysZone(0x20_0000, 0x1000);
    var maps := [OneRegion(low), OneRegion(high)];
    assert maps[1..] == [OneRegion(high)] && maps[1..][1..] == [];
    assert AllHigh(maps[1..]) == [high];
    assert Recorded(ClearTable(), maps) == Recorded(Over(Over(ClearTable(), [low]), [high]), []);
  }
}
