/** The layout of the boot-information block (Multiboot2 Specification, sections 3.6.2 and 3.6.8),
    and what the kernel records of a block laid out so. */
module BootBlock {
  import opened Bits
  import opened Bytes
  import opened BootInfo

  /** A tag of the block; the padding takes it to a multiple of 8 bytes. */
  datatype Tag =
    | MapTag(version: nat, entries: seq<Entry>)
    | OtherTag(kind: nat, body: seq<Byte>, padding: seq<Byte>)

  predicate IsEntry(x: Entry) {
    x.addr < TWO_64 && x.len < TWO_64 && x.kind < TWO_32 && x.zero < TWO_32
  }

  predicate IsTag(t: Tag) {
    match t
    case MapTag(version, entries) =>
      version < TWO_32 && 16 + 24 * |entries| < TWO_32 && forall x :: x in entries ==> IsEntry(x)
    case OtherTag(kind, body, padding) =>
      && kind < TWO_32 && kind != TAG_END && kind != TAG_MMAP
      && 8 + |body| < TWO_32 && |padding| < 8 && (8 + |body| + |padding|) % 8 == 0
  }

  function EntryBytes(x: Entry): seq<Byte> { Le(x.addr, 8) + (Le(x.len, 8) + (Le(x.kind, 4) + Le(x.zero, 4))) }

  function EntriesBytes(es: seq<Entry>): (r: seq<Byte>)
    ensures |r| == 24 * |es|
  {
    if es == [] then [] else EntryBytes(es[0]) + EntriesBytes(es[1..])
  }

  function Head(kind: nat, size: nat): (r: seq<Byte>)
    ensures |r| == 8
  {
    Le(kind, 4) + Le(size, 4)
  }

  function TagBytes(t: Tag): seq<Byte> {
    match t
    case MapTag(version, entries) => Head(6, 16 + 24 * |entries|) + (Head(24, version) + EntriesBytes(entries))
    case OtherTag(kind, body, padding) => Head(kind, 8 + |body|) + (body + padding)
  }

  function TagsBytes(ts: seq<Tag>): seq<Byte> {
    if ts == [] then Head(0, 8) else TagBytes(ts[0]) + TagsBytes(ts[1..])
  }

  /** The whole block: its size, a reserved word, and the tags with the end tag. */
  function InfoBytes(reserved: nat, ts: seq<Tag>): seq<Byte> {
    Head(8 + |TagsBytes(ts)|, reserved) + TagsBytes(ts)
  }

  function MapsIn(ts: seq<Tag>): seq<seq<Entry>> {
    if ts == [] then [] else (if ts[0].MapTag? then [ts[0].entries] else []) + MapsIn(ts[1..])
  }

  /** A block in byte-addressed memory. */
  function BlockOf(ram: Ram): Block { Block((a: nat) => Bytes.Word32(ram, a), (a: nat) => Bytes.Word64(ram, a)) }

  lemma HeadReads(ram: Ram, a: nat, kind: nat, size: nat)
    requires Holds(ram, a, Head(kind, size)) && kind < TWO_32
    ensures BlockOf(ram).w32(a) == kind
    ensures size < TWO_32 ==> BlockOf(ram).w32(a + 4) == size
  {
    HoldsParts(ram, a, Le(kind, 4), Le(size, 4));
    WordOfLe(ram, a, kind);
    WordOfLe(ram, a + 4, size);
  }

  lemma EntryReads(ram: Ram, a: nat, x: Entry)
    requires Holds(ram, a, EntryBytes(x)) && IsEntry(x)
    ensures EntryAt(BlockOf(ram), a) == x
  {
    var last := Le(x.kind, 4) + Le(x.zero, 4);
    HoldsParts(ram, a, Le(x.addr, 8), Le(x.len, 8) + last);
    HoldsParts(ram, a + 8, Le(x.len, 8), last);
    HoldsParts(ram, a + 16, Le(x.kind, 4), Le(x.zero, 4));
    WordOfLe(ram, a, x.addr);
    WordOfLe(ram, a + 8, x.len);
    WordOfLe(ram, a + 16, x.kind);
    WordOfLe(ram, a + 20, x.zero);
  }

  lemma {:induction false} EntriesRead(ram: Ram, a: nat, es: seq<Entry>)
    requires Holds(ram, a, EntriesBytes(es)) && forall x :: x in es ==> IsEntry(x)
    ensures Entries(BlockOf(ram), a, a + 24 * |es|) == es
    decreases es
  {
    if es != [] {
      HoldsParts(ram, a, EntryBytes(es[0]), EntriesBytes(es[1..]));
      EntryReads(ram, a, es[0]);
      EntriesRead(ram, a + 24, es[1..]);
      FirstThenRest(BlockOf(ram), a, es);
    }
  }

  lemma FirstThenRest(b: Block, a: nat, es: seq<Entry>)
    requires es != [] && EntryAt(b, a) == es[0] && Entries(b, a + 24, a + 24 + 24 * |es[1..]|) == es[1..]
    ensures Entries(b, a, a + 24 * |es|) == es
  {
    assert a + 24 + 24 * |es[1..]| == a + 24 * |es|;
    assert es == [es[0]] + es[1..];
  }

  /** A tag in memory has its kind and its entries, and the next tag follows its padding. */
  ghost predicate IsReadBack(b: Block, a: nat, t: Tag) {
    && Kind(b, a) != TAG_END && Size(b, a) > 0 && Next(b, a) == a + |TagBytes(t)|
    && (Kind(b, a) == TAG_MMAP <==> t.MapTag?) && (t.MapTag? ==> MapOf(b, a) == t.entries)
  }

  lemma TagReads(ram: Ram, a: nat, t: Tag)
    requires Holds(ram, a, TagBytes(t)) && IsTag(t)
    ensures IsReadBack(BlockOf(ram), a, t)
  {
    match t
    case MapTag(version, entries) =>
      MapTagReads(ram, a, TAG_MMAP, Head(24, version), entries);
      MapReadBack(BlockOf(ram), a, version, entries);
    case OtherTag(kind, body, padding) =>
      OtherTagReads(ram, a, kind, body, padding);
      OtherReadBack(BlockOf(ram), a, kind, body, padding);
  }

  lemma MapReadBack(b: Block, a: nat, version: nat, entries: seq<Entry>)
    requires b.w32(a) == TAG_MMAP && b.w32(a + 4) == 16 + 24 * |entries|
    requires Entries(b, a + 16, a + (16 + 24 * |entries|)) == entries
    ensures IsReadBack(b, a, MapTag(version, entries))
  {
    NextAfter(b, a, 16 + 24 * |entries|, 0);
  }

  lemma OtherReadBack(b: Block, a: nat, kind: nat, body: seq<Byte>, padding: seq<Byte>)
    requires b.w32(a) == kind && b.w32(a + 4) == 8 + |body| && IsTag(OtherTag(kind, body, padding))
    ensures IsReadBack(b, a, OtherTag(kind, body, padding))
  {
    NextAfter(b, a, 8 + |body|, |padding|);
  }

  lemma NextAfter(b: Block, a: nat, size: nat, pad: nat)
    requires b.w32(a + 4) == size && pad < 8 && (size + pad) % 8 == 0
    ensures Next(b, a) == a + (size + pad)
  {
    assert (size + 7) / 8 * 8 == size + pad;
  }

  lemma OtherTagReads(ram: Ram, a: nat, kind: nat, body: seq<Byte>, padding: seq<Byte>)
    requires Holds(ram, a, Head(kind, 8 + |body|) + (body + padding)) && kind < TWO_32 && 8 + |body| < TWO_32
    ensures BlockOf(ram).w32(a) == kind && BlockOf(ram).w32(a + 4) == 8 + |body|
  {
    HoldsParts(ram, a, Head(kind, 8 + |body|), body + padding);
    HeadReads(ram, a, kind, 8 + |body|);
  }

  lemma MapTagReads(ram: Ram, a: nat, kind: nat, second: seq<Byte>, entries: seq<Entry>)
    requires Holds(ram, a, Head(kind, 16 + 24 * |entries|) + (second + EntriesBytes(entries))) && |second| == 8
    requires kind < TWO_32 && 16 + 24 * |entries| < TWO_32 && forall x :: x in entries ==> IsEntry(x)
    ensures var b := BlockOf(ram);
            && b.w32(a) == kind && b.w32(a + 4) == 16 + 24 * |entries|
            && Entries(b, a + 16, a + (16 + 24 * |entries|)) == entries
  {
    var n := 16 + 24 * |entries|;
    HoldsParts(ram, a, Head(kind, n), second + EntriesBytes(entries));
    HeadReads(ram, a, kind, n);
    HoldsParts(ram, a + 8, second, EntriesBytes(entries));
    EntriesRead(ram, a + 16, entries);
  }

  lemma {:induction false} TagsRead(ram: Ram, a: nat, ts: seq<Tag>, end: nat)
    requires Holds(ram, a, TagsBytes(ts)) && end == a + |TagsBytes(ts)| && forall t :: t in ts ==> IsTag(t)
    ensures Maps(BlockOf(ram), a, end) == MapsIn(ts) && TagsSized(BlockOf(ram), a, end)
    decreases ts
  {
    if ts == [] {
      HeadReads(ram, a, TAG_END, 8);
    } else {
      HoldsParts(ram, a, TagBytes(ts[0]), TagsBytes(ts[1..]));
      TagReads(ram, a, ts[0]);
      TagsRead(ram, a + |TagBytes(ts[0])|, ts[1..], end);
      assert |TagsBytes(ts[1..])| > 0;
    }
  }

  /** A block laid out in memory is read back: the walk ends, and it meets exactly the memory maps. */
  lemma InfoReads(ram: Ram, reserved: nat, ts: seq<Tag>)
    requires Holds(ram, 0, InfoBytes(reserved, ts)) && |InfoBytes(reserved, ts)| < TWO_32
    requires forall t :: t in ts ==> IsTag(t)
    ensures var b := BlockOf(ram); Stops(b, 8, b.w32(0)) && Maps(b, 8, b.w32(0)) == MapsIn(ts)
  {
    var bytes := TagsBytes(ts);
    var end := 8 + |bytes|;
    assert |InfoBytes(reserved, ts)| == end;
    HoldsParts(ram, 0, Head(end, reserved), bytes);
    HeadReads(ram, 0, end, reserved);
    TagsRead(ram, 8, ts, end);
    StopsIffSized(BlockOf(ram), 8, end);
  }

  /** The entries of all memory maps of a block, in order. */
  function BlockEntries(ts: seq<Tag>): seq<Entry> {
    if ts == [] then [] else (if ts[0].MapTag? then ts[0].entries else []) + BlockEntries(ts[1..])
  }

  lemma {:induction false} BlockEntriesAre(ts: seq<Tag>)
    ensures BlockEntries(ts) == AllEntries(MapsIn(ts))
  {
    if ts != [] {
      BlockEntriesAre(ts[1..]);
      if ts[0].MapTag? {
        assert MapsIn(ts) == [ts[0].entries] + MapsIn(ts[1..]) && MapsIn(ts)[1..] == MapsIn(ts[1..]);
      } else {
        assert MapsIn(ts) == MapsIn(ts[1..]) && [] + BlockEntries(ts[1..]) == BlockEntries(ts[1..]);
      }
    }
  }

  lemma {:induction false} MapsInHas(ts: seq<Tag>, m: seq<Entry>)
    ensures m in MapsIn(ts) <==> exists t :: t in ts && t.MapTag? && t.entries == m
  {
    if ts != [] {
      MapsInHas(ts[1..], m);
      assert forall t :: t in ts <==> t == ts[0] || t in ts[1..];
    }
  }

  /** A memory map of the block has more than ten entries of type 1 from 1 MiB up. */
  ghost predicate HasLongMap(ts: seq<Tag>) {
    exists t :: t in ts && t.MapTag? && UsableIn(t.entries, |t.entries|) > 10
  }

  lemma LongMapIff(ts: seq<Tag>)
    ensures !Fit(MapsIn(ts)) <==> HasLongMap(ts)
  {
    forall m: seq<Entry> ensures |High(m)| == UsableIn(m, |m|) {
      HighCountAll(m);
    }
    forall m ensures m in MapsIn(ts) <==> exists t :: t in ts && t.MapTag? && t.entries == m {
      MapsInHas(ts, m);
    }
  }

  /** What is counted, noted and, when it is right, recorded, in terms of the entries. */
  lemma InEntries(ts: seq<Tag>)
    ensures var es := BlockEntries(ts);
            && |AllHigh(MapsIn(ts))| == UsableIn(es, |es|) && IsLowSize(LowerOfMaps(MapsIn(ts), 0), es, 0)
            && forall z :: z in AllHigh(MapsIn(ts)) <==> Describes(es, z)
  {
    var es := BlockEntries(ts);
    BlockEntriesAre(ts);
    MapsInEntries(MapsIn(ts), 0);
    MapsTogether(MapsIn(ts), 0);
    forall z ensures z in High(es) <==> Describes(es, z) {
      HighIff(es, z);
    }
  }

  /** Boot on such a block, from a cleared state.  It writes past the table exactly if one map has more
      than ten regions available from 1 MiB up.  Else it records as many regions as the block has, and
      exactly those, in order, if and only if not more than one map has any. */
  method Boot(ram: Ram, reserved: nat, ts: seq<Tag>) returns (bst: BootState, overrun: bool)
    requires Holds(ram, 0, InfoBytes(reserved, ts)) && |InfoBytes(reserved, ts)| < TWO_32
    requires forall t :: t in ts ==> IsTag(t)
    ensures fresh(bst) && fresh(bst.zones) && bst.zones.Length == MAX_ZONES
    ensures overrun <==> !Fit(MapsIn(ts))
    ensures overrun <==> HasLongMap(ts)
    ensures !overrun ==>
              var es := BlockEntries(ts);
              && bst.numHighZones == UsableIn(es, |es|) && IsLowSize(bst.memLower, es, 0)
              && (AtMostOne(MapsIn(ts)) ==>
                    bst.numHighZones <= 10 && forall z :: z in bst.zones[..bst.numHighZones] <==> Describes(es, z))
    ensures !overrun ==>
              var high := AllHigh(MapsIn(ts));
              && bst.numHighZones == |high|
              && ((|high| <= MAX_ZONES && bst.zones[..|high|] == high) <==> AtMostOne(MapsIn(ts)))
    ensures !overrun ==>
              bst.zones[..] == Recorded(ClearTable(), MapsIn(ts)) && bst.memLower == LowerOfMaps(MapsIn(ts), 0)
  {
    InfoReads(ram, reserved, ts);
    bst := new BootState();
    LongMapIff(ts);
    InEntries(ts);
    var how := bst.InitBootState(BlockOf(ram));
    overrun := how.Overrun?;
    if !overrun {
      RecordedExactlyIff(MapsIn(ts));
    }
  }
}
