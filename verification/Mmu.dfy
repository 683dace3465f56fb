/** The kernel's page-table walk, and where it agrees with the processor's. */
module Mmu {
  import opened Bits
  import opened Paging

  const BIT_P: nat := 0x1
  const BIT_PS: nat := 0x80
  const FLAGS_MASK: nat := 0xfff
  const FRAME_4KB: nat := 0x000f_ffff_ffff_f000
  const FRAME_2MB: nat := 0x000f_ffff_ffe0_0000
  const OFFSET_4KB: nat := 0xfff
  const OFFSET_2MB: nat := 0x1f_ffff

  const PL_FRAME: nat := 0
  const PL_PT: nat := 1
  const PL_PD: nat := 2
  const PL_PDP: nat := 3
  const PL_PML4: nat := 4

  datatype Status = NoError | EntryNotPresent | InvalidArgs

  /** The window for physical memory, both ways; the sums wrap. */
  function P2KV(x: Quad): Quad { Add64(x, KERNEL_ASPACE_BASE) }
  function KV2P(x: Quad): Quad { Sub64(x, KERNEL_ASPACE_BASE) }

  function IndexAt(va: Quad, shift: nat): nat { BitAnd(Shr(va, shift), 0x1ff) }

  /** An 8-byte read at a kernel address. */
  function Load(mem: Memory, kv: Quad): Quad { mem(KV2P(kv)) }

  /** The table an entry leads to, as a kernel address: the entry itself, as the kernel has it, or
      with everything outside the frame field masked off. */
  function TablePtr(entry: Quad, masked: bool): Quad {
    if masked then P2KV(BitAnd(KV2P(entry), FRAME_4KB)) else entry
  }

  /** The four index helpers: the entry at an index of a table, moved into the window. */
  function EntryOf(mem: Memory, table: Quad, index: nat): Quad { P2KV(Load(mem, Add64(table, 8 * index))) }

  /* ---- The masks ---- */

  lemma IndexIsField(va: Quad)
    ensures IndexAt(va, 39) == Index4(va) && IndexAt(va, 30) == Index3(va)
    ensures IndexAt(va, 21) == Index2(va) && IndexAt(va, 12) == Index1(va)
  {
    Pow2Values();
    ShrIsDiv(va, 39);
    ShrIsDiv(va, 30);
    ShrIsDiv(va, 21);
    ShrIsDiv(va, 12);
    AndLow(va / 0x80_0000_0000, 9);
    AndLow(va / 0x4000_0000, 9);
    AndLow(va / 0x20_0000, 9);
    AndLow(va / 0x1000, 9);
  }

  lemma FlagBits(e: Quad)
    ensures BitAnd(e, BIT_P) != 0 <==> Present(e)
    ensures BitAnd(e, BIT_PS) != 0 <==> Large(e)
  {
    assert Pow2(1) == 2;
    AndLow(e, 1);
    assert Pow2(7) == 128 && Pow2(8) == 256;
    AndField(e, 7, 8);
    HalfOf256(e);
  }

  lemma HalfOf256(e: nat)
    ensures e % 256 - e % 128 != 0 <==> e / 128 % 2 == 1
  {
    ModUnique(e, 256, e / 128 / 2, 128 * (e / 128 % 2) + e % 128);
  }

  lemma FrameBits(e: Quad)
    ensures BitAnd(e, FRAME_4KB) == TableOf(e) && 0 <= TableOf(e) < 0x10_0000_0000_0000
    ensures BitAnd(e, FRAME_2MB) == Frame2M(e) && 0 <= Frame2M(e)
    ensures BitAnd(e, 0x000f_ffff_c000_0000) == Frame1G(e)
    ensures Frame2M(e) + e % 0x20_0000 < 0x10_0000_0000_0000
  {
    Pow2Values();
    AndField(e, 12, 52);
    AndField(e, 21, 52);
    AndField(e, 30, 52);
    TableNotNegative(e);
  }

  lemma OffsetBits(va: Quad)
    ensures BitAnd(va, OFFSET_4KB) == va % 0x1000 && BitAnd(va, OFFSET_2MB) == va % 0x20_0000
  {
    Pow2Values();
    AndLow(va, 12);
    AndLow(va, 21);
  }

  /* The masking expressions, and what they amount to. */

  function HasP(e: Quad): (r: bool)
    ensures r <==> Present(e)
  {
    FlagBits(e);
    BitAnd(e, BIT_P) != 0
  }

  function HasPs(e: Quad): (r: bool)
    ensures r <==> Large(e)
  {
    FlagBits(e);
    BitAnd(e, BIT_PS) != 0
  }

  function PfnFromPde(pde: Quad): (pfn: Quad)
    ensures pfn == Frame2M(pde)
  {
    FrameBits(pde);
    BitAnd(pde, FRAME_2MB)
  }

  function PfnFromPte(pte: Quad): (pfn: Quad)
    ensures pfn == TableOf(pte)
  {
    FrameBits(pte);
    BitAnd(pte, FRAME_4KB)
  }

  function Address2M(pde: Quad, va: Quad): (pa: Quad)
    ensures pa == Frame2M(pde) + va % 0x20_0000
  {
    OffsetBits(va);
    LeafFits(pde, va);
    AddFits(PfnFromPde(pde), va % 0x20_0000);
    Add64(PfnFromPde(pde), BitAnd(va, OFFSET_2MB))
  }

  function Address4K(pte: Quad, va: Quad): (pa: Quad)
    ensures pa == TableOf(pte) + va % 0x1000
  {
    OffsetBits(va);
    LeafFits(pte, va);
    AddFits(PfnFromPte(pte), va % 0x1000);
    Add64(PfnFromPte(pte), BitAnd(va, OFFSET_4KB))
  }

  function LowFlags(pte: Quad): (f: Quad)
    ensures f == pte % 0x1000
  {
    OffsetBits(pte);
    BitAnd(pte, FLAGS_MASK)
  }

  lemma LeafFits(e: Quad, va: Quad)
    ensures Frame2M(e) + va % 0x20_0000 < TWO_64 && TableOf(e) + va % 0x1000 < TWO_64
  {
    FrameBits(e);
  }

  /** Moving an entry into the window and back; the flags are the same on both sides. */
  lemma Moved(e: Quad)
    ensures KV2P(P2KV(e)) == e && P2KV(e) == (e + 0xffff_ff80_0000_0000) % 0x1_0000_0000_0000_0000
    ensures Present(P2KV(e)) == Present(e) && Large(P2KV(e)) == Large(e)
    ensures P2KV(e) % 0x1000 == e % 0x1000
  {
    var q, r := e / 0x1000, e % 0x1000;
    assert KERNEL_ASPACE_BASE == 0x1000 * 0xf_ffff_f800_0000;
    var q' := if e + KERNEL_ASPACE_BASE < TWO_64 then q + 0xf_ffff_f800_0000 else q - 0x800_0000;
    assert P2KV(e) == 0x1000 * q' + r;
    SameFlags(e, q, P2KV(e), q', r);
  }

  lemma SameFlags(e: nat, q: nat, e': nat, q': nat, r: nat)
    requires r < 0x1000 && e == 0x1000 * q + r && e' == 0x1000 * q' + r
    ensures Present(e') == Present(e) && Large(e') == Large(e) && e' % 0x1000 == e % 0x1000
  {
    LowBits(q, r);
    LowBits(q', r);
    ModUnique(e, 0x1000, q, r);
    ModUnique(e', 0x1000, q', r);
  }

  /** Reading an entry through the window, of a table below 2^52. */
  lemma ReadMoved(mem: Memory, table: nat, index: nat)
    requires table < 0x10_0000_0000_0000 && index < 512
    ensures EntryOf(mem, P2KV(table), index) == P2KV(Read(mem, table, index))
  {
    WindowSum(table, 8 * index);
  }

  lemma WindowSum(table: nat, off: nat)
    requires table < 0x10_0000_0000_0000 && off < 0x1000
    ensures KV2P(Add64(P2KV(table), off)) == table + off
  {
  }

  lemma ReadMasked(mem: Memory, e: Quad, index: nat)
    requires index < 512
    ensures EntryOf(mem, TablePtr(P2KV(e), true), index) == P2KV(Read(mem, TableOf(e), index))
  {
    Moved(e);
    FrameBits(e);
    ReadMoved(mem, TableOf(e), index);
  }

  /* ---- The walk ---- */

  datatype Answer = Answer(status: Status, last: Quad, flags: Quad, level: nat)

  /** What the walk answers: a frame, or the entry that led to the table with the absent entry. */
  function Mapping(mem: Memory, va: Quad, pml4: Quad, masked: bool): Answer {
    var pml4e := EntryOf(mem, pml4, Index4(va));
    if !Present(pml4e) then Answer(EntryNotPresent, pml4, 0, PL_PML4)
    else
      var pdpe := EntryOf(mem, TablePtr(pml4e, masked), Index3(va));
      if !Present(pdpe) then Answer(EntryNotPresent, pml4e, 0, PL_PDP)
      else MappingBelow(mem, va, pdpe, masked)
  }

  function MappingBelow(mem: Memory, va: Quad, pdpe: Quad, masked: bool): Answer {
    var pde := EntryOf(mem, TablePtr(pdpe, masked), Index2(va));
    if !Present(pde) then Answer(EntryNotPresent, pdpe, 0, PL_PD)
    else if Large(pde) then Answer(NoError, Address2M(KV2P(pde), va), 0, PL_FRAME)
    else
      var pte := EntryOf(mem, TablePtr(pde, masked), Index1(va));
      if !Present(pte) then Answer(EntryNotPresent, pde, 0, PL_PT)
      else Answer(NoError, Address4K(KV2P(pte), va), pte % 0x1000, PL_FRAME)
  }

  /** A 64-bit cell an out-parameter points to. */
  class Cell {
    var value: Quad
    constructor () { value := 0; }
  }

  /** `x86_mmu_get_mapping`; `masked` says whether the helpers mask an entry before indexing through it.
      The code does not. */
  method GetMapping(mem: Memory, vaddr: Quad, pml4: Quad, last: Cell?, flags: Cell?, level: Cell?, masked: bool)
    returns (status: Status)
    requires last != null ==> last != flags && last != level
    requires flags != null ==> flags != level
    modifies last, flags, level
    ensures last == null || flags == null || level == null ==>
              status == InvalidArgs && (last != null ==> last.value == old(last.value))
              && (flags != null ==> flags.value == old(flags.value))
              && (level != null ==> level.value == old(level.value))
    ensures last != null && flags != null && level != null ==>
              Answer(status, last.value, flags.value, level.value) == Mapping(mem, vaddr, pml4, masked)
  {
    IndexIsField(vaddr);
    var pml4e := EntryOf(mem, pml4, IndexAt(vaddr, 39));
    if last == null || flags == null || level == null {
      return InvalidArgs;
    }
    level.value := PL_PML4;
    last.value := pml4;
    flags.value := 0;
    if !HasP(pml4e) {
      return EntryNotPresent;
    }
    level.value := PL_PDP;
    var pdpe := EntryOf(mem, TablePtr(pml4e, masked), IndexAt(vaddr, 30));
    if !HasP(pdpe) {
      last.value := pml4e;
      return EntryNotPresent;
    }
    level.value := PL_PD;
    var pde := EntryOf(mem, TablePtr(pdpe, masked), IndexAt(vaddr, 21));
    if !HasP(pde) {
      last.value := pdpe;
      return EntryNotPresent;
    }
    if HasPs(pde) {
      last.value := Address2M(KV2P(pde), vaddr);
    } else {
      level.value := PL_PT;
      var pte := EntryOf(mem, TablePtr(pde, masked), IndexAt(vaddr, 12));
      if !HasP(pte) {
        last.value := pde;
        return EntryNotPresent;
      }
      last.value := Address4K(KV2P(pte), vaddr);
      flags.value := LowFlags(pte);
    }
    level.value := PL_FRAME;
    return NoError;
  }

  /** `x86_mmu_query`: the mapping of the current tables; only the flags are optional. */
  method Query(mem: Memory, cr3: Quad, vaddr: Quad, paddr: Cell, flags: Cell?, masked: bool) returns (status: Status)
    requires paddr != flags
    modifies paddr, flags
    ensures var m := Mapping(mem, vaddr, P2KV(cr3), masked);
            && status == m.status
            && paddr.value == (if m.status == NoError then m.last else old(paddr.value))
            && (flags != null ==> flags.value == if m.status == NoError then m.flags % TWO_32 else old(flags.value))
  {
    var entry := new Cell();
    var entryFlags := new Cell();
    var level := new Cell();
    status := GetMapping(mem, vaddr, P2KV(cr3), entry, entryFlags, level, masked);
    if status != NoError {
      return;
    }
    paddr.value := entry.value;
    if flags != null {
      flags.value := entryFlags.value % TWO_32;
    }
  }

  /* ---- Agreement with the processor ---- */

  /** The kernel's answer says what the processor's walk finds: the same physical address, with the flags
      of a 4 KiB leaf; or the level of the absent entry and the table it is in. */
  predicate Agrees(r: Answer, w: Walked) {
    match w
    case Absent(level, table) =>
      r.status == EntryNotPresent && r.level == level && r.flags == 0 && TableOf(KV2P(r.last)) == table
    case Mapped(paddr, level, leaf) =>
      && r.status == NoError && r.level == PL_FRAME && r.last == paddr
      && r.flags == if level == 1 then leaf % 0x1000 else 0
  }

  /** The address of a PML4, as a physical page. */
  predicate IsRoot(root: nat) { root % 0x1000 == 0 && root < 0x10_0000_0000_0000 }

  /** The walk, except that a present entry of the third level always leads to a page directory. */
  function WalkNoGib(mem: Memory, root: nat, va: nat): Walked {
    var w := Walk(mem, root, va);
    if w.Mapped? && w.level == 3 then Walk2(mem, TableOf(w.leaf), va) else w
  }

  lemma BelowAgrees(mem: Memory, va: Quad, e3: Quad)
    ensures Agrees(MappingBelow(mem, va, P2KV(e3), true), Walk2(mem, TableOf(e3), va))
  {
    Moved(e3);
    ReadMasked(mem, e3, Index2(va));
    var e2 := Read(mem, TableOf(e3), Index2(va));
    Moved(e2);
    ReadMasked(mem, e2, Index1(va));
    var e1 := Read(mem, TableOf(e2), Index1(va));
    Moved(e1);
  }

  lemma RootTable(root: nat)
    requires IsRoot(root)
    ensures KV2P(P2KV(root)) == root && TableOf(root) == root
  {
    Moved(root);
    ModSmall(root, 0x10_0000_0000_0000);
  }

  /** With the entries masked, the kernel walks as the processor does, for every memory and address,
      but that it takes no entry of the third level for a 1 GiB page. */
  lemma MaskedWalk(mem: Memory, root: nat, va: Quad)
    requires IsRoot(root)
    ensures Agrees(Mapping(mem, va, P2KV(root), true), WalkNoGib(mem, root, va))
  {
    RootTable(root);
    ReadMoved(mem, root, Index4(va));
    var e4 := Read(mem, root, Index4(va));
    Moved(e4);
    if Present(e4) {
      ReadMasked(mem, e4, Index3(va));
      var e3 := Read(mem, TableOf(e4), Index3(va));
      Moved(e3);
      BelowAgrees(mem, va, e3);
    }
  }

  /** Without 1 GiB pages the two agree. */
  lemma MaskedAgrees(mem: Memory, root: nat, va: Quad)
    requires IsRoot(root)
    requires var w := Walk(mem, root, va); w.Mapped? ==> w.level != 3
    ensures Agrees(Mapping(mem, va, P2KV(root), true), Walk(mem, root, va))
  {
    MaskedWalk(mem, root, va);
  }

  /* ---- As written ---- */

  /** The walk that takes an entry as it is, flags and all, for the address of the next table; the sum of such an
      address and the offset of an entry wraps.  `KERNEL_ASPACE_BASE` plays no part in it. */
  function RawWalk(mem: Memory, root: Quad, va: Quad): Answer {
    var e4 := mem((root + 8 * (va / 0x80_0000_0000 % 512)) % 0x1_0000_0000_0000_0000);
    if e4 % 2 == 0 then Answer(EntryNotPresent, P2KV(root), 0, 4)
    else
      RawThird(mem, e4, va)
  }

  function RawThird(mem: Memory, e4: Quad, va: Quad): Answer {
    var e3 := mem((e4 + 8 * (va / 0x4000_0000 % 512)) % 0x1_0000_0000_0000_0000);
    if e3 % 2 == 0 then Answer(EntryNotPresent, P2KV(e4), 0, 3) else RawBelow(mem, e3, va)
  }

  function RawBelow(mem: Memory, e3: Quad, va: Quad): Answer {
    var e2 := mem((e3 + 8 * (va / 0x20_0000 % 512)) % 0x1_0000_0000_0000_0000);
    if e2 % 2 == 0 then Answer(EntryNotPresent, P2KV(e3), 0, 2)
    else if e2 / 128 % 2 == 1 then
      LeafFits(e2, va);
      FrameBits(e2);
      Answer(NoError, Frame2M(e2) + va % 0x20_0000, 0, 0)
    else
      var e1 := mem((e2 + 8 * (va / 0x1000 % 512)) % 0x1_0000_0000_0000_0000);
      LeafFits(e1, va);
      FrameBits(e1);
      if e1 % 2 == 0 then Answer(EntryNotPresent, P2KV(e2), 0, 1)
      else Answer(NoError, TableOf(e1) + va % 0x1000, e1 % 0x1000, 0)
  }

  lemma ReadRaw(mem: Memory, e: Quad, index: nat)
    requires index < 512
    ensures EntryOf(mem, TablePtr(P2KV(e), false), index) == P2KV(mem((e + 8 * index) % 0x1_0000_0000_0000_0000))
  {
    RawSum(e, 8 * index);
  }

  lemma RawSum(e: Quad, off: nat)
    requires off < 0x1000
    ensures KV2P(Add64(P2KV(e), off)) == (e + off) % 0x1_0000_0000_0000_0000
  {
  }

  lemma BelowIsRaw(mem: Memory, e3: Quad, va: Quad)
    ensures MappingBelow(mem, va, P2KV(e3), false) == RawBelow(mem, e3, va)
  {
    ReadRaw(mem, e3, Index2(va));
    var e2 := mem((e3 + 8 * Index2(va)) % 0x1_0000_0000_0000_0000);
    Moved(e2);
    ReadRaw(mem, e2, Index1(va));
    var e1 := mem((e2 + 8 * Index1(va)) % 0x1_0000_0000_0000_0000);
    Moved(e1);
  }

  /** As written, the kernel makes that walk, at every level. */
  lemma UnmaskedWalk(mem: Memory, root: Quad, va: Quad)
    ensures Mapping(mem, va, P2KV(root), false) == RawWalk(mem, root, va)
  {
    ReadRaw(mem, root, Index4(va));
    var e4 := mem((root + 8 * Index4(va)) % 0x1_0000_0000_0000_0000);
    Moved(e4);
    ThirdIsRaw(mem, e4, va);
  }

  lemma ThirdIsRaw(mem: Memory, e4: Quad, va: Quad)
    ensures var pdpe := EntryOf(mem, TablePtr(P2KV(e4), false), Index3(va));
            RawThird(mem, e4, va) ==
            if !Present(pdpe) then Answer(EntryNotPresent, P2KV(e4), 0, PL_PDP) else MappingBelow(mem, va, pdpe, false)
  {
    ReadRaw(mem, e4, Index3(va));
    var e3 := mem((e4 + 8 * Index3(va)) % 0x1_0000_0000_0000_0000);
    Moved(e3);
    BelowIsRaw(mem, e3, va);
  }

  /* ---- The flags ---- */

  /** The flags are said to be those of the last valid entry.  On success they are, with masked
      entries, exactly for a 4 KiB leaf: those of a 2 MiB leaf are left 0. */
  lemma FlagsAreTheLeafsIff(mem: Memory, root: nat, va: Quad)
    requires IsRoot(root)
    ensures var m, w := Mapping(mem, va, P2KV(root), true), Walk(mem, root, va);
            w.Mapped? && w.level != 3 ==> (m.flags == w.leaf % 0x1000 <==> w.level == 1)
  {
    var w := Walk(mem, root, va);
    if w.Mapped? && w.level != 3 {
      MaskedAgrees(mem, root, va);
      PresentHasFlags(w.leaf);
    }
  }

  lemma PresentHasFlags(e: nat)
    requires Present(e)
    ensures e % 0x1000 != 0
  {
    assert e == 0x1000 * (e / 0x1000) + e % 0x1000;
  }

  /** On failure they are 0, masked or not; so they are those of the entry returned exactly when no
      entry was valid and the table itself is returned. */
  lemma FlagsOfFailureIff(mem: Memory, va: Quad, pml4: Quad, masked: bool)
    requires pml4 % 0x1000 == 0
    ensures var m := Mapping(mem, va, pml4, masked);
            m.status == EntryNotPresent ==>
              m.flags == 0 && (m.flags == m.last % 0x1000 <==> m.level == PL_PML4)
  {
    var m := Mapping(mem, va, pml4, masked);
    if m.status == EntryNotPresent && m.level != PL_PML4 {
      LastIsPresent(mem, va, pml4, masked);
      PresentHasFlags(m.last);
    }
  }

  lemma LastIsPresent(mem: Memory, va: Quad, pml4: Quad, masked: bool)
    ensures var m := Mapping(mem, va, pml4, masked);
            m.status == EntryNotPresent && m.level != PL_PML4 ==> Present(m.last)
  {
  }
}
