/** What the boot page tables map, walked as in the Intel SDM, Vol. 3A, section 4.5. */
module BootMap {
  import opened Bits
  import opened Paging
  import opened BootTables

  /** The tables lie in memory at `b`; `low` says whether the first PML4 entry is still there. */
  ghost predicate Loaded(mem: Memory, b: nat, low: bool) {
    && b % 0x1000 == 0 && b + 8 * ENTRIES <= TWO_32
    && forall i: nat :: i < ENTRIES ==> Read(mem, b, i) == (if i == 0 && !low then 0 else BootEntry(b, i))
  }

  /** Linear addresses whose bits 63:47 are alike. */
  predicate Canonical(va: nat) {
    va < 0x8000_0000_0000 || TWO_64 - 0x8000_0000_0000 <= va < TWO_64
  }

  /** The physical address the boot map is to give, if any. */
  function BootTarget(va: nat, low: bool): (r: int) {
    if KERNEL_ASPACE_BASE <= va < KERNEL_ASPACE_BASE + 64 * GIB then va - KERNEL_ASPACE_BASE
    else if KERNEL_VMA_BASE <= va < KERNEL_VMA_BASE + GIB then va - KERNEL_VMA_BASE
    else if low && va < GIB then va
    else -1
  }

  /** Reading through a table of the section is reading the section. */
  lemma ReadTable(mem: Memory, b: nat, t: nat, j: nat)
    ensures Read(mem, b + 0x1000 * t, j) == Read(mem, b, 512 * t + j)
  {
  }

  /** A large-page entry names the frame of its number. */
  lemma LargeEntry(k: nat)
    requires k < PDE_COUNT
    ensures Present(TWO_MIB * k + FLAGS_BOOT_PDE) && Large(TWO_MIB * k + FLAGS_BOOT_PDE)
    ensures Frame2M(TWO_MIB * k + FLAGS_BOOT_PDE) == TWO_MIB * k
  {
    var e := TWO_MIB * k + FLAGS_BOOT_PDE;
    ModUnique(e, TWO_MIB, k, FLAGS_BOOT_PDE);
    ModSmall(e, 0x10_0000_0000_0000);
    LowBits(512 * k, FLAGS_BOOT_PDE);
  }

  /** Pointers of the section lead to its tables. */
  lemma PointerEntry(b: nat, t: nat)
    requires b % 0x1000 == 0 && b + 0x1000 * t < TWO_32
    ensures TableOf(b + 0x1000 * t + FLAGS_RW_P) == b + 0x1000 * t
    ensures Present(b + 0x1000 * t + FLAGS_RW_P) && !Large(b + 0x1000 * t + FLAGS_RW_P)
  {
    TableEntry(b + 0x1000 * t, FLAGS_RW_P);
  }

  /** The walk below the page-directory-pointer level, in the `t`-th table of the section,
      whose entries are large pages from number `k` on. */
  lemma WalkLarge(mem: Memory, b: nat, low: bool, t: nat, k: nat, va: nat, i2: nat, off: nat)
    requires Loaded(mem, b, low) && 3 <= t < 68 && k == (if t == 3 then 0 else 512 * (t - 4))
    requires Index2(va) == i2 < 512 && va % TWO_MIB == off
    ensures Walk2(mem, b + 0x1000 * t, va)
         == Mapped(TWO_MIB * (k + i2) + off, 2, TWO_MIB * (k + i2) + FLAGS_BOOT_PDE)
  {
    ReadTable(mem, b, t, i2);
    LargeEntry(k + i2);
  }

  /** The walk from the second level down, of the tables for the high half and for the low one. */
  lemma WalkHigh(mem: Memory, b: nat, low: bool, va: nat, top: nat, i3: nat, i2: nat, off: nat)
    requires Loaded(mem, b, low) && top % 512 == 511
    requires i3 < 512 && i2 < 512 && off < TWO_MIB
    requires va == 0x80_0000_0000 * top + GIB * i3 + TWO_MIB * i2 + off
    ensures var w := Walk(mem, b, va);
            if i3 < 64 then w == Mapped(GIB * i3 + TWO_MIB * i2 + off, 2, TWO_MIB * (512 * i3 + i2) + FLAGS_BOOT_PDE)
            else if i3 == 510 then w == Mapped(TWO_MIB * i2 + off, 2, TWO_MIB * i2 + FLAGS_BOOT_PDE)
            else w == Absent(3, b + PDP_HIGH)
  {
    Fields(va, top, i3, i2, off);
    PointerEntry(b, 2);
    assert Read(mem, b, 511) == b + 0x1000 * 2 + FLAGS_RW_P;
    ReadTable(mem, b, 2, i3);
    if i3 < 64 {
      PointerEntry(b, 4 + i3);
      WalkLarge(mem, b, low, 4 + i3, 512 * i3, va, i2, off);
    } else if i3 == 510 {
      PointerEntry(b, 3);
      WalkLarge(mem, b, low, 3, 0, va, i2, off);
    }
  }

  lemma WalkLow(mem: Memory, b: nat, va: nat, i3: nat, i2: nat, off: nat)
    requires Loaded(mem, b, true) && i3 < 512 && i2 < 512 && off < TWO_MIB
    requires va == GIB * i3 + TWO_MIB * i2 + off
    ensures var w := Walk(mem, b, va);
            if i3 == 0 then w == Mapped(va, 2, TWO_MIB * i2 + FLAGS_BOOT_PDE) else w == Absent(3, b + PDP)
  {
    Fields(va, 0, i3, i2, off);
    PointerEntry(b, 1);
    assert Read(mem, b, 0) == b + 0x1000 * 1 + FLAGS_RW_P;
    ReadTable(mem, b, 1, i3);
    if i3 == 0 {
      PointerEntry(b, 3);
      WalkLarge(mem, b, true, 3, 0, va, i2, off);
    }
  }

  /** In the other entries of the PML4 nothing is mapped. */
  lemma WalkElsewhere(mem: Memory, b: nat, low: bool, va: nat)
    requires Loaded(mem, b, low) && Index4(va) != 511 && (Index4(va) != 0 || !low)
    ensures Walk(mem, b, va) == Absent(4, b)
  {
    assert Index4(va) < 512;
  }

  /** The PML4 index of a canonical address tells the half, and in the upper half the distance to the end. */
  lemma TopIndex(va: nat, top: nat, rest: nat)
    requires Canonical(va) && va == 0x80_0000_0000 * top + rest && rest < 0x80_0000_0000
    ensures Index4(va) == top % 512
    ensures top % 512 == 511 <==> va >= KERNEL_ASPACE_BASE
    ensures top % 512 == 511 ==> 0x80_0000_0000 * top == KERNEL_ASPACE_BASE
    ensures top % 512 == 0 <==> top == 0
  {
    ModUnique(va, 0x80_0000_0000, top, rest);
    if va < 0x8000_0000_0000 {
      ModSmall(top, 512);
    } else {
      ModUnique(top, 512, 0xffff, top - 512 * 0xffff);
    }
  }

  /** **The boot map.** Every canonical address is translated exactly when it lies in one of the windows,
      and then to the physical address at the same distance from the window's start, by a 2 MiB page.
      The walk never leaves the section's own tables. */
  lemma BootMapIs(mem: Memory, b: nat, low: bool, va: nat)
    requires Loaded(mem, b, low) && Canonical(va)
    ensures Walk(mem, b, va).Mapped? <==> BootTarget(va, low) >= 0
    ensures Walk(mem, b, va).Mapped? ==>
              Walk(mem, b, va).paddr == BootTarget(va, low) && Walk(mem, b, va).level == 2
  {
    var top, i3, i2, off := Split(va);
    TopIndex(va, top, GIB * i3 + TWO_MIB * i2 + off);
    if top % 512 == 511 {
      WalkHigh(mem, b, low, va, top, i3, i2, off);
    } else if top % 512 == 0 && low {
      WalkLow(mem, b, va, i3, i2, off);
    } else {
      WalkElsewhere(mem, b, low, va);
    }
  }

  /* ---- What the map allows ---- */

  lemma PointerFlags(b: nat, t: nat)
    requires b % 0x1000 == 0 && b + 0x1000 * t < TWO_32
    ensures IsWritablePointer(b + 0x1000 * t + FLAGS_RW_P)
  {
    FlagsOnPage(b / 0x1000 + t, b + 0x1000 * t);
  }

  /** **Every mapped address can be written**: the three entries the walk reads for it are writable, the last one
      is a global 2 MiB page, and no other flag is set in any of them. */
  ghost predicate IsWritableAt(mem: Memory, b: nat, va: nat) {
    var e4 := Read(mem, b, Index4(va));
    var e3 := Read(mem, TableOf(e4), Index3(va));
    var e2 := Read(mem, TableOf(e3), Index2(va));
    && IsWritablePointer(e4) && IsWritablePointer(e3) && IsWritablePage(e2)
    && Walk(mem, b, va).Mapped? && Walk(mem, b, va).leaf == e2
  }

  lemma BootMapIsWritable(mem: Memory, b: nat, low: bool, va: nat)
    requires Loaded(mem, b, low) && Canonical(va) && BootTarget(va, low) >= 0
    ensures IsWritableAt(mem, b, va)
  {
    var top, i3, i2, off := Split(va);
    TopIndex(va, top, GIB * i3 + TWO_MIB * i2 + off);
    if top % 512 == 511 {
      Fields(va, top, i3, i2, off);
      assert Read(mem, b, 511) == b + 0x1000 * 2 + FLAGS_RW_P;
      WritableBelow(mem, b, low, va, 2, i3, i2);
    } else {
      Fields(va, 0, i3, i2, off);
      assert Read(mem, b, 0) == b + 0x1000 * 1 + FLAGS_RW_P;
      WritableBelow(mem, b, low, va, 1, i3, i2);
    }
  }

  lemma WritableBelow(mem: Memory, b: nat, low: bool, va: nat, t: nat, i3: nat, i2: nat)
    requires Loaded(mem, b, low) && (t == 1 || t == 2) && Read(mem, b, Index4(va)) == b + 0x1000 * t + FLAGS_RW_P
    requires Index3(va) == i3 && Index2(va) == i2 < 512
    requires if t == 1 then i3 == 0 else i3 < 64 || i3 == 510
    ensures IsWritableAt(mem, b, va)
  {
    var u := if t == 2 && i3 < 64 then 4 + i3 else 3;
    WritableTable(b, t);
    ReadTable(mem, b, t, i3);
    assert Read(mem, b + 0x1000 * t, i3) == b + 0x1000 * u + FLAGS_RW_P;
    WritableTable(b, u);
    WritableLeaf(mem, b, low, u, i2);
  }

  lemma WritableTable(b: nat, t: nat)
    requires b % 0x1000 == 0 && b + 0x1000 * t < TWO_32
    ensures var e := b + 0x1000 * t + FLAGS_RW_P;
            TableOf(e) == b + 0x1000 * t && Present(e) && !Large(e) && IsWritablePointer(e)
  {
    PointerEntry(b, t);
    PointerFlags(b, t);
  }

  lemma WritableLeaf(mem: Memory, b: nat, low: bool, u: nat, i2: nat)
    requires Loaded(mem, b, low) && 3 <= u < 68 && i2 < 512
    ensures var e := Read(mem, b + 0x1000 * u, i2); Present(e) && Large(e) && IsWritablePage(e)
  {
    var k := if u == 3 then i2 else 512 * (u - 4) + i2;
    ReadTable(mem, b, u, i2);
    LargeEntry(k);
    PageFlags(k);
  }

  /* ---- The kernel's own view of the map ---- */

  datatype InitialMapping = InitialMapping(phys: Quad, virt: Quad, size: Quad)

  const INITIAL_MAPPINGS: seq<InitialMapping> := [
    InitialMapping(0, KERNEL_ASPACE_BASE, 64 * GIB),
    InitialMapping(0, KERNEL_VMA_BASE, GIB),
    InitialMapping(0, 0, 0)
  ]

  predicate Covers(m: InitialMapping, pa: Quad) {
    m.phys <= pa <= Sub64(Add64(m.phys, m.size), 1)
  }

  /** The first entry that covers an address, of a table ended by an entry of size 0. */
  function FirstCover(maps: seq<InitialMapping>, pa: Quad): (r: nat)
    ensures r <= |maps|
    ensures r < |maps| && maps[r].size > 0 ==> Covers(maps[r], pa)
  {
    if maps == [] || maps[0].size == 0 || Covers(maps[0], pa) then 0 else 1 + FirstCover(maps[1..], pa)
  }

  lemma {:induction false} FirstCoverSkips(maps: seq<InitialMapping>, k: nat, pa: Quad)
    requires k <= |maps| && forall j :: 0 <= j < k ==> maps[j].size > 0 && !Covers(maps[j], pa)
    ensures FirstCover(maps, pa) == k + FirstCover(maps[k..], pa)
  {
    if k > 0 {
      FirstCoverSkips(maps[1..], k - 1, pa);
      assert maps[1..][k - 1..] == maps[k..];
    } else {
      assert maps[0..] == maps;
    }
  }

  /** `paddr_to_kvaddr`: the kernel address of a physical one; 0 stands for the null pointer. */
  method PaddrToKvaddr(maps: seq<InitialMapping>, pa: Quad) returns (va: Quad)
    requires exists k :: 0 <= k < |maps| && maps[k].size == 0
    ensures var k := FirstCover(maps, pa);
            k < |maps| && va == if maps[k].size == 0 then 0 else Add64(maps[k].virt, pa - maps[k].phys)
  {
    var i := 0;
    while maps[i].size > 0
      invariant 0 <= i < |maps|
      invariant forall j :: 0 <= j < i ==> maps[j].size > 0 && !Covers(maps[j], pa)
      decreases |maps| - i
    {
      if pa >= maps[i].phys && pa <= Sub64(Add64(maps[i].phys, maps[i].size), 1) {
        FirstCoverSkips(maps, i, pa);
        return Add64(maps[i].virt, pa - maps[i].phys);
      }
      i := i + 1;
    }
    FirstCoverSkips(maps, i, pa);
    return 0;
  }

  /** With the kernel's own table: an address in the large window exactly for memory below 64 GiB.
      The second entry, for the kernel image, is never reached. */
  lemma KernelCover(pa: Quad)
    ensures FirstCover(INITIAL_MAPPINGS, pa) == if pa < 64 * GIB then 0 else 2
  {
    var maps := INITIAL_MAPPINGS;
    assert Covers(maps[0], pa) <==> pa < 64 * GIB;
    assert Covers(maps[1], pa) <==> pa < GIB;
    FirstCoverSkips(maps, if pa < 64 * GIB then 0 else 2, pa);
  }

  /** The kernel address of a physical address below 64 GiB. */
  method KernelAddress(pa: Quad) returns (va: Quad)
    ensures va == if pa < 64 * GIB then KERNEL_ASPACE_BASE + pa else 0
  {
    KernelCover(pa);
    assert INITIAL_MAPPINGS[2].size == 0;
    va := PaddrToKvaddr(INITIAL_MAPPINGS, pa);
  }

  /** Both kernel windows undo the translation, for every address they promise one for,
      and the first is the inverse of `paddr_to_kvaddr`. */
  lemma KernelAddressesAreInverse(mem: Memory, b: nat, low: bool, pa: Quad)
    requires Loaded(mem, b, low)
    ensures pa < 64 * GIB ==> var w := Walk(mem, b, KERNEL_ASPACE_BASE + pa); w.Mapped? && w.paddr == pa
    ensures pa < GIB ==> var w := Walk(mem, b, KERNEL_VMA_BASE + pa); w.Mapped? && w.paddr == pa
  {
    if pa < 64 * GIB {
      LargeWindowIsUndone(mem, b, low, pa);
    }
    if pa < GIB {
      ImageWindowIsUndone(mem, b, low, pa);
    }
  }

  lemma LargeWindowIsUndone(mem: Memory, b: nat, low: bool, pa: Quad)
    requires Loaded(mem, b, low) && pa < 64 * GIB
    ensures var w := Walk(mem, b, KERNEL_ASPACE_BASE + pa); w.Mapped? && w.paddr == pa
  {
    BootMapIs(mem, b, low, KERNEL_ASPACE_BASE + pa);
  }

  lemma ImageWindowIsUndone(mem: Memory, b: nat, low: bool, pa: Quad)
    requires Loaded(mem, b, low) && pa < GIB
    ensures var w := Walk(mem, b, KERNEL_VMA_BASE + pa); w.Mapped? && w.paddr == pa
  {
    BootMapIs(mem, b, low, KERNEL_VMA_BASE + pa);
  }

  /* ---- From the assembly to the walk ---- */

  /** Memory whose 8-byte values over the section are the section's entries. */
  ghost predicate Shows(mem: Memory, t: Section)
    requires t.words.Length == 2 * ENTRIES
    reads t.words
  {
    forall i: nat :: i < ENTRIES ==> Read(mem, t.base, i) == t.Entry(i)
  }

  /** Setting up paging and then unmapping the low half, over a section of zeros: from then on every
      canonical address is translated as the boot map says, and none of the low half is. */
  method BootPaging(t: Section)
    requires t.Valid() && forall i :: 0 <= i < ENTRIES ==> t.Entry(i) == 0
    modifies t.words
    ensures forall mem: Memory, va: nat :: Shows(mem, t) && Canonical(va) ==>
              var w := Walk(mem, t.base, va);
              if BootTarget(va, false) >= 0 then w.Mapped? && w.paddr == BootTarget(va, false) else w.Absent?
    ensures forall mem: Memory, va: nat :: Shows(mem, t) && va < 0x8000_0000_0000 ==> Walk(mem, t.base, va).Absent?
    ensures forall mem: Memory, va: nat :: Shows(mem, t) && Canonical(va) && Walk(mem, t.base, va).Mapped? ==>
              IsWritableAt(mem, t.base, va)
  {
    t.SetupPaging();
    t.UnmapLow();
    forall mem: Memory, va: nat | Shows(mem, t) && Canonical(va)
      ensures var w := Walk(mem, t.base, va);
              if BootTarget(va, false) >= 0 then w.Mapped? && w.paddr == BootTarget(va, false) else w.Absent?
    {
      assert Loaded(mem, t.base, false);
      BootMapIs(mem, t.base, false, va);
    }
    forall mem: Memory, va: nat | Shows(mem, t) && Canonical(va) && Walk(mem, t.base, va).Mapped?
      ensures IsWritableAt(mem, t.base, va)
    {
      assert Loaded(mem, t.base, false);
      BootMapIs(mem, t.base, false, va);
      BootMapIsWritable(mem, t.base, false, va);
    }
  }
}
