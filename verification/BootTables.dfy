/** The boot page tables: the 32-bit loops that fill them, and the map they amount to. */
module BootTables {
  import opened Bits
  import opened Paging

  /* The tables lie one after the other from the start of their section on. */
  const PDP: nat := 0x1000
  const PDP_HIGH: nat := 0x2000
  const PD: nat := 0x3000
  const PDE_ARRAY: nat := 0x4000
  const PDE_COUNT: nat := 32768
  /** All tables together, in 8-byte entries. */
  const ENTRIES: nat := 34816

  /* ---- 32-bit registers ---- */

  function Add32(a: nat, b: nat): Word { (a + b) % TWO_32 }
  function Shl32(a: nat, k: nat): Word { a * Pow2(k) % TWO_32 }
  function Shr32(a: Word, k: nat): nat { Shr(a, k) }

  /** The entry each position of the section is to hold, when the section is at address `b`. */
  function BootEntry(b: nat, i: nat): nat {
    if i == 0 then b + PDP + FLAGS_RW_P
    else if i == 511 then b + PDP_HIGH + FLAGS_RW_P
    else if i == 512 then b + PD + FLAGS_RW_P
    else if 1024 <= i < 1024 + 64 then b + PDE_ARRAY + 0x1000 * (i - 1024) + FLAGS_RW_P
    else if i == 1024 + 510 then b + PD + FLAGS_RW_P
    else if 1536 <= i < 2048 then TWO_MIB * (i - 1536) + FLAGS_BOOT_PDE
    else if 2048 <= i < ENTRIES then TWO_MIB * (i - 2048) + FLAGS_BOOT_PDE
    else 0
  }

  /** A pointer to a table: present (bit 0) and writable (bit 1), and no other flag; nor any bit above the address. */
  predicate IsWritablePointer(e: nat) {
    e % 2 == 1 && e / 2 % 2 == 1 && e % 0x1000 == 1 + 2 && e < 0x10_0000_0000_0000
  }

  /** A 2 MiB page: present (bit 0), writable (bit 1), large (bit 7) and global (bit 8), and no other flag. */
  predicate IsWritablePage(e: nat) {
    && e % 2 == 1 && e / 2 % 2 == 1 && e / 128 % 2 == 1 && e / 256 % 2 == 1
    && e % 0x20_0000 == 1 + 2 + 128 + 256 && e < 0x10_0000_0000_0000
  }

  lemma FlagsOnPage(q: nat, p: nat)
    requires p == 0x1000 * q < TWO_32
    ensures IsWritablePointer(p + FLAGS_RW_P)
  {
    ModUnique(p + FLAGS_RW_P, 0x1000, q, FLAGS_RW_P);
    ModUnique(p + FLAGS_RW_P, 2, 0x800 * q + 1, 1);
    ModUnique(0x800 * q + 1, 2, 0x400 * q, 1);
  }

  lemma PageFlags(k: nat)
    requires k < PDE_COUNT
    ensures IsWritablePage(TWO_MIB * k + FLAGS_BOOT_PDE)
  {
    var e := TWO_MIB * k + FLAGS_BOOT_PDE;
    ModUnique(e, TWO_MIB, k, FLAGS_BOOT_PDE);
    ModUnique(e, 2, TWO_MIB / 2 * k + 193, 1);
    ModUnique(TWO_MIB / 2 * k + 193, 2, TWO_MIB / 4 * k + 96, 1);
    ModUnique(e, 128, TWO_MIB / 128 * k + 3, 3);
    ModUnique(TWO_MIB / 128 * k + 3, 2, TWO_MIB / 256 * k + 1, 1);
    ModUnique(e, 256, TWO_MIB / 256 * k + 1, 131);
    ModUnique(TWO_MIB / 256 * k + 1, 2, TWO_MIB / 512 * k, 1);
  }

  /** The large pages from entry 1536 on, and the pointers to their tables. */
  lemma EntryFlags(b: nat, i: nat)
    requires b % 0x1000 == 0 && b + 8 * ENTRIES <= TWO_32 && i < ENTRIES
    ensures i >= 1536 ==> IsWritablePage(BootEntry(b, i))
    ensures 1024 <= i < 1088 ==> IsWritablePointer(BootEntry(b, i))
  {
    if i >= 1536 {
      PageFlags(if i < 2048 then i - 1536 else i - 2048);
    } else if 1024 <= i < 1088 {
      FlagsOnPage(b / 0x1000 + 4 + (i - 1024), b + PDE_ARRAY + 0x1000 * (i - 1024));
    }
  }

  /** Shifting the entry number left by 21 in 32 bits and right by 11 gives the two halves of the
      address: the bits lost on the left are those kept on the right. */
  lemma HalvesRecombine(k: nat)
    requires k < PDE_COUNT
    ensures Shl32(k, 21) % 0x20_0000 == 0
    ensures BitOr(Shl32(k, 21), FLAGS_BOOT_PDE) < TWO_32
    ensures BitOr(Shl32(k, 21), FLAGS_BOOT_PDE) + TWO_32 * Shr32(k, 11) == TWO_MIB * k + FLAGS_BOOT_PDE
    ensures 0 <= Shr32(k, 11) < TWO_32 && (k < 2048 ==> Shr32(k, 11) == 0)
  {
    Pow2Values();
    assert Pow2(11) == 2048;
    ShrIsDiv(k, 11);
    var q, r := k / 2048, k % 2048;
    assert k == 2048 * q + r;
    ModUnique(k * 0x20_0000, TWO_32, q, r * 0x20_0000);
    assert Shl32(k, 21) == r * 0x20_0000;
    ModUnique(r * 0x20_0000, 0x20_0000, r, 0);
    OrDisjoint(r * 0x20_0000, FLAGS_BOOT_PDE, 21);
  }

  /** Or-ing flags into the address of a page adds them. */
  lemma OrFlags(t: nat, f: nat)
    requires t % 0x1000 == 0 && f < 0x1000
    ensures BitOr(t, f) == t + f
  {
    Pow2Values();
    OrDisjoint(t, f, 12);
  }

  /** The table section: 32-bit words from physical address `base` on. */
  class Section {
    const base: nat
    const words: array<Word>

    ghost predicate Valid() {
      words.Length == 2 * ENTRIES && base % 0x1000 == 0 && base + 8 * ENTRIES <= TWO_32
    }

    function Entry(i: nat): nat
      requires 2 * i + 1 < words.Length
      reads words
    {
      words[2 * i] + TWO_32 * words[2 * i + 1]
    }

    constructor (base: nat, words: array<Word>)
      ensures this.base == base && this.words == words
    {
      this.base, this.words := base, words;
    }

    /** `movl`: stores 32 bits at a physical address of the section, that of word `w`. */
    method Store(addr: nat, value: Word, ghost w: nat)
      requires Valid() && addr == base + 4 * w && w < words.Length
      modifies words
      ensures words[w] == value
      ensures forall k :: 0 <= k < words.Length && k != w ==> words[k] == old(words[k])
    {
      words[(addr - base) / 4] := value;
    }

    /** Every entry from position `lo` up to `hi` is what it is to be. */
    ghost predicate Holds(lo: nat, hi: nat)
      requires hi <= ENTRIES && words.Length == 2 * ENTRIES
      reads words
    {
      forall i :: lo <= i < hi ==> Entry(i) == BootEntry(base, i)
    }

    lemma HaveFlags(lo: nat, hi: nat)
      requires Valid() && hi <= ENTRIES && Holds(lo, hi)
      ensures forall i :: lo <= i < hi && i >= 1536 ==> IsWritablePage(Entry(i))
      ensures forall i :: lo <= i < hi && 1024 <= i < 1088 ==> IsWritablePointer(Entry(i))
    {
      forall i | lo <= i < hi ensures Entry(i) == BootEntry(base, i) {
      }
      forall i: nat | i < ENTRIES
        ensures i >= 1536 ==> IsWritablePage(BootEntry(base, i))
        ensures 1024 <= i < 1088 ==> IsWritablePointer(BootEntry(base, i))
      {
        EntryFlags(base, i);
      }
    }

    /** A store of the low half of entry `i`, whose high half is still clear. */
    method StoreLow(i: nat, addr: nat, value: Word)
      requires Valid() && i < ENTRIES && addr == base + 8 * i && Entry(i) == 0
      modifies words
      ensures Entry(i) == value
      ensures forall j :: 0 <= j < ENTRIES && j != i ==> Entry(j) == old(Entry(j))
    {
      Store(addr, value, 2 * i);
      assert words[2 * i + 1] == 0;
      forall j | 0 <= j < ENTRIES && j != i ensures Entry(j) == old(Entry(j)) {
        assert words[2 * j] == old(words[2 * j]) && words[2 * j + 1] == old(words[2 * j + 1]);
      }
    }

    /** Stores of both halves of entry `i`. */
    method StoreBoth(i: nat, addr: nat, low: Word, high: Word)
      requires Valid() && i < ENTRIES && addr == base + 8 * i
      modifies words
      ensures Entry(i) == low + TWO_32 * high
      ensures forall j :: 0 <= j < ENTRIES && j != i ==> Entry(j) == old(Entry(j))
    {
      Store(addr, low, 2 * i);
      Store(addr + 4, high, 2 * i + 1);
      assert words[2 * i] == low;
      forall j | 0 <= j < ENTRIES && j != i ensures Entry(j) == old(Entry(j)) {
        assert words[2 * j] == old(words[2 * j]) && words[2 * j + 1] == old(words[2 * j + 1]);
      }
    }

    /** One round of `.Lfill_boot_pd_table`: the low half of large-page entry `k`. */
    method StoreLowPde(k: Word, addr: nat)
      requires Valid() && k < 512 && addr == base + PD + 8 * k && Entry(1536 + k) == 0
      modifies words
      ensures Entry(1536 + k) == BootEntry(base, 1536 + k)
      ensures forall j :: 0 <= j < ENTRIES && j != 1536 + k ==> Entry(j) == old(Entry(j))
    {
      HalvesRecombine(k);
      var ebx := Shl32(k, 21);
      ebx := BitOr(ebx, FLAGS_BOOT_PDE);
      StoreLow(1536 + k, addr, ebx);
    }

    /** One round of `.Lfill_boot_pde_array`: both halves of large-page entry `k`. */
    method StorePde(k: Word, addr: nat)
      requires Valid() && k < PDE_COUNT && addr == base + PDE_ARRAY + 8 * k
      modifies words
      ensures Entry(2048 + k) == BootEntry(base, 2048 + k)
      ensures forall j :: 0 <= j < ENTRIES && j != 2048 + k ==> Entry(j) == old(Entry(j))
    {
      HalvesRecombine(k);
      var ebx := Shl32(k, 21);
      ebx := BitOr(ebx, FLAGS_BOOT_PDE);
      var high := Shr32(k, 11);
      StoreBoth(2048 + k, addr, ebx, high);
    }

    /** `.Lfill_boot_pd_table`: 512 entries, of which only the low halves are stored. */
    method FillPd()
      requires Valid() && forall i :: 1536 <= i < 2048 ==> Entry(i) == 0
      modifies words
      ensures Holds(1536, 2048) && forall i :: 1536 <= i < 2048 ==> IsWritablePage(Entry(i))
      ensures forall i :: 0 <= i < ENTRIES && !(1536 <= i < 2048) ==> Entry(i) == old(Entry(i))
    {
      var esi, ecx, eax := base + PD, 512, 0;
      while ecx != 0
        invariant 0 <= ecx <= 512 && eax == 512 - ecx && esi == base + PD + 8 * eax
        invariant Holds(1536, 1536 + eax)
        invariant forall i :: 1536 + eax <= i < 2048 ==> Entry(i) == 0
        invariant forall i :: 0 <= i < ENTRIES && !(1536 <= i < 2048) ==> Entry(i) == old(Entry(i))
      {
        StoreLowPde(eax, esi);
        esi := Add32(esi, 8);
        eax := Add32(eax, 1);
        ecx := ecx - 1;
      }
      HaveFlags(1536, 2048);
    }

    /** `.Lfill_boot_pde_array`: 32768 entries, low half and high half. */
    method FillPdeArray()
      requires Valid()
      modifies words
      ensures Holds(2048, ENTRIES) && forall i :: 2048 <= i < ENTRIES ==> IsWritablePage(Entry(i))
      ensures forall i :: 0 <= i < 2048 ==> Entry(i) == old(Entry(i))
    {
      var esi, ecx, eax := base + PDE_ARRAY, PDE_COUNT, 0;
      while ecx != 0
        invariant 0 <= ecx <= PDE_COUNT && eax == PDE_COUNT - ecx
        invariant ecx > 0 ==> esi == base + PDE_ARRAY + 8 * eax
        invariant Holds(2048, 2048 + eax)
        invariant forall i :: 0 <= i < 2048 ==> Entry(i) == old(Entry(i))
      {
        StorePde(eax, esi);
        esi := Add32(esi, 8);
        eax := Add32(eax, 1);
        ecx := ecx - 1;
      }
      HaveFlags(2048, ENTRIES);
    }

    /** `.Lfill_boot_pdp_high_table`: 64 entries for the tables of `boot_pde_array`, one after the other. */
    method FillPdpHigh()
      requires Valid() && forall i :: 1024 <= i < 1088 ==> Entry(i) == 0
      modifies words
      ensures Holds(1024, 1088) && forall i :: 1024 <= i < 1088 ==> IsWritablePointer(Entry(i))
      ensures forall i :: 0 <= i < ENTRIES && !(1024 <= i < 1088) ==> Entry(i) == old(Entry(i))
    {
      OrFlags(base + PDE_ARRAY, FLAGS_RW_P);
      var esi, ecx, eax := base + PDP_HIGH, 64, BitOr(base + PDE_ARRAY, FLAGS_RW_P);
      while ecx != 0
        invariant 0 <= ecx <= 64 && esi == base + PDP_HIGH + 8 * (64 - ecx)
        invariant ecx > 0 ==> eax == base + PDE_ARRAY + FLAGS_RW_P + 0x1000 * (64 - ecx)
        invariant Holds(1024, 1088 - ecx)
        invariant forall i :: 1088 - ecx <= i < 1088 ==> Entry(i) == 0
        invariant forall i :: 0 <= i < ENTRIES && !(1024 <= i < 1088) ==> Entry(i) == old(Entry(i))
      {
        StoreLow(1088 - ecx, esi, eax);
        esi := Add32(esi, 8);
        eax := Add32(eax, 4096);
        ecx := ecx - 1;
      }
      HaveFlags(1024, 1088);
    }

    /** A table pointer with its flags, stored as the low half of entry `i`. */
    method StorePointer(i: nat, table: nat)
      requires Valid() && i < ENTRIES && Entry(i) == 0
      requires table % 0x1000 == 0 && table <= 8 * ENTRIES - 0x1000
      modifies words
      ensures Entry(i) == base + table + FLAGS_RW_P
      ensures forall j :: 0 <= j < ENTRIES && j != i ==> Entry(j) == old(Entry(j))
    {
      OrFlags(base + table, FLAGS_RW_P);
      var eax: Word := BitOr(base + table, FLAGS_RW_P);
      StoreLow(i, base + 8 * i, eax);
    }

    /** `.Lsetup_paging`, on a section the clearing of `.bss` has zeroed. */
    method SetupPaging()
      requires Valid() && forall i :: 0 <= i < ENTRIES ==> Entry(i) == 0
      modifies words
      ensures Holds(0, ENTRIES)
      ensures forall i :: 1536 <= i < ENTRIES ==> IsWritablePage(Entry(i))
      ensures forall i :: 1024 <= i < 1088 ==> IsWritablePointer(Entry(i))
    {
      StorePointer(0, PDP);
      StorePointer(512, PD);
      StorePointer(511, PDP_HIGH);
      StorePointer(1534, PD);
      FillPd();
      FillPdeArray();
      FillPdpHigh();
    }

    /** The 64-bit store of `_start64` that unmaps the low half. */
    method UnmapLow()
      requires Valid()
      modifies words
      ensures Entry(0) == 0
      ensures forall i :: 0 < i < ENTRIES ==> Entry(i) == old(Entry(i))
    {
      Store(base, 0, 0);
      Store(base + 4, 0, 1);
    }
  }
}
