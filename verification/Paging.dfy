/** Page-table entries, and the 4-level walk the processor makes (Intel SDM Vol. 3A, section 4.5). */
module Paging {
  import opened Bits

  /** Physical memory: the 8-byte value stored at each address. */
  type Memory = nat -> Quad

  const KERNEL_ASPACE_BASE: nat := 0xffff_ff80_0000_0000
  const KERNEL_VMA_BASE: nat := 0xffff_ffff_8000_0000
  const GIB: nat := 0x4000_0000
  const TWO_MIB: nat := 0x20_0000
  const FLAGS_RW_P: nat := 0x3
  /** Global, large page, writable, present. */
  const FLAGS_BOOT_PDE: nat := 0x183

  predicate Present(e: nat) { e % 2 == 1 }
  predicate Large(e: nat) { e / 128 % 2 == 1 }

  /** Bits 51:12, the address of the next table or of a 4 KiB frame; 51:21 for 2 MiB, 51:30 for 1 GiB. */
  function TableOf(e: nat): int { e % 0x10_0000_0000_0000 - e % 0x1000 }
  function Frame2M(e: nat): int { e % 0x10_0000_0000_0000 - e % 0x20_0000 }
  function Frame1G(e: nat): int { e % 0x10_0000_0000_0000 - e % 0x4000_0000 }

  /** Bits 47:39, 38:30, 29:21 and 20:12 of a linear address. */
  function Index4(va: nat): nat { va / 0x80_0000_0000 % 512 }
  function Index3(va: nat): nat { va / 0x4000_0000 % 512 }
  function Index2(va: nat): nat { va / 0x20_0000 % 512 }
  function Index1(va: nat): nat { va / 0x1000 % 512 }

  /** An absent entry ends a walk at a level (4 for the PML4, down to 1) in the table at an address;
      otherwise the walk gives a physical address, and the leaf's level and value. */
  datatype Walked = Absent(level: nat, table: int) | Mapped(paddr: int, level: nat, leaf: nat)

  function Read(mem: Memory, table: int, index: nat): Quad {
    if table + 8 * index >= 0 then mem(table + 8 * index) else 0
  }

  function Walk(mem: Memory, root: nat, va: nat): Walked {
    var e4 := Read(mem, root, Index4(va));
    if !Present(e4) then Absent(4, root)
    else
      var e3 := Read(mem, TableOf(e4), Index3(va));
      if !Present(e3) then Absent(3, TableOf(e4))
      else if Large(e3) then Mapped(Frame1G(e3) + va % 0x4000_0000, 3, e3)
      else Walk2(mem, TableOf(e3), va)
  }

  function Walk2(mem: Memory, table: int, va: nat): Walked {
    var e2 := Read(mem, table, Index2(va));
    if !Present(e2) then Absent(2, table)
    else if Large(e2) then Mapped(Frame2M(e2) + va % 0x20_0000, 2, e2)
    else
      var e1 := Read(mem, TableOf(e2), Index1(va));
      if !Present(e1) then Absent(1, TableOf(e2))
      else Mapped(TableOf(e1) + va % 0x1000, 1, e1)
  }

  lemma TableNotNegative(e: nat)
    ensures 0 <= TableOf(e) && 0 <= Frame2M(e)
  {
    ModOfMod(e, 0x1000, 0x100_0000_0000, 0x10_0000_0000_0000);
    ModOfMod(e, 0x20_0000, 0x8000_0000, 0x10_0000_0000_0000);
  }

  /** A table pointer: the address of a page with flags in the low bits. */
  lemma TableEntry(t: nat, f: nat)
    requires t % 0x1000 == 0 && t < 0xf_ffff_ffff_f000 && f < 0x1000
    ensures TableOf(t + f) == t
    ensures Present(t + f) <==> Present(f)
    ensures Large(t + f) <==> Large(f)
  {
    ModOfSum(t, f, 0x1000);
    ModSmall(t + f, 0x10_0000_0000_0000);
    LowBits(t / 0x1000, f);
  }

  lemma LowBits(q: nat, f: nat)
    ensures Present(0x1000 * q + f) <==> Present(f)
    ensures Large(0x1000 * q + f) <==> Large(f)
  {
    ModUnique(0x1000 * q + f, 2, 0x800 * q + f / 2, f % 2);
    ModUnique(0x1000 * q + f, 128, 32 * q + f / 128, f % 128);
    ModUnique(32 * q + f / 128, 2, 16 * q + f / 128 / 2, f / 128 % 2);
  }

  /** An address by its upper indices and its offset in 2 MiB. */
  lemma Fields(va: nat, top: nat, i3: nat, i2: nat, off: nat)
    requires i3 < 512 && i2 < 512 && off < TWO_MIB
    requires va == 0x80_0000_0000 * top + GIB * i3 + TWO_MIB * i2 + off
    ensures Index4(va) == top % 512 && Index3(va) == i3 && Index2(va) == i2 && va % TWO_MIB == off
  {
    ModUnique(va, 0x80_0000_0000, top, GIB * i3 + TWO_MIB * i2 + off);
    ModUnique(va, GIB, 512 * top + i3, TWO_MIB * i2 + off);
    ModUnique(va, TWO_MIB, 512 * (512 * top + i3) + i2, off);
    ModUnique(512 * top + i3, 512, top, i3);
    ModUnique(512 * (512 * top + i3) + i2, 512, 512 * top + i3, i2);
  }

  /** Every address has such indices. */
  lemma Split(va: nat) returns (top: nat, i3: nat, i2: nat, off: nat)
    ensures i3 < 512 && i2 < 512 && off < TWO_MIB
    ensures va == 0x80_0000_0000 * top + GIB * i3 + TWO_MIB * i2 + off
  {
    top, i3 := va / 0x80_0000_0000, va % 0x80_0000_0000 / GIB;
    i2, off := va % 0x80_0000_0000 % GIB / TWO_MIB, va % 0x80_0000_0000 % GIB % TWO_MIB;
  }
}
