/** A page of kernel memory: the page allocator and the kernel's view of memory together. */
module Kpages {
  import opened Lists
  import opened PmmModel
  import opened PmmOps
  import opened Paging
  import opened BootMap
  import Pmm

  /** The kernel address of a page taken at boot: that of its frame, if its zone's window accepts the page
      and the frame is below 64 GiB; else there is none, and the page is out all the same. */
  function KernelPage(s: State, p: Page): nat
    requires p.zone < |s.zones|
  {
    var a := s.zones[p.zone].base + PAGE_SIZE * p.index;
    if Accepted(s, p) && a < 64 * GIB then KERNEL_ASPACE_BASE + a else 0
  }

  /** The one-page path of `pmm_alloc_kpages`.  `stray` says that no page is free, so that the page pointer
      the call looks at was never set. */
  method AllocKpage(pmm: Pmm.Allocator) returns (va: nat, stray: bool, ghost p: Option<Page>)
    requires pmm.Valid()
    modifies pmm`model, pmm.rings, pmm.rings.repr, pmm.zones
    ensures pmm.Valid() && Inv(old(pmm.model)) && (pmm.model, p) == AllocPage(old(pmm.model))
    ensures stray <==> p.None?
    ensures p.Some? ==>
              && IsPage(pmm.model, p.value) && p.value in pmm.model.place && pmm.model.place[p.value] == Held
              && va == KernelPage(pmm.model, p.value)
              && var zone, i := pmm.model.zones[p.value.zone], p.value.index;
                 va == if 24 * i < zone.size / 4096 && zone.base + 4096 * i < 0x10_0000_0000
                       then 0xffff_ff80_0000_0000 + zone.base + 4096 * i else 0
  {
    ghost var s := pmm.model;
    va := 0;
    var status, page;
    status, page, p := pmm.AllocPage();
    stray := page == null;
    if page != null {
      PageTaken(s);
      va := KernelAddressOf(pmm, page, p.value);
    }
  }

  /** `paddr_to_kvaddr` of `vm_page_to_paddr` */
  method KernelAddressOf(pmm: Pmm.Allocator, page: ListNode, ghost p: Page) returns (va: nat)
    requires pmm.Valid() && IsPage(pmm.model, p) && p in pmm.nodeOf && page == pmm.nodeOf[p]
    ensures va == KernelPage(pmm.model, p)
  {
    pmm.NodeTagged(p);
    var pa := pmm.PageToPaddr(page, p);
    PageAddress(pmm.model, p);
    va := KernelAddress(pa);
  }

  lemma PageTaken(s: State)
    requires Inv(s) && AllocPage(s).1.Some?
    ensures var r := AllocPage(s); IsPage(r.0, r.1.value) && r.1.value in r.0.place && r.0.place[r.1.value] == Held
  {
    AllocPageMeaning(s);
  }

  lemma PageAddress(s: State, p: Page)
    requires Inv(s) && IsPage(s, p)
    ensures var a := VmPageToPaddr(s, p);
            (if a < 64 * GIB then KERNEL_ASPACE_BASE + a else 0) == KernelPage(s, p)
  {
    PaddrOfPage(s, p);
  }

  /** That address is good: the boot tables, walked from it, lead to the page's own frame, byte by byte, as far
      as the window goes. */
  lemma KernelPageIsMapped(mem: Memory, b: nat, low: bool, s: State, p: Page, offset: nat)
    requires Loaded(mem, b, low) && p.zone < |s.zones| && KernelPage(s, p) != 0 && offset < PAGE_SIZE
    requires s.zones[p.zone].base + PAGE_SIZE * p.index + offset < 64 * GIB
    ensures var w := Walk(mem, b, KernelPage(s, p) + offset);
            w.Mapped? && w.paddr == s.zones[p.zone].base + PAGE_SIZE * p.index + offset
  {
    KernelAddressesAreInverse(mem, b, low, s.zones[p.zone].base + PAGE_SIZE * p.index + offset);
  }

  /** In a zone that begins at a page, the window holds the whole frame. */
  lemma KernelPageIsWhole(s: State, p: Page, offset: nat)
    requires p.zone < |s.zones| && KernelPage(s, p) != 0 && offset < PAGE_SIZE && s.zones[p.zone].base % PAGE_SIZE == 0
    ensures s.zones[p.zone].base + PAGE_SIZE * p.index + offset < 64 * GIB
  {
    var k := s.zones[p.zone].base / PAGE_SIZE;
    assert s.zones[p.zone].base == PAGE_SIZE * k && 64 * GIB == PAGE_SIZE * 0x100_0000;
    assert k + p.index < 0x100_0000;
  }
}
