/** Where the kernel's page-table walk goes wrong: memory is bytes, and an entry used as a pointer
    with its flags still in it reads across two entries. */
module MmuLimits {
  import opened Bits
  import opened Bytes
  import opened Paging
  import opened Mmu
  import BootTables
  import BootMap

  /** Memory as the processor reads entries from it. */
  function Quads(ram: Ram): Memory { (a: nat) => Word64(ram, a) }

  function Poke(ram: Ram, a: nat, v: Byte): Ram { (x: nat) => if x == a then v else ram(x) }

  lemma PresentIsByte(ram: Ram, a: nat)
    ensures Present(Quads(ram)(a)) <==> ram(a) % 2 == 1
  {
    assert Quads(ram)(a) == ram(a) as nat + 256 * Little(ram, a + 1, 7);
  }

  lemma {:induction false} PokeElsewhere(ram: Ram, a: nat, v: Byte, at: nat, n: nat)
    requires a < at || at + n <= a
    ensures Little(Poke(ram, a, v), at, n) == Little(ram, at, n)
    decreases n
  {
    if n > 0 {
      PokeElsewhere(ram, a, v, at + 1, n - 1);
    }
  }

  /** Different indices of page-aligned tables are different, whole slots. */
  lemma Apart(t: nat, k: nat, t': nat, k': nat)
    requires t % 0x1000 == 0 && t' % 0x1000 == 0 && k < 512 && k' < 512 && k != k'
    ensures t + 8 * k < t' + 8 * k' || t' + 8 * k' + 8 <= t + 8 * k
  {
  }

  lemma TableAligned(e: nat)
    ensures TableOf(e) >= 0 && TableOf(e) % 0x1000 == 0
  {
    TableNotNegative(e);
    ModOfMod(e, 0x1000, 0x100_0000_0000, 0x10_0000_0000_0000);
    var m := e % 0x10_0000_0000_0000;
    ModUnique(m - m % 0x1000, 0x1000, m / 0x1000, 0);
  }

  /** The walk as written gives the right answer whatever else is in memory, for every address that
      goes through entry `i` of the PML4, when that entry is `e`. */
  ghost predicate RightThrough(root: nat, i: nat, e: Quad)
    requires IsRoot(root)
  {
    forall ram: Ram, va: Quad :: Index4(va) == i && Read(Quads(ram), root, i) == e ==>
      Agrees(Mapping(Quads(ram), va, P2KV(root), false), Walk(Quads(ram), root, va))
  }

  /** The entry read through a pointer with a present bit in it starts at an odd address. */
  lemma OddRead(e: Quad, j: nat)
    requires Present(e) && j < 512
    ensures KV2P(Add64(P2KV(e), 8 * j)) % 2 == 1
  {
    var c := KV2P(Add64(P2KV(e), 8 * j));
    assert c == e + 8 * j || c == e + 8 * j - TWO_64;
  }

  lemma LevelsBelow(mem: Memory, va: Quad, pdpe: Quad, masked: bool)
    ensures MappingBelow(mem, va, pdpe, masked).level < 3
  {
  }

  /** If of the two slots `s` and `c` that are read for the third level one holds a present entry and
      the other an absent one, the answers differ. */
  lemma ThirdLevelTells(mem: Memory, root: nat, va: Quad, e4: Quad, s: nat, c: nat)
    requires IsRoot(root) && e4 == Read(mem, root, Index4(va)) && Present(e4)
    requires s == TableOf(e4) + 8 * Index3(va) && c == KV2P(Add64(P2KV(e4), 8 * Index3(va)))
    requires Present(mem(s)) != Present(mem(c))
    ensures !Agrees(Mapping(mem, va, P2KV(root), false), Walk(mem, root, va))
  {
    ReadMoved(mem, root, Index4(va));
    Moved(e4);
    Moved(mem(c));
    LevelsBelow(mem, va, P2KV(mem(c)), false);
  }

  /** A memory in which the values at two addresses differ in the present bit, and a third is kept. */
  lemma PokedApart(ram: Ram, s: nat, c: nat, at: nat) returns (other: Ram)
    requires s != c && (s < at || at + 8 <= s)
    ensures Quads(other)(at) == Quads(ram)(at)
    ensures Present(Quads(other)(s)) != Present(Quads(other)(c))
  {
    var v := if ram(c) % 2 == 1 then 0 else 1;
    other := Poke(ram, s, v);
    PokeElsewhere(ram, s, v, at, 8);
    PresentIsByte(other, s);
    PresentIsByte(other, c);
  }

  /** The two slots of the third level are different, and clear of the slot of another index. */
  lemma Slots(e: Quad, root: nat, i: nat, j: nat, s: nat, c: nat)
    requires IsRoot(root) && Present(e) && i < 512 && j < 512 && i != j
    requires s == TableOf(e) + 8 * j && c == KV2P(Add64(P2KV(e), 8 * j))
    ensures s != c && (s < root + 8 * i || root + 8 * i + 8 <= s)
  {
    TableAligned(e);
    OddRead(e, j);
    EvenSlot(TableOf(e), j);
    Apart(TableOf(e), j, root, i);
  }

  lemma EvenSlot(t: nat, j: nat)
    requires t % 0x1000 == 0
    ensures (t + 8 * j) % 2 == 0
  {
    var q := t / 0x1000;
    assert t == 0x1000 * q;
    ModUnique(t + 8 * j, 2, 0x800 * q + 4 * j, 0);
  }

  /** A memory that keeps the PML4 entry, and an address through it on which the walks part. */
  lemma Differing(ram: Ram, root: nat, i: nat) returns (other: Ram, va: Quad)
    requires IsRoot(root) && i < 512 && Present(Read(Quads(ram), root, i))
    ensures Index4(va) == i && Read(Quads(other), root, i) == Read(Quads(ram), root, i)
    ensures !Agrees(Mapping(Quads(other), va, P2KV(root), false), Walk(Quads(other), root, va))
  {
    var e := Read(Quads(ram), root, i);
    var j := Third(i, i);
    va := AddressThroughThree(i, j, 0);
    TableNotNegative(e);
    other := DifferingAt(ram, root, va, e, i, j, TableOf(e) + 8 * j, KV2P(Add64(P2KV(e), 8 * j)));
  }

  lemma DifferingAt(ram: Ram, root: nat, va: Quad, e: Quad, i: nat, j: nat, s: nat, c: nat) returns (other: Ram)
    requires IsRoot(root) && i < 512 && j < 512 && i != j && Index4(va) == i && Index3(va) == j
    requires e == Read(Quads(ram), root, i) && Present(e)
    requires s == TableOf(e) + 8 * j && c == KV2P(Add64(P2KV(e), 8 * j))
    ensures Read(Quads(other), root, i) == e
    ensures !Agrees(Mapping(Quads(other), va, P2KV(root), false), Walk(Quads(other), root, va))
  {
    Slots(e, root, i, j, s, c);
    other := PokedApart(ram, s, c, root + 8 * i);
    ThirdLevelTells(Quads(other), root, va, e, s, c);
  }

  /** As written, the walk through a PML4 entry can be relied on exactly when the entry is absent. */
  lemma RightExactlyThroughAbsent(ram: Ram, root: nat, i: nat)
    requires IsRoot(root) && i < 512
    ensures var e := Read(Quads(ram), root, i); RightThrough(root, i, e) <==> !Present(e)
  {
    var e := Read(Quads(ram), root, i);
    if Present(e) {
      var other, va := Differing(ram, root, i);
    } else {
      forall r: Ram, va: Quad | Index4(va) == i && Read(Quads(r), root, i) == e
        ensures Agrees(Mapping(Quads(r), va, P2KV(root), false), Walk(Quads(r), root, va))
      {
        RootTable(root);
        ReadMoved(Quads(r), root, i);
        Moved(e);
      }
    }
  }

  /** The masked walk is right whatever else is in memory, for every address whose entries of the fourth
      and third level are `e4` and `e3`. */
  ghost predicate MaskedRightThrough(root: nat, i: nat, e4: Quad, j: nat, e3: Quad)
    requires IsRoot(root)
  {
    forall ram: Ram, va: Quad ::
      Index4(va) == i && Index3(va) == j && Read(Quads(ram), root, i) == e4 && Read(Quads(ram), TableOf(e4), j) == e3
      ==> Agrees(Mapping(Quads(ram), va, P2KV(root), true), Walk(Quads(ram), root, va))
  }

  /** An index apart from two others. */
  function Third(i: nat, j: nat): (k: nat)
    ensures k != i && k != j && k < 512
  {
    if i != 0 && j != 0 then 0 else if i != 1 && j != 1 then 1 else 2
  }

  /** A memory with the same two entries in which a directory at the frame of the third-level entry
      has an absent entry. */
  lemma GibDiffering(ram: Ram, root: nat, i: nat, e4: Quad, j: nat, e3: Quad) returns (other: Ram, va: Quad)
    requires IsRoot(root) && i < 512 && j < 512
    requires e4 == Read(Quads(ram), root, i) && e3 == Read(Quads(ram), TableOf(e4), j)
    requires Present(e4) && Present(e3) && Large(e3)
    ensures Index4(va) == i && Index3(va) == j
    ensures Read(Quads(other), root, i) == e4 && Read(Quads(other), TableOf(e4), j) == e3
    ensures !Agrees(Mapping(Quads(other), va, P2KV(root), true), Walk(Quads(other), root, va))
  {
    var k := Third(i, j);
    va := AddressThroughThree(i, j, k);
    other := GibMemory(ram, root, i, e4, j, e3, k);
    GibTells(Quads(other), root, va, e4, e3);
  }

  lemma GibMemory(ram: Ram, root: nat, i: nat, e4: Quad, j: nat, e3: Quad, k: nat) returns (other: Ram)
    requires IsRoot(root) && i < 512 && j < 512 && k < 512 && k != i && k != j
    ensures Read(Quads(other), root, i) == Read(Quads(ram), root, i)
    ensures Read(Quads(other), TableOf(e4), j) == Read(Quads(ram), TableOf(e4), j)
    ensures !Present(Read(Quads(other), TableOf(e3), k))
  {
    TableAligned(e3);
    TableAligned(e4);
    other := AbsentAt(ram, TableOf(e3), k, root, i, TableOf(e4), j);
  }

  lemma GibTells(mem: Memory, root: nat, va: Quad, e4: Quad, e3: Quad)
    requires IsRoot(root) && e4 == Read(mem, root, Index4(va)) && e3 == Read(mem, TableOf(e4), Index3(va))
    requires Present(e4) && Present(e3) && Large(e3) && !Present(Read(mem, TableOf(e3), Index2(va)))
    ensures !Agrees(Mapping(mem, va, P2KV(root), true), Walk(mem, root, va))
  {
    MaskedWalk(mem, root, va);
  }

  lemma AddressThroughThree(i: nat, j: nat, k: nat) returns (va: Quad)
    requires i < 512 && j < 512 && k < 512
    ensures Index4(va) == i && Index3(va) == j && Index2(va) == k
  {
    va := 0x80_0000_0000 * i + GIB * j + TWO_MIB * k;
    Fields(va, i, j, k, 0);
    ModSmall(i, 512);
  }

  /** A memory with an absent entry in one slot, and the values of two others kept. */
  lemma AbsentAt(ram: Ram, t: nat, k: nat, t1: nat, k1: nat, t2: nat, k2: nat) returns (other: Ram)
    requires t % 0x1000 == 0 && t1 % 0x1000 == 0 && t2 % 0x1000 == 0
    requires k < 512 && k1 < 512 && k2 < 512 && k != k1 && k != k2
    ensures Quads(other)(t1 + 8 * k1) == Quads(ram)(t1 + 8 * k1)
    ensures Quads(other)(t2 + 8 * k2) == Quads(ram)(t2 + 8 * k2)
    ensures !Present(Quads(other)(t + 8 * k))
  {
    other := Poke(ram, t + 8 * k, 0);
    Apart(t, k, t1, k1);
    Apart(t, k, t2, k2);
    PokeElsewhere(ram, t + 8 * k, 0, t1 + 8 * k1, 8);
    PokeElsewhere(ram, t + 8 * k, 0, t2 + 8 * k2, 8);
    PresentIsByte(other, t + 8 * k);
  }

  /** Masked, the walk through two present entries can be relied on exactly when the second is no 1 GiB page. */
  lemma MaskedRightExactlyWithoutGib(ram: Ram, root: nat, i: nat, j: nat)
    requires IsRoot(root) && i < 512 && j < 512
    ensures var e4 := Read(Quads(ram), root, i);
            var e3 := Read(Quads(ram), TableOf(e4), j);
            Present(e4) && Present(e3) ==> (MaskedRightThrough(root, i, e4, j, e3) <==> !Large(e3))
  {
    var e4 := Read(Quads(ram), root, i);
    var e3 := Read(Quads(ram), TableOf(e4), j);
    if Present(e4) && Present(e3) {
      if Large(e3) {
        var other, va := GibDiffering(ram, root, i, e4, j, e3);
      } else {
        forall r: Ram, va: Quad |
          Index4(va) == i && Index3(va) == j && Read(Quads(r), root, i) == e4 && Read(Quads(r), TableOf(e4), j) == e3
          ensures Agrees(Mapping(Quads(r), va, P2KV(root), true), Walk(Quads(r), root, va))
        {
          MaskedWalk(Quads(r), root, va);
        }
      }
    }
  }

  /* ---- On the boot tables ---- */

  /** Masked, the walk finds every kernel address in the boot tables. */
  lemma MaskedOnBootTables(mem: Memory, b: nat, low: bool, va: Quad)
    requires BootMap.Loaded(mem, b, low) && BootMap.Canonical(va) && BootMap.BootTarget(va, low) >= 0
    ensures var m := Mapping(mem, va, P2KV(b), true); m.status == NoError && m.last == BootMap.BootTarget(va, low)
  {
    BootMap.BootMapIs(mem, b, low, va);
    MaskedAgrees(mem, b, va);
  }

  /** But with flags 0, where every leaf there has the flags of a large, global, writable page. */
  lemma FlagsOnBootTables(mem: Memory, b: nat, low: bool, va: Quad)
    requires BootMap.Loaded(mem, b, low) && BootMap.Canonical(va) && BootMap.BootTarget(va, low) >= 0
    ensures var w := Walk(mem, b, va); Mapping(mem, va, P2KV(b), true).flags == 0 && w.Mapped? && w.leaf % 0x1000 != 0
  {
    BootMap.BootMapIs(mem, b, low, va);
    MaskedAgrees(mem, b, va);
    PresentHasFlags(Walk(mem, b, va).leaf);
  }

  /** As written, it finds none of them: with the tables below 16 MiB, where the kernel is loaded, the
      byte that is taken for an entry's flags is one of its zeros. */
  lemma UnmaskedOnBootTables(ram: Ram, b: nat, low: bool, va: Quad)
    requires BootMap.Loaded(Quads(ram), b, low) && b + 8 * BootTables.ENTRIES <= 0x100_0000
    requires KERNEL_ASPACE_BASE <= va
    ensures var m := Mapping(Quads(ram), va, P2KV(b), false); m.status == EntryNotPresent && m.level == PL_PDP
  {
    var mem := Quads(ram);
    var top, i3, i2, off := Split(va);
    BootMap.TopIndex(va, top, GIB * i3 + TWO_MIB * i2 + off);
    Fields(va, top, i3, i2, off);
    var e4 := b + 0x1000 * 2 + FLAGS_RW_P;
    assert Read(mem, b, 511) == e4;
    RootTable(b);
    ReadMoved(mem, b, 511);
    Moved(e4);
    BootMap.PointerEntry(b, 2);
    UnmaskedThird(ram, b, low, i3);
  }

  lemma UnmaskedThird(ram: Ram, b: nat, low: bool, j: nat)
    requires BootMap.Loaded(Quads(ram), b, low) && b + 8 * BootTables.ENTRIES <= 0x100_0000 && j < 512
    ensures !Present(EntryOf(Quads(ram), P2KV(b + 0x2003), j))
  {
    SmallPointer(Quads(ram), b, low, j);
    FourthByte(ram, b + 0x2000 + 8 * j);
    AbsentThird(Quads(ram), b + 0x2003, j);
  }

  lemma SmallPointer(mem: Memory, b: nat, low: bool, j: nat)
    requires BootMap.Loaded(mem, b, low) && b + 8 * BootTables.ENTRIES <= 0x100_0000 && j < 512
    ensures mem(b + 0x2000 + 8 * j) < 0x100_0000
  {
    assert Read(mem, b, 1024 + j) == BootTables.BootEntry(b, 1024 + j);
  }

  lemma AbsentThird(mem: Memory, t: nat, j: nat)
    requires t < 0x100_0000 && j < 512 && !Present(mem(t + 8 * j))
    ensures !Present(EntryOf(mem, P2KV(t), j))
  {
    ReadMoved(mem, t, j);
    Moved(mem(t + 8 * j));
  }

  /** The value three bytes into a small one begins with a zero byte. */
  lemma FourthByte(ram: Ram, a: nat)
    requires Quads(ram)(a) < 0x100_0000
    ensures !Present(Quads(ram)(a + 3))
  {
    assert Pow2(8 * 3) == 0x100_0000 by { Pow2Values(); Pow2Add(12, 12); }
    HighBytes(ram, a, 8, 3);
    PresentIsByte(ram, a + 3);
  }
}
