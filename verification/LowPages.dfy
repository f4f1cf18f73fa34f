// Pages below 128 MiB through a root that identity-maps them with large pages (multiboot64.asm:69-82). The
// source's walk does not stop at a large entry: it takes the first page of the 2 MiB block for a level-1 table.
module LowPages {
  import opened Words
  import opened Pmm
  import opened PageTables

  const LOW_LIMIT: nat := 0x8000   // pages below 128 MiB
  const BLOCKS: nat := 64

  // First page of the 2 MiB block of page v.
  function Block(v: nat): nat { v / 512 * 512 }

  // Entry i of the boot page directory: a present large page at i * 2 MiB.
  predicate BlockEntry(e: Word, i: nat) { Present(e) && Large(e) && FrameOf(e) == 512 * i }

  ghost predicate BlocksOk(mem: Memory) {
    forall i: nat :: i < BLOCKS ==> BlockEntry(Cell(mem, BOOT_PD, i), i)
  }

  // The entries the boot code assembles are such.
  lemma BootEntry(i: nat)
    requires i < BLOCKS
    ensures BlockEntry(i * 0x20_0000 + 0x83, i)
  {
    assert i * 0x20_0000 + 0x83 == 2 * (i * 0x10_0000 + 0x41) + 1;
    assert (i * 0x20_0000 + 0x83) / 128 == 2 * (i * 0x2000) + 1;
  }

  // Slot 0 of root r leads to a table whose slot 0 leads to the boot page directory.
  ghost predicate IdentityRoot(mem: Memory, r: nat) {
    var e := Cell(mem, r, 0);
    var d := Cell(mem, FrameOf(e), 0);
    && IsTable(e) && Present(d) && !Large(d) && FrameOf(d) == BOOT_PD
    && BlocksOk(mem)
  }

  // Where the source may map a low page without harm to any table: the block starts inside the kernel image
  // and its first page is neither a table nor the boot page directory and holds none of the kernel's variables.
  predicate BlockFree(vm: Vm, v: nat) {
    && v < LOW_LIMIT && Block(v) < vm.pm.start
    && Block(v) !in vm.roles && Block(v) != BOOT_PD && Block(v) !in VARIABLES
  }

  ghost predicate LowSpot(vm: Vm, r: nat, v: nat) {
    IdentityRoot(vm.pm.mem, r) && BlockFree(vm, v)
  }

  // Pages the model can follow a map of: those no entry stops the walk to, and low pages of harmless blocks.
  ghost predicate Mappable(vm: Vm, r: nat, v: nat) {
    !Walk(vm.pm.mem, r, 4, v).Opaque? || LowSpot(vm, r, v)
  }

  lemma LowIndices(v: nat)
    requires v < LOW_LIMIT
    ensures Idx(v, 4) == 0 && Idx(v, 3) == 0 && Idx(v, 2) == v / 512 < BLOCKS && Idx(v, 1) == v % 512
  {
    assert Prefix(v, 1) == v / 512;
    assert Prefix(v, 2) == Prefix(v, 1) / 512;
    assert Prefix(v, 3) == Prefix(v, 2) / 512;
  }

  // The source's walk of a low page ends at the block's first page, and the model's walk is stopped.
  lemma LowWalk(mem: Memory, r: nat, v: nat)
    requires IdentityRoot(mem, r) && v < LOW_LIMIT
    ensures CodeWalk(mem, r, 4, v) == Block(v)
    ensures Walk(mem, r, 4, v).Opaque?
  {
    LowIndices(v);
    var pdpt := FrameOf(Cell(mem, r, 0));
    assert BlockEntry(Cell(mem, BOOT_PD, v / 512), v / 512);
    assert CodeWalk(mem, r, 4, v) == CodeWalk(mem, pdpt, 3, v) == CodeWalk(mem, BOOT_PD, 2, v) ==
        CodeWalk(mem, 512 * (v / 512), 1, v);
    assert Walk(mem, r, 4, v) == Walk(mem, pdpt, 3, v);
  }

  // Where the source's walk finds every entry present, its descent allocates nothing.
  lemma {:induction false} DescendPresent(vm: Vm, f: nat, l: nat, vpn: nat)
    requires CodeWalk(vm.pm.mem, f, l, vpn) != NO_TABLE
    ensures Descend(vm, f, l, vpn) == (vm, CodeWalk(vm.pm.mem, f, l, vpn))
    decreases l
  {
    if l <= 1 {
    } else {
      DescendPresent(vm, FrameOf(Cell(vm.pm.mem, f, Idx(vpn, l))), l - 1, vpn);
    }
  }

  // Mapping a low page writes one word: the leaf entry, into the first page of the block.
  lemma LowMap(vm: Vm, r: nat, v: nat, e: Word)
    requires IdentityRoot(vm.pm.mem, r) && v < LOW_LIMIT
    ensures Map(vm, r, v, e) == (vm.(pm := vm.pm.(mem := Store(vm.pm.mem, Block(v), v % 512, e))), true)
  {
    LowWalk(vm.pm.mem, r, v);
    DescendPresent(vm, r, 4, v);
    LowIndices(v);
  }

  // Unmapping a low page writes the same word, as a zero.
  lemma LowUnmap(vm: Vm, r: nat, v: nat)
    requires IdentityRoot(vm.pm.mem, r) && v < LOW_LIMIT
    ensures Unmap(vm, r, v) == Map(vm, r, v, 0).0
    ensures Unmap(vm, r, v) == vm.(pm := vm.pm.(mem := Store(vm.pm.mem, Block(v), v % 512, 0)))
  {
    LowWalk(vm.pm.mem, r, v);
    LowMap(vm, r, v, 0);
    LowIndices(v);
  }

  // In a harmless block that keeps every table and every walk.
  lemma LowMapCorrect(vm: Vm, r: nat, v: nat, e: Word)
    requires TablesOk(vm) && LowSpot(vm, r, v)
    ensures var vm1 := Map(vm, r, v, e).0;
            && TablesOk(vm1) && Grows(vm, vm1) && Avail(vm1.pm) == Avail(vm.pm)
            && (forall f: nat :: f != Block(v) ==> SameFrame(vm.pm.mem, vm1.pm.mem, f))
            && (forall g, m: nat, w: nat :: TableFor(vm.roles, g, m, w) ==>
                Walk(vm1.pm.mem, g, m, w) == Walk(vm.pm.mem, g, m, w))
  {
    hide *;
    LowSpotIs(vm, r, v);
    LowMap(vm, r, v, e);
    StaticStore(vm, Block(v), v % 512, e);
  }

  lemma LowSpotIs(vm: Vm, r: nat, v: nat)
    requires LowSpot(vm, r, v)
    ensures IdentityRoot(vm.pm.mem, r) && v < LOW_LIMIT && Block(v) < vm.pm.start && Block(v) !in vm.roles
    ensures Block(v) != BOOT_PD
    ensures Block(v) % 512 == 0 && Block(v) !in VARIABLES && ImagePage(vm, Block(v))
  {
  }

  // A word of the kernel image that belongs to no table.
  lemma StaticStore(vm: Vm, f: nat, i: nat, w: Word)
    requires TablesOk(vm) && ImagePage(vm, f) && f != BOOT_PD && f % 512 == 0 && f !in VARIABLES && i < 512
    ensures var vm1 := vm.(pm := vm.pm.(mem := Store(vm.pm.mem, f, i, w)));
            && TablesOk(vm1) && Grows(vm, vm1) && Avail(vm1.pm) == Avail(vm.pm)
            && (forall g: nat :: g != f ==> SameFrame(vm.pm.mem, vm1.pm.mem, g))
            && (forall g, m: nat, v: nat :: TableFor(vm.roles, g, m, v) ==>
                Walk(vm1.pm.mem, g, m, v) == Walk(vm.pm.mem, g, m, v))
  {
    hide Walk, EntryOk, Apart;
    var vm1 := vm.(pm := vm.pm.(mem := Store(vm.pm.mem, f, i, w)));
    assert forall g: nat :: g != f ==> SameFrame(vm.pm.mem, vm1.pm.mem, g);
    StoreKeepsList(vm.pm, f, i, w);
    SameTablesInv(vm, vm1);
  }

  // Equal table contents keep the well-formedness part of the invariant and every walk.
  lemma SameTablesInv(vm: Vm, vm1: Vm)
    requires TablesOk(vm) && vm1.roles == vm.roles && PagesOk(vm1.pm) && vm1.pm.start == vm.pm.start
    requires forall f :: f in vm.roles ==> Owned(vm1.pm, f) && SameFrame(vm.pm.mem, vm1.pm.mem, f)
    ensures TablesOk(vm1)
    ensures forall g, m: nat, v: nat :: TableFor(vm.roles, g, m, v) ==>
              Walk(vm1.pm.mem, g, m, v) == Walk(vm.pm.mem, g, m, v)
  {
    var mem, mem1 := vm.pm.mem, vm1.pm.mem;
    forall g, j: nat | g in vm1.roles && vm1.roles[g].level > 1 && j < 512
      ensures EntryOk(mem1, vm1.roles, g, j)
    {
      assert EntryOk(mem, vm.roles, g, j) && SameFrame(mem, mem1, g);
    }
    forall g, h, j: nat | g in vm1.roles && h in vm1.roles && g != h && vm1.roles[g].level in {2, 3}
      && vm1.roles[h].level in {2, 3} && j < 512
      ensures Apart(mem1, g, h, j)
    {
      assert Apart(mem, g, h, j) && SameFrame(mem, mem1, g) && SameFrame(mem, mem1, h);
    }
    forall g, m: nat, v: nat | TableFor(vm.roles, g, m, v)
      ensures Walk(mem1, g, m, v) == Walk(mem, g, m, v)
    {
      WalkFrame(mem, mem1, vm.roles, g, m, v);
    }
  }

  // Growth keeps identity maps and harmless blocks.
  lemma IdentityStays(vm: Vm, vm1: Vm, r: nat)
    requires TablesOk(vm) && Grows(vm, vm1) && IsRoot(vm, r) && IdentityRoot(vm.pm.mem, r)
    ensures IdentityRoot(vm1.pm.mem, r)
  {
    var e := Cell(vm.pm.mem, r, 0);
    assert EntryStays(vm.pm.mem, vm1.pm.mem, r, 0);
    assert EntryOk(vm.pm.mem, vm.roles, r, 0);
    assert EntryStays(vm.pm.mem, vm1.pm.mem, FrameOf(e), 0);
  }

  lemma LowSpotStays(vm: Vm, vm1: Vm, r: nat, v: nat)
    requires TablesOk(vm) && Grows(vm, vm1) && IsRoot(vm, r) && LowSpot(vm, r, v)
    ensures LowSpot(vm1, r, v)
  {
    IdentityStays(vm, vm1, r);
  }

  // ---- What the processor does with an address ----

  // Physical address of a virtual one as the processor translates it, large pages included; -1 for a fault.
  function Translate(mem: Memory, f: nat, l: nat, virt: nat): int
    decreases l
  {
    var e := Cell(mem, f, Idx(virt / 4096, l));
    if !Present(e) then -1
    else if l <= 1 then FrameOf(e) * 4096 + virt % 4096
    else if Large(e) then (if l == 2 then (e as int) / 0x20_0000 * 0x20_0000 + virt % 0x20_0000 else -1)
    else Translate(mem, FrameOf(e), l - 1, virt)
  }

  // Where no entry stops the walk the processor translates as the walk says.
  lemma {:induction false} TranslateWalk(mem: Memory, f: nat, l: nat, virt: nat)
    requires !Walk(mem, f, l, virt / 4096).Opaque? && l > 0
    ensures Translate(mem, f, l, virt) ==
            match Walk(mem, f, l, virt / 4096) { case Page(e) => FrameOf(e) * 4096 + virt % 4096 case _ => -1 }
    decreases l
  {
    var e := Cell(mem, f, Idx(virt / 4096, l));
    if l > 1 && IsTable(e) { TranslateWalk(mem, FrameOf(e), l - 1, virt); }
  }

  // Under an identity map a low address is its own translation, whatever the source has mapped there.
  lemma LowTranslate(mem: Memory, r: nat, virt: nat)
    requires IdentityRoot(mem, r) && virt < 0x800_0000
    ensures Translate(mem, r, 4, virt) == virt
  {
    var v := virt / 4096;
    LowIndices(v);
    var pdpt := FrameOf(Cell(mem, r, 0));
    var e := Cell(mem, BOOT_PD, v / 512);
    assert BlockEntry(e, v / 512);
    assert Translate(mem, r, 4, virt) == Translate(mem, pdpt, 3, virt) == Translate(mem, BOOT_PD, 2, virt);
    BlockAddress(e, virt);
  }

  lemma BlockAddress(e: Word, virt: nat)
    requires BlockEntry(e, virt / 4096 / 512)
    ensures (e as int) / 0x20_0000 * 0x20_0000 + virt % 0x20_0000 == virt
  {
    var i := virt / 4096 / 512;
    assert i == virt / 0x20_0000;
    assert 0x20_0000 * i <= e as int < 0x20_0000 * i + 4096;
    assert (e as int) / 0x20_0000 == i;
  }
}
