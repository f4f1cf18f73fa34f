// Four-level page tables stored in physical pages (Intel SDM Vol. 3A, section 4.5).
//
// A virtual page number (vpn) has 36 bits. Prefix(vpn, l) drops the indices of the l lowest levels, and
// Idx(vpn, l) is the index used in a level-l table: level 4 is the root, level 1 holds the leaf entries.
module PageTables {
  import opened Words
  import opened Pmm

  const VPN_LIMIT: nat := 0x10_0000_0000

  function Prefix(vpn: nat, l: nat): nat {
    if l == 0 then vpn else Prefix(vpn, l - 1) / 512
  }

  function Idx(vpn: nat, l: nat): (i: nat)
    ensures i < 512
  {
    if l == 0 then 0 else Prefix(vpn, l - 1) % 512
  }

  predicate Present(e: Word) { e % 2 == 1 }
  predicate Large(e: Word) { e / 128 % 2 == 1 }
  function FrameOf(e: Word): (f: nat)
    ensures f < NO_TABLE
  {
    e / 4096
  }

  // More than any frame number an entry can hold.
  const NO_TABLE: nat := 0x10_0000_0000_0000

  type ImageFrame = f: Frame | 0 < f witness 1

  // The page of the boot page directory, wherever the linker puts it. Behind its 64 entries the page goes on
  // with instructions, so the model looks at what its entries lead to only where a caller knows them.
  const BOOT_PD: ImageFrame

  // The image pages that hold the kernel's own variables, the allocator's and the process record among them.
  const VARIABLES: set<nat>

  // Where a walk is stopped: at a large page and at the boot page directory.
  predicate Stops(e: Word) { Large(e) || FrameOf(e) == BOOT_PD }

  predicate IsTable(e: Word) { Present(e) && !Stops(e) }

  // Entry written for a new interior table: present and writable.
  function TableEntry(t: Frame): (e: Word)
    ensures Present(e) && !Large(e) && FrameOf(e) == t && (t != BOOT_PD ==> IsTable(e))
  {
    var e := (t as int) * 4096 + 3;
    assert e == 2 * ((t as int) * 2048 + 1) + 1;
    assert e / 128 == (t as int) * 32;
    e
  }

  // Leaf entry for a physical address and a flag word below 4096.
  function LeafEntry(phys: nat, flags: nat): (e: Word)
    requires phys < 0x1_0000_0000_0000_0000 && flags < 4096
    ensures FrameOf(e) == phys / 4096 && (Present(e) <==> flags % 2 == 1)
  {
    phys / 4096 * 4096 + flags
  }

  // What a walk finds: nothing, a leaf entry, or a present entry above level 1 that it is stopped at.
  datatype Xlat = Absent | Page(entry: Word) | Opaque(entry: Word, level: nat)

  function XlatOf(e: Word): Xlat { if Present(e) then Page(e) else Absent }

  function Walk(mem: Memory, f: nat, l: nat, vpn: nat): Xlat
    decreases l
  {
    var e := Cell(mem, f, Idx(vpn, l));
    if l <= 1 then XlatOf(e)
    else if !Present(e) then Absent
    else if Stops(e) then Opaque(e, l)
    else Walk(mem, FrameOf(e), l - 1, vpn)
  }

  // The level-1 table a walk reaches, or 0.
  function LeafTable(mem: Memory, f: nat, l: nat, vpn: nat): nat
    decreases l
  {
    if l <= 1 then f
    else
      var e := Cell(mem, f, Idx(vpn, l));
      if IsTable(e) then LeafTable(mem, FrameOf(e), l - 1, vpn) else 0
  }

  // The level-1 table the source's walk reaches, which follows every present entry; NO_TABLE when one is absent.
  function CodeWalk(mem: Memory, f: nat, l: nat, vpn: nat): nat
    decreases l
  {
    if l <= 1 then f
    else
      var e := Cell(mem, f, Idx(vpn, l));
      if Present(e) then CodeWalk(mem, FrameOf(e), l - 1, vpn) else NO_TABLE
  }

  // Where no entry stops the walk, the source's walk is the same.
  lemma {:induction false} CodeWalkAgrees(mem: Memory, f: nat, l: nat, vpn: nat)
    requires !Walk(mem, f, l, vpn).Opaque? && f < NO_TABLE && l > 0
    ensures var t := CodeWalk(mem, f, l, vpn);
            && LeafTable(mem, f, l, vpn) == (if t == NO_TABLE then 0 else t)
            && Walk(mem, f, l, vpn) == (if t == NO_TABLE then Absent else XlatOf(Cell(mem, t, Idx(vpn, 1))))
    decreases l
  {
    if l > 1 && IsTable(Cell(mem, f, Idx(vpn, l))) {
      CodeWalkAgrees(mem, FrameOf(Cell(mem, f, Idx(vpn, l))), l - 1, vpn);
    }
  }

  // ---- The one-role invariant ----

  // A table page's role: its level and the index path that leads to it.
  datatype Role = Role(level: nat, prefix: nat)
  type Roles = map<nat, Role>

  ghost predicate TableFor(roles: Roles, f: nat, l: nat, vpn: nat) {
    f in roles && roles[f] == Role(l, Prefix(vpn, l))
  }

  function ChildRole(r: Role, i: nat): Role {
    Role(if r.level == 0 then 0 else r.level - 1, r.prefix * 512 + i)
  }

  // A present interior entry that stops no walk leads to a table page whose role continues the path.
  ghost predicate EntryOk(mem: Memory, roles: Roles, f: nat, i: nat)
    requires f in roles
  {
    var e := Cell(mem, f, i);
    IsTable(e) ==> FrameOf(e) in roles && roles[FrameOf(e)] == ChildRole(roles[f], i)
  }

  // Tables f and g do not link to the same child at index i.
  ghost predicate Apart(mem: Memory, f: nat, g: nat, i: nat) {
    var d, e := Cell(mem, f, i), Cell(mem, g, i);
    !(IsTable(d) && IsTable(e) && FrameOf(d) == FrameOf(e))
  }

  // Below the roots a table has one parent only; a level-3 table may be linked from several roots.
  ghost predicate WellFormed(mem: Memory, roles: Roles) {
    && (forall f :: f in roles ==> 0 < f < FRAMES && 1 <= roles[f].level <= 4)
    && (forall f :: f in roles && roles[f].level == 4 ==> roles[f].prefix == 0)
    && (forall f, i: nat :: f in roles && roles[f].level > 1 && i < 512 ==> EntryOk(mem, roles, f, i))
    && (forall f, g, i: nat ::
          f in roles && g in roles && f != g && roles[f].level in {2, 3} && roles[g].level in {2, 3} && i < 512 ==>
            Apart(mem, f, g, i))
  }

  datatype Vm = Vm(pm: Pmm.State, roles: Roles)

  // Static kernel memory below the allocator's range, or a live page.
  predicate Owned(pm: Pmm.State, f: nat) { f < pm.start || Live(pm, f) }

  ghost predicate TablesOk(vm: Vm) {
    && PagesOk(vm.pm)
    && WellFormed(vm.pm.mem, vm.roles)
    && (forall f :: f in vm.roles ==> Owned(vm.pm, f))
    && BOOT_PD < vm.pm.start && BOOT_PD !in vm.roles
  }

  // From vm to vm2 tables and live pages may only be added, and no page of the kernel image becomes a table. No
  // live page that is not a table is touched, nor is the boot page directory, nor any other page of the kernel
  // image that neither is a table nor starts a 2 MiB block, nor any page with the kernel's variables. Present
  // interior entries stay.
  ghost predicate Grows(vm: Vm, vm2: Vm) {
    && vm2.pm.start == vm.pm.start
    && (forall f :: f in vm.roles ==> f in vm2.roles && vm2.roles[f] == vm.roles[f])
    && (forall f: nat :: Live(vm.pm, f) ==> Live(vm2.pm, f))
    && (forall f: nat :: Live(vm.pm, f) && f !in vm.roles ==> f !in vm2.roles && SameFrame(vm.pm.mem, vm2.pm.mem, f))
    && (forall f: nat :: f < vm.pm.start && f !in vm.roles ==> f !in vm2.roles)
    && (forall f: nat :: ImagePage(vm, f) && (f % 512 != 0 || f in VARIABLES) ==> SameFrame(vm.pm.mem, vm2.pm.mem, f))
    && SameFrame(vm.pm.mem, vm2.pm.mem, BOOT_PD)
    && (forall f, j: nat :: f in vm.roles && vm.roles[f].level > 1 && j < 512 ==>
        EntryStays(vm.pm.mem, vm2.pm.mem, f, j))
  }

  // A page of the kernel image that is no table.
  predicate ImagePage(vm: Vm, f: nat) { f < vm.pm.start && f !in vm.roles }

  // No such page is touched.
  ghost predicate KeepsImage(vm: Vm, vm2: Vm) {
    forall f: nat :: ImagePage(vm, f) ==> SameFrame(vm.pm.mem, vm2.pm.mem, f)
  }

  ghost predicate EntryStays(mem: Memory, mem2: Memory, f: nat, j: nat) {
    Present(Cell(mem, f, j)) ==> Cell(mem2, f, j) == Cell(mem, f, j)
  }

  // ---- Operations ----

  // Allocates a table page for vpn below the level-l table f and links it.
  function AddTable(vm: Vm, f: nat, l: nat, vpn: nat): (Vm, Frame) {
    var (pm, t) := Alloc(vm.pm);
    if t == 0 then (vm.(pm := pm), 0)
    else
      (Vm(pm.(mem := Store(pm.mem, f, Idx(vpn, l), TableEntry(t))),
          vm.roles[t := Role(if l == 0 then 0 else l - 1, if l == 0 then 0 else Prefix(vpn, l - 1))]), t)
  }

  // Walks from the level-l table f towards vpn, following every present entry and adding missing tables.
  // Returns the level-1 table, or NO_TABLE when a table could not be allocated.
  function Descend(vm: Vm, f: nat, l: nat, vpn: nat): (Vm, nat)
    decreases l
  {
    if l <= 1 then (vm, f)
    else
      var e := Cell(vm.pm.mem, f, Idx(vpn, l));
      if Present(e) then Descend(vm, FrameOf(e), l - 1, vpn)
      else
        var (vm1, t) := AddTable(vm, f, l, vpn);
        if t == 0 then (vm1, NO_TABLE) else Descend(vm1, t, l - 1, vpn)
  }

  function SetLeaf(vm: Vm, t: nat, vpn: nat, e: Word): Vm {
    vm.(pm := vm.pm.(mem := Store(vm.pm.mem, t, Idx(vpn, 1), e)))
  }

  // vm_map_page_pml4: the flag tells whether the leaf entry was written.
  function Map(vm: Vm, root: nat, vpn: nat, e: Word): (Vm, bool) {
    var (vm1, t) := Descend(vm, root, 4, vpn);
    if t == NO_TABLE then (vm1, false) else (SetLeaf(vm1, t, vpn, e), true)
  }

  // vm_unmap_page, on any root.
  function Unmap(vm: Vm, root: nat, vpn: nat): Vm {
    var t := CodeWalk(vm.pm.mem, root, 4, vpn);
    if t == NO_TABLE then vm else SetLeaf(vm, t, vpn, 0)
  }

  // vm_clone_current_pml4: a new root with the same 512 entries.
  function Clone(vm: Vm, root: nat): (Vm, Frame) {
    var (pm, t) := Alloc(vm.pm);
    if t == 0 then (vm.(pm := pm), 0)
    else (Vm(pm.(mem := CopyFrame(pm.mem, t, root)), vm.roles[t := Role(4, 0)]), t)
  }

  ghost predicate IsRoot(vm: Vm, f: nat) {
    f in vm.roles && vm.roles[f].level == 4
  }

  // ---- Adding a table ----

  lemma PrefixSplit(vpn: nat, l: nat)
    requires l > 0
    ensures Prefix(vpn, l - 1) == Prefix(vpn, l) * 512 + Idx(vpn, l)
  {
  }

  // A walk only reads tables of its own path, so equal table contents give equal walks.
  lemma {:induction false} WalkFrame(mem: Memory, mem2: Memory, roles: Roles, g: nat, m: nat, v: nat)
    requires WellFormed(mem, roles) && TableFor(roles, g, m, v)
    requires forall f :: f in roles ==> SameFrame(mem, mem2, f)
    ensures Walk(mem2, g, m, v) == Walk(mem, g, m, v)
    ensures LeafTable(mem2, g, m, v) == LeafTable(mem, g, m, v)
    decreases m
  {
    var i := Idx(v, m);
    assert Cell(mem, g, i) == Cell(mem2, g, i);
    if m > 1 && IsTable(Cell(mem, g, i)) {
      PrefixSplit(v, m);
      assert EntryOk(mem, roles, g, i);
      WalkFrame(mem, mem2, roles, FrameOf(Cell(mem, g, i)), m - 1, v);
    }
  }

  lemma AddTableCorrect(vm: Vm, f: nat, l: nat, vpn: nat)
    requires TablesOk(vm) && TableFor(vm.roles, f, l, vpn) && l > 1
    requires !Present(Cell(vm.pm.mem, f, Idx(vpn, l)))
    ensures AddTable(vm, f, l, vpn).1 == 0 <==> Avail(vm.pm) == 0
    ensures AddTable(vm, f, l, vpn).1 == 0 ==> AddTable(vm, f, l, vpn).0 == vm
    ensures AddTable(vm, f, l, vpn).1 != 0 ==>
              var (vm1, t) := AddTable(vm, f, l, vpn);
              && t !in vm.roles && !Owned(vm.pm, t)
              && TablesOk(vm1) && Grows(vm, vm1) && KeepsImage(vm, vm1) && TableFor(vm1.roles, t, l - 1, vpn)
              && vm1.roles == vm.roles[t := Role(l - 1, Prefix(vpn, l - 1))]
              && Avail(vm1.pm) == Avail(vm.pm) - 1
              && Linked(vm.pm.mem, vm1.pm.mem, f, Idx(vpn, l), t)
  {
    AllocCorrect(vm.pm);
    var (pm, t) := Alloc(vm.pm);
    if t != 0 {
      var (vm1, _) := AddTable(vm, f, l, vpn);
      var i := Idx(vpn, l);
      PrefixSplit(vpn, l);
      forall g: nat, j: nat | j < 512
        ensures Cell(vm1.pm.mem, g, j) ==
                if g == t then 0 else if g == f && j == i then TableEntry(t) else Cell(vm.pm.mem, g, j)
      {
        if g != t { assert SameFrame(vm.pm.mem, pm.mem, g); }
      }
      AddTableInv(vm, f, l, vpn, vm1, t);
    }
  }

  lemma AddTableInv(vm: Vm, f: nat, l: nat, vpn: nat, vm1: Vm, t: Frame)
    requires TablesOk(vm) && TableFor(vm.roles, f, l, vpn) && l > 1
    requires !Present(Cell(vm.pm.mem, f, Idx(vpn, l)))
    requires t != 0 && (vm1, t) == AddTable(vm, f, l, vpn)
    requires Linked(vm.pm.mem, vm1.pm.mem, f, Idx(vpn, l), t)
    ensures TablesOk(vm1) && Grows(vm, vm1)
  {
    AllocCorrect(vm.pm);
    PrefixSplit(vpn, l);
    assert PagesOk(vm1.pm) by {
      StoreKeepsList(Alloc(vm.pm).0, f, Idx(vpn, l), TableEntry(t));
    }
    assert WellFormed(vm1.pm.mem, vm1.roles) by {
      LinkWellFormed(vm.pm.mem, vm1.pm.mem, vm.roles, f, Idx(vpn, l), t);
      assert ChildRole(vm.roles[f], Idx(vpn, l)) == vm1.roles[t];
    }
    assert Grows(vm, vm1) by {
      LinkGrows(vm, f, Idx(vpn, l), vm1, t);
    }
  }

  lemma LinkGrows(vm: Vm, f: nat, i: nat, vm1: Vm, t: Frame)
    requires f in vm.roles && t != 0 && Linked(vm.pm.mem, vm1.pm.mem, f, i, t)
    requires vm1.pm.start == vm.pm.start && !Owned(vm.pm, t) && BOOT_PD < vm.pm.start && i < 512
    requires f != BOOT_PD && !Present(Cell(vm.pm.mem, f, i))
    requires forall g: nat :: Live(vm.pm, g) ==> Live(vm1.pm, g)
    requires t !in vm.roles && vm1.roles.Keys == vm.roles.Keys + {t}
    requires forall g :: g in vm.roles ==> vm1.roles[g] == vm.roles[g]
    ensures Grows(vm, vm1)
  {
  }

  lemma LinkWellFormed(mem: Memory, mem1: Memory, roles: Roles, f: nat, i: nat, t: Frame)
    requires WellFormed(mem, roles) && t !in roles && 0 < t && t != BOOT_PD && i < 512
    requires Linked(mem, mem1, f, i, t) && !Present(Cell(mem, f, i))
    requires f in roles && roles[f].level > 1
    ensures WellFormed(mem1, roles[t := ChildRole(roles[f], i)])
  {
    var roles1 := roles[t := ChildRole(roles[f], i)];
    forall g, j: nat | g in roles1 && roles1[g].level > 1 && j < 512
      ensures EntryOk(mem1, roles1, g, j)
    {
      if g != t { assert EntryOk(mem, roles, g, j); }
    }
    forall g, h, j: nat | g in roles1 && h in roles1 && g != h && roles1[g].level in {2, 3}
      && roles1[h].level in {2, 3} && j < 512
      ensures Apart(mem1, g, h, j)
    {
      if g != t && h != t {
        assert Apart(mem, g, h, j);
        assert EntryOk(mem, roles, g, j) && EntryOk(mem, roles, h, j);
      }
    }
  }

  // Memory mem1 is mem with the zero table t linked at f's entry for vpn.
  ghost predicate Linked(mem: Memory, mem1: Memory, f: nat, i: nat, t: Frame) {
    forall g: nat, j: nat :: j < 512 ==>
      Cell(mem1, g, j) == if g == t then 0 else if g == f && j == i then TableEntry(t) else Cell(mem, g, j)
  }

  // Linking an empty table changes no walk at all.
  lemma {:induction false} LinkWalk(mem: Memory, mem1: Memory, roles: Roles, f: nat, i: nat, t: Frame, g: nat, m: nat,
      v: nat)
    requires WellFormed(mem, roles) && TableFor(roles, g, m, v) && t !in roles && t != BOOT_PD && i < 512
    requires Linked(mem, mem1, f, i, t) && !Present(Cell(mem, f, i))
    requires f in roles && roles[f].level > 1
    ensures Walk(mem1, g, m, v) == Walk(mem, g, m, v)
    decreases m
  {
    var j := Idx(v, m);
    if g == f && j == i {
      EmptyTableWalk(mem1, t, m - 1, v);
    } else {
      assert Cell(mem1, g, j) == Cell(mem, g, j);
      if m > 1 && IsTable(Cell(mem, g, j)) {
        PrefixSplit(v, m);
        assert EntryOk(mem, roles, g, j);
        LinkWalk(mem, mem1, roles, f, i, t, FrameOf(Cell(mem, g, j)), m - 1, v);
      }
    }
  }

  lemma AddTableWalk(vm: Vm, f: nat, l: nat, vpn: nat, g: nat, m: nat, v: nat)
    requires TablesOk(vm) && TableFor(vm.roles, f, l, vpn) && l > 1
    requires !Present(Cell(vm.pm.mem, f, Idx(vpn, l)))
    requires TableFor(vm.roles, g, m, v)
    ensures Walk(AddTable(vm, f, l, vpn).0.pm.mem, g, m, v) == Walk(vm.pm.mem, g, m, v)
  {
    AddTableCorrect(vm, f, l, vpn);
    var (vm1, t) := AddTable(vm, f, l, vpn);
    if t != 0 {
      LinkWalk(vm.pm.mem, vm1.pm.mem, vm.roles, f, Idx(vpn, l), t, g, m, v);
    }
  }

  lemma EmptyTableWalk(mem: Memory, t: nat, m: nat, v: nat)
    requires forall j: nat :: j < 512 ==> Cell(mem, t, j) == 0
    ensures Walk(mem, t, m, v) == Absent
  {
  }

  // ---- Descending, and writing the leaf ----

  lemma GrowsTrans(a: Vm, b: Vm, c: Vm)
    requires Grows(a, b) && Grows(b, c)
    ensures Grows(a, c)
  {
    forall f, j: nat | f in a.roles && a.roles[f].level > 1 && j < 512
      ensures EntryStays(a.pm.mem, c.pm.mem, f, j)
    {
      assert EntryStays(a.pm.mem, b.pm.mem, f, j) && EntryStays(b.pm.mem, c.pm.mem, f, j);
    }
    forall f: nat | ImagePage(a, f) && (f % 512 != 0 || f in VARIABLES)
      ensures SameFrame(a.pm.mem, c.pm.mem, f)
    {
      assert ImagePage(b, f);
      assert SameFrame(a.pm.mem, b.pm.mem, f) && SameFrame(b.pm.mem, c.pm.mem, f);
    }
    forall f: nat | Live(a.pm, f) && f !in a.roles
      ensures f !in c.roles && SameFrame(a.pm.mem, c.pm.mem, f)
    {
      assert SameFrame(a.pm.mem, b.pm.mem, f) && SameFrame(b.pm.mem, c.pm.mem, f);
    }
  }

  // What descending from f achieved: the invariant and every non-table page are kept. It fails only when
  // no page is left, and otherwise yields the level-1 table that walks for vpn now reach.
  ghost predicate Descended(vm: Vm, f: nat, l: nat, vpn: nat, vm1: Vm, t: nat) {
    && TablesOk(vm1) && Grows(vm, vm1) && KeepsImage(vm, vm1)
    && Avail(vm.pm) - (l - 1) <= Avail(vm1.pm) <= Avail(vm.pm)
    && (t == NO_TABLE ==> Avail(vm1.pm) == 0)
    && (t != NO_TABLE ==> t != 0 && TableFor(vm1.roles, t, 1, vpn) && LeafTable(vm1.pm.mem, f, l, vpn) == t)
  }

  lemma ChildTable(vm: Vm, f: nat, l: nat, vpn: nat)
    requires TablesOk(vm) && TableFor(vm.roles, f, l, vpn) && l > 1 && IsTable(Cell(vm.pm.mem, f, Idx(vpn, l)))
    ensures TableFor(vm.roles, FrameOf(Cell(vm.pm.mem, f, Idx(vpn, l))), l - 1, vpn)
  {
    PrefixSplit(vpn, l);
    assert EntryOk(vm.pm.mem, vm.roles, f, Idx(vpn, l));
  }

  // A descent from a child carries over to its parent.
  lemma DescendedUp(vm: Vm, f: nat, l: nat, vpn: nat, vm1: Vm, c: nat, vm2: Vm, t: nat)
    requires l > 1 && Descended(vm1, c, l - 1, vpn, vm2, t) && Grows(vm, vm1)
    requires Avail(vm.pm) - 1 <= Avail(vm1.pm) <= Avail(vm.pm) && KeepsImage(vm, vm1)
    requires IsTable(Cell(vm2.pm.mem, f, Idx(vpn, l))) && FrameOf(Cell(vm2.pm.mem, f, Idx(vpn, l))) == c
    ensures Descended(vm, f, l, vpn, vm2, t)
  {
    GrowsImage(vm, vm1);
    hide Grows, TablesOk, IsTable, KeepsImage;
    GrowsTrans(vm, vm1, vm2);
    ImageTrans(vm, vm1, vm2);
  }

  lemma TablesOwned(vm: Vm)
    requires TablesOk(vm)
    ensures PagesOk(vm.pm) && BOOT_PD < vm.pm.start && forall f :: f in vm.roles ==> Owned(vm.pm, f)
  {
  }

  lemma GrowsImage(vm: Vm, vm1: Vm)
    requires Grows(vm, vm1)
    ensures forall f: nat :: ImagePage(vm, f) ==> ImagePage(vm1, f)
  {
  }

  lemma ImageTrans(a: Vm, b: Vm, c: Vm)
    requires KeepsImage(a, b) && KeepsImage(b, c)
    requires forall f: nat :: ImagePage(a, f) ==> ImagePage(b, f)
    ensures KeepsImage(a, c)
  {
    forall f: nat | ImagePage(a, f)
      ensures SameFrame(a.pm.mem, c.pm.mem, f)
    {
      assert SameFrame(a.pm.mem, b.pm.mem, f) && SameFrame(b.pm.mem, c.pm.mem, f);
    }
  }

  lemma GrowsSelf(vm: Vm)
    ensures Grows(vm, vm) && KeepsImage(vm, vm)
  {
  }

  lemma {:induction false} DescendCorrect(vm: Vm, f: nat, l: nat, vpn: nat)
    requires TablesOk(vm) && TableFor(vm.roles, f, l, vpn)
    requires !Walk(vm.pm.mem, f, l, vpn).Opaque?
    ensures var (vm1, t) := Descend(vm, f, l, vpn); Descended(vm, f, l, vpn, vm1, t)
    decreases l
  {
    hide *;
    DescendCases(vm, f, l, vpn);
    if l <= 1 {
      DescendedLeaf(vm, f, l, vpn);
    } else if Present(Cell(vm.pm.mem, f, Idx(vpn, l))) {
      var c := FrameOf(Cell(vm.pm.mem, f, Idx(vpn, l)));
      PresentChild(vm, f, l, vpn);
      DescendCorrect(vm, c, l - 1, vpn);
      DescendTop(vm, c, l - 1, vpn);
      PresentUp(vm, f, l, vpn, c);
    } else {
      AddedChild(vm, f, l, vpn);
      var (vm1, t) := AddTable(vm, f, l, vpn);
      if t != 0 {
        DescendCorrect(vm1, t, l - 1, vpn);
        DescendTop(vm1, t, l - 1, vpn);
        AddedUp(vm, f, l, vpn);
      } else {
        DescendedNone(vm, f, l, vpn);
      }
    }
  }

  lemma DescendCases(vm: Vm, f: nat, l: nat, vpn: nat)
    ensures Descend(vm, f, l, vpn) ==
            if l <= 1 then (vm, f)
            else
              var e := Cell(vm.pm.mem, f, Idx(vpn, l));
              if Present(e) then Descend(vm, FrameOf(e), l - 1, vpn)
              else
                var (vm1, t) := AddTable(vm, f, l, vpn);
                if t == 0 then (vm1, NO_TABLE) else Descend(vm1, t, l - 1, vpn)
  {
    hide AddTable;
  }

  lemma PresentChild(vm: Vm, f: nat, l: nat, vpn: nat)
    requires TablesOk(vm) && TableFor(vm.roles, f, l, vpn) && l > 1 && !Walk(vm.pm.mem, f, l, vpn).Opaque?
    requires Present(Cell(vm.pm.mem, f, Idx(vpn, l)))
    ensures var c := FrameOf(Cell(vm.pm.mem, f, Idx(vpn, l)));
            && IsTable(Cell(vm.pm.mem, f, Idx(vpn, l))) && TableFor(vm.roles, c, l - 1, vpn)
              && !Walk(vm.pm.mem, c, l - 1, vpn).Opaque?
  {
    hide TablesOk;
    ChildTable(vm, f, l, vpn);
  }

  lemma PresentUp(vm: Vm, f: nat, l: nat, vpn: nat, c: nat)
    requires TableFor(vm.roles, f, l, vpn) && l > 1 && TableFor(vm.roles, c, l - 1, vpn)
    requires IsTable(Cell(vm.pm.mem, f, Idx(vpn, l))) && FrameOf(Cell(vm.pm.mem, f, Idx(vpn, l))) == c
    requires Descended(vm, c, l - 1, vpn, Descend(vm, c, l - 1, vpn).0, Descend(vm, c, l - 1, vpn).1)
    requires forall g, j: nat :: g in vm.roles && vm.roles[g].level >= l - 1 && j < 512
               && (g != c || j != Idx(vpn, l - 1))
               ==> Cell(Descend(vm, c, l - 1, vpn).0.pm.mem, g, j) == Cell(vm.pm.mem, g, j)
    ensures Descended(vm, f, l, vpn, Descend(vm, c, l - 1, vpn).0, Descend(vm, c, l - 1, vpn).1)
  {
    hide Descended, Descend, IsTable;
    assert vm.roles[f].level == l && vm.roles[c].level == l - 1 && f != c;
    GrowsSelf(vm);
    DescendedUp(vm, f, l, vpn, vm, c, Descend(vm, c, l - 1, vpn).0, Descend(vm, c, l - 1, vpn).1);
  }

  lemma AddedChild(vm: Vm, f: nat, l: nat, vpn: nat)
    requires TablesOk(vm) && TableFor(vm.roles, f, l, vpn) && l > 1 && !Present(Cell(vm.pm.mem, f, Idx(vpn, l)))
    ensures var (vm1, t) := AddTable(vm, f, l, vpn);
            && (t == 0 ==> vm1 == vm && Avail(vm.pm) == 0)
            && (t != 0 ==>
                TablesOk(vm1) && TableFor(vm1.roles, t, l - 1, vpn) && !Walk(vm1.pm.mem, t, l - 1, vpn).Opaque?)
  {
    hide AddTable, TablesOk;
    AddTableCorrect(vm, f, l, vpn);
    var (vm1, t) := AddTable(vm, f, l, vpn);
    if t != 0 { EmptyTableWalk(vm1.pm.mem, t, l - 1, vpn); }
  }

  lemma AddedUp(vm: Vm, f: nat, l: nat, vpn: nat)
    requires TablesOk(vm) && TableFor(vm.roles, f, l, vpn) && l > 1 && !Present(Cell(vm.pm.mem, f, Idx(vpn, l)))
    requires var (vm1, t) := AddTable(vm, f, l, vpn);
             && t != 0 && Descended(vm1, t, l - 1, vpn, Descend(vm1, t, l - 1, vpn).0, Descend(vm1, t, l - 1, vpn).1)
             && forall g, j: nat :: g in vm1.roles && vm1.roles[g].level >= l - 1 && j < 512
                  && (g != t || j != Idx(vpn, l - 1))
                  ==> Cell(Descend(vm1, t, l - 1, vpn).0.pm.mem, g, j) == Cell(vm1.pm.mem, g, j)
    ensures var (vm1, t) := AddTable(vm, f, l, vpn);
            Descended(vm, f, l, vpn, Descend(vm1, t, l - 1, vpn).0, Descend(vm1, t, l - 1, vpn).1)
  {
    hide Descended, Descend, AddTable, TablesOk, Grows, Linked;
    AddTableCorrect(vm, f, l, vpn);
    var (vm1, t) := AddTable(vm, f, l, vpn);
    var (vm2, t2) := Descend(vm1, t, l - 1, vpn);
    AddedEntry(vm, f, l, vpn, vm1, t, vm2);
    DescendedUp(vm, f, l, vpn, vm1, t, vm2, t2);
  }

  lemma DescendedLeaf(vm: Vm, f: nat, l: nat, vpn: nat)
    requires TablesOk(vm) && TableFor(vm.roles, f, l, vpn) && l <= 1
    ensures Descended(vm, f, l, vpn, vm, f)
  {
    GrowsSelf(vm);
    hide Grows;
  }

  lemma DescendedNone(vm: Vm, f: nat, l: nat, vpn: nat)
    requires TablesOk(vm) && Avail(vm.pm) == 0 && l > 1
    ensures Descended(vm, f, l, vpn, vm, NO_TABLE)
  {
    GrowsSelf(vm);
    hide Grows;
  }

  // The new table's entry is there after the rest of the descent.
  lemma AddedEntry(vm: Vm, f: nat, l: nat, vpn: nat, vm1: Vm, t: Frame, vm2: Vm)
    requires TablesOk(vm) && TableFor(vm.roles, f, l, vpn) && l > 1 && t != 0 && !Owned(vm.pm, t) && t !in vm.roles
    requires Linked(vm.pm.mem, vm1.pm.mem, f, Idx(vpn, l), t)
    requires vm1.roles == vm.roles[t := Role(l - 1, Prefix(vpn, l - 1))]
    requires forall g, j: nat :: g in vm1.roles && vm1.roles[g].level >= l - 1 && j < 512
               && (g != t || j != Idx(vpn, l - 1))
               ==> Cell(vm2.pm.mem, g, j) == Cell(vm1.pm.mem, g, j)
    ensures var e := Cell(vm2.pm.mem, f, Idx(vpn, l)); IsTable(e) && FrameOf(e) == t
  {
    assert f in vm1.roles && vm1.roles[f].level == l && f != t;
    assert Cell(vm2.pm.mem, f, Idx(vpn, l)) == TableEntry(t);
  }

  // Among the tables of level l and above, descending from f changes at most f's entry on the path, and
  // only from absent to a fresh table.
  lemma {:induction false} DescendTop(vm: Vm, f: nat, l: nat, vpn: nat)
    requires TablesOk(vm) && TableFor(vm.roles, f, l, vpn)
    requires !Walk(vm.pm.mem, f, l, vpn).Opaque?
    ensures var mem, mem1, i := vm.pm.mem, Descend(vm, f, l, vpn).0.pm.mem, Idx(vpn, l);
            && (forall g, j: nat :: g in vm.roles && vm.roles[g].level >= l && j < 512 && (g != f || j != i)
                  ==> Cell(mem1, g, j) == Cell(mem, g, j))
            && (Cell(mem1, f, i) == Cell(mem, f, i)
                || (!Present(Cell(mem, f, i)) && IsTable(Cell(mem1, f, i)) && !Owned(vm.pm, FrameOf(Cell(mem1, f, i)))))
    decreases l
  {
    hide WellFormed, PagesOk, AddTable;
    if l <= 1 {
    } else {
      var i := Idx(vpn, l);
      var e := Cell(vm.pm.mem, f, i);
      if Present(e) {
        ChildTable(vm, f, l, vpn);
        DescendTop(vm, FrameOf(e), l - 1, vpn);
      } else {
        AddTableCorrect(vm, f, l, vpn);
        var (vm1, t) := AddTable(vm, f, l, vpn);
        if t != 0 {
          EmptyTableWalk(vm1.pm.mem, t, l - 1, vpn);
          DescendTop(vm1, t, l - 1, vpn);
        }
      }
    }
  }

  // Descending changes no walk, through any table, for any page.
  lemma {:induction false} DescendWalk(vm: Vm, f: nat, l: nat, vpn: nat, g: nat, m: nat, v: nat)
    requires TablesOk(vm) && TableFor(vm.roles, f, l, vpn)
    requires !Walk(vm.pm.mem, f, l, vpn).Opaque?
    requires TableFor(vm.roles, g, m, v)
    ensures Walk(Descend(vm, f, l, vpn).0.pm.mem, g, m, v) == Walk(vm.pm.mem, g, m, v)
    decreases l
  {
    hide WellFormed, PagesOk, AddTable;
    if l <= 1 {
    } else {
      var i := Idx(vpn, l);
      var e := Cell(vm.pm.mem, f, i);
      if Present(e) {
        ChildTable(vm, f, l, vpn);
        DescendWalk(vm, FrameOf(e), l - 1, vpn, g, m, v);
      } else {
        AddTableCorrect(vm, f, l, vpn);
        AddTableWalk(vm, f, l, vpn, g, m, v);
        var (vm1, t) := AddTable(vm, f, l, vpn);
        if t != 0 {
          EmptyTableWalk(vm1.pm.mem, t, l - 1, vpn);
          DescendWalk(vm1, t, l - 1, vpn, g, m, v);
        }
      }
    }
  }

  lemma SetLeafCorrect(vm: Vm, t: nat, vpn: nat, e: Word)
    requires TablesOk(vm) && TableFor(vm.roles, t, 1, vpn)
    ensures TablesOk(SetLeaf(vm, t, vpn, e)) && Grows(vm, SetLeaf(vm, t, vpn, e))
    ensures KeepsImage(vm, SetLeaf(vm, t, vpn, e))
    ensures Avail(SetLeaf(vm, t, vpn, e).pm) == Avail(vm.pm)
    ensures forall g: nat, j: nat :: j < 512 ==>
              Cell(SetLeaf(vm, t, vpn, e).pm.mem, g, j) ==
                if g == t && j == Idx(vpn, 1) then e else Cell(vm.pm.mem, g, j)
  {
    var vm1 := SetLeaf(vm, t, vpn, e);
    StoreKeepsList(vm.pm, t, Idx(vpn, 1), e);
    forall g, j: nat | g in vm1.roles && vm1.roles[g].level > 1 && j < 512
      ensures EntryOk(vm1.pm.mem, vm1.roles, g, j)
    {
      assert EntryOk(vm.pm.mem, vm.roles, g, j);
    }
    forall g, h, j: nat | g in vm1.roles && h in vm1.roles && g != h && vm1.roles[g].level in {2, 3}
      && vm1.roles[h].level in {2, 3} && j < 512
      ensures Apart(vm1.pm.mem, g, h, j)
    {
      assert Apart(vm.pm.mem, g, h, j);
    }
  }

  // Writing vpn's leaf in table t is seen by exactly the walks for vpn that reach t.
  lemma {:induction false} SetLeafWalk(vm: Vm, t: nat, vpn: nat, e: Word, g: nat, m: nat, v: nat)
    requires TablesOk(vm) && TableFor(vm.roles, t, 1, vpn) && TableFor(vm.roles, g, m, v)
    ensures Walk(SetLeaf(vm, t, vpn, e).pm.mem, g, m, v) ==
            if v == vpn && LeafTable(vm.pm.mem, g, m, v) == t then XlatOf(e) else Walk(vm.pm.mem, g, m, v)
    decreases m
  {
    SetLeafCorrect(vm, t, vpn, e);
    var c := Cell(vm.pm.mem, g, Idx(v, m));
    hide SetLeaf;
    if m > 1 {
      if IsTable(c) {
        ChildTable(vm, g, m, v);
        SetLeafWalk(vm, t, vpn, e, FrameOf(c), m - 1, v);
      }
    } else {
      PrefixSplit(v, 1);
      PrefixSplit(vpn, 1);
    }
  }

  // The level-1 table a walk reaches has the role of its page.
  lemma {:induction false} LeafTableRole(vm: Vm, g: nat, m: nat, v: nat)
    requires TablesOk(vm) && TableFor(vm.roles, g, m, v)
    ensures LeafTable(vm.pm.mem, g, m, v) != 0 ==> TableFor(vm.roles, LeafTable(vm.pm.mem, g, m, v), 1, v)
    ensures LeafTable(vm.pm.mem, g, m, v) == 0 ==> !Walk(vm.pm.mem, g, m, v).Page?
    decreases m
  {
    var c := Cell(vm.pm.mem, g, Idx(v, m));
    if m > 1 && IsTable(c) {
      PrefixSplit(v, m);
      assert EntryOk(vm.pm.mem, vm.roles, g, Idx(v, m));
      LeafTableRole(vm, FrameOf(c), m - 1, v);
    }
  }

  lemma {:induction false} CodeWalkRole(vm: Vm, g: nat, m: nat, v: nat)
    requires TablesOk(vm) && TableFor(vm.roles, g, m, v) && !Walk(vm.pm.mem, g, m, v).Opaque?
    ensures var t := CodeWalk(vm.pm.mem, g, m, v); t != NO_TABLE ==> t != 0 && TableFor(vm.roles, t, 1, v)
    decreases m
  {
    var c := Cell(vm.pm.mem, g, Idx(v, m));
    if m > 1 && IsTable(c) {
      ChildTable(vm, g, m, v);
      CodeWalkRole(vm, FrameOf(c), m - 1, v);
    }
  }

  // Below the roots, walks from different tables of one role never meet.
  lemma {:induction false} WalksApart(vm: Vm, g: nat, h: nat, m: nat, v: nat)
    requires TablesOk(vm) && TableFor(vm.roles, g, m, v) && TableFor(vm.roles, h, m, v) && m < 4 && g != h
    ensures LeafTable(vm.pm.mem, g, m, v) == LeafTable(vm.pm.mem, h, m, v) ==> LeafTable(vm.pm.mem, g, m, v) == 0
    decreases m
  {
    var i := Idx(v, m);
    var c, d := Cell(vm.pm.mem, g, i), Cell(vm.pm.mem, h, i);
    if m <= 1 {
    } else {
      PrefixSplit(v, m);
      assert EntryOk(vm.pm.mem, vm.roles, g, i) && EntryOk(vm.pm.mem, vm.roles, h, i);
      assert Apart(vm.pm.mem, g, h, i);
      if IsTable(c) && IsTable(d) {
        WalksApart(vm, FrameOf(c), FrameOf(d), m - 1, v);
      } else if IsTable(c) {
        LeafTableRole(vm, FrameOf(c), m - 1, v);
      } else if IsTable(d) {
        LeafTableRole(vm, FrameOf(d), m - 1, v);
      }
    }
  }
}
