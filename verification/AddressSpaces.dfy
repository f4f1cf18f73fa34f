// Page tables as flat maps: what mapping, unmapping, cloning and freeing do to the translations of
// every root, and what holds after any run of them.
module AddressSpaces {
  import opened Words
  import opened Pmm
  import opened PageTables
  import opened LowPages

  // The translation of every page number through a root.
  ghost function Flat(mem: Memory, root: nat): imap<nat, Xlat> {
    imap v: nat | v < VPN_LIMIT :: Walk(mem, root, 4, v)
  }

  // vm_get_phys_pml4: the physical byte address the source's walk gives, or 0.
  function GetPhys(mem: Memory, root: nat, virt: nat): nat {
    var t := CodeWalk(mem, root, 4, virt / 4096);
    if t == NO_TABLE then 0
    else
      var e := Cell(mem, t, Idx(virt / 4096, 1));
      if Present(e) then FrameOf(e) * 4096 + virt % 4096 else 0
  }

  // Where no entry stops the walk that is the walk's result.
  lemma GetPhysWalk(mem: Memory, root: nat, virt: nat)
    requires !Walk(mem, root, 4, virt / 4096).Opaque? && root < NO_TABLE
    ensures GetPhys(mem, root, virt) ==
            match Walk(mem, root, 4, virt / 4096) { case Page(e) => FrameOf(e) * 4096 + virt % 4096 case _ => 0 }
  {
    CodeWalkAgrees(mem, root, 4, virt / 4096);
  }

  lemma RootPrefix(vpn: nat)
    requires vpn < VPN_LIMIT
    ensures Prefix(vpn, 4) == 0
  {
    assert Prefix(vpn, 1) < 0x800_0000;
    assert Prefix(vpn, 2) < 0x4_0000;
    assert Prefix(vpn, 3) < 512;
  }

  lemma RootTable(vm: Vm, r: nat, vpn: nat)
    requires TablesOk(vm) && IsRoot(vm, r) && vpn < VPN_LIMIT
    ensures TableFor(vm.roles, r, 4, vpn)
  {
    RootPrefix(vpn);
  }

  // ---- Mapping ----

  // Roots r and q reach the same level-3 table through slot i.
  predicate SameSubtree(mem: Memory, r: nat, q: nat, i: nat) {
    r == q || (IsTable(Cell(mem, r, i)) && IsTable(Cell(mem, q, i))
      && FrameOf(Cell(mem, r, i)) == FrameOf(Cell(mem, q, i)))
  }

  lemma MapCorrect(vm: Vm, root: nat, vpn: nat, e: Word)
    requires TablesOk(vm) && IsRoot(vm, root) && vpn < VPN_LIMIT && Mappable(vm, root, vpn)
    ensures var (vm1, ok) := Map(vm, root, vpn, e);
            && TablesOk(vm1) && Grows(vm, vm1)
            && Avail(vm.pm) - 3 <= Avail(vm1.pm) <= Avail(vm.pm)
            && (!ok ==> Avail(vm1.pm) == 0)
            && (!Walk(vm.pm.mem, root, 4, vpn).Opaque? ==> KeepsImage(vm, vm1))
  {
    if Walk(vm.pm.mem, root, 4, vpn).Opaque? {
      LowMap(vm, root, vpn, e);
      LowMapCorrect(vm, root, vpn, e);
    } else {
      RootTable(vm, root, vpn);
      DescendCorrect(vm, root, 4, vpn);
      var (vm1, t) := Descend(vm, root, 4, vpn);
      if t != NO_TABLE {
        SetLeafCorrect(vm1, t, vpn, e);
        var vm2 := SetLeaf(vm1, t, vpn, e);
        GrowsTrans(vm, vm1, vm2);
        GrowsImage(vm, vm1);
        ImageTrans(vm, vm1, vm2);
      }
    }
  }

  // A completed map of vpn is seen through root and through every root that shares the subtree of its
  // slot, at vpn only; a map that ran out of memory, or one below a large page, changes no translation of
  // any root.
  lemma MapWalk(vm: Vm, root: nat, vpn: nat, e: Word, q: nat, v: nat)
    requires TablesOk(vm) && IsRoot(vm, root) && vpn < VPN_LIMIT && Mappable(vm, root, vpn)
    requires IsRoot(vm, q) && v < VPN_LIMIT
    ensures var (vm1, ok) := Map(vm, root, vpn, e);
            Walk(vm1.pm.mem, q, 4, v) ==
            if ok && v == vpn && Reaches(vm, vm1, root, q, vpn) then XlatOf(e) else Walk(vm.pm.mem, q, 4, v)
  {
    RootTable(vm, q, v);
    if Walk(vm.pm.mem, root, 4, vpn).Opaque? {
      LowMapCorrect(vm, root, vpn, e);
    } else {
      ClearMapWalk(vm, root, vpn, e, q, v);
    }
  }

  // A map of vpn through root shows in q: no entry stops the walk, and q shares the subtree.
  predicate Reaches(vm: Vm, vm1: Vm, root: nat, q: nat, vpn: nat) {
    !Walk(vm.pm.mem, root, 4, vpn).Opaque? && SameSubtree(vm1.pm.mem, root, q, Idx(vpn, 4))
  }

  // A map changes for no page and no root whether an entry stops the walk.
  lemma MapOpaque(vm: Vm, root: nat, vpn: nat, e: Word, q: nat, v: nat)
    requires TablesOk(vm) && IsRoot(vm, root) && vpn < VPN_LIMIT && Mappable(vm, root, vpn)
    requires IsRoot(vm, q) && v < VPN_LIMIT
    ensures Walk(Map(vm, root, vpn, e).0.pm.mem, q, 4, v).Opaque? <==> Walk(vm.pm.mem, q, 4, v).Opaque?
  {
    MapWalk(vm, root, vpn, e, q, v);
    var (vm1, ok) := Map(vm, root, vpn, e);
    if ok && v == vpn && Reaches(vm, vm1, root, q, vpn) { SubtreeOpaque(vm, root, vpn, e, q); }
  }

  // Where the map of vpn through root shows in q, no entry stopped q's walk either.
  lemma SubtreeOpaque(vm: Vm, root: nat, vpn: nat, e: Word, q: nat)
    requires TablesOk(vm) && IsRoot(vm, root) && vpn < VPN_LIMIT && !Walk(vm.pm.mem, root, 4, vpn).Opaque?
    requires IsRoot(vm, q)
    requires SameSubtree(Map(vm, root, vpn, e).0.pm.mem, root, q, Idx(vpn, 4))
    ensures !Walk(vm.pm.mem, q, 4, vpn).Opaque?
  {
    RootTable(vm, root, vpn);
    DescendCorrect(vm, root, 4, vpn);
    DescendTop(vm, root, 4, vpn);
    var (vm1, t) := Descend(vm, root, 4, vpn);
    if t != NO_TABLE { SetLeafCorrect(vm1, t, vpn, e); }
    assert EntryOk(vm.pm.mem, vm.roles, q, Idx(vpn, 4));
  }

  lemma ClearMapWalk(vm: Vm, root: nat, vpn: nat, e: Word, q: nat, v: nat)
    requires TablesOk(vm) && IsRoot(vm, root) && vpn < VPN_LIMIT && !Walk(vm.pm.mem, root, 4, vpn).Opaque?
    requires IsRoot(vm, q) && v < VPN_LIMIT
    ensures var (vm1, ok) := Map(vm, root, vpn, e);
            Walk(vm1.pm.mem, q, 4, v) ==
            if ok && v == vpn && SameSubtree(vm1.pm.mem, root, q, Idx(vpn, 4)) then XlatOf(e)
              else Walk(vm.pm.mem, q, 4, v)
  {
    RootTable(vm, root, vpn);
    RootTable(vm, q, v);
    RootTable(vm, q, vpn);
    DescendCorrect(vm, root, 4, vpn);
    DescendWalk(vm, root, 4, vpn, q, 4, v);
    var (vm1, t) := Descend(vm, root, 4, vpn);
    if t != NO_TABLE {
      SetLeafCorrect(vm1, t, vpn, e);
      SetLeafWalk(vm1, t, vpn, e, q, 4, v);
      SubtreeLeaf(vm1, root, q, vpn);
    }
  }

  // Two roots reach the same level-1 table for vpn exactly when they share the subtree of its slot.
  lemma SubtreeLeaf(vm: Vm, root: nat, q: nat, vpn: nat)
    requires TablesOk(vm) && IsRoot(vm, root) && IsRoot(vm, q) && vpn < VPN_LIMIT
    requires LeafTable(vm.pm.mem, root, 4, vpn) != 0
    ensures LeafTable(vm.pm.mem, q, 4, vpn) == LeafTable(vm.pm.mem, root, 4, vpn)
            <==> SameSubtree(vm.pm.mem, root, q, Idx(vpn, 4))
  {
    RootTable(vm, root, vpn);
    RootTable(vm, q, vpn);
    var i := Idx(vpn, 4);
    PrefixSplit(vpn, 4);
    var c, d := Cell(vm.pm.mem, root, i), Cell(vm.pm.mem, q, i);
    assert EntryOk(vm.pm.mem, vm.roles, root, i) && EntryOk(vm.pm.mem, vm.roles, q, i);
    if IsTable(d) && FrameOf(c) != FrameOf(d) {
      WalksApart(vm, FrameOf(c), FrameOf(d), 3, vpn);
    }
  }

  // The radix tree refines a flat map, for every root at once.
  lemma MapRefinesFlat(vm: Vm, root: nat, vpn: nat, e: Word, q: nat)
    requires TablesOk(vm) && IsRoot(vm, root) && vpn < VPN_LIMIT && Mappable(vm, root, vpn)
    requires IsRoot(vm, q)
    ensures var (vm1, ok) := Map(vm, root, vpn, e);
            Flat(vm1.pm.mem, q) ==
            if ok && Reaches(vm, vm1, root, q, vpn) then Flat(vm.pm.mem, q)[vpn := XlatOf(e)] else Flat(vm.pm.mem, q)
  {
    forall v: nat | v < VPN_LIMIT
      ensures Walk(Map(vm, root, vpn, e).0.pm.mem, q, 4, v) ==
              if Map(vm, root, vpn, e).1 && v == vpn && Reaches(vm, Map(vm, root, vpn, e).0, root, q, vpn)
              then XlatOf(e) else Walk(vm.pm.mem, q, 4, v)
    {
      MapWalk(vm, root, vpn, e, q, v);
    }
  }

  // After a completed map the source's walk returns the mapped frame plus the offset, below large pages too.
  lemma MapGetPhys(vm: Vm, root: nat, virt: nat, phys: nat, flags: nat)
    requires TablesOk(vm) && IsRoot(vm, root) && virt < 4096 * VPN_LIMIT && Mappable(vm, root, virt / 4096)
    requires phys < 0x1_0000_0000_0000_0000 && flags < 4096 && flags % 2 == 1
    ensures var (vm1, ok) := Map(vm, root, virt / 4096, LeafEntry(phys, flags));
            ok ==> GetPhys(vm1.pm.mem, root, virt) == phys / 4096 * 4096 + virt % 4096
  {
    var vpn, e := virt / 4096, LeafEntry(phys, flags);
    var vm1 := Map(vm, root, vpn, e).0;
    if Walk(vm.pm.mem, root, 4, vpn).Opaque? {
      LowMap(vm, root, vpn, e);
      LowMapCorrect(vm, root, vpn, e);
      IdentityStays(vm, vm1, root);
      LowWalk(vm1.pm.mem, root, vpn);
      LowIndices(vpn);
    } else {
      MapWalk(vm, root, vpn, e, root, vpn);
      GetPhysWalk(vm1.pm.mem, root, virt);
    }
  }

  // ---- Unmapping ----

  lemma UnmapCorrect(vm: Vm, root: nat, vpn: nat)
    requires TablesOk(vm) && IsRoot(vm, root) && vpn < VPN_LIMIT && Mappable(vm, root, vpn)
    ensures TablesOk(Unmap(vm, root, vpn)) && Grows(vm, Unmap(vm, root, vpn))
    ensures Walk(vm.pm.mem, root, 4, vpn).Opaque? || KeepsImage(vm, Unmap(vm, root, vpn))
    ensures Avail(Unmap(vm, root, vpn).pm) == Avail(vm.pm)
  {
    if Walk(vm.pm.mem, root, 4, vpn).Opaque? {
      LowUnmap(vm, root, vpn);
      LowMapCorrect(vm, root, vpn, 0);
    } else {
      ClearUnmapCorrect(vm, root, vpn);
    }
  }

  lemma ClearUnmapCorrect(vm: Vm, root: nat, vpn: nat)
    requires TablesOk(vm) && IsRoot(vm, root) && vpn < VPN_LIMIT && !Walk(vm.pm.mem, root, 4, vpn).Opaque?
    ensures TablesOk(Unmap(vm, root, vpn)) && Grows(vm, Unmap(vm, root, vpn)) && KeepsImage(vm, Unmap(vm, root, vpn))
    ensures Avail(Unmap(vm, root, vpn).pm) == Avail(vm.pm)
  {
    RootTable(vm, root, vpn);
    CodeWalkAgrees(vm.pm.mem, root, 4, vpn);
    CodeWalkRole(vm, root, 4, vpn);
    var t := CodeWalk(vm.pm.mem, root, 4, vpn);
    if t != NO_TABLE {
      SetLeafCorrect(vm, t, vpn, 0);
    }
  }

  // Unmapping a page makes it absent in exactly the roots that share its slot's subtree; below a large page it
  // changes no walk.
  lemma UnmapWalk(vm: Vm, root: nat, vpn: nat, q: nat, v: nat)
    requires TablesOk(vm) && IsRoot(vm, root) && vpn < VPN_LIMIT && IsRoot(vm, q) && v < VPN_LIMIT
    requires Mappable(vm, root, vpn)
    ensures Walk(Unmap(vm, root, vpn).pm.mem, q, 4, v) ==
            if v == vpn && Reaches(vm, vm, root, q, vpn) then Absent else Walk(vm.pm.mem, q, 4, v)
  {
    if Walk(vm.pm.mem, root, 4, vpn).Opaque? {
      LowUnmap(vm, root, vpn);
      LowMapCorrect(vm, root, vpn, 0);
      RootTable(vm, q, v);
    } else {
      ClearUnmapWalk(vm, root, vpn, q, v);
    }
  }

  lemma ClearUnmapWalk(vm: Vm, root: nat, vpn: nat, q: nat, v: nat)
    requires TablesOk(vm) && IsRoot(vm, root) && vpn < VPN_LIMIT && IsRoot(vm, q) && v < VPN_LIMIT
    requires !Walk(vm.pm.mem, root, 4, vpn).Opaque?
    ensures Walk(Unmap(vm, root, vpn).pm.mem, q, 4, v) ==
            if v == vpn && SameSubtree(vm.pm.mem, root, q, Idx(vpn, 4)) then Absent else Walk(vm.pm.mem, q, 4, v)
  {
    RootTable(vm, root, vpn);
    RootTable(vm, q, v);
    CodeWalkAgrees(vm.pm.mem, root, 4, vpn);
    CodeWalkRole(vm, root, 4, vpn);
    var t := CodeWalk(vm.pm.mem, root, 4, vpn);
    if t != NO_TABLE {
      SetLeafWalk(vm, t, vpn, 0, q, 4, v);
      SubtreeLeaf(vm, root, q, vpn);
    }
  }

  lemma UnmapRefinesFlat(vm: Vm, root: nat, vpn: nat, q: nat)
    requires TablesOk(vm) && IsRoot(vm, root) && vpn < VPN_LIMIT && Mappable(vm, root, vpn)
    requires IsRoot(vm, q)
    ensures Flat(Unmap(vm, root, vpn).pm.mem, q) ==
            if Reaches(vm, vm, root, q, vpn) then Flat(vm.pm.mem, q)[vpn := Absent] else Flat(vm.pm.mem, q)
  {
    forall v: nat | v < VPN_LIMIT
      ensures Walk(Unmap(vm, root, vpn).pm.mem, q, 4, v) ==
              if v == vpn && Reaches(vm, vm, root, q, vpn) then Absent else Walk(vm.pm.mem, q, 4, v)
    {
      UnmapWalk(vm, root, vpn, q, v);
    }
  }

  // ---- Allocating data pages, cloning, releasing ----

  // An allocated data page joins no table and disturbs no walk.
  lemma AllocKeepsSpaces(vm: Vm)
    requires TablesOk(vm)
    ensures var vm1 := vm.(pm := Alloc(vm.pm).0);
            && TablesOk(vm1) && Grows(vm, vm1)
            && (forall g, m: nat, v: nat :: TableFor(vm.roles, g, m, v) ==>
                Walk(vm1.pm.mem, g, m, v) == Walk(vm.pm.mem, g, m, v))
            && (forall g :: g in vm.roles ==> SameFrame(vm.pm.mem, vm1.pm.mem, g))
  {
    AllocCorrect(vm.pm);
    TablesOwned(vm);
    hide Alloc, PagesOk, WellFormed, TablesOk, Walk, Owned;
    SameTablesInv(vm, vm.(pm := Alloc(vm.pm).0));
  }

  ghost predicate ClonedAs(vm: Vm, root: nat, vm1: Vm, c: Frame) {
    && TablesOk(vm1) && Grows(vm, vm1)
    && IsRoot(vm1, c) && Live(vm1.pm, c) && c !in vm.roles && !Owned(vm.pm, c)
    && vm1.roles == vm.roles[c := Role(4, 0)]
    && Avail(vm1.pm) == Avail(vm.pm) - 1
    && (forall f: nat :: f != c ==> SameFrame(vm.pm.mem, vm1.pm.mem, f))
    && (forall i: nat :: i < 512 ==> Cell(vm1.pm.mem, c, i) == Cell(vm.pm.mem, root, i))
  }

  // The new root holds the entries of the old one, everything else is untouched.
  lemma CloneCorrect(vm: Vm, root: nat)
    requires TablesOk(vm) && IsRoot(vm, root)
    ensures var (vm1, c) := Clone(vm, root);
            && (c == 0 <==> Avail(vm.pm) == 0)
            && (c == 0 ==> vm1 == vm)
            && (c != 0 ==> ClonedAs(vm, root, vm1, c))
  {
    AllocCorrect(vm.pm);
    var (vm1, c) := Clone(vm, root);
    if c != 0 {
      CloneCells(vm, root);
      CloneInv(vm, root, vm1, c);
      hide Clone, Alloc, PagesOk, WellFormed;
      CloneGrows(vm, vm1, c);
    }
  }

  lemma CloneCells(vm: Vm, root: nat)
    requires TablesOk(vm) && IsRoot(vm, root) && Clone(vm, root).1 != 0
    ensures var (vm1, c) := Clone(vm, root);
            && c == Alloc(vm.pm).1 && root != c
            && (forall f: nat :: f != c ==> SameFrame(vm.pm.mem, vm1.pm.mem, f))
            && (forall i: nat :: i < 512 ==> Cell(vm1.pm.mem, c, i) == Cell(vm.pm.mem, root, i))
  {
    AllocCorrect(vm.pm);
    var (pm, c) := Alloc(vm.pm);
    var mem1 := Clone(vm, root).0.pm.mem;
    assert root != c;
    assert SameFrame(vm.pm.mem, pm.mem, root);
    hide WellFormed, Alloc;
    forall f: nat | f != c
      ensures SameFrame(vm.pm.mem, mem1, f)
    {
      assert SameFrame(vm.pm.mem, pm.mem, f);
    }
  }

  // A fresh page that becomes a table grows the space.
  lemma CloneGrows(vm: Vm, vm1: Vm, c: Frame)
    requires BOOT_PD < vm.pm.start == vm1.pm.start && !Owned(vm.pm, c) && c !in vm.roles
    requires vm1.roles == vm.roles[c := Role(4, 0)]
    requires forall f: nat :: Live(vm.pm, f) ==> Live(vm1.pm, f)
    requires forall f: nat :: f != c ==> SameFrame(vm.pm.mem, vm1.pm.mem, f)
    ensures Grows(vm, vm1)
  {
    forall f, j: nat | f in vm.roles && vm.roles[f].level > 1 && j < 512
      ensures EntryStays(vm.pm.mem, vm1.pm.mem, f, j)
    {
      assert SameFrame(vm.pm.mem, vm1.pm.mem, f);
    }
  }

  lemma CloneWellFormed(mem: Memory, mem1: Memory, roles: Roles, root: nat, c: Frame)
    requires WellFormed(mem, roles) && root in roles && roles[root].level == 4 && c !in roles && c != 0
    requires forall f: nat :: f != c ==> SameFrame(mem, mem1, f)
    requires forall i: nat :: i < 512 ==> Cell(mem1, c, i) == Cell(mem, root, i)
    ensures WellFormed(mem1, roles[c := Role(4, 0)])
  {
    var roles1 := roles[c := Role(4, 0)];
    forall g, j: nat | g in roles1 && roles1[g].level > 1 && j < 512
      ensures EntryOk(mem1, roles1, g, j)
    {
      if g == c {
        assert EntryOk(mem, roles, root, j);
      } else {
        assert EntryOk(mem, roles, g, j) && SameFrame(mem, mem1, g);
      }
    }
    forall g, h, j: nat | g in roles1 && h in roles1 && g != h && roles1[g].level in {2, 3}
      && roles1[h].level in {2, 3} && j < 512
      ensures Apart(mem1, g, h, j)
    {
      assert Apart(mem, g, h, j) && SameFrame(mem, mem1, g) && SameFrame(mem, mem1, h);
    }
  }

  lemma CloneInv(vm: Vm, root: nat, vm1: Vm, c: Frame)
    requires TablesOk(vm) && IsRoot(vm, root) && c != 0 && (vm1, c) == Clone(vm, root)
    requires forall f: nat :: f != c ==> SameFrame(vm.pm.mem, vm1.pm.mem, f)
    requires forall i: nat :: i < 512 ==> Cell(vm1.pm.mem, c, i) == Cell(vm.pm.mem, root, i)
    ensures TablesOk(vm1)
  {
    AllocCorrect(vm.pm);
    CloneWellFormed(vm.pm.mem, vm1.pm.mem, vm.roles, root, c);
    SameListOk(Alloc(vm.pm).0, vm1.pm);
  }

  // Right after cloning, both roots translate every page identically, and no other root is affected.
  lemma CloneTranslates(vm: Vm, root: nat, q: nat)
    requires TablesOk(vm) && IsRoot(vm, root) && IsRoot(vm, q) && Clone(vm, root).1 != 0
    ensures var (vm1, c) := Clone(vm, root);
            Flat(vm1.pm.mem, c) == Flat(vm.pm.mem, root) && Flat(vm1.pm.mem, q) == Flat(vm.pm.mem, q)
  {
    hide Clone, TablesOk, Walk;
    forall v: nat | v < VPN_LIMIT
      ensures Walk(Clone(vm, root).0.pm.mem, Clone(vm, root).1, 4, v) == Walk(vm.pm.mem, root, 4, v)
      ensures Walk(Clone(vm, root).0.pm.mem, q, 4, v) == Walk(vm.pm.mem, q, 4, v)
    {
      CloneWalk(vm, root, q, v);
    }
  }

  lemma CloneWalk(vm: Vm, root: nat, q: nat, v: nat)
    requires TablesOk(vm) && IsRoot(vm, root) && IsRoot(vm, q) && Clone(vm, root).1 != 0 && v < VPN_LIMIT
    ensures Walk(Clone(vm, root).0.pm.mem, Clone(vm, root).1, 4, v) == Walk(vm.pm.mem, root, 4, v)
    ensures Walk(Clone(vm, root).0.pm.mem, q, 4, v) == Walk(vm.pm.mem, q, 4, v)
  {
    CloneCorrect(vm, root);
    var (vm1, c) := Clone(vm, root);
    RootTable(vm, root, v);
    RootTable(vm, q, v);
    assert forall f :: f in vm.roles ==> SameFrame(vm.pm.mem, vm1.pm.mem, f);
    hide Clone;
    WalkFrame(vm.pm.mem, vm1.pm.mem, vm.roles, q, 4, v);
    var e := Cell(vm.pm.mem, root, Idx(v, 4));
    assert Cell(vm1.pm.mem, c, Idx(v, 4)) == e;
    if IsTable(e) {
      ChildTable(vm, root, 4, v);
      WalkFrame(vm.pm.mem, vm1.pm.mem, vm.roles, FrameOf(e), 3, v);
    }
  }

  // pmm_free_page on a data page or on a root: the page leaves the tables.
  function Release(vm: Vm, f: nat): Vm {
    Vm(Free(vm.pm, f), vm.roles - {f})
  }

  predicate Releasable(vm: Vm, f: nat) {
    Live(vm.pm, f) && (f in vm.roles ==> vm.roles[f].level == 4)
  }

  lemma ReleaseCorrect(vm: Vm, f: nat)
    requires TablesOk(vm) && Releasable(vm, f)
    ensures var vm1 := Release(vm, f);
            && TablesOk(vm1) && vm1.pm.free == [f] + vm.pm.free && Avail(vm1.pm) == Avail(vm.pm) + 1
            && vm1.pm.start == vm.pm.start
            && (forall g: nat :: Live(vm1.pm, g) <==> Live(vm.pm, g) && g != f)
            && (forall g: nat :: g != f ==> SameFrame(vm.pm.mem, vm1.pm.mem, g))
  {
    FreeCorrect(vm.pm, f);
    var vm1 := Release(vm, f);
    var mem, mem1 := vm.pm.mem, vm1.pm.mem;
    forall g, j: nat | g in vm1.roles && vm1.roles[g].level > 1 && j < 512
      ensures EntryOk(mem1, vm1.roles, g, j)
    {
      assert EntryOk(mem, vm.roles, g, j) && SameFrame(mem, mem1, g);
    }
    forall g, h, j: nat | g in vm1.roles && h in vm1.roles && g != h && vm1.roles[g].level in {2, 3}
      && vm1.roles[h].level in {2, 3} && j < 512
      ensures Apart(mem1, g, h, j)
    {
      assert Apart(mem, g, h, j) && SameFrame(mem, mem1, g) && SameFrame(mem, mem1, h);
    }
  }

  // A page that may be released is not a table below the roots.
  lemma RootsAreNotLinked(vm: Vm, f: nat, g: nat, m: nat, v: nat)
    requires TablesOk(vm) && Releasable(vm, f) && TableFor(vm.roles, g, m, v) && m < 4
    ensures g != f
  {
  }

  lemma {:induction false} ReleaseWalk(vm: Vm, f: nat, g: nat, m: nat, v: nat)
    requires TablesOk(vm) && Releasable(vm, f) && TableFor(vm.roles, g, m, v) && g != f
    ensures Walk(Release(vm, f).pm.mem, g, m, v) == Walk(vm.pm.mem, g, m, v)
    decreases m
  {
    ReleaseCorrect(vm, f);
    var e := Cell(vm.pm.mem, g, Idx(v, m));
    assert SameFrame(vm.pm.mem, Release(vm, f).pm.mem, g);
    assert Cell(Release(vm, f).pm.mem, g, Idx(v, m)) == e;
    hide Release;
    if m > 1 && IsTable(e) {
      ChildTable(vm, g, m, v);
      RootsAreNotLinked(vm, f, FrameOf(e), m - 1, v);
      hide TablesOk;
      ReleaseWalk(vm, f, FrameOf(e), m - 1, v);
    }
  }

  // ---- Whole runs ----

  datatype Op =
    | AllocPage
    | ReleasePage(page: nat)
    | MapPage(root: nat, vpn: nat, entry: Word)
    | UnmapPage(root: nat, vpn: nat)
    | CloneRoot(root: nat)

  function Step(vm: Vm, op: Op): Vm {
    match op
    case AllocPage => vm.(pm := Alloc(vm.pm).0)
    case ReleasePage(f) => Release(vm, f)
    case MapPage(r, v, e) => Map(vm, r, v, e).0
    case UnmapPage(r, v) => Unmap(vm, r, v)
    case CloneRoot(r) => Clone(vm, r).0
  }

  // What each call demands: pages released are live and no interior tables, roots are roots, and no entry
  // stops the walk of a page to be mapped or unmapped, unless it is a harmless low page.
  ghost predicate Legal(vm: Vm, op: Op) {
    match op
    case AllocPage => true
    case ReleasePage(f) => Releasable(vm, f)
    case MapPage(r, v, e) => IsRoot(vm, r) && v < VPN_LIMIT && Mappable(vm, r, v)
    case UnmapPage(r, v) => IsRoot(vm, r) && v < VPN_LIMIT && Mappable(vm, r, v)
    case CloneRoot(r) => IsRoot(vm, r)
  }

  function Run(vm: Vm, ops: seq<Op>): Vm {
    if ops == [] then vm else Step(Run(vm, ops[..|ops| - 1]), ops[|ops| - 1])
  }

  ghost predicate LegalRun(vm: Vm, ops: seq<Op>) {
    ops == [] || (LegalRun(vm, ops[..|ops| - 1]) && Legal(Run(vm, ops[..|ops| - 1]), ops[|ops| - 1]))
  }

  lemma StepInv(vm: Vm, op: Op)
    requires TablesOk(vm) && Legal(vm, op)
    ensures TablesOk(Step(vm, op))
  {
    match op
    case AllocPage => AllocKeepsSpaces(vm);
    case ReleasePage(f) => ReleaseCorrect(vm, f);
    case MapPage(r, v, e) => MapCorrect(vm, r, v, e);
    case UnmapPage(r, v) => UnmapCorrect(vm, r, v);
    case CloneRoot(r) => CloneCorrect(vm, r);
  }

  // In every reachable state each table page has one level and one index path, is off the free list, and
  // its present interior entries lead to tables with the child role.
  lemma {:induction false} RunInv(vm: Vm, ops: seq<Op>)
    requires TablesOk(vm) && LegalRun(vm, ops)
    ensures TablesOk(Run(vm, ops))
  {
    if ops == [] {
    } else {
      RunInv(vm, ops[..|ops| - 1]);
      StepInv(Run(vm, ops[..|ops| - 1]), ops[|ops| - 1]);
    }
  }
}
