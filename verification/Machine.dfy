// The machine the kernel runs on and the allocator and paging code that update it in place.
//
// Every method computes the step of the same name in Pmm, PageTables, AddressSpaces or Tlb on the
// machine's abstract state.
module Machines {
  import opened Words
  import opened Pmm
  import opened PageTables
  import opened LowPages
  import opened AddressSpaces
  import opened Tlb

  // ---- Zeroing a page byte by byte ----

  function Zeros(n: nat): (r: seq<Byte>)
    ensures |r| == n && forall i :: 0 <= i < n ==> r[i] == 0
  {
    seq<Byte>(n, i => 0)
  }

  lemma ZeroBytesZeroFrame(mem: Memory, f: nat)
    requires 512 * f + 512 <= |mem|
    ensures PutBytes(mem, 4096 * f, Zeros(4096)) == ZeroFrame(mem, f)
  {
    var r := PutBytes(mem, 4096 * f, Zeros(4096));
    PutBytesReadBack(mem, 4096 * f, Zeros(4096));
    forall j | 0 <= j < |mem|
      ensures r[j] == ZeroFrame(mem, f)[j]
    {
      if 512 * f <= j < 512 * f + 512 {
        forall k | 0 <= k < 8
          ensures GetByte(r[j], k) == 0
        {
          var o := 8 * j + k - 4096 * f;
          assert ByteAt(r, 4096 * f + o) == Zeros(4096)[o];
          assert (4096 * f + o) / 8 == j && (4096 * f + o) % 8 == k;
        }
        ZeroWord(r[j]);
      }
    }
  }

  lemma ZeroTwice(mem: Memory, f: nat)
    ensures ZeroFrame(ZeroFrame(mem, f), f) == ZeroFrame(mem, f)
  {
  }

  // The index fields of a virtual address (PML4_INDEX and its three siblings).
  lemma IndexFields(virt: Word)
    requires virt < 4096 * VPN_LIMIT
    ensures virt / 0x80_0000_0000 % 512 == Idx(virt / 4096, 4)
    ensures virt / 0x4000_0000 % 512 == Idx(virt / 4096, 3)
    ensures virt / 0x20_0000 % 512 == Idx(virt / 4096, 2)
    ensures virt / 0x1000 % 512 == Idx(virt / 4096, 1)
  {
    var v := virt / 4096;
    assert Prefix(v, 1) == v / 512 == virt / 0x20_0000;
    assert Prefix(v, 2) == Prefix(v, 1) / 512 == virt / 0x4000_0000;
    assert Prefix(v, 3) == Prefix(v, 2) / 512 == virt / 0x80_0000_0000;
  }

  lemma GetPhysIs(mem: Memory, root: nat, virt: nat)
    ensures var t := CodeWalk(mem, root, 4, virt / 4096);
            GetPhys(mem, root, virt) ==
            if t == NO_TABLE then 0
            else var e := Cell(mem, t, Idx(virt / 4096, 1)); if e % 2 == 1 then e / 4096 * 4096 + virt % 4096 else 0
  {
  }

  // ---- What the source's walk demands ----

  // Every table page the walk for vpn reads belongs to the kernel image or is live.
  ghost predicate Followable(pm: Pmm.State, f: nat, l: nat, vpn: nat)
    decreases l
  {
    && f < FRAMES && Owned(pm, f)
    && (l > 1 ==> var e := Cell(pm.mem, f, Idx(vpn, l)); Present(e) ==> Followable(pm, FrameOf(e), l - 1, vpn))
  }

  // So it is for every page the model can follow a map of.
  lemma {:induction false} ClearFollowable(vm: Vm, f: nat, l: nat, vpn: nat)
    requires TablesOk(vm) && TableFor(vm.roles, f, l, vpn) && !Walk(vm.pm.mem, f, l, vpn).Opaque?
    ensures Followable(vm.pm, f, l, vpn)
    decreases l
  {
    assert Owned(vm.pm, f) && f < FRAMES;
    if l > 1 && Present(Cell(vm.pm.mem, f, Idx(vpn, l))) {
      ChildTable(vm, f, l, vpn);
      ClearFollowable(vm, FrameOf(Cell(vm.pm.mem, f, Idx(vpn, l))), l - 1, vpn);
    }
  }

  lemma MappableFollowable(vm: Vm, r: nat, vpn: nat)
    requires TablesOk(vm) && IsRoot(vm, r) && vpn < VPN_LIMIT && Mappable(vm, r, vpn)
    ensures Followable(vm.pm, r, 4, vpn)
  {
    if Walk(vm.pm.mem, r, 4, vpn).Opaque? {
      LowFollowable(vm, r, vpn);
    } else {
      RootTable(vm, r, vpn);
      ClearFollowable(vm, r, 4, vpn);
    }
  }

  lemma LowFollowable(vm: Vm, r: nat, vpn: nat)
    requires TablesOk(vm) && IsRoot(vm, r) && LowSpot(vm, r, vpn)
    ensures Followable(vm.pm, r, 4, vpn)
  {
    LowIndices(vpn);
    var mem, e := vm.pm.mem, Cell(vm.pm.mem, r, 0);
    assert EntryOk(mem, vm.roles, r, 0);
    assert BlockEntry(Cell(mem, BOOT_PD, vpn / 512), vpn / 512);
    assert Followable(vm.pm, Block(vpn), 1, vpn);
    assert Followable(vm.pm, BOOT_PD, 2, vpn);
    assert Followable(vm.pm, FrameOf(e), 3, vpn);
  }

  // An absent entry of an owned table: what linking a fresh table leads to.
  lemma AddTablePages(vm: Vm, f: nat, l: nat, vpn: nat)
    requires PagesOk(vm.pm) && f < FRAMES && Owned(vm.pm, f) && l > 1 && !Present(Cell(vm.pm.mem, f, Idx(vpn, l)))
    ensures var (pm, t) := Alloc(vm.pm);
            && AddTable(vm, f, l, vpn).1 == t
            && (t == 0 ==> AddTable(vm, f, l, vpn).0 == vm && pm == vm.pm)
            && (t != 0 ==>
                  var vm1 := AddTable(vm, f, l, vpn).0;
                  && vm1 == Vm(pm.(mem := Store(pm.mem, f, Idx(vpn, l), 4096 * (t as int) + 3)),
                               vm.roles[t := Role(l - 1, Prefix(vpn, l - 1))])
                  && PagesOk(vm1.pm) && Followable(vm1.pm, t, l - 1, vpn))
  {
    hide Alloc, AddTable, Followable, PagesOk, Prefix;
    AddTableIs(vm, f, l, vpn);
    FreshPage(vm.pm, f);
    var (pm, t) := Alloc(vm.pm);
    if t != 0 {
      StoreKeepsList(pm, f, Idx(vpn, l), 4096 * (t as int) + 3);
      EmptyFollowable(pm.(mem := Store(pm.mem, f, Idx(vpn, l), 4096 * (t as int) + 3)), t, l - 1, vpn);
    }
  }

  lemma AddTableIs(vm: Vm, f: nat, l: nat, vpn: nat)
    requires l > 1
    ensures var (pm, t) := Alloc(vm.pm);
            && AddTable(vm, f, l, vpn).1 == t
            && AddTable(vm, f, l, vpn).0 ==
               if t == 0 then vm.(pm := pm)
               else Vm(pm.(mem := Store(pm.mem, f, Idx(vpn, l), 4096 * (t as int) + 3)),
                       vm.roles[t := Role(l - 1, Prefix(vpn, l - 1))])
  {
    hide Alloc, Prefix;
  }

  lemma FreshPage(pm: Pmm.State, f: nat)
    requires PagesOk(pm) && Owned(pm, f)
    ensures var (pm1, t) := Alloc(pm);
            && PagesOk(pm1) && (t == 0 ==> pm1 == pm)
            && (t != 0 ==> f != t && f !in pm1.free && Owned(pm1, t) && forall i: nat :: i < 512 ==>
                Cell(pm1.mem, t, i) == 0)
  {
    AllocCorrect(pm);
  }

  lemma EmptyFollowable(pm: Pmm.State, t: nat, l: nat, vpn: nat)
    requires t < FRAMES && Owned(pm, t) && forall i: nat :: i < 512 ==> Cell(pm.mem, t, i) == 0
    ensures Followable(pm, t, l, vpn)
  {
    assert Cell(pm.mem, t, Idx(vpn, l)) == 0;
  }

  lemma AllocCases(s: Pmm.State)
    requires PagesOk(s)
    ensures |s.free| > 0 ==>
              s.free[0] != 0 && (s.free[0] as int) * 4096 / 4096 == s.free[0]
              && Alloc(s) == (s.(mem := ZeroFrame(s.mem, s.free[0]), free := s.free[1..]), s.free[0])
    ensures |s.free| == 0 && s.cur >= FRAMES ==> Alloc(s) == (s, 0)
    ensures |s.free| == 0 && s.cur < FRAMES ==>
              4096 * s.cur / 4096 == s.cur && Alloc(s) == (s.(mem := ZeroFrame(s.mem, s.cur), cur := s.cur + 1), s.cur)
  {
  }

  // The page just allocated is zero already.
  lemma AllocZero(s: Pmm.State)
    ensures var (t, f) := Alloc(s);
            (f as int) * 4096 / 4096 == f && (f != 0 ==> t.(mem := ZeroFrame(t.mem, f)) == t)
  {
    if Alloc(s).1 != 0 { ZeroTwice(s.mem, Alloc(s).1); }
  }

  lemma PageAddress(f: nat)
    ensures f * 4096 / 4096 == f && f * 4096 % 4096 == 0 && 4096 * f == f * 4096
  {
  }

  lemma MapStepIs(m: Mmu, v: nat, e: Word)
    ensures MmuStep(m, MapCurrent(v, e)) ==
            var (vm1, ok) := Map(m.vm, m.cr3, v, e); m.(vm := vm1, tlb := if ok then m.tlb - {v} else m.tlb)
  {
  }

  lemma UnmapStepIs(m: Mmu, v: nat)
    ensures MmuStep(m, UnmapCurrent(v)) ==
            m.(vm := Unmap(m.vm, m.cr3, v), tlb := if CodeWalk(m.vm.pm.mem, m.cr3, 4, v) == NO_TABLE then m.tlb
              else m.tlb - {v})
  {
  }

  lemma StoreIs(mem: Memory, f: nat, i: nat, w: Word)
    requires 512 * f + i < |mem|
    ensures Store(mem, f, i, w) == mem[512 * f + i := w]
  {
  }

  lemma DescendLeaf()
    ensures forall vm: Vm, t: nat, vpn: nat :: Descend(vm, t, 1, vpn) == (vm, t)
  {
  }

  class Machine {
    const ram: array<Word>
    const bssEnd: Word          // end of the kernel image
    var pmmCur: Word
    var pmmEnd: Word
    var pmmFreeList: Word
    var cr3: Word
    var kernelCr3: Word
    var tlb: map<nat, Xlat>     // what the processor has cached
    ghost var free: seq<Frame>  // the pages on the free list, head first
    ghost var roles: Roles

    ghost predicate Rep()
      reads this, ram
    {
      && ram.Length == 512 * FRAMES
      && 0 < bssEnd <= 4096 * FRAMES
      && (pmmCur == 0 ==> free == [])
      && (pmmCur != 0 ==> pmmCur % 4096 == 0 && pmmCur <= 4096 * FRAMES && pmmEnd == 4096 * FRAMES)
      && pmmFreeList == Link(free, 0)
    }

    // First page after the kernel image.
    ghost function Start(): nat { (bssEnd + 4095) / 4096 }

    ghost function Pm(): (s: Pmm.State)
      requires Rep()
      reads this, ram
    {
      State(ram[..], Start(), if pmmCur == 0 then Start() else pmmCur / 4096, free)
    }

    ghost function Space(): Vm
      requires Rep()
      reads this, ram
    {
      Vm(Pm(), roles)
    }

    ghost function Paging(): Mmu
      requires Rep()
      reads this, ram
    {
      Mmu(Space(), cr3 / 4096, tlb)
    }

    ghost predicate Valid()
      reads this, ram
      ensures Valid() ==> Rep()
    {
      Rep() && TablesOk(Space())
    }

    // A machine at boot: nothing allocated, the root table in the kernel image.
    constructor (memory: array<Word>, imageEnd: Word, bootCr3: Word, ghost bootRoles: Roles)
      requires memory.Length == 512 * FRAMES && 0 < imageEnd <= 4096 * FRAMES
      ensures Rep() && ram == memory && bssEnd == imageEnd && cr3 == bootCr3 && kernelCr3 == 0 && tlb == map[]
      ensures Space() == Vm(State(memory[..], (imageEnd + 4095) / 4096, (imageEnd + 4095) / 4096, []), bootRoles)
    {
      ram, bssEnd := memory, imageEnd;
      pmmCur, pmmEnd, pmmFreeList := 0, 0, 0;
      cr3, kernelCr3, tlb := bootCr3, 0, map[];
      free, roles := [], bootRoles;
    }

    // ---- Memory ----

    method CopyBytes(dst: nat, src: seq<Byte>)
      requires Rep() && dst + |src| <= 4096 * FRAMES
      modifies ram
      ensures Rep() && Pm() == old(Pm()).(mem := PutBytes(old(Pm()).mem, dst, src))
    {
      var i := 0;
      while i < |src|
        invariant 0 <= i <= |src|
        invariant ram[..] == PutBytes(old(ram[..]), dst, src[..i])
      {
        ghost var before := ram[..];
        ram[(dst + i) / 8] := SetWordByte(ram[(dst + i) / 8], (dst + i) % 8, src[i]);
        assert src[..i + 1][..i] == src[..i];
        assert ram[..] == PutByte(before, dst + i, src[i]);
        i := i + 1;
      }
      assert src[..i] == src;
    }

    method ZeroBytes(dst: nat, n: nat)
      requires dst + n <= 8 * ram.Length
      modifies ram
      ensures ram[..] == PutBytes(old(ram[..]), dst, Zeros(n))
    {
      var i := 0;
      while i < n
        invariant 0 <= i <= n
        invariant ram[..] == PutBytes(old(ram[..]), dst, Zeros(i))
      {
        ghost var before := ram[..];
        ram[(dst + i) / 8] := SetWordByte(ram[(dst + i) / 8], (dst + i) % 8, 0);
        assert Zeros(i + 1)[..i] == Zeros(i);
        assert ram[..] == PutByte(before, dst + i, 0);
        i := i + 1;
      }
    }

    // The byte-zeroing loop over one page.
    method ZeroPage(p: Word)
      requires Rep() && p % 4096 == 0 && p < 4096 * FRAMES
      modifies ram
      ensures Rep() && Pm() == old(Pm()).(mem := ZeroFrame(old(Pm()).mem, p / 4096))
    {
      hide ZeroFrame, PutBytes;
      assert 4096 * (p / 4096) == p;
      ZeroBytesZeroFrame(ram[..], p / 4096);
      ZeroBytes(p, 4096);
    }

    // ---- pmm.c ----

    method PmmInit()
      requires Rep()
      modifies this`pmmCur, this`pmmEnd
      ensures Rep() && pmmCur != 0 && Pm() == old(Pm())
    {
      if pmmCur != 0 { return; }
      pmmCur := (bssEnd + 4095) / 4096 * 4096;
      pmmEnd := 4096 * FRAMES;
    }

    method PmmAlloc() returns (p: Word)
      requires Rep() && PagesOk(Pm())
      modifies this`pmmCur, this`pmmEnd, this`pmmFreeList, this`free, ram
      ensures Rep() && Pm() == Alloc(old(Pm())).0
      ensures p == 4096 * (Alloc(old(Pm())).1 as int)
    {
      hide *;
      if pmmCur == 0 {
        PmmInit();
      }
      AllocCases(Pm());
      ListHead();
      if pmmFreeList != 0 {
        p := pmmFreeList;
        PopFree();
        ZeroPage(p);
      } else {
        if pmmCur + 4096 > pmmEnd { return 0; }
        p := pmmCur;
        Bump();
        ZeroPage(p);
      }
    }

    lemma ListHead()
      requires Rep() && pmmCur != 0
      ensures pmmFreeList == 0 ==> (Pm().free == [] || Pm().free[0] == 0)
      ensures pmmFreeList != 0 ==> |Pm().free| > 0 && pmmFreeList == (Pm().free[0] as int) * 4096
      ensures pmmCur == 4096 * Pm().cur && pmmEnd == 4096 * FRAMES
    {
    }

    lemma HeadLink()
      requires Rep() && PagesOk(Pm()) && |Pm().free| > 0
      ensures free != [] && pmmFreeList / 8 < ram.Length && ram[pmmFreeList / 8] == Link(free, 1)
    {
      assert Cell(ram[..], free[0], 0) == Link(free, 1);
      assert ram[pmmFreeList / 8] == Cell(ram[..], free[0], 0);
    }

    // The head of the list is taken off; its first word is the new head.
    method PopFree()
      requires Rep() && PagesOk(Pm()) && |Pm().free| > 0
      modifies this`pmmFreeList, this`free
      ensures Rep() && Pm() == old(Pm()).(free := old(Pm()).free[1..])
    {
      hide PagesOk;
      HeadLink();
      pmmFreeList := ram[pmmFreeList / 8];
      free := free[1..];
    }

    method Bump()
      requires Rep() && pmmCur != 0 && pmmCur + 4096 <= pmmEnd
      modifies this`pmmCur
      ensures Rep() && Pm() == old(Pm()).(cur := old(Pm()).cur + 1)
    {
      pmmCur := pmmCur + 4096;
    }

    method PmmFree(p: Word)
      requires Rep() && p % 4096 == 0 && p < 4096 * FRAMES && pmmCur != 0
      modifies this`pmmFreeList, this`free, ram
      ensures Rep() && Pm() == Free(old(Pm()), p / 4096)
    {
      if p == 0 { return; }
      assert ram.Length == 512 * FRAMES;
      assert p / 8 == 512 * (p / 4096);
      ram[p / 8] := pmmFreeList;
      assert ram[..] == Store(old(ram[..]), p / 4096, 0, old(pmmFreeList));
      pmmFreeList := p;
      free := [p / 4096] + free;
    }

    // pmm_free_page on a page that may be a root: the page leaves the tables.
    method ReleasePage(p: Word)
      requires Rep() && p % 4096 == 0 && Live(Pm(), p / 4096)
      modifies this`pmmFreeList, this`free, this`roles, ram
      ensures Rep() && Space() == Release(old(Space()), p / 4096)
    {
      PmmFree(p);
      roles := roles - {p / 4096};
    }

    // ---- vm.c ----

    // alloc_table: a page, zeroed once more as 512 entries.
    method AllocTable() returns (t: Word)
      requires Rep() && PagesOk(Pm())
      modifies this`pmmCur, this`pmmEnd, this`pmmFreeList, this`free, ram
      ensures Rep() && Pm() == Alloc(old(Pm())).0
      ensures t == 4096 * (Alloc(old(Pm())).1 as int)
    {
      hide *;
      AllocZero(Pm());
      t := PmmAlloc();
      if t != 0 { ClearTable(t); }
    }

    // The 512-entry zeroing loop.
    method ClearTable(t: Word)
      requires Rep() && t % 4096 == 0 && t < 4096 * FRAMES
      modifies ram
      ensures Rep() && Pm() == old(Pm()).(mem := ZeroFrame(old(Pm()).mem, t / 4096))
    {
      ghost var mem, f := ram[..], t / 4096;
      assert t / 8 == 512 * f;
      var i := 0;
      while i < 512
        invariant 0 <= i <= 512
        invariant forall g: nat, j: nat :: j < 512 ==>
                    Cell(ram[..], g, j) == if g == f && j < i then 0 else Cell(mem, g, j)
      {
        ghost var before := ram[..];
        ram[t / 8 + i] := 0;
        assert ram[..] == Store(before, f, i, 0);
        i := i + 1;
      }
      SameCells(ram[..], ZeroFrame(mem, f));
    }

    // An absent entry gets a fresh table. Returns 0 when out of memory.
    method LinkTable(table: Word, idx: nat, ghost l: nat, ghost vpn: nat) returns (t: Word)
      requires Rep() && PagesOk(Pm()) && table % 4096 == 0 && table / 4096 < FRAMES && Owned(Pm(), table / 4096)
      requires 1 < l && idx == Idx(vpn, l)
      requires !Present(Cell(ram[..], table / 4096, idx))
      modifies this`pmmCur, this`pmmEnd, this`pmmFreeList, this`free, this`roles, ram
      ensures Rep() && Space() == AddTable(old(Space()), table / 4096, l, vpn).0
      ensures t == 4096 * (AddTable(old(Space()), table / 4096, l, vpn).1 as int)
    {
      hide *;
      SpaceIs();
      MemIs();
      AddTablePages(Space(), table / 4096, l, vpn);
      IndexSmall(vpn, l);
      ghost var vm, before := Space(), roles;
      t := AllocTable();
      if t != 0 {
        SetEntry(table, idx, t + 1 + 2, before[t / 4096 := Role(l - 1, Prefix(vpn, l - 1))]);
      } else {
        SpaceIs();
      }
    }

    lemma IndexSmall(vpn: nat, l: nat)
      ensures Idx(vpn, l) < 512
    {
    }

    // Stores one table entry; rs are the roles from then on.
    method SetEntry(table: Word, idx: nat, e: Word, ghost rs: Roles)
      requires Rep() && table % 4096 == 0 && table / 4096 < FRAMES && idx < 512
      modifies this`roles, ram
      ensures Rep() && Space() == Vm(old(Pm()).(mem := Store(old(Pm()).mem, table / 4096, idx, e)), rs)
    {
      assert table / 8 == 512 * (table / 4096);
      StoreIs(ram[..], table / 4096, idx, e);
      ram[table / 8 + idx] := e;
      roles := rs;
    }

    lemma SpaceIs()
      requires Rep()
      ensures Space() == Vm(Pm(), roles)
    {
    }

    lemma ValidIs()
      ensures Valid() <==> Rep() && TablesOk(Space())
    {
    }

    // One level of the walk of vm_map_page: the table below entry idx of table, allocated when absent.
    // Not ok when out of memory.
    method NextTable(table: Word, idx: nat, ghost l: nat, ghost vpn: nat) returns (ok: bool, child: Word)
      requires Rep() && PagesOk(Pm()) && table % 4096 == 0 && 1 < l && idx == Idx(vpn, l)
      requires Followable(Pm(), table / 4096, l, vpn)
      modifies this`pmmCur, this`pmmEnd, this`pmmFreeList, this`free, this`roles, ram
      ensures Rep() && PagesOk(Pm()) && child % 4096 == 0
      ensures ok ==> Followable(Pm(), child / 4096, l - 1, vpn)
      ensures Descend(old(Space()), table / 4096, l, vpn) ==
              if ok then Descend(Space(), child / 4096, l - 1, vpn) else (Space(), NO_TABLE)
    {
      hide *;
      NextPlan(table, idx, l, vpn);
      SpaceIs();
      MemIs();
      var e := ram[table / 8 + idx];
      if e % 2 == 1 {
        PageAddress(e / 4096);
        return true, e / 4096 * 4096;
      }
      ghost var t := AddTable(Space(), table / 4096, l, vpn).1;
      PageAddress(t);
      child := LinkTable(table, idx, l, vpn);
      ok := child != 0;
      SpaceIs();
    }

    lemma MemIs()
      requires Rep()
      ensures Pm().mem == ram[..]
    {
    }

    lemma NextPlan(table: Word, idx: nat, l: nat, vpn: nat)
      requires Rep() && PagesOk(Pm()) && table % 4096 == 0 && 1 < l && idx == Idx(vpn, l)
      requires Followable(Pm(), table / 4096, l, vpn)
      ensures table / 8 + idx < ram.Length && table / 4096 < FRAMES && Owned(Pm(), table / 4096)
      ensures var e, vm, f := ram[table / 8 + idx], Space(), table / 4096;
              if e % 2 == 1 then
                && Followable(Pm(), e / 4096, l - 1, vpn)
                && Descend(vm, f, l, vpn) == Descend(vm, e / 4096, l - 1, vpn)
              else
                var (vm1, t) := AddTable(vm, f, l, vpn);
                && !Present(Cell(ram[..], f, idx))
                && PagesOk(vm1.pm)
                && Descend(vm, f, l, vpn) == (if t == 0 then (vm1, NO_TABLE) else Descend(vm1, t, l - 1, vpn))
                && (t != 0 ==> Followable(vm1.pm, t, l - 1, vpn))
    {
      EntryAt(table, idx);
      if !Present(Cell(ram[..], table / 4096, idx)) { AddTablePages(Space(), table / 4096, l, vpn); }
    }

    // Entry idx of a table page is the word at the table's address plus 8 * idx.
    lemma EntryAt(table: Word, idx: nat)
      requires Rep() && table % 4096 == 0 && table / 4096 < FRAMES && idx < 512
      ensures table / 8 + idx < ram.Length && ram[table / 8 + idx] == Cell(ram[..], table / 4096, idx)
    {
      assert table / 8 == 512 * (table / 4096);
    }

    // Writes the leaf entry of vpn in the level-1 table at address pt.
    method WriteLeaf(pt: Word, idx: nat, e: Word, ghost vpn: nat)
      requires Rep() && PagesOk(Pm()) && pt % 4096 == 0 && Followable(Pm(), pt / 4096, 1, vpn) && idx == Idx(vpn, 1)
      modifies this`roles, ram
      ensures Rep() && PagesOk(Pm()) && Space() == SetLeaf(old(Space()), pt / 4096, vpn, e)
    {
      LeafPlan(pt, idx, e, vpn);
      hide *;
      SetEntry(pt, idx, e, roles);
      SpaceIs();
    }

    lemma LeafPlan(pt: Word, idx: nat, e: Word, vpn: nat)
      requires Rep() && PagesOk(Pm()) && Followable(Pm(), pt / 4096, 1, vpn) && idx == Idx(vpn, 1)
      ensures pt / 4096 < FRAMES && idx < 512
      ensures var pm := Pm().(mem := Store(Pm().mem, pt / 4096, idx, e));
              SetLeaf(Space(), pt / 4096, vpn, e) == Vm(pm, roles) && PagesOk(pm)
    {
      StoreKeepsList(Pm(), pt / 4096, idx, e);
    }

    // A map is a descent through the four index fields and one write.
    lemma MapPlan(root: Word, virt: Word, phys: Word, flags: Word)
      requires Rep() && virt < 4096 * VPN_LIMIT && flags < 4096
      ensures virt / 0x80_0000_0000 % 512 == Idx(virt / 4096, 4) && virt / 0x4000_0000 % 512 == Idx(virt / 4096, 3)
      ensures virt / 0x20_0000 % 512 == Idx(virt / 4096, 2) && virt / 0x1000 % 512 == Idx(virt / 4096, 1)
      ensures LeafEntry(phys, flags) == phys / 4096 * 4096 + flags
      ensures forall vm: Vm, t: nat :: Descend(vm, t, 1, virt / 4096) == (vm, t)
      ensures forall t: nat :: CodeWalk(ram[..], t, 1, virt / 4096) == t
      ensures var (vm1, t), e := Descend(Space(), root / 4096, 4, virt / 4096), LeafEntry(phys, flags);
              Map(Space(), root / 4096, virt / 4096, e) ==
                if t == NO_TABLE then (vm1, false) else (SetLeaf(vm1, t, virt / 4096, e), true)
      ensures forall t: Word :: t / 4096 != NO_TABLE
    {
      IndexFields(virt);
      DescendLeaf();
    }

    // vm_map_page_pml4. The source returns nothing; done tells whether the leaf entry was written.
    method VmMapPagePml4(root: Word, virt: Word, phys: Word, flags: Word) returns (done: bool)
      requires Rep() && PagesOk(Pm()) && root % 4096 == 0 && Followable(Pm(), root / 4096, 4, virt / 4096)
      requires virt < 4096 * VPN_LIMIT && flags < 4096
      modifies this`pmmCur, this`pmmEnd, this`pmmFreeList, this`free, this`roles, ram
      ensures Rep() && PagesOk(Pm())
      ensures (Space(), done) == Map(old(Space()), root / 4096, virt / 4096, LeafEntry(phys, flags))
    {
      hide *;
      ghost var vpn, goal := virt / 4096, Descend(Space(), root / 4096, 4, virt / 4096);
      var i4, i3, i2, i1 := virt / 0x80_0000_0000 % 512, virt / 0x4000_0000 % 512, virt / 0x20_0000 % 512,
          virt / 0x1000 % 512;
      MapPlan(root, virt, phys, flags);
      var ok, pdp := NextTable(root, i4, 4, vpn);
      if !ok { return false; }
      var pd;
      ok, pd := NextTable(pdp, i3, 3, vpn);
      if !ok { return false; }
      var pt;
      ok, pt := NextTable(pd, i2, 2, vpn);
      if !ok { return false; }
      assert goal == (Space(), pt / 4096);
      WriteLeaf(pt, i1, phys / 4096 * 4096 + flags, vpn);
      done := true;
    }

    // vm_map_page: the same walk from CR3, then invlpg.
    method VmMapPage(virt: Word, phys: Word, flags: Word)
      requires Rep() && PagesOk(Pm()) && Followable(Pm(), cr3 / 4096, 4, virt / 4096)
      requires virt < 4096 * VPN_LIMIT && flags < 4096
      modifies this`pmmCur, this`pmmEnd, this`pmmFreeList, this`free, this`roles, this`tlb, ram
      ensures Rep() && PagesOk(Pm())
      ensures Paging() == MmuStep(old(Paging()), MapCurrent(virt / 4096, LeafEntry(phys, flags)))
    {
      hide *;
      MapStepIs(Paging(), virt / 4096, LeafEntry(phys, flags));
      RootAddress();
      PagingIs();
      var done := VmMapPagePml4(cr3 / 4096 * 4096, virt, phys, flags);
      if done { Invlpg(virt); }
      PagingIs();
    }

    lemma RootAddress()
      ensures cr3 / 4096 * 4096 % 4096 == 0 && cr3 / 4096 * 4096 / 4096 == cr3 / 4096
    {
    }

    lemma PagingIs()
      requires Rep()
      ensures Paging() == Mmu(Space(), cr3 / 4096, tlb) && Space().pm.mem == ram[..]
    {
    }

    method Invlpg(virt: Word)
      requires Rep()
      modifies this`tlb
      ensures tlb == old(tlb) - {virt / 4096}
      ensures Rep() && Space() == old(Space()) && Pm() == old(Pm())
    {
      tlb := tlb - {virt / 4096};
    }

    // Reads one level of a walk: the address of the child table, not ok when the entry is absent.
    method ReadTable(table: Word, idx: nat, ghost l: nat, ghost vpn: nat) returns (ok: bool, child: Word)
      requires Rep() && table % 4096 == 0 && 1 < l && idx == Idx(vpn, l) && Followable(Pm(), table / 4096, l, vpn)
      ensures child % 4096 == 0
      ensures CodeWalk(ram[..], table / 4096, l, vpn) ==
              if ok then CodeWalk(ram[..], child / 4096, l - 1, vpn) else NO_TABLE
      ensures ok ==> Followable(Pm(), child / 4096, l - 1, vpn)
    {
      hide *;
      ReadPlan(table, idx, l, vpn);
      var e := ram[table / 8 + idx];
      if !(e % 2 == 1) { return false, 0; }
      PageAddress(e / 4096);
      ok, child := true, e / 4096 * 4096;
    }

    lemma ReadPlan(table: Word, idx: nat, l: nat, vpn: nat)
      requires Rep() && table % 4096 == 0 && 1 < l && idx == Idx(vpn, l) && Followable(Pm(), table / 4096, l, vpn)
      ensures table / 8 + idx < ram.Length
      ensures var e, f := ram[table / 8 + idx], table / 4096;
              && CodeWalk(ram[..], f, l, vpn) == (if e % 2 == 1 then CodeWalk(ram[..], e / 4096, l - 1, vpn)
                 else NO_TABLE)
              && (e % 2 == 1 ==> Followable(Pm(), e / 4096, l - 1, vpn))
    {
      EntryAt(table, idx);
    }

    // The three interior levels of the walks that allocate nothing: the level-1 table.
    method ReadLeafTable(root: Word, virt: Word) returns (ok: bool, pt: Word)
      requires Rep() && root % 4096 == 0 && Followable(Pm(), root / 4096, 4, virt / 4096) && virt < 4096 * VPN_LIMIT
      ensures pt % 4096 == 0
      ensures CodeWalk(ram[..], root / 4096, 4, virt / 4096) == if ok then pt / 4096 else NO_TABLE
      ensures ok ==> pt / 4096 != NO_TABLE && Followable(Pm(), pt / 4096, 1, virt / 4096)
    {
      hide *;
      ghost var vpn := virt / 4096;
      var i4, i3, i2 := virt / 0x80_0000_0000 % 512, virt / 0x4000_0000 % 512, virt / 0x20_0000 % 512;
      MapPlan(root, virt, 0, 0);
      var pdp, pd;
      ok, pdp := ReadTable(root, i4, 4, vpn);
      if !ok { return false, 0; }
      ok, pd := ReadTable(pdp, i3, 3, vpn);
      if !ok { return false, 0; }
      ok, pt := ReadTable(pd, i2, 2, vpn);
    }

    // vm_unmap_page
    method VmUnmapPage(virt: Word)
      requires Rep() && PagesOk(Pm()) && Followable(Pm(), cr3 / 4096, 4, virt / 4096) && virt < 4096 * VPN_LIMIT
      modifies this`roles, this`tlb, ram
      ensures Rep() && PagesOk(Pm()) && Paging() == MmuStep(old(Paging()), UnmapCurrent(virt / 4096))
    {
      hide *;
      UnmapStepIs(Paging(), virt / 4096);
      RootAddress();
      PagingIs();
      var done := ClearLeaf(cr3 / 4096 * 4096, virt);
      if done { Invlpg(virt); }
      PagingIs();
    }

    method ClearLeaf(root: Word, virt: Word) returns (done: bool)
      requires Rep() && PagesOk(Pm()) && root % 4096 == 0 && Followable(Pm(), root / 4096, 4, virt / 4096)
      requires virt < 4096 * VPN_LIMIT
      modifies this`roles, ram
      ensures Rep() && PagesOk(Pm()) && Space() == Unmap(old(Space()), root / 4096, virt / 4096)
      ensures done <==> CodeWalk(old(ram[..]), root / 4096, 4, virt / 4096) != NO_TABLE
    {
      var i1 := virt / 0x1000 % 512;
      MapPlan(root, virt, 0, 0);
      UnmapPlan(root / 4096, virt / 4096);
      hide *;
      var ok, pt := ReadLeafTable(root, virt);
      if !ok { return false; }
      WriteLeaf(pt, i1, 0, virt / 4096);
      done := true;
    }

    lemma UnmapPlan(root: nat, vpn: nat)
      requires Rep()
      ensures var t := CodeWalk(ram[..], root, 4, vpn);
              Unmap(Space(), root, vpn) == if t == NO_TABLE then Space() else SetLeaf(Space(), t, vpn, 0)
    {
    }

    // vm_get_phys_pml4
    method VmGetPhysPml4(root: Word, virt: Word) returns (phys: nat)
      requires Rep() && root % 4096 == 0 && Followable(Pm(), root / 4096, 4, virt / 4096) && virt < 4096 * VPN_LIMIT
      ensures phys == GetPhys(ram[..], root / 4096, virt)
    {
      hide *;
      GetPhysIs(ram[..], root / 4096, virt);
      var ok, pt := ReadLeafTable(root, virt);
      if !ok { return 0; }
      LeafAt(pt, virt);
      var e := ram[pt / 8 + virt / 0x1000 % 512];
      if !(e % 2 == 1) { return 0; }
      phys := e / 4096 * 4096 + virt % 4096;
    }

    lemma LeafAt(pt: Word, virt: Word)
      requires Rep() && pt % 4096 == 0 && Followable(Pm(), pt / 4096, 1, virt / 4096) && virt < 4096 * VPN_LIMIT
      ensures pt / 8 + virt / 0x1000 % 512 < ram.Length
      ensures ram[pt / 8 + virt / 0x1000 % 512] == Cell(ram[..], pt / 4096, Idx(virt / 4096, 1))
    {
      IndexFields(virt);
      EntryAt(pt, virt / 0x1000 % 512);
    }

    // vm_get_phys: the walk from CR3.
    method VmGetPhys(virt: Word) returns (phys: nat)
      requires Rep() && Followable(Pm(), cr3 / 4096, 4, virt / 4096) && virt < 4096 * VPN_LIMIT
      ensures phys == GetPhys(ram[..], cr3 / 4096, virt)
    {
      RootAddress();
      phys := VmGetPhysPml4(cr3 / 4096 * 4096, virt);
    }

    lemma ClonePlan()
      requires Valid() && IsRoot(Space(), cr3 / 4096)
      ensures PagesOk(Pm()) && cr3 / 4096 < FRAMES
      ensures var (pm, t) := Alloc(Pm());
              && Clone(Space(), cr3 / 4096) == (if t == 0 then Space()
                 else Vm(pm.(mem := CopyFrame(pm.mem, t, cr3 / 4096)), roles[t := Role(4, 0)]), t)
              && (t == 0 ==> pm == Pm())
              && TablesOk(Clone(Space(), cr3 / 4096).0) && t != cr3 / 4096
    {
      CloneCorrect(Space(), cr3 / 4096);
      AllocCorrect(Pm());
    }

    // vm_clone_current_pml4
    method VmCloneCurrentPml4() returns (c: Word)
      requires Valid() && IsRoot(Space(), cr3 / 4096)
      modifies this`pmmCur, this`pmmEnd, this`pmmFreeList, this`free, this`roles, ram
      ensures Valid()
      ensures Space() == Clone(old(Space()), cr3 / 4096).0 && c == 4096 * (Clone(old(Space()), cr3 / 4096).1 as int)
    {
      hide *;
      SpaceIs();
      ClonePlan();
      ghost var before := roles;
      c := PmmAlloc();
      if c != 0 {
        CopyTable(c, cr3 / 4096 * 4096, before[c / 4096 := Role(4, 0)]);
      } else {
        SpaceIs();
      }
      ValidIs();
    }

    // The 512-entry copy loop.
    method CopyTable(dst: Word, src: Word, ghost rs: Roles)
      requires Rep() && dst % 4096 == 0 && src % 4096 == 0 && dst != src && dst < 4096 * FRAMES && src < 4096 * FRAMES
      modifies this`roles, ram
      ensures Rep() && Space() == Vm(old(Pm()).(mem := CopyFrame(old(Pm()).mem, dst / 4096, src / 4096)), rs)
    {
      ghost var mem, d, f := ram[..], dst / 4096, src / 4096;
      assert dst / 8 == 512 * d && src / 8 == 512 * f && d != f;
      var i := 0;
      while i < 512
        invariant 0 <= i <= 512
        invariant forall g: nat, j: nat :: j < 512 ==>
                    Cell(ram[..], g, j) == if g == d && j < i then Cell(mem, f, j) else Cell(mem, g, j)
        modifies ram
      {
        ghost var before := ram[..];
        ram[dst / 8 + i] := ram[src / 8 + i];
        assert ram[..] == Store(before, d, i, Cell(before, f, i));
        i := i + 1;
      }
      SameCells(ram[..], CopyFrame(mem, d, f));
      roles := rs;
    }

    // vm_set_cr3: loading CR3 drops every cached translation.
    method VmSetCr3(root: Word)
      modifies this`cr3, this`tlb
      ensures cr3 == root && tlb == map[]
      ensures old(Rep()) ==> Rep() && Space() == old(Space())
      ensures old(Valid()) ==> Valid()
    {
      cr3 := root;
      tlb := map[];
    }

    // vm_set_kernel_cr3
    method VmSetKernelCr3(root: Word)
      modifies this`kernelCr3
      ensures old(Rep()) ==> Rep() && Space() == old(Space())
      ensures old(Rep() && IsRoot(Space(), root / 4096)) ==> IsRoot(Space(), kernelCr3 / 4096) && kernelCr3 % 4096 == 0
      ensures kernelCr3 / 4096 == root / 4096
    {
      kernelCr3 := root / 4096 * 4096;
    }
  }
}
