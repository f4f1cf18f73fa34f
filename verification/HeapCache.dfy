// sys_brk and the translation cache. The call maps pages of the running root without invalidating, and never
// unmaps any: lowering the break and raising it again maps pages that are still translated.
module HeapCache {
  import opened Words
  import opened Pmm
  import opened PageTables
  import opened LowPages
  import opened AddressSpaces
  import opened Tlb
  import opened Placing
  import opened Heap

  // The processor runs on the process's root.
  predicate Running(k: Kernel) { k.proc.pml4 != 0 && k.cr3 == k.proc.pml4 }

  function Paging(k: Kernel, tlb: map<nat, Xlat>): Mmu { Mmu(k.vm, k.cr3, tlb) }

  ghost predicate KeepsCoherent(k: Kernel, k1: Kernel) {
    forall tlb: map<nat, Xlat> :: Coherent(Paging(k, tlb)) ==> Coherent(Paging(k1, tlb))
  }

  // Root r translates page v to a live page or not at all.
  predicate NoDangling(k: Kernel, r: nat, v: nat) {
    var x := Walk(k.vm.pm.mem, r, 4, v); x.Page? ==> Live(k.vm.pm, FrameOf(x.entry))
  }

  // A cache entry for a page whose walk changes goes stale.
  lemma ChangedIsStale(k: Kernel, k1: Kernel, v: nat)
    requires v < VPN_LIMIT && k1.cr3 == k.cr3
    requires var x := Walk(k.vm.pm.mem, k.cr3, 4, v); x != Absent && Walk(k1.vm.pm.mem, k.cr3, 4, v) != x
    ensures !KeepsCoherent(k, k1)
  {
    var tlb := map[v := Walk(k.vm.pm.mem, k.cr3, 4, v)];
    assert Coherent(Paging(k, tlb));
    assert v in Paging(k1, tlb).tlb;
    assert !Coherent(Paging(k1, tlb));
  }

  // A page to be added that is translated already is translated otherwise afterwards.
  lemma RegrownChanges(k: Kernel, addr: nat, v: nat)
    requires KernelOk(k) && HeapOk(k) && BrkLegal(k, addr) && BrkDone(k, addr) && addr != 0
    requires NewPage(k.proc, addr, v) && NoDangling(k, k.proc.pml4, v)
    requires Walk(k.vm.pm.mem, k.proc.pml4, 4, v) != Absent
    ensures v < VPN_LIMIT && Walk(Brk(k, addr).0.vm.pm.mem, k.proc.pml4, 4, v) != Walk(k.vm.pm.mem, k.proc.pml4, 4, v)
  {
    hide PlaceAll, PlaceAllDone, Placeable, KernelOk, RoundUp, HeapPages, Walk, Live;
    StartHeapOk(k);
    var k0 := k.(proc := StartHeap(k.proc));
    var top := Target(k0.proc, addr);
    assert Clear(k.vm.pm.mem, k.proc.pml4, v);
    TargetInRange(k, addr);
    LegalGrowth(k, addr);
    ClearIsSafe(k0, top);
    HeapPlaceable(k0, top);
    RootOfProc(k0);
    PlaceAllFresh(k0, k0.proc.pml4, HeapPages(k0.proc.brkCurr, top), HeapPage(v));
  }

  lemma TargetInRange(k: Kernel, addr: nat)
    requires KernelOk(k) && HeapOk(k) && BrkLegal(k, addr)
    ensures var p := StartHeap(k.proc);
            && Target(p, addr) <= BRK_LIMIT
            && (forall v: nat :: NewPage(k.proc, addr, v) ==> v < VPN_LIMIT && p.brkCurr < Target(p, addr))
  {
    StartHeapOk(k);
    var p := StartHeap(k.proc);
    RoundUpInRange(Target(p, addr));
    RoundUpInRange(p.brkCurr);
    if Target(p, addr) <= p.brkCurr { RoundUpMono(Target(p, addr), p.brkCurr); }
  }

  // No page but the new ones changes its walk.
  lemma OthersUnchanged(k: Kernel, addr: nat, w: nat)
    requires KernelOk(k) && HeapOk(k) && BrkLegal(k, addr) && w < VPN_LIMIT && !NewPage(k.proc, addr, w)
    ensures Walk(Brk(k, addr).0.vm.pm.mem, k.proc.pml4, 4, w) == Walk(k.vm.pm.mem, k.proc.pml4, 4, w)
  {
    hide PlaceAll, Placeable, KernelOk, RoundUp, HeapPages, Walk;
    StartHeapOk(k);
    var k0 := k.(proc := StartHeap(k.proc));
    var top := Target(k0.proc, addr);
    TargetInRange(k, addr);
    if addr != 0 && top > k0.proc.brkCurr {
      LegalGrowth(k, addr);
      ClearIsSafe(k0, top);
      HeapPlaceable(k0, top);
      RootOfProc(k0);
      PlaceAllWalk(k0, k0.proc.pml4, HeapPages(k0.proc.brkCurr, top), w);
    }
  }

  // What a completed sys_brk call does to the process's address space: each page that starts at or above the old break
  // and below the new one leads to a live zero page, open to user mode and writable; every other walk is as before.
  lemma BrkMapsExactly(k: Kernel, addr: nat, v: nat)
    requires KernelOk(k) && HeapOk(k) && BrkLegal(k, addr) && BrkDone(k, addr) && v < VPN_LIMIT
    ensures var k1, root, was := Brk(k, addr).0, k.proc.pml4, Brk(k, 0).1;
            if was <= 4096 * v < k1.proc.brkCurr then Holds(k1.vm, root, Placement(v, [], 0x7))
            else Walk(k1.vm.pm.mem, root, 4, v) == Walk(k.vm.pm.mem, root, 4, v)
  {
    hide PlaceAll, PlaceAllDone, KernelOk, HeapPages, Walk, Live, Holds;
    NewPagesExactly(k, addr, v);
    BrkContents(k, addr, v);
    if !NewPage(k.proc, addr, v) { OthersUnchanged(k, addr, v); }
  }

  lemma NewPagesExactly(k: Kernel, addr: nat, v: nat)
    requires KernelOk(k) && HeapOk(k) && BrkLegal(k, addr)
    ensures var p := StartHeap(k.proc);
            && Brk(k, 0).1 == p.brkCurr
            && (NewPage(k.proc, addr, v) <==> p.brkCurr <= 4096 * v < Target(p, addr))
            && (NewPage(k.proc, addr, v) <==> RoundUp(p.brkCurr) / 4096 <= v < RoundUp(Target(p, addr)) / 4096)
  {
    hide KernelOk, Mapped;
    StartHeapOk(k);
    TargetInRange(k, addr);
    RoundUpInRange(StartHeap(k.proc).brkCurr);
    RoundUpInRange(Target(StartHeap(k.proc), addr));
  }

  // Exactly: a completed sys_brk call on the running root keeps every coherent cache coherent if and only if no
  // page it adds is translated before.
  lemma BrkCoherentExactly(k: Kernel, addr: nat)
    requires KernelOk(k) && HeapOk(k) && BrkLegal(k, addr) && BrkDone(k, addr) && addr != 0 && Running(k)
    requires forall v: nat :: NewPage(k.proc, addr, v) ==> NoDangling(k, k.proc.pml4, v)
    ensures KeepsCoherent(k, Brk(k, addr).0) <==>
            forall v: nat :: NewPage(k.proc, addr, v) ==> Untranslated(k, v)
  {
    hide Brk, BrkLegal, BrkDone, KernelOk, HeapOk, NewPage, Walk, NoDangling;
    var k1 := Brk(k, addr).0;
    SameRoot(k, addr);
    if v: nat :| NewPage(k.proc, addr, v) && !Untranslated(k, v) {
      RegrownChanges(k, addr, v);
      ChangedIsStale(k, k1, v);
    } else {
      forall tlb: map<nat, Xlat> | Coherent(Paging(k, tlb))
        ensures Coherent(Paging(k1, tlb))
      {
        forall w | w in tlb
          ensures w < VPN_LIMIT && tlb[w] != Absent && tlb[w] == Walk(k1.vm.pm.mem, k1.cr3, 4, w)
        {
          assert w in Paging(k, tlb).tlb;
          assert !Untranslated(k, w);
          OthersUnchanged(k, addr, w);
        }
      }
    }
  }

  predicate Untranslated(k: Kernel, v: nat) { Walk(k.vm.pm.mem, k.cr3, 4, v) == Absent }

  lemma SameRoot(k: Kernel, addr: nat)
    requires KernelOk(k) && HeapOk(k) && BrkLegal(k, addr)
    ensures Brk(k, addr).0.cr3 == k.cr3
  {
    hide PlaceAll, RoundUp, HeapPages, TablesOk;
    StartHeapOk(k);
    var k0 := k.(proc := StartHeap(k.proc));
    var top := Target(k0.proc, addr);
    if addr != 0 && top > k0.proc.brkCurr {
      LegalGrowth(k, addr);
      TargetInRange(k, addr);
      ClearIsSafe(k0, top);
      HeapPlaceable(k0, top);
      PlaceAllCorrect(k0, k0.proc.pml4, HeapPages(k0.proc.brkCurr, top));
    }
  }

  // The kernel does this: lower the break by a page and raise it again, and the page's translation has changed
  // under a cache that still holds the old one.
  lemma LowerThenRaise(k: Kernel)
    requires KernelOk(k) && HeapOk(k) && Running(k) && k.proc.brkStart != 0
    requires k.proc.brkCurr % 4096 == 0 && k.proc.brkStart + 4096 <= k.proc.brkCurr
    requires BrkDone(Brk(k, k.proc.brkCurr - 4096).0, k.proc.brkCurr)
    ensures var low := Brk(k, k.proc.brkCurr - 4096).0;
            var back := Brk(low, k.proc.brkCurr).0;
            && low.vm == k.vm && back.proc.brkCurr == k.proc.brkCurr
            && Walk(back.vm.pm.mem, k.cr3, 4, k.proc.brkCurr / 4096 - 1) !=
               Walk(k.vm.pm.mem, k.cr3, 4, k.proc.brkCurr / 4096 - 1)
            && KeepsCoherent(k, low) && !KeepsCoherent(low, back)
  {
    hide *;
    var top := k.proc.brkCurr;
    var v := top / 4096 - 1;
    var low := Brk(k, top - 4096).0;
    Lowered(k);
    SameSpace(k, low);
    RegrownChanges(low, top, v);
    SameRoot(low, top);
    BrkCorrect(low, top);
    ChangedIsStale(low, Brk(low, top).0, v);
  }

  lemma SameSpace(k: Kernel, k1: Kernel)
    requires k1.vm == k.vm && k1.cr3 == k.cr3
    ensures KeepsCoherent(k, k1)
  {
    forall tlb: map<nat, Xlat> | Coherent(Paging(k, tlb))
      ensures Coherent(Paging(k1, tlb))
    {
      assert Paging(k1, tlb) == Paging(k, tlb);
    }
  }

  lemma Lowered(k: Kernel)
    requires KernelOk(k) && HeapOk(k) && Running(k) && k.proc.brkStart != 0
    requires k.proc.brkCurr % 4096 == 0 && k.proc.brkStart + 4096 <= k.proc.brkCurr
    ensures var top := k.proc.brkCurr;
            var v, low := top / 4096 - 1, Brk(k, top - 4096).0;
            && low == k.(proc := k.proc.(brkCurr := top - 4096)) && KernelOk(low) && HeapOk(low) && BrkLegal(low, top)
            && NewPage(low.proc, top, v) && NoDangling(low, low.proc.pml4, v)
            && Walk(low.vm.pm.mem, low.proc.pml4, 4, v) != Absent
            && StartHeap(low.proc) == low.proc && Target(low.proc, top) == top && top != 0 && low.proc.pml4 == k.cr3
  {
    var top := k.proc.brkCurr;
    var low := k.(proc := k.proc.(brkCurr := top - 4096));
    TopPage(k);
    assert Brk(k, top - 4096).0 == low;
    hide TablesOk, Walk, Live, RoundUp, Mapped;
    forall w | NewPage(low.proc, top, w)
      ensures Clear(low.vm.pm.mem, low.proc.pml4, w)
    {
      assert w == top / 4096 - 1;
    }
  }

  // The heap's last page: mapped, and the one that raising the lowered break adds.
  lemma TopPage(k: Kernel)
    requires HeapOk(k) && k.proc.brkStart != 0
    requires k.proc.brkCurr % 4096 == 0 && k.proc.brkStart + 4096 <= k.proc.brkCurr
    ensures var top := k.proc.brkCurr;
            var v := top / 4096 - 1;
            && 0 <= v && RoundUp(top - 4096) / 4096 == v && RoundUp(top) / 4096 == v + 1
            && Mapped(k.vm, k.proc.pml4, v)
            && Walk(k.vm.pm.mem, k.proc.pml4, 4, v).Page?
            && Live(k.vm.pm, FrameOf(Walk(k.vm.pm.mem, k.proc.pml4, 4, v).entry))
  {
    hide Walk, Live;
    RoundUpInRange(k.proc.brkCurr);
    RoundUpInRange(k.proc.brkCurr - 4096);
    assert Mapped(k.vm, k.proc.pml4, k.proc.brkCurr / 4096 - 1);
  }
}
