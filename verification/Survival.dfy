// An image loaded by sys_execve reads back through the process's root, and goes on doing so under every
// later growth of the heap.
module Survival {
  import opened Words
  import opened Pmm
  import opened PageTables
  import opened LowPages
  import opened AddressSpaces
  import opened Placing
  import opened Loader
  import opened Heap
  import opened Lifecycle

  predicate StackApart(seg: Segment) {
    STACK_VPN < FirstPage(seg) || FirstPage(seg) + NumPages(seg) <= STACK_VPN
  }

  // Every segment that no entry stops the walk to is held, its end at or below image_hi.
  ghost predicate ImageHeld(k0: Kernel, k: Kernel, root: nat, image: Image, segs: seq<Segment>) {
    forall i :: 0 <= i < |segs| ==> SegHeld(k0, k, root, image, segs[i])
  }

  ghost predicate SegHeld(k0: Kernel, k: Kernel, root: nat, image: Image, seg: Segment) {
    && SegOk(image, seg) && seg.vaddr + seg.memsz <= k.proc.imageHi
    && (SegClear(k0.vm.pm.mem, k0.cr3, seg) ==> Loaded(k.vm, root, image, seg))
  }

  lemma ClonedLoadable(vm: Vm, root: nat, image: Image, segs: seq<Segment>)
    requires TablesOk(vm) && IsRoot(vm, root) && Clone(vm, root).1 != 0 && Loadable(vm, root, image, segs)
    ensures Loadable(Clone(vm, root).0, Clone(vm, root).1, image, segs)
    ensures forall i :: 0 <= i < |segs| ==>
              (SegClear(Clone(vm, root).0.pm.mem, Clone(vm, root).1, segs[i]) <==> SegClear(vm.pm.mem, root, segs[i]))
  {
    hide Clone, TablesOk, Walk, Mappable, SegApart;
    CloneWalks(vm, root);
    var (vm1, c) := Clone(vm, root);
    forall i | 0 <= i < |segs|
      ensures SegOk(image, segs[i]) && SegMappable(vm1, c, segs[i])
      ensures SegClear(vm1.pm.mem, c, segs[i]) <==> SegClear(vm.pm.mem, root, segs[i])
    {
      PagesInRange(image, segs[i]);
      forall v: nat | InSeg(segs[i], v)
        ensures Mappable(vm1, c, v)
        ensures Clear(vm1.pm.mem, c, v) <==> Clear(vm.pm.mem, root, v)
      {
        CloneMappable(vm, root, v);
      }
    }
  }

  // A held segment stays held when one more page is placed outside it.
  lemma LoadedUnderPlace(k: Kernel, root: nat, q: Placement, image: Image, seg: Segment)
    requires KernelOk(k) && IsRoot(k.vm, root) && PlacementOk(q) && Mappable(k.vm, root, q.vpn)
    requires SegOk(image, seg) && Loaded(k.vm, root, image, seg) && !InSeg(seg, q.vpn)
    ensures Loaded(Place(k, root, q).0.vm, root, image, seg)
  {
    hide Place, Holds, TablesOk, KernelOk, Mappable;
    PagesInRange(image, seg);
    forall p: nat | p < NumPages(seg)
      ensures Holds(Place(k, root, q).0.vm, root, SegPage(image, seg, p))
    {
      assert InSeg(seg, FirstPage(seg) + p);
      PlaceHeld(k, root, q, SegPage(image, seg, p));
    }
  }

  // A successful sys_execve in which memory lasted holds everything and an empty stack page.
  lemma ExecHolds(k: Kernel, image: Image, segs: seq<Segment>)
    requires KernelOk(k) && ExecLegal(k, image, segs) && Loadable(k.vm, k.cr3, image, segs)
    requires (forall i :: 0 <= i < |segs| ==> StackApart(segs[i])) && ExecDone(k, image, segs)
    ensures var (k1, ok) := Exec(k, image, segs);
            && ok && ImageHeld(k, k1, k1.proc.pml4, image, segs) && Holds(k1.vm, k1.proc.pml4, StackPage())
            && k1.proc.brkStart == 0 && k1.proc.pml4 != 0
  {
    var k0 := k.(proc := k.proc.(brkStart := 0, brkCurr := 0));
    assert KernelOk(k0);
    CloneKernelOk(k0);
    var (vm1, c) := Clone(k0.vm, k0.cr3);
    CloneWalks(k0.vm, k0.cr3);
    ClonedLoadable(k0.vm, k0.cr3, image, segs);
    var kc := k0.(vm := vm1);
    LoadThenStack(kc, c, image, segs);
    var k3 := Place(LoadSegments(kc, c, image, segs).0, c, StackPage()).0;
    hide LoadSegments, Place, Clone, KernelOk, Loaded, SegClear, Holds, LoadDone, PlaceDone, Walk, SegOk;
    forall i | 0 <= i < |segs|
      ensures SegHeld(k, Exec(k, image, segs).0, c, image, segs[i])
    {
      assert HeldAfter(kc, c, image, segs[i], k3);
    }
  }

  // Whatever comes of it, sys_execve leaves the processor on the root it ran on and forgets the old heap. When it
  // fails the process keeps its root; when it succeeds the process has a new one, a page that was not live.
  lemma ExecReturns(k: Kernel, image: Image, segs: seq<Segment>)
    requires KernelOk(k) && ExecLegal(k, image, segs)
    ensures var (k1, ok) := Exec(k, image, segs);
            && k1.cr3 == k.cr3 && k1.kernelRoot == k.kernelRoot && k1.proc.brkStart == 0 && k1.proc.brkCurr == 0
            && (!ok ==> k1.proc.pml4 == k.proc.pml4)
            && (ok ==> k1.proc.pml4 != 0 && !Live(k.vm.pm, k1.proc.pml4) && IsRoot(k1.vm, k1.proc.pml4))
  {
    hide LoadSegments, SegsOk, KernelOk, Walk, Place, Kept, Live, Clear;
    var k0 := k.(proc := k.proc.(brkStart := 0, brkCurr := 0));
    FreshKernel(k);
    KernelTables(k0);
    CloneKernelOk(k0);
    var (vm1, c) := Clone(k0.vm, k0.cr3);
    if c != 0 {
      CloneFresh(k0.vm, k0.cr3);
      CloneWalks(k0.vm, k0.cr3);
      ClonedSegsOk(k0.vm, k0.cr3, image, segs);
      ClearStays(k0.vm.pm.mem, k0.cr3, vm1.pm.mem, c);
      ExecLoad(k0.(vm := vm1), c, image, segs);
      var (k2, ok) := LoadSegments(k0.(vm := vm1), c, image, segs);
      KeptRecord(k0.(vm := vm1), c, k2);
      if ok { KeptRecord(k0.(vm := vm1), c, Place(k2, c, StackPage()).0); }
    }
  }

  lemma CloneFresh(vm: Vm, root: nat)
    requires TablesOk(vm) && IsRoot(vm, root) && Clone(vm, root).1 != 0
    ensures !Live(vm.pm, Clone(vm, root).1)
  {
    CloneCorrect(vm, root);
  }

  lemma ClearStays(mem: Memory, r: nat, mem1: Memory, c: nat)
    requires Clear(mem, r, STACK_VPN)
    requires forall v: nat :: v < VPN_LIMIT ==> Walk(mem1, c, 4, v) == Walk(mem, r, 4, v)
    ensures Clear(mem1, c, STACK_VPN)
  {
  }

  lemma KeptRecord(k: Kernel, root: nat, k1: Kernel)
    requires Kept(k, root, k1)
    ensures k1 == k.(vm := k1.vm, proc := k.proc.(ledger := k1.proc.ledger, imageHi := k1.proc.imageHi))
    ensures IsRoot(k1.vm, root)
  {
  }

  // Its stack page lies below 0x7FFFFFF0000, reads as zero, and is open to user mode and writable.
  lemma ExecStack(k: Kernel, image: Image, segs: seq<Segment>, o: nat)
    requires KernelOk(k) && ExecLegal(k, image, segs) && Loadable(k.vm, k.cr3, image, segs)
    requires (forall i :: 0 <= i < |segs| ==> StackApart(segs[i])) && ExecDone(k, image, segs) && o < 4096
    ensures var (k1, ok) := Exec(k, image, segs);
            var virt := 0x7FF_FFFF_0000 - 4096 + o;
            var x, a := Walk(k1.vm.pm.mem, k1.proc.pml4, 4, virt / 4096), GetPhys(k1.vm.pm.mem, k1.proc.pml4, virt);
            ok && x.Page? && x.entry % 4096 == 0x7 && a != 0 && ByteAt(k1.vm.pm.mem, a) == 0
  {
    hide *;
    ExecHolds(k, image, segs);
    ExecOk(k, image, segs);
    StackByte(Exec(k, image, segs).0, o);
  }

  lemma StackByte(k: Kernel, o: nat)
    requires KernelOk(k) && k.proc.pml4 != 0 && Holds(k.vm, k.proc.pml4, StackPage()) && o < 4096
    ensures var virt := 0x7FF_FFFF_0000 - 4096 + o;
            var x, a := Walk(k.vm.pm.mem, k.proc.pml4, 4, virt / 4096), GetPhys(k.vm.pm.mem, k.proc.pml4, virt);
            x.Page? && x.entry % 4096 == 0x7 && a != 0 && ByteAt(k.vm.pm.mem, a) == 0
  {
    hide *;
    RootSmall(k);
    StackAt(o);
    HeldByte(k.vm, k.proc.pml4, StackPage(), 0x7FF_FFFF_0000 - 4096 + o);
    HeldEntry(k.vm, k.proc.pml4, StackPage());
  }

  lemma StackAt(o: nat)
    requires o < 4096
    ensures StackPage().vpn == (0x7FF_FFFF_0000 - 4096 + o) / 4096 && PlacementOk(StackPage())
    ensures StackPage().flags == 7 && StackPage().bytes == []
  {
  }

  lemma HeldEntry(vm: Vm, root: nat, q: Placement)
    requires Holds(vm, root, q)
    ensures var x := Walk(vm.pm.mem, root, 4, q.vpn); x.Page? && x.entry % 4096 == q.flags
  {
    hide Walk, Live, FrameHolds;
  }

  lemma RootSmall(k: Kernel)
    requires KernelOk(k) && k.proc.pml4 != 0
    ensures TablesOk(k.vm) && k.proc.pml4 < NO_TABLE
  {
    assert k.proc.pml4 in k.vm.roles;
  }

  // Where the heap of a program just started is: one MiB above the highest segment end, or above that of an
  // earlier image if that is higher, rounded up to a page.
  lemma HeapAfterExec(k: Kernel, image: Image, segs: seq<Segment>, hi: nat)
    requires Exec(k, image, segs).1 && NoWrap(segs) && IsHighest(hi, k.proc.imageHi, segs)
    requires 0 < hi && hi + 0x10_0FFF < 0x1_0000_0000_0000_0000
    ensures var k1 := Exec(k, image, segs).0;
            var (k2, ret) := Brk(k1, 0);
            && k1.proc.imageHi == hi && ret == k2.proc.brkStart == k2.proc.brkCurr
            && ret % 4096 == 0 && hi + 0x10_0000 <= ret < hi + 0x10_1000
  {
    hide LoadSegments, Brk, Clone, IsHighest, NoWrap;
    var k0 := k.(proc := k.proc.(brkStart := 0, brkCurr := 0));
    var (vm1, c) := Clone(k0.vm, k0.cr3);
    ImageHiExactly(k0.(vm := vm1), c, image, segs);
    LoadedProc(k0.(vm := vm1), c, image, segs);
    OneHighest(LoadSegments(k0.(vm := vm1), c, image, segs).0.proc.imageHi, hi, k.proc.imageHi, segs);
    HeapStarts(Exec(k, image, segs).0, 0);
  }

  lemma OneHighest(a: nat, b: nat, before: nat, segs: seq<Segment>)
    requires IsHighest(a, before, segs) && IsHighest(b, before, segs)
    ensures a == b
  {
  }

  lemma {:induction false} LoadedProc(k: Kernel, root: nat, image: Image, segs: seq<Segment>)
    ensures var p := LoadSegments(k, root, image, segs).0.proc;
            p == k.proc.(ledger := p.ledger, imageHi := p.imageHi)
    decreases |segs|
  {
    hide PlaceAll;
    if segs != [] {
      var init, seg := segs[..|segs| - 1], segs[|segs| - 1];
      LoadedProc(k, root, image, init);
      PlaceAllProc(LoadSegments(k, root, image, init).0, root, SegPages(image, seg, NumPages(seg)));
    }
  }

  // A page left after a successful exec means that no step ran out of memory.
  lemma ExecLeftover(k: Kernel, image: Image, segs: seq<Segment>)
    requires KernelOk(k) && ExecLegal(k, image, segs) && Loadable(k.vm, k.cr3, image, segs)
    requires Exec(k, image, segs).1 && Avail(Exec(k, image, segs).0.vm.pm) > 0
    ensures ExecDone(k, image, segs)
  {
    var k0 := k.(proc := k.proc.(brkStart := 0, brkCurr := 0));
    assert KernelOk(k0);
    CloneKernelOk(k0);
    var (vm1, c) := Clone(k0.vm, k0.cr3);
    CloneWalks(k0.vm, k0.cr3);
    ClonedLoadable(k0.vm, k0.cr3, image, segs);
    LeftoverStages(k0.(vm := vm1), c, image, segs);
  }

  lemma LeftoverStages(k: Kernel, c: nat, image: Image, segs: seq<Segment>)
    requires KernelOk(k) && IsRoot(k.vm, c) && Loadable(k.vm, c, image, segs) && Clear(k.vm.pm.mem, c, STACK_VPN)
    ensures var k2 := LoadSegments(k, c, image, segs).0;
            Avail(Place(k2, c, StackPage()).0.vm.pm) > 0 ==>
                LoadDone(k, c, image, segs) && PlaceDone(k2, c, StackPage())
  {
    hide LoadSegments, LoadDone, PlaceDone, Place, TablesOk, Walk, Kept, AllLoaded, Loadable;
    LoadableParts(k.vm, c, image, segs);
    LoadSegmentsResult(k, c, image, segs);
    LoadSegmentsKept(k, c, image, segs);
    var k2 := LoadSegments(k, c, image, segs).0;
    KeptClear(k, c, k2, STACK_VPN);
    PlaceCorrect(k2, c, StackPage());
  }

  ghost predicate HeldAfter(k: Kernel, c: nat, image: Image, seg: Segment, k1: Kernel) {
    && SegOk(image, seg) && seg.vaddr + seg.memsz <= k1.proc.imageHi
    && (SegClear(k.vm.pm.mem, c, seg) ==> Loaded(k1.vm, c, image, seg))
  }

  lemma LoadThenStack(k: Kernel, c: nat, image: Image, segs: seq<Segment>)
    requires KernelOk(k) && IsRoot(k.vm, c) && Loadable(k.vm, c, image, segs) && Clear(k.vm.pm.mem, c, STACK_VPN)
    requires forall i :: 0 <= i < |segs| ==> StackApart(segs[i])
    ensures var (k2, ok) := LoadSegments(k, c, image, segs);
            var (k3, ok3) := Place(k2, c, StackPage());
            && k2.proc == k.proc.(ledger := k2.proc.ledger, imageHi := k2.proc.imageHi)
            && k3.proc == k2.proc.(ledger := k3.proc.ledger)
            && (LoadDone(k, c, image, segs) && PlaceDone(k2, c, StackPage()) ==>
                  ok && ok3 && Holds(k3.vm, c, StackPage()) && forall i :: 0 <= i < |segs| ==>
                      HeldAfter(k, c, image, segs[i], k3))
  {
    hide LoadSegments, Place, PlaceDone, LoadDone, Loaded, TablesOk, Walk, SegMappable, SegClear, AllLoaded, Grows;
    LoadableParts(k.vm, c, image, segs);
    LoadSegmentsKept(k, c, image, segs);
    LoadSegmentsResult(k, c, image, segs);
    var (k2, ok) := LoadSegments(k, c, image, segs);
    KeptClear(k, c, k2, STACK_VPN);
    PlaceCorrect(k2, c, StackPage());
    var (k3, ok3) := Place(k2, c, StackPage());
    if LoadDone(k, c, image, segs) && PlaceDone(k2, c, StackPage()) {
      forall i | 0 <= i < |segs|
        ensures HeldAfter(k, c, image, segs[i], k3)
      {
        LoadedSegment(k, c, image, segs, k2, i);
        if SegClear(k.vm.pm.mem, c, segs[i]) { LoadedUnderPlace(k2, c, StackPage(), image, segs[i]); }
      }
    }
  }

  lemma LoadedSegment(k: Kernel, c: nat, image: Image, segs: seq<Segment>, k2: Kernel, i: nat)
    requires AllLoaded(k, c, image, segs, k2) && Loadable(k.vm, c, image, segs) && i < |segs|
    ensures SegOk(image, segs[i]) && segs[i].vaddr + segs[i].memsz <= k2.proc.imageHi
    ensures SegClear(k.vm.pm.mem, c, segs[i]) ==> Loaded(k2.vm, c, image, segs[i])
  {
    assert SegDone(k, c, image, segs[i], k2);
  }

  // ---- Heap growth ----

  // Growing the heap keeps every page held below the heap's start, exhausted or not.
  lemma BrkKeepsHeld(k: Kernel, addr: nat, q: Placement)
    requires KernelOk(k) && HeapOk(k) && BrkLegal(k, addr)
    requires PlacementOk(q) && Holds(k.vm, k.proc.pml4, q) && q.vpn < StartHeap(k.proc).brkStart / 4096
    ensures Holds(Brk(k, addr).0.vm, k.proc.pml4, q)
  {
    hide Brk, Holds, TablesOk, Walk, Mapped, BrkDone;
    BrkCorrect(k, addr);
    StartHeapOk(k);
    HeapStartBelow(k.(proc := StartHeap(k.proc)));
    BrkContents(k, addr, q.vpn);
    KernelTables(k);
    KernelTables(Brk(k, addr).0);
    HoldsKept(k.vm, Brk(k, addr).0.vm, k.proc.pml4, q);
  }

  // Over any run of break calls in which memory lasted: the heap's start, once chosen, stays, and what was
  // held below it stays held.
  lemma {:induction false} BrkRunKeepsHeld(k: Kernel, addrs: seq<nat>, q: Placement)
    requires KernelOk(k) && HeapOk(k) && BrkLegalRun(k, addrs) && BrkRunDone(k, addrs)
    requires PlacementOk(q) && Holds(k.vm, k.proc.pml4, q) && q.vpn < StartHeap(k.proc).brkStart / 4096
    ensures var k1 := BrkRun(k, addrs);
            && KernelOk(k1) && HeapOk(k1) && Holds(k1.vm, k1.proc.pml4, q)
            && k1.proc.pml4 == k.proc.pml4 && StartHeap(k1.proc).brkStart == StartHeap(k.proc).brkStart
  {
    hide Brk, BrkDone, Holds, KernelOk, HeapOk, BrkLegal, StartHeap, Walk;
    if addrs == [] {
    } else {
      var init, addr := addrs[..|addrs| - 1], addrs[|addrs| - 1];
      BrkRunKeepsHeld(k, init, q);
      var k1 := BrkRun(k, init);
      BrkKeepsHeld(k1, addr, q);
      BrkCorrect(k1, addr);
      StartKept(k1, addr);
    }
  }

  lemma StartKept(k: Kernel, addr: nat)
    requires KernelOk(k) && HeapOk(k) && BrkLegal(k, addr)
    ensures StartHeap(Brk(k, addr).0.proc).brkStart == StartHeap(k.proc).brkStart
  {
    hide Brk, BrkDone;
    BrkCorrect(k, addr);
    StartHeapOk(k);
  }

  // Load an image, then move the break any number of times: as long as memory lasts, every byte of every
  // segment that no entry stops the walk to still reads as the file says.
  lemma ImageSurvivesHeap(k: Kernel, image: Image, segs: seq<Segment>, addrs: seq<nat>, i: nat, b: nat)
    requires KernelOk(k) && ExecLegal(k, image, segs) && Loadable(k.vm, k.cr3, image, segs)
    requires (forall j :: 0 <= j < |segs| ==> StackApart(segs[j])) && ExecDone(k, image, segs)
    requires Exec(k, image, segs).0.proc.imageHi + 0x20_0000 <= BRK_LIMIT
    requires BrkLegalRun(Exec(k, image, segs).0, addrs) && BrkRunDone(Exec(k, image, segs).0, addrs)
    requires i < |segs| && b < segs[i].memsz && SegClear(k.vm.pm.mem, k.cr3, segs[i])
    ensures var k2 := BrkRun(Exec(k, image, segs).0, addrs);
            var a := GetPhys(k2.vm.pm.mem, k2.proc.pml4, segs[i].vaddr + b);
            a != 0 && ByteAt(k2.vm.pm.mem, a) == if b < segs[i].filesz then image[segs[i].offset + b] else 0
  {
    hide *;
    var k1 := Exec(k, image, segs).0;
    ExecHolds(k, image, segs);
    ExecOk(k, image, segs);
    FreshHeapOk(k1);
    HeldBelowHeap(k, k1, image, segs, i);
    var seg := segs[i];
    LoadedOverRun(k1, addrs, image, seg);
    BrkRunCovers(k1, addrs);
    ProcRoot(BrkRun(k1, addrs));
    LoadedByte(BrkRun(k1, addrs).vm, BrkRun(k1, addrs).proc.pml4, image, seg, b);
  }

  lemma ProcRoot(k: Kernel)
    requires KernelOk(k) && HeapOk(k)
    ensures TablesOk(k.vm) && k.proc.pml4 < NO_TABLE
  {
    assert k.proc.pml4 in k.vm.roles;
  }

  lemma LoadedOverRun(k: Kernel, addrs: seq<nat>, image: Image, seg: Segment)
    requires KernelOk(k) && HeapOk(k) && BrkLegalRun(k, addrs) && BrkRunDone(k, addrs)
    requires forall p: nat :: p < NumPages(seg) ==>
               && PlacementOk(SegPage(image, seg, p)) && Holds(k.vm, k.proc.pml4, SegPage(image, seg, p))
               && SegPage(image, seg, p).vpn < StartHeap(k.proc).brkStart / 4096
    ensures Loaded(BrkRun(k, addrs).vm, BrkRun(k, addrs).proc.pml4, image, seg)
  {
    hide KernelOk, HeapOk, BrkLegalRun, BrkRunDone, BrkRun, SegPage, Holds, StartHeap;
    forall p: nat | p < NumPages(seg)
      ensures Holds(BrkRun(k, addrs).vm, BrkRun(k, addrs).proc.pml4, SegPage(image, seg, p))
    {
      BrkRunKeepsHeld(k, addrs, SegPage(image, seg, p));
    }
  }

  lemma FreshHeapOk(k: Kernel)
    requires k.proc.pml4 != 0 && k.proc.brkStart == 0
    ensures HeapOk(k)
  {
  }

  // The heap starts above every page of the image.
  lemma HeldBelowHeap(k0: Kernel, k: Kernel, image: Image, segs: seq<Segment>, i: nat)
    requires ImageHeld(k0, k, k.proc.pml4, image, segs) && i < |segs| && k.proc.brkStart == 0
    requires k.proc.imageHi + 0x20_0000 <= BRK_LIMIT && SegClear(k0.vm.pm.mem, k0.cr3, segs[i])
    ensures SegOk(image, segs[i])
    ensures forall p: nat :: p < NumPages(segs[i]) ==>
              && PlacementOk(SegPage(image, segs[i], p)) && Holds(k.vm, k.proc.pml4, SegPage(image, segs[i], p))
              && SegPage(image, segs[i], p).vpn < StartHeap(k.proc).brkStart / 4096
  {
    hide SegClear, Holds;
    var seg := segs[i];
    assert SegHeld(k0, k, k.proc.pml4, image, seg);
    PagesInRange(image, seg);
    forall p: nat | p < NumPages(seg)
      ensures SegPage(image, seg, p).vpn < StartHeap(k.proc).brkStart / 4096
    {
      assert 4096 * (FirstPage(seg) + p) < seg.vaddr + seg.memsz + 4096;
    }
  }
}
