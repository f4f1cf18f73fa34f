// sys_brk: the process heap, and the _sbrk built on it.
module Heap {
  import opened Words
  import opened Pmm
  import opened PageTables
  import opened LowPages
  import opened AddressSpaces
  import opened Placing

  const WRAP: nat := 0x1_0000_0000_0000_0000
  const BRK_LIMIT: nat := 4096 * VPN_LIMIT - 4096

  // (x + 0xFFF) & ~0xFFF in 64-bit arithmetic.
  function RoundUp(x: nat): nat { (x + 4095) % WRAP / 4096 * 4096 }

  // One MiB above the image, or above 16 MiB when no image is known.
  function HeapBase(imageHi: nat): nat {
    if imageHi != 0 then RoundUp(imageHi + 0x10_0000) else RoundUp(0x100_0000 + 0x10_0000)
  }

  function StartHeap(p: Proc): Proc {
    if p.brkStart == 0 then p.(brkStart := HeapBase(p.imageHi), brkCurr := HeapBase(p.imageHi)) else p
  }

  // The pages that growing the break adds: zeroed, user-writable.
  function HeapPages(from: nat, top: nat): (qs: seq<Placement>)
    ensures forall i :: 0 <= i < |qs| ==> qs[i] == HeapPage(RoundUp(from) / 4096 + i)
  {
    var lo, hi := RoundUp(from) / 4096, RoundUp(top) / 4096;
    if lo < hi then seq(hi - lo, i requires 0 <= i < hi - lo => HeapPage(lo + i)) else []
  }

  function HeapPage(v: nat): (q: Placement)
    ensures q.flags == 7 && q.bytes == [] && q.vpn == v
  {
    Placement(v, [], 7)
  }

  function Target(p: Proc, addr: nat): nat { if addr < p.brkStart then p.brkStart else addr }

  function Brk(k: Kernel, addr: nat): (Kernel, nat) {
    var k0 := k.(proc := StartHeap(k.proc));
    if addr == 0 then (k0, k0.proc.brkCurr)
    else
      var top := Target(k0.proc, addr);
      var k1 := if top > k0.proc.brkCurr then PlaceAll(k0, k0.proc.pml4, HeapPages(k0.proc.brkCurr, top)).0 else k0;
      (k1.(proc := k1.proc.(brkCurr := top)), top)
  }

  // ---- The heap invariant ----

  // A page of the process's address space backed by a live data page.
  ghost predicate Mapped(vm: Vm, root: nat, v: nat) {
    var x := Walk(vm.pm.mem, root, 4, v);
    x.Page? && Live(vm.pm, FrameOf(x.entry)) && FrameOf(x.entry) !in vm.roles
  }

  ghost predicate HeapOk(k: Kernel) {
    var p := k.proc;
    && p.pml4 != 0
    && (p.brkStart != 0 ==>
          && p.brkStart % 4096 == 0 && p.brkStart <= p.brkCurr <= BRK_LIMIT
          && forall v :: p.brkStart / 4096 <= v < RoundUp(p.brkCurr) / 4096 ==> Mapped(k.vm, p.pml4, v))
  }

  // Page v is one that the call adds.
  predicate NewPage(p: Proc, addr: nat, v: nat) {
    RoundUp(StartHeap(p).brkCurr) / 4096 <= v < RoundUp(Target(StartHeap(p), addr)) / 4096
  }

  predicate BrkInRange(p: Proc, addr: nat) {
    (p.brkStart == 0 ==> 0 < HeapBase(p.imageHi) <= BRK_LIMIT) && addr <= BRK_LIMIT
  }

  // A call whose target stays in the address space and whose new pages no entry stops the walk to.
  ghost predicate BrkLegal(k: Kernel, addr: nat) {
    BrkInRange(k.proc, addr) && forall v :: NewPage(k.proc, addr, v) ==> Clear(k.vm.pm.mem, k.proc.pml4, v)
  }

  // The same with low pages of harmless blocks allowed.
  ghost predicate BrkSafe(k: Kernel, addr: nat) {
    BrkInRange(k.proc, addr) && forall v :: NewPage(k.proc, addr, v) ==> Mappable(k.vm, k.proc.pml4, v)
  }

  // The call never ran out of memory.
  function BrkDone(k: Kernel, addr: nat): bool {
    var k0 := k.(proc := StartHeap(k.proc));
    var top := Target(k0.proc, addr);
    addr == 0 || top <= k0.proc.brkCurr || PlaceAllDone(k0, k0.proc.pml4, HeapPages(k0.proc.brkCurr, top))
  }

  lemma RoundUpInRange(x: nat)
    requires x <= BRK_LIMIT
    ensures x <= RoundUp(x) < x + 4096 && RoundUp(x) % 4096 == 0 && RoundUp(x) / 4096 <= VPN_LIMIT - 1
    ensures RoundUp(x) / 4096 == (x + 4095) / 4096
  {
  }

  lemma HeapBaseAligned(hi: nat)
    ensures HeapBase(hi) % 4096 == 0
  {
  }

  lemma StartHeapOk(k: Kernel)
    requires KernelOk(k) && HeapOk(k) && (k.proc.brkStart == 0 ==> 0 < HeapBase(k.proc.imageHi) <= BRK_LIMIT)
    ensures var k0 := k.(proc := StartHeap(k.proc)); KernelOk(k0) && HeapOk(k0) && k0.proc.brkStart != 0
  {
    HeapBaseAligned(k.proc.imageHi);
    if k.proc.brkStart == 0 {
      RoundUpInRange(HeapBase(k.proc.imageHi));
    }
  }

  ghost predicate GrowSafe(k: Kernel, top: nat) {
    forall v :: RoundUp(k.proc.brkCurr) / 4096 <= v < RoundUp(top) / 4096 ==> Mappable(k.vm, k.proc.pml4, v)
  }

  ghost predicate GrowClear(k: Kernel, top: nat) {
    forall v :: RoundUp(k.proc.brkCurr) / 4096 <= v < RoundUp(top) / 4096 ==> Clear(k.vm.pm.mem, k.proc.pml4, v)
  }

  lemma HeapPlaceable(k: Kernel, top: nat)
    requires k.proc.brkCurr <= top <= BRK_LIMIT && GrowSafe(k, top)
    ensures var from, qs := k.proc.brkCurr, HeapPages(k.proc.brkCurr, top);
            && Placeable(k, k.proc.pml4, qs) && SafeToPlace(k.vm, k.proc.pml4, qs)
            && (forall q :: q in qs ==> RoundUp(from) / 4096 <= q.vpn < RoundUp(top) / 4096)
            && (forall v :: RoundUp(from) / 4096 <= v < RoundUp(top) / 4096 ==> HeapPage(v) in qs)
  {
    hide Mappable;
    var from := k.proc.brkCurr;
    RoundUpInRange(from);
    RoundUpInRange(top);
    var qs, lo := HeapPages(from, top), RoundUp(from) / 4096;
    forall q | q in qs
      ensures PlacementOk(q) && Mappable(k.vm, k.proc.pml4, q.vpn) && lo <= q.vpn < RoundUp(top) / 4096
    {
      var i :| 0 <= i < |qs| && qs[i] == q;
      assert q == HeapPage(lo + i);
    }
    forall v | lo <= v < RoundUp(top) / 4096
      ensures HeapPage(v) in qs
    {
      assert qs[v - lo] == HeapPage(v);
    }
  }

  lemma ClearIsSafe(k: Kernel, top: nat)
    requires GrowClear(k, top)
    ensures GrowSafe(k, top)
  {
    forall v | RoundUp(k.proc.brkCurr) / 4096 <= v < RoundUp(top) / 4096
      ensures Mappable(k.vm, k.proc.pml4, v)
    {
      assert Clear(k.vm.pm.mem, k.proc.pml4, v);
    }
  }

  // Growing the break: the pages added are zero and mapped; pages below keep translation and contents.
  lemma Grow(k: Kernel, top: nat)
    requires KernelOk(k) && HeapOk(k) && k.proc.brkStart != 0 && k.proc.brkCurr <= top <= BRK_LIMIT && GrowClear(k, top)
    ensures var qs := HeapPages(k.proc.brkCurr, top);
            var (k1, ok) := PlaceAll(k, k.proc.pml4, qs);
            && PlacedAll(k, k.proc.pml4, qs, k1, ok)
            && (PlaceAllDone(k, k.proc.pml4, qs) ==>
                  && (forall v :: RoundUp(k.proc.brkCurr) / 4096 <= v < RoundUp(top) / 4096 ==>
                      Holds(k1.vm, k.proc.pml4, HeapPage(v)))
                  && (forall v :: k.proc.brkStart / 4096 <= v < RoundUp(top) / 4096 ==> Mapped(k1.vm, k.proc.pml4, v)))
  {
    var root, from := k.proc.pml4, k.proc.brkCurr;
    var qs := HeapPages(from, top);
    ClearIsSafe(k, top);
    HeapPlaceable(k, top);
    PlaceAllCorrect(k, root, qs);
    var k1 := PlaceAll(k, root, qs).0;
    hide PlaceAll, TablesOk, PlaceAllDone;
    if PlaceAllDone(k, root, qs) {
      forall v | k.proc.brkStart / 4096 <= v < RoundUp(top) / 4096
        ensures Mapped(k1.vm, root, v)
        ensures RoundUp(from) / 4096 <= v ==> Holds(k1.vm, root, HeapPage(v))
      {
        if v < RoundUp(from) / 4096 {
          GrowKeeps(k, top, v);
        } else {
          assert HeapPage(v) in qs && Clear(k.vm.pm.mem, root, v);
        }
      }
      HeapStartBelow(k);
    }
  }

  lemma HeapStartBelow(k: Kernel)
    requires HeapOk(k) && k.proc.brkStart != 0
    ensures k.proc.brkStart / 4096 <= RoundUp(k.proc.brkCurr) / 4096
  {
    RoundUpInRange(k.proc.brkCurr);
  }

  // Below the old break nothing moves and no byte changes.
  lemma GrowKeeps(k: Kernel, top: nat, v: nat)
    requires KernelOk(k) && k.proc.pml4 != 0 && k.proc.brkCurr <= top <= BRK_LIMIT && v < RoundUp(k.proc.brkCurr) / 4096
    requires GrowSafe(k, top)
    ensures var vm1 := PlaceAll(k, k.proc.pml4, HeapPages(k.proc.brkCurr, top)).0.vm;
            && Walk(vm1.pm.mem, k.proc.pml4, 4, v) == Walk(k.vm.pm.mem, k.proc.pml4, 4, v)
            && (Mapped(k.vm, k.proc.pml4, v) ==>
                  Mapped(vm1, k.proc.pml4, v)
                    && SameFrame(k.vm.pm.mem, vm1.pm.mem, FrameOf(Walk(k.vm.pm.mem, k.proc.pml4, 4, v).entry)))
  {
    var root, from := k.proc.pml4, k.proc.brkCurr;
    HeapPlaceable(k, top);
    RoundUpInRange(from);
    PlaceAllWalk(k, root, HeapPages(from, top), v);
    PlaceAllCorrect(k, root, HeapPages(from, top));
  }

  // When growing ran out of memory some page of the range has the walk it had before.
  lemma GrowMissing(k: Kernel, top: nat)
    requires KernelOk(k) && k.proc.pml4 != 0 && k.proc.brkCurr <= top <= BRK_LIMIT && GrowSafe(k, top)
    requires !PlaceAllDone(k, k.proc.pml4, HeapPages(k.proc.brkCurr, top))
    ensures var vm1 := PlaceAll(k, k.proc.pml4, HeapPages(k.proc.brkCurr, top)).0.vm;
            exists v :: RoundUp(k.proc.brkCurr) / 4096 <= v < RoundUp(top) / 4096
                        && Walk(vm1.pm.mem, k.proc.pml4, 4, v) == Walk(k.vm.pm.mem, k.proc.pml4, 4, v)
  {
    hide PlaceAll, PlaceAllDone, Walk, HeapPages, KernelOk, GrowSafe, Placeable;
    var root, qs := k.proc.pml4, HeapPages(k.proc.brkCurr, top);
    HeapPlaceable(k, top);
    RootOfProc(k);
    PlaceAllMissing(k, root, qs);
    var q :| q in qs && Walk(PlaceAll(k, root, qs).0.vm.pm.mem, root, 4, q.vpn) == Walk(k.vm.pm.mem, root, 4, q.vpn);
  }

  lemma RootOfProc(k: Kernel)
    requires KernelOk(k) && k.proc.pml4 != 0
    ensures IsRoot(k.vm, k.proc.pml4)
  {
  }

  // ---- One call ----

  // The break ends at the target; if memory lasted the heap is covered and everything below the old break
  // reads as before.
  lemma BrkCorrect(k: Kernel, addr: nat)
    requires KernelOk(k) && HeapOk(k) && BrkLegal(k, addr)
    ensures var (k1, ret) := Brk(k, addr);
            && KernelOk(k1) && Grows(k.vm, k1.vm) && Avail(k1.vm.pm) <= Avail(k.vm.pm)
            && ret == k1.proc.brkCurr && k1.proc.pml4 == k.proc.pml4 && k1.proc.brkStart == StartHeap(k.proc).brkStart
            && k1.proc.brkCurr == (if addr == 0 then StartHeap(k.proc).brkCurr else Target(StartHeap(k.proc), addr))
            && (Avail(k1.vm.pm) > 0 ==> BrkDone(k, addr))
            && (BrkDone(k, addr) ==> HeapOk(k1))
  {
    StartHeapOk(k);
    var k0 := k.(proc := StartHeap(k.proc));
    hide PlaceAll, PlaceAllDone, TablesOk, Mapped, RoundUp, HeapPages;
    if addr != 0 {
      var top := Target(k0.proc, addr);
      if top > k0.proc.brkCurr {
        LegalGrowth(k, addr);
        Grow(k0, top);
        HeapOkAt(PlaceAll(k0, k0.proc.pml4, HeapPages(k0.proc.brkCurr, top)).0, top);
      } else {
        RoundUpMono(top, k0.proc.brkCurr);
        HeapOkAt(k0, top);
      }
    }
  }

  lemma LegalGrowth(k: Kernel, addr: nat)
    ensures var k0 := k.(proc := StartHeap(k.proc));
            && (BrkLegal(k, addr) ==> GrowClear(k0, Target(k0.proc, addr)))
            && (BrkSafe(k, addr) ==> GrowSafe(k0, Target(k0.proc, addr)))
  {
    var k0 := k.(proc := StartHeap(k.proc));
    assert forall v :: RoundUp(k0.proc.brkCurr) / 4096 <= v < RoundUp(Target(k0.proc, addr)) / 4096 ==>
        NewPage(k.proc, addr, v);
  }

  // Exactly: if none of the pages to be added was mapped before, the heap is covered after the call if and
  // only if the call never ran out of memory.
  lemma BrkCoversExactly(k: Kernel, addr: nat)
    requires KernelOk(k) && HeapOk(k) && BrkLegal(k, addr)
    requires forall v :: NewPage(k.proc, addr, v) ==> !Walk(k.vm.pm.mem, k.proc.pml4, 4, v).Page?
    ensures HeapOk(Brk(k, addr).0) <==> BrkDone(k, addr)
  {
    BrkCorrect(k, addr);
    if !BrkDone(k, addr) {
      StartHeapOk(k);
      var k0 := k.(proc := StartHeap(k.proc));
      var top := Target(k0.proc, addr);
      LegalGrowth(k, addr);
      ClearIsSafe(k0, top);
      GrowMissing(k0, top);
      var k1 := Brk(k, addr).0;
      var v :| RoundUp(k0.proc.brkCurr) / 4096 <= v < RoundUp(top) / 4096
               && Walk(k1.vm.pm.mem, k.proc.pml4, 4, v) == Walk(k.vm.pm.mem, k.proc.pml4, 4, v);
      assert NewPage(k.proc, addr, v);
      HeapStartBelow(k0);
      assert !Mapped(k1.vm, k.proc.pml4, v);
    }
  }

  lemma RoundUpMono(a: nat, b: nat)
    requires a <= b <= BRK_LIMIT
    ensures RoundUp(a) / 4096 <= RoundUp(b) / 4096
  {
    RoundUpInRange(a);
    RoundUpInRange(b);
  }

  lemma HeapOkAt(k: Kernel, top: nat)
    requires KernelOk(k) && k.proc.pml4 != 0 && k.proc.brkStart != 0 && k.proc.brkStart % 4096 == 0
    requires k.proc.brkStart <= top <= BRK_LIMIT
    ensures KernelOk(k.(proc := k.proc.(brkCurr := top)))
    ensures (forall v :: k.proc.brkStart / 4096 <= v < RoundUp(top) / 4096 ==> Mapped(k.vm, k.proc.pml4, v)) ==>
              HeapOk(k.(proc := k.proc.(brkCurr := top)))
  {
  }

  // Contents across one call: the pages below keep frame and bytes, and if memory lasted the ones added are
  // zero.
  lemma BrkContents(k: Kernel, addr: nat, v: nat)
    requires KernelOk(k) && HeapOk(k) && BrkLegal(k, addr)
    ensures var (k1, root) := (Brk(k, addr).0, k.proc.pml4);
            var from := RoundUp(StartHeap(k.proc).brkCurr) / 4096;
            && (v < from ==> Walk(k1.vm.pm.mem, root, 4, v) == Walk(k.vm.pm.mem, root, 4, v))
            && (v < from && Mapped(k.vm, root, v) ==>
                  Mapped(k1.vm, root, v)
                    && SameFrame(k.vm.pm.mem, k1.vm.pm.mem, FrameOf(Walk(k.vm.pm.mem, root, 4, v).entry)))
            && (BrkDone(k, addr) && from <= v < RoundUp(k1.proc.brkCurr) / 4096 ==> Holds(k1.vm, root, HeapPage(v)))
  {
    BrkCorrect(k, addr);
    StartHeapOk(k);
    var k0 := k.(proc := StartHeap(k.proc));
    var top := Target(k0.proc, addr);
    hide PlaceAll, PlaceAllDone, TablesOk, RoundUp, HeapPages, Holds;
    if addr != 0 && top > k0.proc.brkCurr {
      LegalGrowth(k, addr);
      ClearIsSafe(k0, top);
      Grow(k0, top);
      if v < RoundUp(k0.proc.brkCurr) / 4096 { GrowKeeps(k0, top, v); }
    } else if addr != 0 {
      RoundUpMono(top, k0.proc.brkCurr);
    }
  }

  // ---- Whole runs ----

  function BrkRun(k: Kernel, addrs: seq<nat>): Kernel {
    if addrs == [] then k else Brk(BrkRun(k, addrs[..|addrs| - 1]), addrs[|addrs| - 1]).0
  }

  ghost predicate BrkLegalRun(k: Kernel, addrs: seq<nat>) {
    addrs == [] || (BrkLegalRun(k, addrs[..|addrs| - 1])
      && BrkLegal(BrkRun(k, addrs[..|addrs| - 1]), addrs[|addrs| - 1]))
  }

  // No call of the run ran out of memory.
  function BrkRunDone(k: Kernel, addrs: seq<nat>): bool {
    addrs == [] || (BrkRunDone(k, addrs[..|addrs| - 1]) && BrkDone(BrkRun(k, addrs[..|addrs| - 1]), addrs[|addrs| - 1]))
  }

  // Over any run of calls in which memory lasted: the start is aligned and not above the break, and every
  // page from the start to the rounded break is mapped to a live data page.
  lemma {:induction false} BrkRunCovers(k: Kernel, addrs: seq<nat>)
    requires KernelOk(k) && HeapOk(k) && BrkLegalRun(k, addrs) && BrkRunDone(k, addrs)
    ensures KernelOk(BrkRun(k, addrs)) && HeapOk(BrkRun(k, addrs))
  {
    hide Brk, BrkDone, BrkLegal, KernelOk, HeapOk;
    if addrs == [] {
    } else {
      BrkRunCovers(k, addrs[..|addrs| - 1]);
      BrkCorrect(BrkRun(k, addrs[..|addrs| - 1]), addrs[|addrs| - 1]);
    }
  }

  // A page left at the end of the run is always enough.
  lemma {:induction false} BrkRunLasts(k: Kernel, addrs: seq<nat>)
    requires KernelOk(k) && HeapOk(k) && BrkLegalRun(k, addrs) && Avail(BrkRun(k, addrs).vm.pm) > 0
    ensures BrkRunDone(k, addrs) && Avail(k.vm.pm) > 0
  {
    hide Brk, BrkDone, BrkLegal, KernelOk, HeapOk;
    if addrs == [] {
    } else {
      var init, addr := addrs[..|addrs| - 1], addrs[|addrs| - 1];
      BrkAvail(BrkRun(k, init), addr);
      BrkRunLasts(k, init);
      BrkRunCovers(k, init);
      BrkCorrect(BrkRun(k, init), addr);
    }
  }

  lemma PlaceNoAlloc(k: Kernel, root: nat, q: Placement)
    requires Avail(k.vm.pm) <= 0
    ensures Place(k, root, q) == (k, false)
  {
  }

  lemma {:induction false} PlaceAllNoAlloc(k: Kernel, root: nat, qs: seq<Placement>)
    requires Avail(k.vm.pm) <= 0
    ensures PlaceAll(k, root, qs).0 == k
  {
    if qs == [] {
    } else {
      PlaceNoAlloc(k, root, qs[|qs| - 1]);
      hide Place;
      PlaceAllNoAlloc(k, root, qs[..|qs| - 1]);
    }
  }

  // No call frees a page: what is exhausted stays exhausted.
  lemma BrkAvail(k: Kernel, addr: nat)
    requires Avail(Brk(k, addr).0.vm.pm) > 0
    ensures Avail(k.vm.pm) > 0
  {
    var k0 := k.(proc := StartHeap(k.proc));
    if Avail(k.vm.pm) <= 0 && addr != 0 && Target(k0.proc, addr) > k0.proc.brkCurr {
      PlaceAllNoAlloc(k0, k0.proc.pml4, HeapPages(k0.proc.brkCurr, Target(k0.proc, addr)));
    }
  }

  // ---- Where the heap is ----

  // The first break call, whatever it asks for, puts the heap at the first page boundary at least one MiB above the
  // image, at 17 MiB when no image is known. The break is that start until something above is asked for.
  lemma HeapStarts(k: Kernel, addr: nat)
    requires k.proc.brkStart == 0 && k.proc.imageHi + 0x10_0FFF < 0x1_0000_0000_0000_0000
    ensures var (k1, ret) := Brk(k, addr);
            var hi, start := k.proc.imageHi, k1.proc.brkStart;
            && start % 4096 == 0
            && (if hi == 0 then start == 0x110_0000 else hi + 0x10_0000 <= start < hi + 0x10_1000)
            && ret == k1.proc.brkCurr == if addr < start then start else addr
  {
    hide PlaceAll, HeapPages, HeapBase;
    BaseIs(k.proc.imageHi);
    var k0 := k.(proc := StartHeap(k.proc));
    PlaceAllProc(k0, k0.proc.pml4, HeapPages(k0.proc.brkCurr, Target(k0.proc, addr)));
  }

  lemma BaseIs(hi: nat)
    requires hi + 0x10_0FFF < 0x1_0000_0000_0000_0000
    ensures HeapBase(hi) % 4096 == 0
    ensures if hi == 0 then HeapBase(hi) == 0x110_0000 else hi + 0x10_0000 <= HeapBase(hi) < hi + 0x10_1000
  {
  }

  // Later calls never move the start; the break becomes what is asked for, but not less than the start, and is
  // only returned when nothing is asked for.
  lemma HeapStays(k: Kernel, addr: nat)
    requires k.proc.brkStart != 0
    ensures var (k1, ret) := Brk(k, addr);
            && k1.proc.brkStart == k.proc.brkStart && ret == k1.proc.brkCurr
            && ret == (if addr == 0 then k.proc.brkCurr
                       else if addr < k.proc.brkStart then k.proc.brkStart else addr)
            && (addr <= k.proc.brkCurr && k.proc.brkStart <= k.proc.brkCurr ==>
                k1.vm == k.vm && k1.proc.ledger == k.proc.ledger)
  {
    hide PlaceAll, HeapPages, HeapBase;
    PlaceAllProc(k, k.proc.pml4, HeapPages(k.proc.brkCurr, Target(k.proc, addr)));
  }

  // ---- _sbrk ----

  function Sbrk(k: Kernel, incr: int): (Kernel, nat) {
    var (k1, cur) := Brk(k, 0);
    (Brk(k1, (cur + incr) % WRAP).0, cur)
  }

  // One positive _sbrk call: the block starts at the old break and ends at the new one.
  ghost predicate SbrkLegal(k: Kernel, a: nat) {
    BrkLegal(k, 0) && BrkLegal(Brk(k, 0).0, Brk(k, 0).0.proc.brkCurr + a)
  }

  function SbrkDone(k: Kernel, a: nat): bool {
    BrkDone(Brk(k, 0).0, Brk(k, 0).0.proc.brkCurr + a)
  }

  lemma SbrkOne(k: Kernel, a: nat)
    requires KernelOk(k) && HeapOk(k) && a > 0 && SbrkLegal(k, a) && SbrkDone(k, a)
    ensures var (k1, p) := Sbrk(k, a);
            && KernelOk(k1) && HeapOk(k1)
            && p == StartHeap(k.proc).brkCurr && k1.proc.brkCurr == p + a
            && 0 < k1.proc.brkStart <= p && k1.proc.pml4 == k.proc.pml4
            && k1.proc.brkStart == StartHeap(k.proc).brkStart
  {
    hide *;
    var k0 := Brk(k, 0).0;
    SbrkFacts(k, a);
    SbrkCall(k, a);
    SbrkQuery(k);
    SbrkRaise(k0, a);
  }

  // A negative request returns the old break too and lowers it, down to the heap's start; no page is given back.
  lemma SbrkLowers(k: Kernel, d: nat)
    requires 0 < k.proc.brkStart <= k.proc.brkCurr < WRAP && d < k.proc.brkCurr
    ensures var (k1, p) := Sbrk(k, -(d as int));
            && p == k.proc.brkCurr && k1.vm == k.vm
            && k1.proc == k.proc.(brkCurr := if p - d < k.proc.brkStart then k.proc.brkStart else p - d)
  {
    hide PlaceAll, HeapPages;
  }

  lemma SbrkQuery(k: Kernel)
    requires KernelOk(k) && HeapOk(k) && BrkLegal(k, 0)
    ensures var k0 := Brk(k, 0).0;
            && KernelOk(k0) && HeapOk(k0) && k0.proc.brkStart != 0 && k0.proc.pml4 == k.proc.pml4
            && k0.proc.brkCurr == StartHeap(k.proc).brkCurr && k0.proc.brkStart == StartHeap(k.proc).brkStart
  {
    StartHeapOk(k);
    hide *;
    BrkCorrect(k, 0);
    QueryDone(k);
  }

  lemma QueryDone(k: Kernel)
    ensures BrkDone(k, 0)
  {
  }

  lemma SbrkRaise(k: Kernel, a: nat)
    requires KernelOk(k) && HeapOk(k) && k.proc.brkStart != 0 && a > 0
    requires BrkLegal(k, k.proc.brkCurr + a) && BrkDone(k, k.proc.brkCurr + a)
    ensures var k1 := Brk(k, k.proc.brkCurr + a).0;
            && KernelOk(k1) && HeapOk(k1) && k1.proc.brkCurr == k.proc.brkCurr + a
            && 0 < k1.proc.brkStart == k.proc.brkStart <= k.proc.brkCurr && k1.proc.pml4 == k.proc.pml4
  {
    hide *;
    BrkCorrect(k, k.proc.brkCurr + a);
    HeapBounds(k, k.proc.brkCurr + a);
  }

  lemma SbrkFacts(k: Kernel, a: nat)
    requires SbrkLegal(k, a)
    ensures BrkLegal(k, 0) && BrkLegal(Brk(k, 0).0, Brk(k, 0).0.proc.brkCurr + a)
    ensures SbrkDone(k, a) <==> BrkDone(Brk(k, 0).0, Brk(k, 0).0.proc.brkCurr + a)
  {
    hide BrkLegal, Brk, BrkDone;
  }

  lemma HeapBounds(k: Kernel, top: nat)
    requires HeapOk(k) && k.proc.brkStart != 0
    ensures 0 < k.proc.brkStart <= k.proc.brkCurr && StartHeap(k.proc) == k.proc
    ensures k.proc.brkCurr <= top ==> Target(k.proc, top) == top
  {
  }

  lemma HeapCovers(k: Kernel, virt: nat)
    requires HeapOk(k) && k.proc.brkStart != 0 && k.proc.brkStart <= virt < k.proc.brkCurr
    ensures Mapped(k.vm, k.proc.pml4, virt / 4096)
  {
    RoundUpInRange(k.proc.brkCurr);
  }

  // Two successive positive _sbrk calls return adjacent blocks, every page of both mapped.
  lemma SbrkBlocks(k: Kernel, a: nat, b: nat)
    requires KernelOk(k) && HeapOk(k) && a > 0 && b > 0 && SbrkLegal(k, a) && SbrkLegal(Sbrk(k, a).0, b)
    requires SbrkDone(k, a) && SbrkDone(Sbrk(k, a).0, b)
    ensures var (k1, p) := Sbrk(k, a);
            var (k2, q) := Sbrk(k1, b);
            && q == p + a && k2.proc.brkCurr == q + b && k2.proc.brkStart <= p
            && forall virt: nat :: p <= virt < q + b ==> Mapped(k2.vm, k2.proc.pml4, virt / 4096)
  {
    hide *;
    var (k1, p) := Sbrk(k, a);
    var (k2, q) := Sbrk(k1, b);
    SbrkOne(k, a);
    SbrkOne(k1, b);
    HeapBounds(k1, 0);
    forall virt: nat | p <= virt < q + b
      ensures Mapped(k2.vm, k2.proc.pml4, virt / 4096)
    {
      HeapCovers(k2, virt);
    }
  }

  // A positive request is one query and one call above the break.
  lemma SbrkCall(k: Kernel, a: nat)
    requires var k0 := Brk(k, 0).0; BrkLegal(k0, k0.proc.brkCurr + a)
    ensures var k0 := Brk(k, 0).0; Sbrk(k, a) == (Brk(k0, k0.proc.brkCurr + a).0, k0.proc.brkCurr)
  {
    QueryBreak(k);
    hide Brk, NewPage, Clear;
  }

  lemma QueryBreak(k: Kernel)
    ensures Brk(k, 0).1 == Brk(k, 0).0.proc.brkCurr
  {
  }
}
