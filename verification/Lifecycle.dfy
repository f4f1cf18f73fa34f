// A process's life: sys_execve builds an address space, sys_brk grows it, sys_exit releases the ledger.
module Lifecycle {
  import opened Words
  import opened Pmm
  import opened PageTables
  import opened LowPages
  import opened AddressSpaces
  import opened Placing
  import opened Loader
  import opened Heap

  // The page below USER_STACK_TOP.
  const STACK_VPN: nat := 0x7FF_FFFF_0000 / 4096 - 1

  function StackPage(): (q: Placement)
    ensures q.flags == 7 && q.bytes == [] && q.vpn == STACK_VPN
  {
    Placement(STACK_VPN, [], 7)
  }

  function SetRoot(p: Proc, c: nat): Proc { Record(p.(pml4 := c), c) }

  // sys_execve for an image already inspected, up to the point where the new root is the process's.
  function Exec(k: Kernel, image: Image, segs: seq<Segment>): (Kernel, bool) {
    var k0 := k.(proc := k.proc.(brkStart := 0, brkCurr := 0));
    var (vm1, c) := Clone(k0.vm, k0.cr3);
    if c == 0 then (k0, false)
    else
      var (k2, ok) := LoadSegments(k0.(vm := vm1), c, image, segs);
      if !ok then (k2, false)
      else
        var (k3, ok3) := Place(k2, c, StackPage());
        if !ok3 then (k2, false) else (k3.(proc := SetRoot(k3.proc, c)), true)
  }

  // Then the page of the current kernel stack is mapped onto itself in the process's root ...
  function MapStack(k: Kernel, kstack: Frame): Kernel {
    k.(vm := Map(k.vm, k.proc.pml4, kstack, LeafEntry(4096 * (kstack as int), 3)).0)
  }

  // ... and the processor enters user mode on that root.
  function EnterUser(k: Kernel): Kernel { k.(cr3 := k.proc.pml4) }

  // pmm_free_page over the ledger, first entry first.
  function ReleaseAll(vm: Vm, pages: seq<nat>): Vm {
    if pages == [] then vm else Release(ReleaseAll(vm, pages[..|pages| - 1]), pages[|pages| - 1])
  }

  // sys_exit: nothing is released unless a root is set.
  function Exit(k: Kernel): Kernel {
    if k.proc.pml4 == 0 then k
    else k.(vm := ReleaseAll(k.vm, k.proc.ledger), cr3 := k.kernelRoot, proc := k.proc.(ledger := [], pml4 := 0))
  }

  // ---- sys_execve ----

  // The segments lie inside the image and the address space, and their pages and the stack's are mappable.
  ghost predicate ExecLegal(k: Kernel, image: Image, segs: seq<Segment>) {
    SegsOk(k.vm, k.cr3, image, segs) && Clear(k.vm.pm.mem, k.cr3, STACK_VPN)
  }

  // No step ran out of memory.
  function ExecDone(k: Kernel, image: Image, segs: seq<Segment>): bool {
    var k0 := k.(proc := k.proc.(brkStart := 0, brkCurr := 0));
    var (vm1, c) := Clone(k0.vm, k0.cr3);
    var k1 := k0.(vm := vm1);
    c != 0 && LoadDone(k1, c, image, segs) && PlaceDone(LoadSegments(k1, c, image, segs).0, c, StackPage())
  }

  lemma CloneWalks(vm: Vm, root: nat)
    requires TablesOk(vm) && IsRoot(vm, root) && Clone(vm, root).1 != 0
    ensures forall v: nat :: v < VPN_LIMIT ==>
              Walk(Clone(vm, root).0.pm.mem, Clone(vm, root).1, 4, v) == Walk(vm.pm.mem, root, 4, v)
  {
    forall v: nat | v < VPN_LIMIT
      ensures Walk(Clone(vm, root).0.pm.mem, Clone(vm, root).1, 4, v) == Walk(vm.pm.mem, root, 4, v)
    {
      CloneWalk(vm, root, root, v);
    }
  }

  // The clone maps what the original maps.
  lemma CloneMappable(vm: Vm, root: nat, v: nat)
    requires TablesOk(vm) && IsRoot(vm, root) && Clone(vm, root).1 != 0 && v < VPN_LIMIT && Mappable(vm, root, v)
    ensures var (vm1, c) := Clone(vm, root); Mappable(vm1, c, v)
  {
    CloneCorrect(vm, root);
    var (vm1, c) := Clone(vm, root);
    CloneWalk(vm, root, root, v);
    if LowSpot(vm, root, v) {
      LowSpotStays(vm, vm1, root, v);
      assert EntryOk(vm.pm.mem, vm.roles, root, 0);
      assert SameFrame(vm.pm.mem, vm1.pm.mem, root);
    }
  }

  lemma ClonedSegsOk(vm: Vm, root: nat, image: Image, segs: seq<Segment>)
    requires TablesOk(vm) && IsRoot(vm, root) && Clone(vm, root).1 != 0 && SegsOk(vm, root, image, segs)
    ensures SegsOk(Clone(vm, root).0, Clone(vm, root).1, image, segs)
  {
    hide Clone, TablesOk, Mappable;
    var (vm1, c) := Clone(vm, root);
    forall seg | seg in segs
      ensures SegOk(image, seg) && SegMappable(vm1, c, seg)
    {
      PagesInRange(image, seg);
      assert SegMappable(vm, root, seg);
      forall v: nat | InSeg(seg, v)
        ensures Mappable(vm1, c, v)
      {
        CloneMappable(vm, root, v);
      }
    }
  }

  lemma CloneKernelOk(k: Kernel)
    requires KernelOk(k)
    ensures var (vm1, c) := Clone(k.vm, k.cr3);
            c != 0 ==> KernelOk(k.(vm := vm1)) && IsRoot(vm1, c) && Releasable(vm1, c)
                       && c !in k.proc.ledger && c != k.kernelRoot
  {
    CloneCorrect(k.vm, k.cr3);
    var (vm1, c) := Clone(k.vm, k.cr3);
    if c != 0 {
      GrowsLedger(k.vm, vm1, k.proc.ledger);
    }
  }

  lemma AdoptOk(k: Kernel, c: nat)
    requires KernelOk(k) && IsRoot(k.vm, c) && Releasable(k.vm, c) && c !in k.proc.ledger && c != k.kernelRoot
    ensures KernelOk(k.(proc := SetRoot(k.proc, c)))
  {
  }

  // Every outcome of sys_execve, failures included, keeps the kernel invariant.
  lemma ExecOk(k: Kernel, image: Image, segs: seq<Segment>)
    requires KernelOk(k) && ExecLegal(k, image, segs)
    ensures KernelOk(Exec(k, image, segs).0)
  {
    var k0 := k.(proc := k.proc.(brkStart := 0, brkCurr := 0));
    assert KernelOk(k0);
    CloneKernelOk(k0);
    var (vm1, c) := Clone(k0.vm, k0.cr3);
    if c != 0 {
      CloneWalks(k0.vm, k0.cr3);
      ClonedSegsOk(k0.vm, k0.cr3, image, segs);
      ExecLoad(k0.(vm := vm1), c, image, segs);
    }
  }

  // Whatever its outcome, sys_execve only adds tables and live pages.
  lemma ExecGrows(k: Kernel, image: Image, segs: seq<Segment>)
    requires KernelOk(k) && ExecLegal(k, image, segs)
    ensures Grows(k.vm, Exec(k, image, segs).0.vm)
  {
    hide Kept, Place, LoadSegments, SegsOk, Grows;
    var k0 := k.(proc := k.proc.(brkStart := 0, brkCurr := 0));
    FreshKernel(k);
    CloneKernelOk(k0);
    KernelTables(k0);
    GrowsSelf(k0.vm);
    CloneSpace(k0.vm, k0.cr3);
    var (vm1, c) := Clone(k0.vm, k0.cr3);
    if c != 0 {
      var kc := k0.(vm := vm1);
      CloneWalks(k0.vm, k0.cr3);
      ClonedSegsOk(k0.vm, k0.cr3, image, segs);
      ExecLoad(kc, c, image, segs);
      var (k2, ok) := LoadSegments(kc, c, image, segs);
      KeptKernel(kc, c, k2);
      GrowsTrans(k.vm, vm1, k2.vm);
      if ok {
        KeptKernel(kc, c, Place(k2, c, StackPage()).0);
        GrowsTrans(k.vm, vm1, Place(k2, c, StackPage()).0.vm);
      }
    }
  }

  lemma CloneSpace(vm: Vm, root: nat)
    requires TablesOk(vm) && IsRoot(vm, root)
    ensures var (vm1, c) := Clone(vm, root); if c == 0 then vm1 == vm else Grows(vm, vm1)
  {
    CloneCorrect(vm, root);
  }

  lemma FreshKernel(k: Kernel)
    requires KernelOk(k)
    ensures KernelOk(k.(proc := k.proc.(brkStart := 0, brkCurr := 0)))
  {
  }

  lemma ExecLoad(k: Kernel, c: nat, image: Image, segs: seq<Segment>)
    requires KernelOk(k) && IsRoot(k.vm, c) && Releasable(k.vm, c) && c !in k.proc.ledger && c != k.kernelRoot
    requires SegsOk(k.vm, c, image, segs) && Clear(k.vm.pm.mem, c, STACK_VPN)
    ensures var (k2, ok) := LoadSegments(k, c, image, segs);
            && Kept(k, c, k2)
            && (ok ==> var (k3, ok3) := Place(k2, c, StackPage());
                  && Kept(k, c, k3) && (ok3 ==> KernelOk(k3.(proc := SetRoot(k3.proc, c)))))
  {
    hide LoadSegments, SegsOk, Place, Walk;
    LoadSegmentsKept(k, c, image, segs);
    var (k2, ok) := LoadSegments(k, c, image, segs);
    if ok {
      KeptClear(k, c, k2, STACK_VPN);
      PlaceKept(k2, c, StackPage());
      var (k3, ok3) := Place(k2, c, StackPage());
      KeptTrans(k, c, k2, k3);
      AdoptOk(k3, c);
    }
  }

  // Mapping the kernel stack's page keeps the invariant, whether the walk gets there or meets a large page.
  lemma MapStackOk(k: Kernel, kstack: Frame)
    requires KernelOk(k) && k.proc.pml4 != 0 && Mappable(k.vm, k.proc.pml4, kstack)
    ensures KernelOk(MapStack(k, kstack)) && Grows(k.vm, MapStack(k, kstack).vm)
  {
    hide TablesOk, Map, Mappable;
    KernelTables(k);
    MapCorrect(k.vm, k.proc.pml4, kstack, LeafEntry(4096 * (kstack as int), 3));
    GrowsLedger(k.vm, MapStack(k, kstack).vm, k.proc.ledger);
  }

  // Where the stack lies below a large page, as every page of this kernel does, its page is not mapped: one
  // word is written, into the first page of the stack's 2 MiB block.
  lemma MapStackWrites(k: Kernel, kstack: Frame)
    requires IdentityRoot(k.vm.pm.mem, k.proc.pml4)
    ensures var mem := k.vm.pm.mem;
            && Walk(mem, k.proc.pml4, 4, kstack).Opaque?
            && MapStack(k, kstack) == k.(vm := k.vm.(pm := k.vm.pm.(
                 mem := Store(mem, Block(kstack), kstack % 512, LeafEntry(4096 * (kstack as int), 3)))))
  {
    LowWalk(k.vm.pm.mem, k.proc.pml4, kstack);
    LowMap(k.vm, k.proc.pml4, kstack, LeafEntry(4096 * (kstack as int), 3));
  }

  lemma KernelTables(k: Kernel)
    requires KernelOk(k)
    ensures TablesOk(k.vm) && IsRoot(k.vm, k.cr3) && IsRoot(k.vm, k.kernelRoot)
    ensures k.proc.pml4 != 0 ==> IsRoot(k.vm, k.proc.pml4)
  {
  }

  // ---- sys_exit ----

  // Releasing distinct releasable pages: each is freed exactly once, in order, and walks through any
  // table that is not itself released stay as they were.
  lemma {:induction false} ReleaseAllCorrect(vm: Vm, pages: seq<nat>)
    requires TablesOk(vm) && (forall f :: f in pages ==> Releasable(vm, f))
    requires forall i, j :: 0 <= i < j < |pages| ==> pages[i] != pages[j]
    ensures var vm1 := ReleaseAll(vm, pages);
            && TablesOk(vm1) && |vm1.pm.free| == |vm.pm.free| + |pages| && vm1.pm.start == vm.pm.start
            && (forall g: nat :: Live(vm1.pm, g) <==> Live(vm.pm, g) && g !in pages)
            && (forall g: nat :: g in vm1.roles <==> g in vm.roles && g !in pages)
            && (forall g: nat :: g in vm1.roles ==> vm1.roles[g] == vm.roles[g])
            && (forall g: nat :: g !in pages ==> SameFrame(vm.pm.mem, vm1.pm.mem, g))
  {
    if pages == [] {
    } else {
      var init, f := pages[..|pages| - 1], pages[|pages| - 1];
      assert pages == init + [f];
      assert forall g :: g in pages <==> g in init || g == f;
      ReleaseAllCorrect(vm, init);
      var vm1 := ReleaseAll(vm, init);
      assert f in pages && Releasable(vm1, f);
      ReleaseCorrect(vm1, f);
      forall g: nat | g !in pages
        ensures SameFrame(vm.pm.mem, Release(vm1, f).pm.mem, g)
      {
        assert SameFrame(vm.pm.mem, vm1.pm.mem, g) && SameFrame(vm1.pm.mem, Release(vm1, f).pm.mem, g);
      }
    }
  }

  lemma {:induction false} ReleaseAllWalk(vm: Vm, pages: seq<nat>, g: nat, m: nat, v: nat)
    requires TablesOk(vm) && (forall f :: f in pages ==> Releasable(vm, f))
    requires forall i, j :: 0 <= i < j < |pages| ==> pages[i] != pages[j]
    requires TableFor(vm.roles, g, m, v) && g !in pages
    ensures Walk(ReleaseAll(vm, pages).pm.mem, g, m, v) == Walk(vm.pm.mem, g, m, v)
  {
    if pages == [] {
    } else {
      var init, f := pages[..|pages| - 1], pages[|pages| - 1];
      assert pages == init + [f];
      ReleaseAllWalk(vm, init, g, m, v);
      ReleaseAllCorrect(vm, init);
      assert f in pages;
      ReleaseWalk(ReleaseAll(vm, init), f, g, m, v);
    }
  }

  // Exit frees each recorded page exactly once, empties the ledger, runs on the kernel root again, and
  // changes no translation of the kernel root.
  lemma ExitReleases(k: Kernel, v: nat)
    requires KernelOk(k) && k.proc.pml4 != 0 && v < VPN_LIMIT
    ensures var k1 := Exit(k);
            && KernelOk(k1) && k1.proc.ledger == [] && k1.cr3 == k.kernelRoot && k1.proc.pml4 == 0
            && |k1.vm.pm.free| == |k.vm.pm.free| + |k.proc.ledger|
            && (forall g: nat :: Live(k1.vm.pm, g) <==> Live(k.vm.pm, g) && g !in k.proc.ledger)
            && Walk(k1.vm.pm.mem, k1.cr3, 4, v) == Walk(k.vm.pm.mem, k.kernelRoot, 4, v)
  {
    ReleaseAllCorrect(k.vm, k.proc.ledger);
    RootTable(k.vm, k.kernelRoot, v);
    ReleaseAllWalk(k.vm, k.proc.ledger, k.kernelRoot, 4, v);
  }

  lemma {:induction false} ReleaseAllOrder(vm: Vm, pages: seq<nat>)
    requires forall f :: f in pages ==> 0 < f < FRAMES
    ensures var free := ReleaseAll(vm, pages).pm.free;
            && |free| == |pages| + |vm.pm.free| && free[|pages|..] == vm.pm.free
            && forall i :: 0 <= i < |pages| ==> free[i] == pages[|pages| - 1 - i]
    decreases |pages|
  {
    if pages == [] {
    } else {
      hide ReleaseAll;
      var init, f := pages[..|pages| - 1], pages[|pages| - 1];
      assert f in pages && forall g :: g in init ==> g in pages;
      ReleaseAllOrder(vm, init);
      ReleaseAllFront(vm, pages);
      FrontOf(ReleaseAll(vm, init).pm.free, init, f);
    }
  }

  lemma ReleaseAllFront(vm: Vm, pages: seq<nat>)
    requires pages != [] && 0 < pages[|pages| - 1] < FRAMES
    ensures ReleaseAll(vm, pages).pm.free == [pages[|pages| - 1]] + ReleaseAll(vm, pages[..|pages| - 1]).pm.free
  {
  }

  lemma FrontOf(free: seq<Frame>, init: seq<nat>, f: Frame)
    requires |init| <= |free| && forall i :: 0 <= i < |init| ==> free[i] == init[|init| - 1 - i]
    ensures ([f] + free)[|init| + 1..] == free[|init|..]
    ensures forall i :: 0 <= i < |init| + 1 ==> ([f] + free)[i] == (init + [f])[|init| - i]
  {
  }

  // Exit puts the ledger's pages in front of the free list, the page recorded last first.
  lemma ExitOrder(k: Kernel)
    requires KernelOk(k) && k.proc.pml4 != 0
    ensures var free, ledger := Exit(k).vm.pm.free, k.proc.ledger;
            && |free| == |ledger| + |k.vm.pm.free| && free[|ledger|..] == k.vm.pm.free
            && forall i :: 0 <= i < |ledger| ==> free[i] == ledger[|ledger| - 1 - i]
  {
    hide ReleaseAll;
    ReleaseAllOrder(k.vm, k.proc.ledger);
  }

  // While the ledger is being released CR3 may still point at a released root. Exactly: a page of slot 0 is
  // still translated as before if and only if the running root was not released or did not translate it.
  // Otherwise the free-list link has overwritten the root's entry.
  lemma ReleasedRootExactly(k: Kernel, v: nat)
    requires KernelOk(k) && v < VPN_LIMIT && Idx(v, 4) == 0
    ensures var x := Walk(k.vm.pm.mem, k.cr3, 4, v);
            Walk(ReleaseAll(k.vm, k.proc.ledger).pm.mem, k.cr3, 4, v) == x <==> k.cr3 !in k.proc.ledger || x == Absent
  {
    hide Walk, ReleaseAll;
    RootTable(k.vm, k.cr3, v);
    if k.cr3 in k.proc.ledger {
      ReleasedRootLosesSlotZero(k, v);
    } else {
      ReleaseAllWalk(k.vm, k.proc.ledger, k.cr3, 4, v);
    }
  }

  lemma ReleasedRootLosesSlotZero(k: Kernel, v: nat)
    requires KernelOk(k) && k.cr3 in k.proc.ledger && Idx(v, 4) == 0
    ensures Walk(ReleaseAll(k.vm, k.proc.ledger).pm.mem, k.cr3, 4, v) == Absent
  {
    ReleaseAllCorrect(k.vm, k.proc.ledger);
    ReleaseAllCur(k.vm, k.proc.ledger);
    var vm1 := ReleaseAll(k.vm, k.proc.ledger);
    assert Live(k.vm.pm, k.cr3) && !Live(vm1.pm, k.cr3);
    hide ReleaseAll, WellFormed;
    ListedWordAbsent(vm1.pm, k.cr3);
  }

  // The first word of a listed page is a page address or 0: never a present entry.
  lemma ListedWordAbsent(pm: Pmm.State, f: nat)
    requires PagesOk(pm) && f in pm.free
    ensures !Present(Cell(pm.mem, f, 0))
  {
    hide Link, Cell;
    var i :| 0 <= i < |pm.free| && pm.free[i] == f;
    assert Cell(pm.mem, pm.free[i], 0) == Link(pm.free, i + 1);
    hide PagesOk;
    LinkEven(pm.free, i + 1);
  }

  lemma LinkEven(free: seq<Frame>, i: nat)
    ensures Link(free, i) % 2 == 0
  {
    if i < |free| {
      Even(2048 * (free[i] as int));
    }
  }

  lemma Even(y: int)
    ensures 2 * y % 2 == 0
  {
  }

  lemma {:induction false} ReleaseAllCur(vm: Vm, pages: seq<nat>)
    ensures ReleaseAll(vm, pages).pm.cur == vm.pm.cur
  {
    if pages != [] { ReleaseAllCur(vm, pages[..|pages| - 1]); }
  }

  // ---- Whole runs ----

  datatype ProcOp =
    | ExecOp(image: Image, segs: seq<Segment>)
    | StackOp(kstack: Frame)
    | EnterOp
    | BrkOp(addr: nat)
    | ExitOp

  function ProcStep(k: Kernel, op: ProcOp): Kernel {
    match op
    case ExecOp(image, segs) => Exec(k, image, segs).0
    case StackOp(kstack) => MapStack(k, kstack)
    case EnterOp => EnterUser(k)
    case BrkOp(addr) => Brk(k, addr).0
    case ExitOp => Exit(k)
  }

  // All but exec and exit need a process; every page to be mapped is mappable.
  ghost predicate ProcLegal(k: Kernel, op: ProcOp) {
    match op
    case ExecOp(image, segs) => ExecLegal(k, image, segs)
    case StackOp(kstack) => k.proc.pml4 != 0 && Mappable(k.vm, k.proc.pml4, kstack)
    case EnterOp => k.proc.pml4 != 0
    case BrkOp(addr) => k.proc.pml4 != 0 && BrkSafe(k, addr) && StartHeap(k.proc).brkCurr <= BRK_LIMIT
      && StartHeap(k.proc).brkStart <= BRK_LIMIT
    case ExitOp => true
  }

  function ProcRun(k: Kernel, ops: seq<ProcOp>): Kernel {
    if ops == [] then k else ProcStep(ProcRun(k, ops[..|ops| - 1]), ops[|ops| - 1])
  }

  ghost predicate ProcLegalRun(k: Kernel, ops: seq<ProcOp>) {
    ops == [] || (ProcLegalRun(k, ops[..|ops| - 1]) && ProcLegal(ProcRun(k, ops[..|ops| - 1]), ops[|ops| - 1]))
  }

  // Any break call, exhausted or not, keeps the kernel invariant.
  lemma BrkKeepsKernel(k: Kernel, addr: nat)
    requires KernelOk(k) && ProcLegal(k, BrkOp(addr))
    ensures KernelOk(Brk(k, addr).0)
  {
    hide PlaceAll, RoundUp, HeapPages, Mappable, TablesOk;
    var k0 := k.(proc := StartHeap(k.proc));
    assert KernelOk(k0);
    if addr != 0 {
      var top := Target(k0.proc, addr);
      if top > k0.proc.brkCurr {
        LegalGrowth(k, addr);
        HeapPlaceable(k0, top);
        PlaceAllKept(k0, k0.proc.pml4, HeapPages(k0.proc.brkCurr, top));
      }
    }
  }

  lemma ExitKeepsKernel(k: Kernel)
    requires KernelOk(k)
    ensures KernelOk(Exit(k))
  {
    if k.proc.pml4 != 0 { ExitReleases(k, 0); }
  }

  lemma StepKeepsKernel(k: Kernel, op: ProcOp)
    requires KernelOk(k) && ProcLegal(k, op)
    ensures KernelOk(ProcStep(k, op))
  {
    match op
    case ExecOp(image, segs) => ExecOk(k, image, segs);
    case StackOp(kstack) => MapStackOk(k, kstack);
    case EnterOp =>
    case BrkOp(addr) => BrkKeepsKernel(k, addr);
    case ExitOp => ExitKeepsKernel(k);
  }

  // Over every run of exec, stack map, enter, brk and exit, successful or failing, the recorded pages are
  // distinct, live and no interior table: the free loop of the next exit can never free a page twice.
  lemma {:induction false} RunKeepsKernel(k: Kernel, ops: seq<ProcOp>)
    requires KernelOk(k) && ProcLegalRun(k, ops)
    ensures KernelOk(ProcRun(k, ops))
  {
    hide KernelOk, ProcLegal, ProcStep;
    if ops == [] {
    } else {
      RunKeepsKernel(k, ops[..|ops| - 1]);
      StepKeepsKernel(ProcRun(k, ops[..|ops| - 1]), ops[|ops| - 1]);
    }
  }
}
