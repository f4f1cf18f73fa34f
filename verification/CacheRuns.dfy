// The translation cache over whole runs of sys_execve, the kernel stack map, entering user mode, sys_brk and
// sys_exit. Only entering and exiting load CR3; the other calls map pages, some of them through a root that
// shares subtrees with the running one, and invalidate nothing.
module CacheRuns {
  import opened Words
  import opened Pmm
  import opened PageTables
  import opened LowPages
  import opened AddressSpaces
  import opened Tlb
  import opened Placing
  import opened Loader
  import opened Heap
  import opened HeapCache
  import opened Lifecycle

  // ---- What the calls do to the walks of any root ----

  // Page v keeps its walk through g under a map of page w: another page, or one the walk is stopped at.
  predicate Beside(mem: Memory, g: nat, v: nat, w: nat) { w != v || Walk(mem, g, 4, v).Opaque? }

  lemma PlaceBeside(k: Kernel, c: nat, q: Placement, g: nat, v: nat)
    requires KernelOk(k) && IsRoot(k.vm, c) && PlacementOk(q) && Mappable(k.vm, c, q.vpn)
    requires IsRoot(k.vm, g) && v < VPN_LIMIT && Beside(k.vm.pm.mem, g, v, q.vpn)
    ensures Walk(Place(k, c, q).0.vm.pm.mem, g, 4, v) == Walk(k.vm.pm.mem, g, 4, v)
  {
    PlaceOpaque(k, c, q, g, v);
    if Alloc(k.vm.pm).1 != 0 { MapFilledWalk(k.vm, c, q, g, v); }
  }

  lemma {:induction false} PlaceAllBeside(k: Kernel, c: nat, qs: seq<Placement>, g: nat, v: nat)
    requires KernelOk(k) && IsRoot(k.vm, c) && SafeToPlace(k.vm, c, qs)
    requires IsRoot(k.vm, g) && v < VPN_LIMIT && forall q :: q in qs ==> Beside(k.vm.pm.mem, g, v, q.vpn)
    ensures Walk(PlaceAll(k, c, qs).0.vm.pm.mem, g, 4, v) == Walk(k.vm.pm.mem, g, 4, v)
    decreases |qs|
  {
    hide Walk, Place, Mappable, Kept;
    if qs == [] {
    } else {
      var init, q := qs[..|qs| - 1], qs[|qs| - 1];
      assert q in qs && forall p :: p in init ==> p in qs;
      PlaceAllBeside(k, c, init, g, v);
      PlaceAllKept(k, c, init);
      var (k1, ok) := PlaceAll(k, c, init);
      if ok {
        MappableKept(k, c, k1, q.vpn);
        KeptKernel(k, c, k1);
        RootKept(k, c, k1, g);
        PlaceBeside(k1, c, q, g, v);
      }
    }
  }

  lemma RootKept(k: Kernel, c: nat, k1: Kernel, g: nat)
    requires Kept(k, c, k1) && IsRoot(k.vm, g)
    ensures IsRoot(k1.vm, g)
  {
  }

  lemma {:induction false} LoadBeside(k: Kernel, c: nat, image: Image, segs: seq<Segment>, g: nat, v: nat)
    requires KernelOk(k) && IsRoot(k.vm, c) && SegsOk(k.vm, c, image, segs)
    requires IsRoot(k.vm, g) && v < VPN_LIMIT
    requires forall seg :: seg in segs ==> !InSeg(seg, v) || Walk(k.vm.pm.mem, g, 4, v).Opaque?
    ensures Walk(LoadSegments(k, c, image, segs).0.vm.pm.mem, g, 4, v) == Walk(k.vm.pm.mem, g, 4, v)
    decreases |segs|
  {
    hide Walk, PlaceAll, SegMappable, Kept, KernelOk, InSeg;
    if segs == [] {
    } else {
      var init, seg := segs[..|segs| - 1], segs[|segs| - 1];
      assert seg in segs && forall s :: s in init ==> s in segs;
      LoadBeside(k, c, image, init, g, v);
      LoadSegmentsKept(k, c, image, init);
      var (k1, ok) := LoadSegments(k, c, image, init);
      if ok {
        SegMappableKept(k, c, k1, image, seg);
        KeptKernel(k, c, k1);
        RootKept(k, c, k1, g);
        SegSafe(k1.vm, c, image, seg, NumPages(seg));
        SegBeside(k1.vm.pm.mem, g, v, image, seg);
        PlaceAllBeside(k1, c, SegPages(image, seg, NumPages(seg)), g, v);
      }
    }
  }

  lemma SegBeside(mem: Memory, g: nat, v: nat, image: Image, seg: Segment)
    requires !InSeg(seg, v) || Walk(mem, g, 4, v).Opaque?
    ensures forall q :: q in SegPages(image, seg, NumPages(seg)) ==> Beside(mem, g, v, q.vpn)
  {
    hide Walk;
    var qs := SegPages(image, seg, NumPages(seg));
    forall q | q in qs
      ensures Beside(mem, g, v, q.vpn)
    {
      var p :| 0 <= p < |qs| && qs[p] == q;
      assert q == SegPage(image, seg, p);
    }
  }

  // A page of the image or the stack's.
  predicate ExecPage(segs: seq<Segment>, v: nat) { v == STACK_VPN || exists seg :: seg in segs && InSeg(seg, v) }

  lemma ExecBeside(k: Kernel, image: Image, segs: seq<Segment>, v: nat)
    requires KernelOk(k) && ExecLegal(k, image, segs) && v < VPN_LIMIT
    requires !ExecPage(segs, v) || Walk(k.vm.pm.mem, k.cr3, 4, v).Opaque?
    ensures Walk(Exec(k, image, segs).0.vm.pm.mem, k.cr3, 4, v) == Walk(k.vm.pm.mem, k.cr3, 4, v)
  {
    hide Walk, LoadSegments, Place, Kept, KernelOk, SegsOk, InSeg;
    var k0 := k.(proc := k.proc.(brkStart := 0, brkCurr := 0));
    FreshKernel(k);
    KernelTables(k0);
    CloneKernelOk(k0);
    CloneSpace(k0.vm, k0.cr3);
    var (vm1, c) := Clone(k0.vm, k0.cr3);
    if c != 0 {
      var kc := k0.(vm := vm1);
      KernelTables(kc);
      CloneWalk(k0.vm, k0.cr3, k0.cr3, v);
      CloneWalks(k0.vm, k0.cr3);
      ClonedSegsOk(k0.vm, k0.cr3, image, segs);
      StackClear(k0, vm1, c);
      ExecLoad(kc, c, image, segs);
      LoadBeside(kc, c, image, segs, k.cr3, v);
      var (k2, ok) := LoadSegments(kc, c, image, segs);
      KeptKernel(kc, c, k2);
      if ok {
        RootKept(kc, c, k2, k.cr3);
        KeptClear(kc, c, k2, STACK_VPN);
        StackBeside(k2, c, k.cr3, v);
      }
    }
  }

  lemma StackClear(k: Kernel, vm1: Vm, c: nat)
    requires Clear(k.vm.pm.mem, k.cr3, STACK_VPN)
    requires forall v: nat :: v < VPN_LIMIT ==> Walk(vm1.pm.mem, c, 4, v) == Walk(k.vm.pm.mem, k.cr3, 4, v)
    ensures Clear(vm1.pm.mem, c, STACK_VPN)
  {
  }

  lemma KeptCr3(k: Kernel, c: nat, k1: Kernel)
    requires Kept(k, c, k1)
    ensures k1.cr3 == k.cr3
  {
  }

  lemma StackBeside(k: Kernel, c: nat, g: nat, v: nat)
    requires KernelOk(k) && IsRoot(k.vm, c) && IsRoot(k.vm, g) && Clear(k.vm.pm.mem, c, STACK_VPN)
    requires v < VPN_LIMIT && (v != STACK_VPN || Walk(k.vm.pm.mem, g, 4, v).Opaque?)
    ensures Walk(Place(k, c, StackPage()).0.vm.pm.mem, g, 4, v) == Walk(k.vm.pm.mem, g, 4, v)
  {
    PlaceBeside(k, c, StackPage(), g, v);
  }

  lemma StackMapBeside(k: Kernel, kstack: Frame, v: nat)
    requires KernelOk(k) && k.proc.pml4 != 0 && Mappable(k.vm, k.proc.pml4, kstack)
    requires v < VPN_LIMIT && (v != kstack || Walk(k.vm.pm.mem, k.cr3, 4, v).Opaque?)
    ensures Walk(MapStack(k, kstack).vm.pm.mem, k.cr3, 4, v) == Walk(k.vm.pm.mem, k.cr3, 4, v)
  {
    hide Map, Mappable, TablesOk;
    KernelTables(k);
    var e := LeafEntry(4096 * (kstack as int), 3);
    MapWalk(k.vm, k.proc.pml4, kstack, e, k.cr3, v);
    MapOpaque(k.vm, k.proc.pml4, kstack, e, k.cr3, v);
  }

  lemma BrkBeside(k: Kernel, addr: nat, v: nat)
    requires KernelOk(k) && ProcLegal(k, BrkOp(addr)) && v < VPN_LIMIT
    requires !NewPage(k.proc, addr, v) || Walk(k.vm.pm.mem, k.cr3, 4, v).Opaque?
    ensures Walk(Brk(k, addr).0.vm.pm.mem, k.cr3, 4, v) == Walk(k.vm.pm.mem, k.cr3, 4, v)
  {
    hide Walk, PlaceAll, RoundUp, HeapPages, Mappable, Kept, TablesOk;
    var k0 := k.(proc := StartHeap(k.proc));
    var top := Target(k0.proc, addr);
    assert KernelOk(k0);
    if addr != 0 && top > k0.proc.brkCurr {
      var qs := HeapPages(k0.proc.brkCurr, top);
      LegalGrowth(k, addr);
      HeapPlaceable(k0, top);
      KernelTables(k0);
      PlaceAllBeside(k0, k0.proc.pml4, qs, k.cr3, v);
    }
  }

  // ---- Single calls ----

  datatype Cached = Cached(k: Kernel, tlb: map<nat, Xlat>)

  // Between two calls the hardware may cache and drop at will.
  datatype CacheOp = Fill(vpn: nat) | Evict(vpn: nat) | Call(op: ProcOp)

  // Whether the call loads CR3.
  predicate LoadsCr3(k: Kernel, op: ProcOp) { op.EnterOp? || (op.ExitOp? && k.proc.pml4 != 0) }

  function CacheStep(s: Cached, op: CacheOp): Cached {
    match op
    case Fill(v) =>
      var x := Walk(s.k.vm.pm.mem, s.k.cr3, 4, v);
      if x == Absent then s else s.(tlb := s.tlb[v := x])
    case Evict(v) => s.(tlb := s.tlb - {v})
    case Call(call) => Cached(ProcStep(s.k, call), if LoadsCr3(s.k, call) then map[] else s.tlb)
  }

  ghost predicate CacheOk(s: Cached) { KernelOk(s.k) && Coherent(Paging(s.k, s.tlb)) }

  // The call may change the running root's walk of page v.
  predicate Touches(k: Kernel, op: ProcOp, v: nat) {
    match op
    case ExecOp(image, segs) => ExecPage(segs, v)
    case StackOp(kstack) => v == kstack
    case BrkOp(addr) => NewPage(k.proc, addr, v)
    case _ => false
  }

  // No page it touches is mapped in the running root.
  ghost predicate TouchesUnmapped(k: Kernel, op: ProcOp) {
    forall v: nat :: v < VPN_LIMIT && Touches(k, op, v) ==> !Walk(k.vm.pm.mem, k.cr3, 4, v).Page?
  }

  ghost predicate CacheLegal(s: Cached, op: CacheOp) {
    match op
    case Fill(v) => v < VPN_LIMIT
    case Evict(v) => true
    case Call(call) => ProcLegal(s.k, call) && TouchesUnmapped(s.k, call)
  }

  // A call that does not load CR3 keeps the walk of every page that is cached.
  lemma CallKeepsWalk(k: Kernel, op: ProcOp, v: nat)
    requires KernelOk(k) && ProcLegal(k, op) && !LoadsCr3(k, op) && v < VPN_LIMIT
    requires !Touches(k, op, v) || Walk(k.vm.pm.mem, k.cr3, 4, v).Opaque?
    ensures Walk(ProcStep(k, op).vm.pm.mem, k.cr3, 4, v) == Walk(k.vm.pm.mem, k.cr3, 4, v)
  {
    hide Walk, Exec, Brk, KernelOk, ExecLegal, Mappable, BrkSafe;
    match op
    case ExecOp(image, segs) => ExecBeside(k, image, segs, v);
    case StackOp(kstack) => StackMapBeside(k, kstack, v);
    case EnterOp =>
    case BrkOp(addr) => BrkBeside(k, addr, v);
    case ExitOp =>
  }

  lemma CacheStepOk(s: Cached, op: CacheOp)
    requires CacheOk(s) && CacheLegal(s, op)
    ensures CacheOk(CacheStep(s, op))
  {
    hide Walk, KernelOk, ProcLegal, ProcStep;
    if op.Call? {
      var call := op.op;
      StepKeepsKernel(s.k, call);
      if !LoadsCr3(s.k, call) {
        StepCr3(s.k, call);
        forall w | w in s.tlb
          ensures Walk(ProcStep(s.k, call).vm.pm.mem, s.k.cr3, 4, w) == Walk(s.k.vm.pm.mem, s.k.cr3, 4, w)
        {
          assert w in Paging(s.k, s.tlb).tlb;
          CallKeepsWalk(s.k, call, w);
        }
      }
    }
  }

  lemma StepCr3(k: Kernel, op: ProcOp)
    requires KernelOk(k) && ProcLegal(k, op) && !LoadsCr3(k, op)
    ensures ProcStep(k, op).cr3 == k.cr3
  {
    hide KernelOk, Exec, Brk, ExecLegal, BrkSafe, Mappable;
    match op
    case ExecOp(image, segs) => ExecCr3(k, image, segs);
    case StackOp(kstack) =>
    case EnterOp =>
    case BrkOp(addr) => BrkCr3(k, addr);
    case ExitOp =>
  }

  lemma ExecCr3(k: Kernel, image: Image, segs: seq<Segment>)
    requires KernelOk(k) && ExecLegal(k, image, segs)
    ensures Exec(k, image, segs).0.cr3 == k.cr3
  {
    hide LoadSegments, Place, Kept, KernelOk, SegsOk, Walk;
    var k0 := k.(proc := k.proc.(brkStart := 0, brkCurr := 0));
    FreshKernel(k);
    KernelTables(k0);
    CloneKernelOk(k0);
    var (vm1, c) := Clone(k0.vm, k0.cr3);
    if c != 0 {
      CloneWalks(k0.vm, k0.cr3);
      ClonedSegsOk(k0.vm, k0.cr3, image, segs);
      StackClear(k0, vm1, c);
      ExecLoad(k0.(vm := vm1), c, image, segs);
      var (k2, ok) := LoadSegments(k0.(vm := vm1), c, image, segs);
      KeptCr3(k0.(vm := vm1), c, k2);
      if ok { KeptCr3(k0.(vm := vm1), c, Place(k2, c, StackPage()).0); }
    }
  }

  lemma BrkCr3(k: Kernel, addr: nat)
    requires KernelOk(k) && ProcLegal(k, BrkOp(addr))
    ensures Brk(k, addr).0.cr3 == k.cr3
  {
    hide PlaceAll, RoundUp, HeapPages, Mappable, Kept, TablesOk;
    var k0 := k.(proc := StartHeap(k.proc));
    var top := Target(k0.proc, addr);
    assert KernelOk(k0);
    if addr != 0 && top > k0.proc.brkCurr {
      LegalGrowth(k, addr);
      HeapPlaceable(k0, top);
      KernelTables(k0);
      PlaceAllKept(k0, k0.proc.pml4, HeapPages(k0.proc.brkCurr, top));
      KeptCr3(k0, k0.proc.pml4, PlaceAll(k0, k0.proc.pml4, HeapPages(k0.proc.brkCurr, top)).0);
    }
  }

  // ---- Exactly when sys_execve keeps the cache right ----

  // Page v leads through c to a page that was not live before.
  predicate Renewed(k: Kernel, k1: Kernel, c: nat, v: nat) {
    var x := Walk(k1.vm.pm.mem, c, 4, v); x.Page? && !Live(k.vm.pm, FrameOf(x.entry))
  }

  lemma RenewedSince(k: Kernel, k1: Kernel, k2: Kernel, c: nat, v: nat)
    requires Renewed(k1, k2, c, v) && Grows(k.vm, k1.vm)
    ensures Renewed(k, k2, c, v)
  {
    GrowsLive(k.vm, k1.vm);
  }

  lemma RenewedKept(k: Kernel, k1: Kernel, k2: Kernel, c: nat, v: nat)
    requires Renewed(k, k1, c, v) && Walk(k2.vm.pm.mem, c, 4, v) == Walk(k1.vm.pm.mem, c, 4, v)
    ensures Renewed(k, k2, c, v)
  {
  }

  lemma {:induction false} PlaceAllCompletes(k: Kernel, c: nat, qs: seq<Placement>)
    requires PlaceAllDone(k, c, qs)
    ensures PlaceAll(k, c, qs).1
  {
    if qs != [] { PlaceAllCompletes(k, c, qs[..|qs| - 1]); }
  }

  lemma {:induction false} LoadCompletes(k: Kernel, c: nat, image: Image, segs: seq<Segment>)
    requires LoadDone(k, c, image, segs)
    ensures LoadSegments(k, c, image, segs).1
  {
    hide PlaceAll, PlaceAllDone;
    if segs != [] {
      var init, seg := segs[..|segs| - 1], segs[|segs| - 1];
      LoadCompletes(k, c, image, init);
      PlaceAllCompletes(LoadSegments(k, c, image, init).0, c, SegPages(image, seg, NumPages(seg)));
    }
  }

  lemma SegRenews(k: Kernel, c: nat, image: Image, seg: Segment, v: nat)
    requires KernelOk(k) && IsRoot(k.vm, c) && SegOk(image, seg) && SegMappable(k.vm, c, seg) && InSeg(seg, v)
    requires Clear(k.vm.pm.mem, c, v) && PlaceAllDone(k, c, SegPages(image, seg, NumPages(seg)))
    ensures Renewed(k, PlaceAll(k, c, SegPages(image, seg, NumPages(seg))).0, c, v)
  {
    hide Walk, PlaceAll, PlaceAllDone, KernelOk, SegOk, SegMappable;
    SegPlaceable(k, c, image, seg);
    var qs, p := SegPages(image, seg, NumPages(seg)), v - FirstPage(seg);
    assert qs[p] == SegPage(image, seg, p);
    PlaceAllFresh(k, c, qs, qs[p]);
  }

  // Overlapping or not, a completed load leaves every clear page of the image on a page that was not live.
  lemma {:induction false} LoadRenews(k: Kernel, c: nat, image: Image, segs: seq<Segment>, v: nat)
    requires KernelOk(k) && IsRoot(k.vm, c) && SegsOk(k.vm, c, image, segs) && LoadDone(k, c, image, segs)
    requires v < VPN_LIMIT && Clear(k.vm.pm.mem, c, v) && exists seg :: seg in segs && InSeg(seg, v)
    ensures Renewed(k, LoadSegments(k, c, image, segs).0, c, v)
    decreases |segs|
  {
    hide Walk, PlaceAll, PlaceAllDone, SegMappable, SegOk, Kept, KernelOk, InSeg, Clear, Renewed, Grows;
    var init, seg := segs[..|segs| - 1], segs[|segs| - 1];
    assert seg in segs && forall s :: s in segs ==> s in init || s == seg;
    LoadCompletes(k, c, image, init);
    LoadSegmentsKept(k, c, image, init);
    var k1 := LoadSegments(k, c, image, init).0;
    var qs := SegPages(image, seg, NumPages(seg));
    var k2 := PlaceAll(k1, c, qs).0;
    PlaceAllCompletes(k1, c, qs);
    SegMappableKept(k, c, k1, image, seg);
    KeptKernel(k, c, k1);
    KeptClear(k, c, k1, v);
    if InSeg(seg, v) {
      SegRenews(k1, c, image, seg, v);
      RenewedSince(k, k1, k2, c, v);
    } else {
      LoadRenews(k, c, image, init, v);
      SegSafe(k1.vm, c, image, seg, NumPages(seg));
      SegBeside(k1.vm.pm.mem, c, v, image, seg);
      PlaceAllBeside(k1, c, qs, c, v);
      RenewedKept(k, k1, k2, c, v);
    }
    RenewedKept(k, k2, LoadSegments(k, c, image, segs).0, c, v);
  }

  lemma LoadThenStackRenews(k: Kernel, c: nat, image: Image, segs: seq<Segment>, v: nat)
    requires KernelOk(k) && IsRoot(k.vm, c) && SegsOk(k.vm, c, image, segs) && LoadDone(k, c, image, segs)
    requires Clear(k.vm.pm.mem, c, STACK_VPN) && PlaceDone(LoadSegments(k, c, image, segs).0, c, StackPage())
    requires v < VPN_LIMIT && Clear(k.vm.pm.mem, c, v) && ExecPage(segs, v)
    ensures Renewed(k, Place(LoadSegments(k, c, image, segs).0, c, StackPage()).0, c, v)
  {
    hide Walk, LoadSegments, LoadDone, Place, PlaceDone, SegsOk, Kept, KernelOk, InSeg, Clear, Renewed, Grows;
    LoadSegmentsKept(k, c, image, segs);
    var k2 := LoadSegments(k, c, image, segs).0;
    var k3 := Place(k2, c, StackPage()).0;
    KeptKernel(k, c, k2);
    KeptClear(k, c, k2, STACK_VPN);
    if v == STACK_VPN {
      StackRenews(k2, c);
      RenewedSince(k, k2, k3, c, v);
    } else {
      LoadRenews(k, c, image, segs, v);
      StackBeside(k2, c, c, v);
      RenewedKept(k, k2, k3, c, v);
    }
  }

  lemma StackRenews(k: Kernel, c: nat)
    requires KernelOk(k) && IsRoot(k.vm, c) && Clear(k.vm.pm.mem, c, STACK_VPN) && PlaceDone(k, c, StackPage())
    ensures Renewed(k, Place(k, c, StackPage()).0, c, STACK_VPN)
  {
    hide KernelOk, Place, PlaceDone, Walk, Live, IsRoot;
    PlaceFresh(k, c, StackPage());
  }

  // A clone reaches every mapped page through an entry it shares with the original, and no growth parts them.
  lemma SharedEver(vm: Vm, r: nat, vm1: Vm, c: nat, vm2: Vm, v: nat)
    requires TablesOk(vm) && IsRoot(vm, r) && Clone(vm, r) == (vm1, c) && c != 0 && Grows(vm1, vm2)
    requires Walk(vm.pm.mem, r, 4, v).Page?
    ensures Walk(vm2.pm.mem, r, 4, v) == Walk(vm2.pm.mem, c, 4, v)
  {
    CloneCorrect(vm, r);
    hide TablesOk, Clone;
    assert SameFrame(vm.pm.mem, vm1.pm.mem, r);
    var j := Idx(v, 4);
    assert EntryStays(vm1.pm.mem, vm2.pm.mem, r, j) && EntryStays(vm1.pm.mem, vm2.pm.mem, c, j);
    assert Cell(vm2.pm.mem, r, j) == Cell(vm2.pm.mem, c, j);
  }

  // A page of the image the running root had mapped is mapped anew in it.
  lemma ExecRenews(k: Kernel, image: Image, segs: seq<Segment>, v: nat)
    requires KernelOk(k) && ExecLegal(k, image, segs) && ExecDone(k, image, segs)
    requires v < VPN_LIMIT && ExecPage(segs, v) && Walk(k.vm.pm.mem, k.cr3, 4, v).Page?
    ensures Renewed(k, Exec(k, image, segs).0, k.cr3, v)
  {
    hide Walk, LoadSegments, LoadDone, Place, PlaceDone, Kept, KernelOk, SegsOk, InSeg, Grows, Renewed, Clone;
    var k0 := k.(proc := k.proc.(brkStart := 0, brkCurr := 0));
    FreshKernel(k);
    KernelTables(k0);
    CloneKernelOk(k0);
    CloneSpace(k0.vm, k0.cr3);
    var (vm1, c) := Clone(k0.vm, k0.cr3);
    var kc := k0.(vm := vm1);
    CloneWalks(k0.vm, k0.cr3);
    ClonedSegsOk(k0.vm, k0.cr3, image, segs);
    StackClear(k0, vm1, c);
    ExecLoad(kc, c, image, segs);
    LoadCompletes(kc, c, image, segs);
    var k2 := LoadSegments(kc, c, image, segs).0;
    var k3 := Place(k2, c, StackPage()).0;
    StackCompletes(k2, c);
    KeptKernel(kc, c, k3);
    LoadThenStackRenews(kc, c, image, segs, v);
    RenewedSince(k, kc, k3, c, v);
    SharedEver(k.vm, k.cr3, vm1, c, k3.vm, v);
    RenewedThrough(k, k3, c, k.cr3, v);
    RenewedKept(k, k3, Exec(k, image, segs).0, k.cr3, v);
  }

  lemma RenewedThrough(k: Kernel, k1: Kernel, c: nat, r: nat, v: nat)
    requires Renewed(k, k1, c, v) && Walk(k1.vm.pm.mem, r, 4, v) == Walk(k1.vm.pm.mem, c, 4, v)
    ensures Renewed(k, k1, r, v)
  {
  }

  lemma StackCompletes(k: Kernel, c: nat)
    requires PlaceDone(k, c, StackPage())
    ensures Place(k, c, StackPage()).1
  {
  }

  // Exactly: sys_execve, memory lasting, keeps every coherent cache coherent if and only if the running root had
  // mapped no page of the image and not the stack's. A process that starts another image at its own addresses
  // goes on with a cache that is wrong until CR3 is loaded.
  lemma ExecCoherentExactly(k: Kernel, image: Image, segs: seq<Segment>)
    requires KernelOk(k) && ExecLegal(k, image, segs) && ExecDone(k, image, segs)
    requires forall v: nat :: v < VPN_LIMIT && ExecPage(segs, v) ==> NoDangling(k, k.cr3, v)
    ensures KeepsCoherent(k, Exec(k, image, segs).0) <==> TouchesUnmapped(k, ExecOp(image, segs))
  {
    hide KernelOk, ExecLegal, ExecDone, Exec, ExecPage, Walk, Live;
    var k1 := Exec(k, image, segs).0;
    ExecCr3(k, image, segs);
    if TouchesUnmapped(k, ExecOp(image, segs)) {
      forall tlb: map<nat, Xlat> | Coherent(Paging(k, tlb))
        ensures Coherent(Paging(k1, tlb))
      {
        forall w | w in tlb
          ensures w < VPN_LIMIT && tlb[w] != Absent && tlb[w] == Walk(k1.vm.pm.mem, k1.cr3, 4, w)
        {
          assert w in Paging(k, tlb).tlb;
          ExecBeside(k, image, segs, w);
        }
      }
    } else {
      var v: nat :| v < VPN_LIMIT && Touches(k, ExecOp(image, segs), v) && Walk(k.vm.pm.mem, k.cr3, 4, v).Page?;
      ExecRenews(k, image, segs, v);
      ChangedIsStale(k, k1, v);
    }
  }

  // ---- Whole runs ----

  function CacheRun(s: Cached, ops: seq<CacheOp>): Cached {
    if ops == [] then s else CacheStep(CacheRun(s, ops[..|ops| - 1]), ops[|ops| - 1])
  }

  ghost predicate CacheLegalRun(s: Cached, ops: seq<CacheOp>) {
    || ops == []
    || (CacheLegalRun(s, ops[..|ops| - 1]) && CacheLegal(CacheRun(s, ops[..|ops| - 1]), ops[|ops| - 1]))
  }

  // Over every run of calls, whatever the hardware caches and drops between them: as long as each call that does
  // not load CR3 touches only pages the running root has not mapped, the cache agrees with the tables and the
  // kernel invariant holds.
  lemma {:induction false} CacheRunOk(s: Cached, ops: seq<CacheOp>)
    requires CacheOk(s) && CacheLegalRun(s, ops)
    ensures CacheOk(CacheRun(s, ops))
  {
    hide CacheOk, CacheLegal, CacheStep;
    if ops == [] {
    } else {
      CacheRunOk(s, ops[..|ops| - 1]);
      CacheStepOk(CacheRun(s, ops[..|ops| - 1]), ops[|ops| - 1]);
    }
  }
}
