// The starting state of multiboot64.asm:69-82 and every run from it: static table pages identity-map the first
// 128 MiB with 64 large pages. The page directory's page holds instructions behind those 64 entries, which
// the model leaves arbitrary: it stops every walk at that page.
module Boot {
  import opened Words
  import opened Pmm
  import opened PageTables
  import opened LowPages
  import opened AddressSpaces
  import opened Placing
  import opened Loader
  import opened Heap
  import opened Lifecycle

  // Where walks are stopped: below 1 GiB, what the boot page directory covers.
  const BOOT_LIMIT: nat := 0x4_0000

  predicate LinksTo(e: Word, t: nat) { Present(e) && !Large(e) && FrameOf(e) == t }

  ghost predicate IdentityMap(mem: Memory, pml4: Frame, pdpt: Frame) {
    && LinksTo(Cell(mem, pml4, 0), pdpt) && LinksTo(Cell(mem, pdpt, 0), BOOT_PD)
    && (forall i: nat :: 0 < i < 512 ==> !Present(Cell(mem, pml4, i)) && !Present(Cell(mem, pdpt, i)))
    && BlocksOk(mem)
  }

  function BootRoles(pml4: Frame, pdpt: Frame): Roles {
    map[pml4 := Role(4, 0), pdpt := Role(3, 0)]
  }

  function BootVm(mem: Memory, start: Bump, pml4: Frame, pdpt: Frame): Vm {
    Vm(State(mem, start, start, []), BootRoles(pml4, pdpt))
  }

  function BootKernel(mem: Memory, start: Bump, pml4: Frame, pdpt: Frame): Kernel {
    Kernel(BootVm(mem, start, pml4, pdpt), pml4, pml4, Proc(0, [], 0, 0, 0))
  }

  predicate BootLayout(mem: Memory, start: Bump, pml4: Frame, pdpt: Frame) {
    |mem| == 512 * FRAMES && 0 < pml4 < start && 0 < pdpt < start && BOOT_PD < start && pml4 != pdpt
      && pml4 != BOOT_PD && pdpt != BOOT_PD
  }

  lemma BootIndex(v: nat)
    requires v < VPN_LIMIT
    ensures v < BOOT_LIMIT <==> Idx(v, 4) == 0 && Idx(v, 3) == 0
  {
    RootPrefix(v);
    assert Prefix(v, 1) == v / 512;
    assert Prefix(v, 2) == Prefix(v, 1) / 512;
    assert Prefix(v, 3) == Prefix(v, 2) / 512;
  }

  // Pages below 1 GiB meet the boot page directory, pages above are absent.
  lemma BootWalk(mem: Memory, start: Bump, pml4: Frame, pdpt: Frame, v: nat)
    requires BootLayout(mem, start, pml4, pdpt) && IdentityMap(mem, pml4, pdpt) && v < VPN_LIMIT
    ensures if v < BOOT_LIMIT then Walk(mem, pml4, 4, v).Opaque? else Walk(mem, pml4, 4, v) == Absent
  {
    BootIndex(v);
    if Idx(v, 4) == 0 {
      assert Walk(mem, pml4, 4, v) == Walk(mem, pdpt, 3, v);
    }
  }

  // ---- Every run from the starting state ----

  // The kernel invariant; the tables in the kernel image are the two of the boot code; every root identity-maps
  // low memory; and walks are stopped exactly below 1 GiB.
  ghost predicate Booted(k: Kernel, start: Bump, pml4: Frame, pdpt: Frame) {
    && KernelOk(k) && k.vm.pm.start == start && k.kernelRoot == pml4
    && (forall f :: f < start ==> (f in k.vm.roles <==> f == pml4 || f == pdpt))
    && pml4 < start && pdpt < start
    && (forall r :: IsRoot(k.vm, r) ==> RootBooted(k.vm, r))
  }

  ghost predicate RootBooted(vm: Vm, r: nat) {
    IdentityRoot(vm.pm.mem, r) && forall v: nat :: v < VPN_LIMIT ==> StopsBelow(vm.pm.mem, r, v)
  }

  predicate StopsBelow(mem: Memory, r: nat, v: nat) { Walk(mem, r, 4, v).Opaque? <==> v < BOOT_LIMIT }

  // The starting state, whatever the instructions behind the 64 entries say.
  lemma BootOk(mem: Memory, start: Bump, pml4: Frame, pdpt: Frame)
    requires BootLayout(mem, start, pml4, pdpt) && IdentityMap(mem, pml4, pdpt)
    ensures Booted(BootKernel(mem, start, pml4, pdpt), start, pml4, pdpt)
  {
    BootTables(mem, start, pml4, pdpt);
    hide Walk, TablesOk, BlocksOk;
    forall v: nat | v < VPN_LIMIT
      ensures StopsBelow(mem, pml4, v)
    {
      BootWalk(mem, start, pml4, pdpt, v);
    }
    assert forall r :: IsRoot(BootVm(mem, start, pml4, pdpt), r) ==> r == pml4;
  }

  lemma BootTables(mem: Memory, start: Bump, pml4: Frame, pdpt: Frame)
    requires BootLayout(mem, start, pml4, pdpt) && IdentityMap(mem, pml4, pdpt)
    ensures TablesOk(BootVm(mem, start, pml4, pdpt))
  {
    hide BlocksOk, Cell;
  }

  // ---- No step but a clone adds a root ----

  ghost predicate NoNewRoots(vm: Vm, vm1: Vm) {
    forall r :: IsRoot(vm1, r) ==> IsRoot(vm, r)
  }

  lemma {:induction false} DescendRoots(vm: Vm, f: nat, l: nat, vpn: nat)
    requires l <= 4
    ensures NoNewRoots(vm, Descend(vm, f, l, vpn).0)
    decreases l
  {
    if l <= 1 {
    } else {
      var e := Cell(vm.pm.mem, f, Idx(vpn, l));
      if Present(e) {
        DescendRoots(vm, FrameOf(e), l - 1, vpn);
      } else {
        var (vm1, t) := AddTable(vm, f, l, vpn);
        assert NoNewRoots(vm, vm1);
        if t != 0 { DescendRoots(vm1, t, l - 1, vpn); }
      }
    }
  }

  lemma MapNoRoots(vm: Vm, root: nat, vpn: nat, e: Word)
    ensures NoNewRoots(vm, Map(vm, root, vpn, e).0)
  {
    DescendRoots(vm, root, 4, vpn);
    hide Descend;
  }

  lemma PlaceNoRoots(k: Kernel, c: nat, q: Placement)
    ensures NoNewRoots(k.vm, Place(k, c, q).0.vm)
  {
    hide Map, Alloc;
    var f := Alloc(k.vm.pm).1;
    if f != 0 { MapNoRoots(Filled(k.vm, q.bytes), c, q.vpn, LeafEntry(4096 * (f as int), q.flags)); }
  }

  lemma {:induction false} PlaceAllNoRoots(k: Kernel, c: nat, qs: seq<Placement>)
    ensures NoNewRoots(k.vm, PlaceAll(k, c, qs).0.vm)
  {
    hide Place;
    if qs == [] {
    } else {
      PlaceAllNoRoots(k, c, qs[..|qs| - 1]);
      PlaceNoRoots(PlaceAll(k, c, qs[..|qs| - 1]).0, c, qs[|qs| - 1]);
    }
  }

  lemma {:induction false} LoadNoRoots(k: Kernel, c: nat, image: Image, segs: seq<Segment>)
    ensures NoNewRoots(k.vm, LoadSegments(k, c, image, segs).0.vm)
  {
    hide PlaceAll;
    if segs == [] {
    } else {
      var init, seg := segs[..|segs| - 1], segs[|segs| - 1];
      LoadNoRoots(k, c, image, init);
      PlaceAllNoRoots(LoadSegments(k, c, image, init).0, c, SegPages(image, seg, NumPages(seg)));
    }
  }

  // ---- What the steps keep ----

  lemma BootedKept(k: Kernel, c: nat, k1: Kernel, start: Bump, pml4: Frame, pdpt: Frame)
    requires Booted(k, start, pml4, pdpt) && Kept(k, c, k1) && NoNewRoots(k.vm, k1.vm)
    ensures Booted(k1, start, pml4, pdpt)
  {
    hide Walk, TablesOk, LedgerOk, IdentityRoot;
    KernelTables(k);
    forall r | IsRoot(k1.vm, r)
      ensures RootBooted(k1.vm, r)
    {
      assert RootBooted(k.vm, r);
      IdentityStays(k.vm, k1.vm, r);
      forall v: nat | v < VPN_LIMIT
        ensures StopsBelow(k1.vm.pm.mem, r, v)
      {
        assert StopsBelow(k.vm.pm.mem, r, v) && SameOpaque(k.vm.pm.mem, k1.vm.pm.mem, r, v);
      }
    }
  }

  lemma BootedClone(k: Kernel, start: Bump, pml4: Frame, pdpt: Frame)
    requires Booted(k, start, pml4, pdpt) && Clone(k.vm, k.cr3).1 != 0
    ensures Booted(k.(vm := Clone(k.vm, k.cr3).0), start, pml4, pdpt)
  {
    hide Walk, LedgerOk, Releasable;
    var (vm1, c) := Clone(k.vm, k.cr3);
    CloneCorrect(k.vm, k.cr3);
    CloneKernelOk(k);
    assert RootBooted(k.vm, k.cr3);
    hide Clone, TablesOk;
    KernelTables(k);
    forall r | IsRoot(vm1, r)
      ensures RootBooted(vm1, r)
    {
      var q := if r == c then k.cr3 else r;
      assert RootBooted(k.vm, q);
      ClonedRoot(k.vm, vm1, c, k.cr3, r);
      forall v: nat | v < VPN_LIMIT
        ensures StopsBelow(vm1.pm.mem, r, v)
      {
        assert StopsBelow(k.vm.pm.mem, q, v);
        CloneWalk(k.vm, k.cr3, q, v);
      }
    }
  }

  lemma ClonedRoot(vm: Vm, vm1: Vm, c: Frame, root: nat, r: nat)
    requires TablesOk(vm) && IsRoot(vm, root) && ClonedAs(vm, root, vm1, c) && IsRoot(vm1, r)
    requires IdentityRoot(vm.pm.mem, if r == c then root else r)
    ensures IdentityRoot(vm1.pm.mem, r)
  {
    var q := if r == c then root else r;
    IdentityStays(vm, vm1, q);
    assert SameFrame(vm.pm.mem, vm1.pm.mem, root);
  }

  lemma BootedMap(k: Kernel, kstack: Frame, start: Bump, pml4: Frame, pdpt: Frame)
    requires Booted(k, start, pml4, pdpt) && k.proc.pml4 != 0 && Mappable(k.vm, k.proc.pml4, kstack)
    ensures Booted(MapStack(k, kstack), start, pml4, pdpt)
  {
    hide Walk, TablesOk, LedgerOk, IdentityRoot, Mappable;
    var k1, e := MapStack(k, kstack), LeafEntry(4096 * (kstack as int), 3);
    KernelTables(k);
    MapStackOk(k, kstack);
    MapNoRoots(k.vm, k.proc.pml4, kstack, e);
    forall r | IsRoot(k1.vm, r)
      ensures RootBooted(k1.vm, r)
    {
      assert RootBooted(k.vm, r);
      IdentityStays(k.vm, k1.vm, r);
      forall v: nat | v < VPN_LIMIT
        ensures StopsBelow(k1.vm.pm.mem, r, v)
      {
        assert StopsBelow(k.vm.pm.mem, r, v);
        MapOpaque(k.vm, k.proc.pml4, kstack, e, r, v);
      }
    }
  }

  lemma BootedExit(k: Kernel, start: Bump, pml4: Frame, pdpt: Frame)
    requires Booted(k, start, pml4, pdpt)
    ensures Booted(Exit(k), start, pml4, pdpt)
  {
    hide Walk, IdentityRoot;
    ExitKeepsKernel(k);
    if k.proc.pml4 != 0 {
      var vm1 := ReleaseAll(k.vm, k.proc.ledger);
      ReleaseAllCorrect(k.vm, k.proc.ledger);
      hide ReleaseAll, TablesOk;
      KernelTables(k);
      forall r | IsRoot(vm1, r)
        ensures RootBooted(vm1, r)
      {
        assert RootBooted(k.vm, r);
        ReleasedIdentity(k, vm1, r);
        forall v: nat | v < VPN_LIMIT
          ensures StopsBelow(vm1.pm.mem, r, v)
        {
          assert StopsBelow(k.vm.pm.mem, r, v);
          RootTable(k.vm, r, v);
          ReleaseAllWalk(k.vm, k.proc.ledger, r, 4, v);
        }
      }
    }
  }

  lemma ReleasedIdentity(k: Kernel, vm1: Vm, r: nat)
    requires KernelOk(k) && IsRoot(k.vm, r) && r !in k.proc.ledger && IdentityRoot(k.vm.pm.mem, r)
    requires forall g: nat :: g !in k.proc.ledger ==> SameFrame(k.vm.pm.mem, vm1.pm.mem, g)
    ensures IdentityRoot(vm1.pm.mem, r)
  {
    var mem := k.vm.pm.mem;
    var pdpt := FrameOf(Cell(mem, r, 0));
    assert EntryOk(mem, k.vm.roles, r, 0);
    assert pdpt !in k.proc.ledger && BOOT_PD !in k.proc.ledger;
    assert SameFrame(mem, vm1.pm.mem, r) && SameFrame(mem, vm1.pm.mem, pdpt) && SameFrame(mem, vm1.pm.mem, BOOT_PD);
    forall i: nat | i < BLOCKS
      ensures BlockEntry(Cell(vm1.pm.mem, BOOT_PD, i), i)
    {
      assert BlockEntry(Cell(mem, BOOT_PD, i), i);
    }
  }

  // ---- Legal runs ----

  // A page the source may map from the starting state on: above the boot page directory's reach, or low in a
  // block that starts in the kernel image, with a page that is no table and holds no kernel variable.
  predicate PageFree(start: Bump, pml4: Frame, pdpt: Frame, v: nat) {
    || v >= BOOT_LIMIT
    || (v < LOW_LIMIT && Block(v) < start && Block(v) !in {pml4, pdpt, BOOT_PD} && Block(v) !in VARIABLES)
  }

  ghost predicate SegsFree(start: Bump, pml4: Frame, pdpt: Frame, image: Image, segs: seq<Segment>) {
    forall seg :: seg in segs ==> SegOk(image, seg) && forall v: nat :: InSeg(seg, v) ==> PageFree(start, pml4, pdpt, v)
  }

  // What the layout demands of each step.
  ghost predicate BootLegal(k: Kernel, start: Bump, pml4: Frame, pdpt: Frame, op: ProcOp) {
    match op
    case ExecOp(image, segs) => SegsFree(start, pml4, pdpt, image, segs)
    case StackOp(kstack) => k.proc.pml4 != 0 && PageFree(start, pml4, pdpt, kstack)
    case EnterOp => k.proc.pml4 != 0
    case BrkOp(addr) =>
      && k.proc.pml4 != 0 && BrkInRange(k.proc, addr)
      && StartHeap(k.proc).brkCurr <= BRK_LIMIT && StartHeap(k.proc).brkStart <= BRK_LIMIT
      && forall v :: NewPage(k.proc, addr, v) ==> PageFree(start, pml4, pdpt, v)
    case ExitOp => true
  }

  // A page is mappable in a booted state if and only if the layout frees it.
  lemma FreeExactly(k: Kernel, start: Bump, pml4: Frame, pdpt: Frame, r: nat, v: nat)
    requires Booted(k, start, pml4, pdpt) && IsRoot(k.vm, r) && v < VPN_LIMIT
    ensures Mappable(k.vm, r, v) <==> PageFree(start, pml4, pdpt, v)
  {
    hide Walk, KernelOk, IdentityRoot;
    assert RootBooted(k.vm, r);
    assert StopsBelow(k.vm.pm.mem, r, v);
  }

  lemma BootLegalIs(k: Kernel, start: Bump, pml4: Frame, pdpt: Frame, op: ProcOp)
    requires Booted(k, start, pml4, pdpt) && BootLegal(k, start, pml4, pdpt, op)
    ensures ProcLegal(k, op)
  {
    hide Mappable, Walk, RoundUp, PageFree;
    KernelTables(k);
    match op
    case ExecOp(image, segs) => ExecLegalExactly(k, start, pml4, pdpt, image, segs);
    case StackOp(kstack) => FreeExactly(k, start, pml4, pdpt, k.proc.pml4, kstack);
    case EnterOp =>
    case BrkOp(addr) =>
      NewPageSmall(k.proc, addr);
      forall v | NewPage(k.proc, addr, v)
        ensures Mappable(k.vm, k.proc.pml4, v)
      {
        FreeExactly(k, start, pml4, pdpt, k.proc.pml4, v);
      }
    case ExitOp =>
  }

  lemma NewPageSmall(p: Proc, addr: nat)
    requires BrkInRange(p, addr) && StartHeap(p).brkStart <= BRK_LIMIT
    ensures forall v: nat :: NewPage(p, addr, v) ==> v < VPN_LIMIT
  {
    RoundUpInRange(Target(StartHeap(p), addr));
  }

  // The model can follow sys_execve of an image in a booted state if and only if the layout frees its pages.
  lemma ExecLegalExactly(k: Kernel, start: Bump, pml4: Frame, pdpt: Frame, image: Image, segs: seq<Segment>)
    requires Booted(k, start, pml4, pdpt)
    ensures ExecLegal(k, image, segs) <==> SegsFree(start, pml4, pdpt, image, segs)
  {
    hide Mappable, KernelOk, PageFree, SegOk;
    KernelTables(k);
    assert RootBooted(k.vm, k.cr3);
    assert StopsBelow(k.vm.pm.mem, k.cr3, STACK_VPN);
    forall seg | seg in segs && SegOk(image, seg)
      ensures SegMappable(k.vm, k.cr3, seg) <==> forall v: nat :: InSeg(seg, v) ==> PageFree(start, pml4, pdpt, v)
    {
      PagesInRange(image, seg);
      forall v: nat | InSeg(seg, v)
        ensures Mappable(k.vm, k.cr3, v) <==> PageFree(start, pml4, pdpt, v)
      {
        FreeExactly(k, start, pml4, pdpt, k.cr3, v);
      }
    }
  }

  lemma BootedExec(k: Kernel, start: Bump, pml4: Frame, pdpt: Frame, image: Image, segs: seq<Segment>)
    requires Booted(k, start, pml4, pdpt) && ExecLegal(k, image, segs)
    ensures Booted(Exec(k, image, segs).0, start, pml4, pdpt)
    ensures Grows(k.vm, Exec(k, image, segs).0.vm)
    ensures VariablesKept(start, pml4, pdpt, k.vm.pm.mem, Exec(k, image, segs).0.vm.pm.mem)
  {
    hide Booted, KernelOk, Place, LoadSegments, Clone, SegsOk, VariablesKept, Grows;
    var k0 := k.(proc := k.proc.(brkStart := 0, brkCurr := 0));
    BootedProc(k, k0, start, pml4, pdpt);
    var (vm1, c) := Clone(k0.vm, k0.cr3);
    CloneFails(k0.vm, k0.cr3);
    if c != 0 {
      var kc := k0.(vm := vm1);
      BootedClone(k0, start, pml4, pdpt);
      CloneKernelOk(k0);
      ClonedSegsOk(k0.vm, k0.cr3, image, segs);
      CloneWalks(k0.vm, k0.cr3);
      ExecLoad(kc, c, image, segs);
      var (k2, ok) := LoadSegments(kc, c, image, segs);
      LoadNoRoots(kc, c, image, segs);
      BootedKept(kc, c, k2, start, pml4, pdpt);
      if ok {
        var (k3, ok3) := Place(k2, c, StackPage());
        PlaceNoRoots(k2, c, StackPage());
        RootsTrans(kc.vm, k2.vm, k3.vm);
        BootedKept(kc, c, k3, start, pml4, pdpt);
        if ok3 { BootedProc(k3, k3.(proc := SetRoot(k3.proc, c)), start, pml4, pdpt); }
      }
    }
    ExecGrows(k, image, segs);
    VariablesGrow(k, start, pml4, pdpt, Exec(k, image, segs).0.vm);
  }

  lemma CloneFails(vm: Vm, root: nat)
    ensures Clone(vm, root).1 == 0 && PagesOk(vm.pm) ==> Clone(vm, root).0 == vm
  {
    if PagesOk(vm.pm) { AllocCorrect(vm.pm); }
  }

  lemma RootsTrans(a: Vm, b: Vm, c: Vm)
    requires NoNewRoots(a, b) && NoNewRoots(b, c)
    ensures NoNewRoots(a, c)
  {
  }

  // The process record matters for the kernel invariant only.
  lemma BootedProc(k: Kernel, k1: Kernel, start: Bump, pml4: Frame, pdpt: Frame)
    requires Booted(k, start, pml4, pdpt) && k1.vm == k.vm && k1.kernelRoot == k.kernelRoot
    ensures (k1.proc.ledger == k.proc.ledger && k1.proc.pml4 == k.proc.pml4 && k1.cr3 == k.cr3) || KernelOk(k1) ==>
              Booted(k1, start, pml4, pdpt) && KernelOk(k1)
    ensures PagesOk(k.vm.pm) && KernelOk(k) && TablesOk(k.vm) && IsRoot(k.vm, k.cr3)
  {
    hide TablesOk, RootBooted;
    KernelTables(k);
    TablesPages(k.vm);
  }

  lemma TablesPages(vm: Vm)
    requires TablesOk(vm)
    ensures PagesOk(vm.pm)
  {
  }

  lemma BootedBrk(k: Kernel, start: Bump, pml4: Frame, pdpt: Frame, addr: nat)
    requires Booted(k, start, pml4, pdpt) && ProcLegal(k, BrkOp(addr))
    ensures Booted(Brk(k, addr).0, start, pml4, pdpt)
    ensures VariablesKept(start, pml4, pdpt, k.vm.pm.mem, Brk(k, addr).0.vm.pm.mem)
  {
    hide Booted, KernelOk, PlaceAll, RoundUp, HeapPages, Mappable, Kept, VariablesKept;
    VariablesSelf(start, pml4, pdpt, k.vm.pm.mem);
    var k0 := k.(proc := StartHeap(k.proc));
    BootedProc(k, k0, start, pml4, pdpt);
    BrkKeepsKernel(k, addr);
    var top := Target(k0.proc, addr);
    if addr != 0 {
      if top > k0.proc.brkCurr {
        var qs := HeapPages(k0.proc.brkCurr, top);
        LegalGrowth(k, addr);
        HeapPlaceable(k0, top);
        BootedProc(k0, k0, start, pml4, pdpt);
        KernelTables(k0);
        PlaceAllKept(k0, k0.proc.pml4, qs);
        PlaceAllNoRoots(k0, k0.proc.pml4, qs);
        var k1 := PlaceAll(k0, k0.proc.pml4, qs).0;
        BootedKept(k0, k0.proc.pml4, k1, start, pml4, pdpt);
        KeptKernel(k0, k0.proc.pml4, k1);
        VariablesGrow(k0, start, pml4, pdpt, k1.vm);
        BootedProc(k1, k1.(proc := k1.proc.(brkCurr := top)), start, pml4, pdpt);
      } else {
        BootedProc(k0, k0.(proc := k0.proc.(brkCurr := top)), start, pml4, pdpt);
      }
    }
  }

  ghost predicate BootLegalRun(k: Kernel, start: Bump, pml4: Frame, pdpt: Frame, ops: seq<ProcOp>) {
    ops == [] ||
    (BootLegalRun(k, start, pml4, pdpt, ops[..|ops| - 1])
      && BootLegal(ProcRun(k, ops[..|ops| - 1]), start, pml4, pdpt, ops[|ops| - 1]))
  }

  // The kernel's own variables: what their pages hold is the same in both memories.
  ghost predicate VariablesKept(start: Bump, pml4: Frame, pdpt: Frame, mem: Memory, mem1: Memory) {
    forall f: nat :: f in VARIABLES && f < start && f != pml4 && f != pdpt ==> SameFrame(mem, mem1, f)
  }

  // Over every run from a booted state whose pages the layout frees, kernel stack map included, the invariant
  // holds, the ledger distinct and live, the identity map intact; and no table write or data page ever
  // overwrites a page with the kernel's variables.
  lemma {:induction false} BootRun(k: Kernel, start: Bump, pml4: Frame, pdpt: Frame, ops: seq<ProcOp>)
    requires Booted(k, start, pml4, pdpt) && BootLegalRun(k, start, pml4, pdpt, ops)
    ensures Booted(ProcRun(k, ops), start, pml4, pdpt)
    ensures VariablesKept(start, pml4, pdpt, k.vm.pm.mem, ProcRun(k, ops).vm.pm.mem)
  {
    hide Booted, BootLegal, ProcLegal, ProcStep, VariablesKept;
    if ops == [] {
      VariablesSelf(start, pml4, pdpt, k.vm.pm.mem);
    } else {
      BootRun(k, start, pml4, pdpt, ops[..|ops| - 1]);
      var k1, op := ProcRun(k, ops[..|ops| - 1]), ops[|ops| - 1];
      BootLegalIs(k1, start, pml4, pdpt, op);
      BootStep(k1, start, pml4, pdpt, op);
      VariablesTrans(start, pml4, pdpt, k.vm.pm.mem, k1.vm.pm.mem, ProcStep(k1, op).vm.pm.mem);
    }
  }

  lemma VariablesSelf(start: Bump, pml4: Frame, pdpt: Frame, mem: Memory)
    ensures VariablesKept(start, pml4, pdpt, mem, mem)
  {
  }

  lemma VariablesTrans(start: Bump, pml4: Frame, pdpt: Frame, a: Memory, b: Memory, c: Memory)
    requires VariablesKept(start, pml4, pdpt, a, b) && VariablesKept(start, pml4, pdpt, b, c)
    ensures VariablesKept(start, pml4, pdpt, a, c)
  {
    forall f: nat | f in VARIABLES && f < start && f != pml4 && f != pdpt
      ensures SameFrame(a, c, f)
    {
      assert SameFrame(a, b, f) && SameFrame(b, c, f);
    }
  }

  lemma VariablesGrow(k: Kernel, start: Bump, pml4: Frame, pdpt: Frame, vm1: Vm)
    requires Booted(k, start, pml4, pdpt) && Grows(k.vm, vm1)
    ensures VariablesKept(start, pml4, pdpt, k.vm.pm.mem, vm1.pm.mem)
  {
    hide KernelOk, RootBooted, SameFrame;
    assert forall f: nat :: f < start && f != pml4 && f != pdpt ==> ImagePage(k.vm, f);
  }

  lemma VariablesExit(k: Kernel, start: Bump, pml4: Frame, pdpt: Frame)
    requires Booted(k, start, pml4, pdpt)
    ensures VariablesKept(start, pml4, pdpt, k.vm.pm.mem, Exit(k).vm.pm.mem)
  {
    if k.proc.pml4 != 0 { ReleaseAllCorrect(k.vm, k.proc.ledger); }
    hide ReleaseAll, RootBooted, SameFrame, WellFormed, PagesOk;
  }

  lemma BootStep(k: Kernel, start: Bump, pml4: Frame, pdpt: Frame, op: ProcOp)
    requires Booted(k, start, pml4, pdpt) && ProcLegal(k, op)
    ensures Booted(ProcStep(k, op), start, pml4, pdpt)
    ensures VariablesKept(start, pml4, pdpt, k.vm.pm.mem, ProcStep(k, op).vm.pm.mem)
  {
    hide Booted, KernelOk, Exec, Brk, Exit, MapStack, ExecLegal, Mappable, BrkSafe, VariablesKept;
    match op
    case ExecOp(image, segs) => BootedExec(k, start, pml4, pdpt, image, segs);
    case StackOp(kstack) =>
      BootedMap(k, kstack, start, pml4, pdpt);
      BootedProc(k, k, start, pml4, pdpt);
      MapStackOk(k, kstack);
      VariablesGrow(k, start, pml4, pdpt, MapStack(k, kstack).vm);
    case EnterOp =>
      BootedProc(k, EnterUser(k), start, pml4, pdpt);
      EnterKernel(k);
      VariablesSelf(start, pml4, pdpt, k.vm.pm.mem);
    case BrkOp(addr) => BootedBrk(k, start, pml4, pdpt, addr);
    case ExitOp =>
      BootedExit(k, start, pml4, pdpt);
      VariablesExit(k, start, pml4, pdpt);
  }

  lemma EnterKernel(k: Kernel)
    requires KernelOk(k) && k.proc.pml4 != 0
    ensures KernelOk(EnterUser(k))
  {
  }

  // In every such state the map of the kernel stack's page maps nothing: the walk is stopped, one word is
  // written at the start of the stack's block, and the processor translates the stack page to itself before
  // and after.
  lemma StackMapExactly(k: Kernel, start: Bump, pml4: Frame, pdpt: Frame, kstack: Frame, o: nat)
    requires Booted(k, start, pml4, pdpt) && k.proc.pml4 != 0 && PageFree(start, pml4, pdpt, kstack) && o < 4096
    ensures var mem, k1 := k.vm.pm.mem, MapStack(k, kstack);
            && Walk(mem, k.proc.pml4, 4, kstack).Opaque?
            && k1 == k.(vm := k.vm.(pm := k.vm.pm.(
                 mem := Store(mem, Block(kstack), kstack % 512, LeafEntry(4096 * (kstack as int), 3)))))
            && Translate(mem, k.proc.pml4, 4, 4096 * (kstack as int) + o) == 4096 * (kstack as int) + o
            && Translate(k1.vm.pm.mem, k.proc.pml4, 4, 4096 * (kstack as int) + o) == 4096 * (kstack as int) + o
            && Booted(k1, start, pml4, pdpt)
  {
    hide Walk, KernelOk, MapStack, IdentityRoot, Translate;
    KernelTables(k);
    assert RootBooted(k.vm, k.proc.pml4);
    FreeExactly(k, start, pml4, pdpt, k.proc.pml4, kstack);
    MapStackWrites(k, kstack);
    BootedMap(k, kstack, start, pml4, pdpt);
    assert RootBooted(MapStack(k, kstack).vm, k.proc.pml4);
    LowTranslate(k.vm.pm.mem, k.proc.pml4, 4096 * (kstack as int) + o);
    LowTranslate(MapStack(k, kstack).vm.pm.mem, k.proc.pml4, 4096 * (kstack as int) + o);
  }
}
