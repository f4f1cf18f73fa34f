// What a process leaves in the kernel's own root: exec maps its image through a clone of that root, and the
// clone shares every subtree present at that moment.
module Residue {
  import opened Words
  import opened Pmm
  import opened PageTables
  import opened LowPages
  import opened AddressSpaces
  import opened Sharing
  import opened Placing
  import opened Loader
  import opened Heap
  import opened Lifecycle
  import opened Survival

  // ---- Root entries under placements ----

  // Placing through c keeps every entry of every other root r, and every present entry of c itself.
  ghost predicate RootsKept(mem: Memory, mem1: Memory, c: nat, r: nat) {
    forall j: nat :: j < 512 && (r != c || Present(Cell(mem, r, j))) ==> Cell(mem1, r, j) == Cell(mem, r, j)
  }

  lemma RootsKeptTrans(a: Memory, b: Memory, d: Memory, c: nat, r: nat)
    requires RootsKept(a, b, c, r) && RootsKept(b, d, c, r)
    ensures RootsKept(a, d, c, r)
  {
  }

  lemma MapRoots(vm: Vm, c: nat, v: nat, e: Word, r: nat)
    requires TablesOk(vm) && IsRoot(vm, c) && IsRoot(vm, r) && v < VPN_LIMIT && Mappable(vm, c, v)
    ensures RootsKept(vm.pm.mem, Map(vm, c, v, e).0.pm.mem, c, r)
  {
    hide TablesOk, Map, Mappable;
    var op := MapPage(c, v, e);
    RootStep(vm, op, r);
    var vm1 := Step(vm, op);
    forall j: nat | j < 512 && (r != c || Present(Cell(vm.pm.mem, r, j)))
      ensures Cell(vm1.pm.mem, r, j) == Cell(vm.pm.mem, r, j)
    {
      assert RootEntryStep(vm, vm1, op, r, j);
    }
  }

  lemma PlaceRoots(k: Kernel, c: nat, q: Placement, r: nat)
    requires KernelOk(k) && IsRoot(k.vm, c) && IsRoot(k.vm, r) && PlacementOk(q) && Mappable(k.vm, c, q.vpn)
    ensures RootsKept(k.vm.pm.mem, Place(k, c, q).0.vm.pm.mem, c, r)
    ensures IsRoot(Place(k, c, q).0.vm, r)
  {
    PlaceCorrect(k, c, q);
    var f := Alloc(k.vm.pm).1;
    if f != 0 { FilledMapRoots(k.vm, c, q, r); }
  }

  lemma FilledMapRoots(vm: Vm, c: nat, q: Placement, r: nat)
    requires TablesOk(vm) && IsRoot(vm, c) && IsRoot(vm, r) && PlacementOk(q) && Alloc(vm.pm).1 != 0
    requires Mappable(vm, c, q.vpn)
    ensures RootsKept(vm.pm.mem, MapFilled(vm, c, q, Alloc(vm.pm).1).pm.mem, c, r)
  {
    hide Map, Walk, Filled, Mappable;
    FilledCorrect(vm, q.bytes);
    FilledMappable(vm, c, q.bytes, q.vpn);
    var vm1 := Filled(vm, q.bytes);
    MapRoots(vm1, c, q.vpn, LeafEntry(4096 * (Alloc(vm.pm).1 as int), q.flags), r);
    assert SameFrame(vm.pm.mem, vm1.pm.mem, r);
  }

  // ---- The ledger under placements ----

  // Page v leads to a page of the ledger.
  ghost predicate Recorded(k: Kernel, c: nat, v: nat) {
    var x := Walk(k.vm.pm.mem, c, 4, v);
    x.Page? && FrameOf(x.entry) in k.proc.ledger
  }

  lemma PlaceRecords(k: Kernel, c: nat, q: Placement)
    requires KernelOk(k) && IsRoot(k.vm, c) && PlacementOk(q) && Clear(k.vm.pm.mem, c, q.vpn)
    requires |k.proc.ledger| < LEDGER_MAX && PlaceDone(k, c, q)
    ensures Recorded(Place(k, c, q).0, c, q.vpn)
  {
    FilledFrame(k.vm, c, q);
  }

  // What placing pages through c, all recorded, does to another root r and to the ledger.
  ghost predicate Traced(k: Kernel, c: nat, r: nat, k1: Kernel, n: nat) {
    && IsRoot(k1.vm, r) && RootsKept(k.vm.pm.mem, k1.vm.pm.mem, c, r) && RootsKept(k.vm.pm.mem, k1.vm.pm.mem, c, c)
    && k.proc.ledger <= k1.proc.ledger && |k1.proc.ledger| <= |k.proc.ledger| + n
  }

  lemma TracedTrans(k: Kernel, c: nat, r: nat, k1: Kernel, n1: nat, k2: Kernel, n2: nat)
    requires Traced(k, c, r, k1, n1) && Traced(k1, c, r, k2, n2)
    ensures Traced(k, c, r, k2, n1 + n2)
  {
    RootsKeptTrans(k.vm.pm.mem, k1.vm.pm.mem, k2.vm.pm.mem, c, r);
    RootsKeptTrans(k.vm.pm.mem, k1.vm.pm.mem, k2.vm.pm.mem, c, c);
  }

  lemma PlaceTraced(k: Kernel, c: nat, q: Placement, r: nat)
    requires KernelOk(k) && IsRoot(k.vm, c) && IsRoot(k.vm, r) && PlacementOk(q) && Mappable(k.vm, c, q.vpn)
    ensures Traced(k, c, r, Place(k, c, q).0, 1)
  {
    PlaceRoots(k, c, q, r);
    PlaceRoots(k, c, q, c);
    hide MapFilled, TablesOk, Walk;
  }

  // A recorded page stays recorded while its walk and the ledger's entries are kept.
  lemma RecordedKept(k: Kernel, c: nat, k1: Kernel, v: nat)
    requires Recorded(k, c, v) && k.proc.ledger <= k1.proc.ledger
    requires Walk(k1.vm.pm.mem, c, 4, v) == Walk(k.vm.pm.mem, c, 4, v)
    ensures Recorded(k1, c, v)
  {
  }

  ghost predicate AllRecorded(k: Kernel, c: nat, qs: seq<Placement>, k1: Kernel) {
    forall q :: q in qs && Clear(k.vm.pm.mem, c, q.vpn) ==> Recorded(k1, c, q.vpn)
  }

  lemma {:induction false} PlaceAllTraced(k: Kernel, c: nat, qs: seq<Placement>, r: nat)
    requires KernelOk(k) && IsRoot(k.vm, c) && IsRoot(k.vm, r) && Placeable(k, c, qs)
    ensures var k1 := PlaceAll(k, c, qs).0;
            && Traced(k, c, r, k1, |qs|)
            && (|k.proc.ledger| + |qs| <= LEDGER_MAX && PlaceAllDone(k, c, qs) ==> AllRecorded(k, c, qs, k1))
    decreases |qs|
  {
    hide Walk, Place, Recorded, Traced, KernelOk, Placed, PlaceDone, Clear, Mappable, Kept, Placeable, PlacementOk;
    if qs == [] {
      TracedSelf(k, c, r);
    } else {
      var init, q := qs[..|qs| - 1], qs[|qs| - 1];
      PlaceableInit(k, c, qs);
      PlaceableSmall(q);
      PlaceAllTraced(k, c, init, r);
      PlaceAllKept(k, c, init);
      var (k1, ok) := PlaceAll(k, c, init);
      if ok {
        KeptKernel(k, c, k1);
        MappableKept(k, c, k1, q.vpn);
        PlaceAllWalk(k, c, init, q.vpn);
        SameClear(k.vm.pm.mem, k1.vm.pm.mem, c, q.vpn);
        TracedParts(k, c, r, k1, |init|);
        PlaceTraced(k1, c, q, r);
        TracedTrans(k, c, r, k1, |init|, Place(k1, c, q).0, 1);
        PlaceStepRecords(k, k1, c, init, q);
      } else {
        TracedLess(k, c, r, k1, |init|, |qs|);
        PlaceAllCorrect(k, c, init);
      }
    }
  }

  lemma TracedSelf(k: Kernel, c: nat, r: nat)
    requires IsRoot(k.vm, r)
    ensures Traced(k, c, r, k, 0)
  {
  }

  lemma TracedParts(k: Kernel, c: nat, r: nat, k1: Kernel, n: nat)
    requires Traced(k, c, r, k1, n)
    ensures IsRoot(k1.vm, r) && k.proc.ledger <= k1.proc.ledger && |k1.proc.ledger| <= |k.proc.ledger| + n
  {
  }

  lemma PlaceStepRecords(k: Kernel, k1: Kernel, c: nat, init: seq<Placement>, q: Placement)
    requires KernelOk(k1) && IsRoot(k1.vm, c) && PlacementOk(q) && Mappable(k1.vm, c, q.vpn)
    requires |k1.proc.ledger| <= |k.proc.ledger| + |init|
    requires Clear(k1.vm.pm.mem, c, q.vpn) <==> Clear(k.vm.pm.mem, c, q.vpn)
    requires Placeable(k, c, init) && forall p :: p in init ==> p.vpn != q.vpn
    requires |k.proc.ledger| + |init| <= LEDGER_MAX && PlaceAllDone(k, c, init) ==> AllRecorded(k, c, init, k1)
    ensures var k2 := Place(k1, c, q).0;
            |k.proc.ledger| + |init| + 1 <= LEDGER_MAX && PlaceAllDone(k, c, init) && PlaceDone(k1, c, q) ==>
              AllRecorded(k, c, init + [q], k2)
  {
    hide Walk, Recorded, Place, KernelOk, Mappable, Clear, PlaceDone;
    PlaceCorrect(k1, c, q);
    var k2 := Place(k1, c, q).0;
    if |k.proc.ledger| + |init| + 1 <= LEDGER_MAX && PlaceAllDone(k, c, init) && PlaceDone(k1, c, q) {
      if Clear(k.vm.pm.mem, c, q.vpn) { PlaceRecords(k1, c, q); }
      forall p | p in init && Clear(k.vm.pm.mem, c, p.vpn)
        ensures Recorded(k2, c, p.vpn)
      {
        PlaceWalk(k1, c, q, p.vpn);
        RecordedKept(k1, c, k2, p.vpn);
      }
    }
  }

  // ---- The segment loop ----

  ghost predicate SegRecorded(k: Kernel, c: nat, seg: Segment) {
    forall v: nat :: InSeg(seg, v) ==> Recorded(k, c, v)
  }

  lemma SegTraced(k: Kernel, c: nat, image: Image, seg: Segment, r: nat)
    requires KernelOk(k) && IsRoot(k.vm, c) && IsRoot(k.vm, r) && SegOk(image, seg) && SegMappable(k.vm, c, seg)
    ensures var qs := SegPages(image, seg, NumPages(seg));
            var k1 := PlaceAll(k, c, qs).0;
            && Traced(k, c, r, k1, NumPages(seg))
            && (SegClear(k.vm.pm.mem, c, seg) && |k.proc.ledger| + NumPages(seg) <= LEDGER_MAX ==>
                  PlaceAllDone(k, c, qs) ==> SegRecorded(k1, c, seg))
  {
    hide Walk, Recorded, Traced, KernelOk, PlaceAll, PlaceAllDone, SegPage, Clear, Mappable;
    var qs := SegPages(image, seg, NumPages(seg));
    SegPlaceable(k, c, image, seg);
    PlaceAllTraced(k, c, qs, r);
    var k1 := PlaceAll(k, c, qs).0;
    if |k.proc.ledger| + NumPages(seg) <= LEDGER_MAX && PlaceAllDone(k, c, qs) && SegClear(k.vm.pm.mem, c, seg) {
      forall v: nat | InSeg(seg, v)
        ensures Recorded(k1, c, v)
      {
        SegPageAt(image, seg, v);
        assert qs[v - FirstPage(seg)] in qs;
      }
    }
  }

  lemma SegPageAt(image: Image, seg: Segment, v: nat)
    requires FirstPage(seg) <= v
    ensures SegPage(image, seg, v - FirstPage(seg)).vpn == v
  {
  }

  // A recorded segment stays recorded while a page-disjoint one is loaded.
  lemma SegRecordedKept(k: Kernel, c: nat, image: Image, seg: Segment, other: Segment)
    requires KernelOk(k) && IsRoot(k.vm, c) && SegOk(image, seg) && SegMappable(k.vm, c, seg)
    requires SegOk(image, other) && SegApart(other, seg) && SegRecorded(k, c, other)
    ensures SegRecorded(PlaceAll(k, c, SegPages(image, seg, NumPages(seg))).0, c, other)
  {
    hide Walk, Recorded, KernelOk, PlaceAll, PlaceAllDone, AllHeld, SegMappable;
    SegLoaded(k, c, image, seg);
    PagesInRange(image, other);
    var k1 := PlaceAll(k, c, SegPages(image, seg, NumPages(seg))).0;
    forall v: nat | InSeg(other, v)
      ensures Recorded(k1, c, v)
    {
      SegWalk(k, c, image, seg, v);
      RecordedKept(k, c, k1, v);
    }
  }

  // Every segment that no entry stopped the walk to at k0 is recorded.
  ghost predicate SegsRecorded(k0: Kernel, k: Kernel, c: nat, segs: seq<Segment>) {
    forall i :: 0 <= i < |segs| ==> ClearRecorded(k0, k, c, segs[i])
  }

  ghost predicate ClearRecorded(k0: Kernel, k: Kernel, c: nat, seg: Segment) {
    SegClear(k0.vm.pm.mem, c, seg) ==> SegRecorded(k, c, seg)
  }

  lemma {:induction false} LoadSegmentsTraced(k: Kernel, c: nat, image: Image, segs: seq<Segment>, r: nat)
    requires KernelOk(k) && IsRoot(k.vm, c) && IsRoot(k.vm, r) && Loadable(k.vm, c, image, segs)
    ensures var k1 := LoadSegments(k, c, image, segs).0;
            && Traced(k, c, r, k1, TotalPages(segs))
            && (|k.proc.ledger| + TotalPages(segs) <= LEDGER_MAX && LoadDone(k, c, image, segs) ==>
                SegsRecorded(k, k1, c, segs))
    decreases |segs|
  {
    hide Walk, ClearRecorded, Traced, KernelOk, PlaceAll, PlaceAllDone, SegOk, SegMappable, SegApart, Grows,
         AllLoaded, Kept, Loadable;
    LoadableParts(k.vm, c, image, segs);
    if segs == [] {
      TracedSelf(k, c, r);
    } else {
      var init, seg := segs[..|segs| - 1], segs[|segs| - 1];
      LoadSegmentsTraced(k, c, image, init, r);
      LoadableParts(k.vm, c, image, init);
      LoadSegmentsKept(k, c, image, init);
      var (k1, ok) := LoadSegments(k, c, image, init);
      if ok {
        KeptKernel(k, c, k1);
        SegMappableKept(k, c, k1, image, seg);
        TracedParts(k, c, r, k1, TotalPages(init));
        LastSegTraced(k, k1, c, image, init, seg, r);
        var (k2, ok2) := PlaceAll(k1, c, SegPages(image, seg, NumPages(seg)));
        TracedRaised(k, c, r, k2, TotalPages(segs), seg);
        assert init + [seg] == segs;
        if SegsRecorded(k, k2, c, segs) { SegsRaised(k, k2, c, segs, seg); }
        SegLoaded(k1, c, image, seg);
      } else {
        TracedLess(k, c, r, k1, TotalPages(init), TotalPages(segs));
        LoadSegmentsResult(k, c, image, init);
      }
    }
  }

  lemma TracedLess(k: Kernel, c: nat, r: nat, k1: Kernel, n: nat, m: nat)
    requires Traced(k, c, r, k1, n) && n <= m
    ensures Traced(k, c, r, k1, m)
  {
  }

  lemma TracedRaised(k: Kernel, c: nat, r: nat, k1: Kernel, n: nat, seg: Segment)
    requires Traced(k, c, r, k1, n)
    ensures Traced(k, c, r, k1.(proc := RaiseHi(k1.proc, seg)), n)
  {
  }

  lemma SegsRaised(k0: Kernel, k: Kernel, c: nat, segs: seq<Segment>, seg: Segment)
    requires SegsRecorded(k0, k, c, segs)
    ensures SegsRecorded(k0, k.(proc := RaiseHi(k.proc, seg)), c, segs)
  {
    SegsSame(k0, k, k.(proc := RaiseHi(k.proc, seg)), c, segs);
  }

  // Only the space and the ledger matter.
  lemma SegsSame(k0: Kernel, k: Kernel, k1: Kernel, c: nat, segs: seq<Segment>)
    requires SegsRecorded(k0, k, c, segs) && k1.vm == k.vm && k.proc.ledger <= k1.proc.ledger
    ensures SegsRecorded(k0, k1, c, segs)
  {
    hide Walk, SegClear;
    forall i | 0 <= i < |segs|
      ensures ClearRecorded(k0, k1, c, segs[i])
    {
      assert ClearRecorded(k0, k, c, segs[i]);
      forall v: nat | InSeg(segs[i], v) && SegClear(k0.vm.pm.mem, c, segs[i])
        ensures Recorded(k1, c, v)
      {
        RecordedKept(k, c, k1, v);
      }
    }
  }

  // One more segment after init.
  lemma LastSegTraced(k: Kernel, k1: Kernel, c: nat, image: Image, init: seq<Segment>, seg: Segment, r: nat)
    requires KernelOk(k1) && IsRoot(k.vm, c) && IsRoot(k1.vm, c) && IsRoot(k1.vm, r) && Kept(k, c, k1)
    requires SegOk(image, seg) && SegMappable(k1.vm, c, seg)
    requires forall i :: 0 <= i < |init| ==> SegOk(image, init[i]) && SegApart(init[i], seg)
    requires Traced(k, c, r, k1, TotalPages(init)) && |k1.proc.ledger| <= |k.proc.ledger| + TotalPages(init)
    requires |k.proc.ledger| + TotalPages(init) <= LEDGER_MAX && LoadDone(k, c, image, init) ==>
               SegsRecorded(k, k1, c, init)
    ensures var qs := SegPages(image, seg, NumPages(seg));
            var k2 := PlaceAll(k1, c, qs).0;
            && Traced(k, c, r, k2, TotalPages(init) + NumPages(seg))
            && (LoadDone(k, c, image, init) && PlaceAllDone(k1, c, qs) ==>
                  |k.proc.ledger| + TotalPages(init) + NumPages(seg) <= LEDGER_MAX ==>
                    SegsRecorded(k, k2, c, init + [seg]))
  {
    hide *;
    SegTraced(k1, c, image, seg, r);
    var qs := SegPages(image, seg, NumPages(seg));
    var k2 := PlaceAll(k1, c, qs).0;
    TracedTrans(k, c, r, k1, TotalPages(init), k2, NumPages(seg));
    if |k.proc.ledger| + TotalPages(init) + NumPages(seg) <= LEDGER_MAX && LoadDone(k, c, image, init)
        && PlaceAllDone(k1, c, qs) {
      SegsMore(k, k1, c, image, init, seg);
    }
  }

  // The segments recorded so far and the one just recorded.
  lemma SegsMore(k: Kernel, k1: Kernel, c: nat, image: Image, init: seq<Segment>, seg: Segment)
    requires KernelOk(k1) && IsRoot(k.vm, c) && IsRoot(k1.vm, c) && Kept(k, c, k1) && SegOk(image, seg)
    requires SegMappable(k1.vm, c, seg)
    requires forall i :: 0 <= i < |init| ==> SegOk(image, init[i]) && SegApart(init[i], seg)
    requires SegsRecorded(k, k1, c, init)
    requires var k2 := PlaceAll(k1, c, SegPages(image, seg, NumPages(seg))).0; SegClear(k1.vm.pm.mem, c, seg) ==>
               SegRecorded(k2, c, seg)
    ensures SegsRecorded(k, PlaceAll(k1, c, SegPages(image, seg, NumPages(seg))).0, c, init + [seg])
  {
    hide SegRecorded, KernelOk, PlaceAll, SegOk, SegMappable, SegApart, SegClear, Kept, SegPages, NumPages;
    SegClearKept(k, c, k1, image, seg);
    var k2 := PlaceAll(k1, c, SegPages(image, seg, NumPages(seg))).0;
    var all := init + [seg];
    forall i | 0 <= i < |all|
      ensures ClearRecorded(k, k2, c, all[i])
    {
      if i < |init| {
        assert ClearRecorded(k, k1, c, init[i]);
        if SegClear(k.vm.pm.mem, c, init[i]) { SegRecordedKept(k1, c, image, seg, init[i]); }
      }
    }
  }

  // ---- sys_execve ----

  // The new root c next to the root r it was cloned from, mem0 being the memory before: r's entries are as
  // before, and c has those that were present.
  ghost predicate CloneEntries(mem0: Memory, mem: Memory, r: nat, c: nat) {
    forall j: nat :: j < 512 ==>
      Cell(mem, r, j) == Cell(mem0, r, j) && (Present(Cell(mem0, r, j)) ==> Cell(mem, c, j) == Cell(mem0, r, j))
  }

  lemma CloneThenTrace(k: Kernel, c: nat, vm1: Vm, k2: Kernel, n: nat)
    requires KernelOk(k) && (vm1, c) == Clone(k.vm, k.cr3) && c != 0
    requires Traced(k.(vm := vm1), c, k.cr3, k2, n)
    ensures c != k.cr3 && CloneEntries(k.vm.pm.mem, k2.vm.pm.mem, k.cr3, c)
  {
    CloneCorrect(k.vm, k.cr3);
    assert SameFrame(k.vm.pm.mem, vm1.pm.mem, k.cr3);
  }

  lemma LoadThenStackTraced(k: Kernel, c: nat, image: Image, segs: seq<Segment>, r: nat)
    requires KernelOk(k) && IsRoot(k.vm, c) && IsRoot(k.vm, r) && Loadable(k.vm, c, image, segs)
    requires Clear(k.vm.pm.mem, c, STACK_VPN)
    requires forall i :: 0 <= i < |segs| ==> StackApart(segs[i])
    ensures var k2 := LoadSegments(k, c, image, segs).0;
            var k3 := Place(k2, c, StackPage()).0;
            && Traced(k, c, r, k3, TotalPages(segs) + 1)
            && (|k.proc.ledger| + TotalPages(segs) + 1 <= LEDGER_MAX && LoadDone(k, c, image, segs) ==>
                SegsRecorded(k, k3, c, segs))
  {
    hide LoadSegments, LoadDone, Place, Loaded, TablesOk, Walk, Traced, Recorded, StackApart, KernelOk, SegMappable,
         Kept, SegRecorded, SegClear;
    LoadableParts(k.vm, c, image, segs);
    LoadSegmentsKept(k, c, image, segs);
    LoadSegmentsTraced(k, c, image, segs, r);
    var k2 := LoadSegments(k, c, image, segs).0;
    KeptKernel(k, c, k2);
    KeptClear(k, c, k2, STACK_VPN);
    TracedParts(k, c, r, k2, TotalPages(segs));
    PlaceTraced(k2, c, StackPage(), r);
    var k3 := Place(k2, c, StackPage()).0;
    TracedTrans(k, c, r, k2, TotalPages(segs), k3, 1);
    if |k.proc.ledger| + TotalPages(segs) + 1 <= LEDGER_MAX && LoadDone(k, c, image, segs) {
      forall i | 0 <= i < |segs|
        ensures ClearRecorded(k, k3, c, segs[i])
      {
        assert ClearRecorded(k, k2, c, segs[i]);
        LoadableAt(k.vm, c, image, segs, i);
        if SegClear(k.vm.pm.mem, c, segs[i]) { SegUnderStack(k2, c, image, segs[i]); }
      }
    }
  }

  lemma LoadableAt(vm: Vm, c: nat, image: Image, segs: seq<Segment>, i: nat)
    requires Loadable(vm, c, image, segs) && i < |segs|
    ensures SegOk(image, segs[i])
  {
  }

  lemma SegUnderStack(k: Kernel, c: nat, image: Image, seg: Segment)
    requires KernelOk(k) && IsRoot(k.vm, c) && Clear(k.vm.pm.mem, c, STACK_VPN)
    requires SegOk(image, seg) && StackApart(seg) && SegRecorded(k, c, seg)
    ensures SegRecorded(Place(k, c, StackPage()).0, c, seg)
  {
    hide Place, Walk, Recorded;
    PlaceCorrect(k, c, StackPage());
    PagesInRange(image, seg);
    forall v: nat | InSeg(seg, v)
      ensures Recorded(Place(k, c, StackPage()).0, c, v)
    {
      PlaceWalk(k, c, StackPage(), v);
      RecordedKept(k, c, Place(k, c, StackPage()).0, v);
    }
  }

  // A successful exec: the running root keeps its entries, the new root has those that were present, and if
  // memory lasted and the ledger has room every page of a clear segment leads to a recorded page.
  lemma ExecTraced(k: Kernel, image: Image, segs: seq<Segment>)
    requires KernelOk(k) && ExecLegal(k, image, segs) && Loadable(k.vm, k.cr3, image, segs)
    requires (forall i :: 0 <= i < |segs| ==> StackApart(segs[i])) && Exec(k, image, segs).1
    ensures var k1 := Exec(k, image, segs).0;
            var c := k1.proc.pml4;
            && c != 0 && c != k.cr3 && k1.kernelRoot == k.kernelRoot && k1.cr3 == k.cr3
            && CloneEntries(k.vm.pm.mem, k1.vm.pm.mem, k.cr3, c)
            && (|k.proc.ledger| + TotalPages(segs) + 1 <= LEDGER_MAX && ExecDone(k, image, segs) ==>
                  forall i :: 0 <= i < |segs| && SegClear(k.vm.pm.mem, k.cr3, segs[i]) ==> SegRecorded(k1, c, segs[i]))
  {
    hide *;
    var k0 := k.(proc := k.proc.(brkStart := 0, brkCurr := 0));
    var (vm1, c) := Clone(k0.vm, k0.cr3);
    var kc := k0.(vm := vm1);
    var k2 := LoadSegments(kc, c, image, segs).0;
    var k3 := Place(k2, c, StackPage()).0;
    var k1 := k3.(proc := SetRoot(k3.proc, c));
    ExecParts(k, image, segs);
    ExecLegalSame(k, k0, image, segs);
    CloneIsRoot(k0, image, segs);
    LoadThenStackTraced(kc, c, image, segs, k0.cr3);
    CloneThenTrace(k0, c, vm1, k3, TotalPages(segs) + 1);
    if |k.proc.ledger| + TotalPages(segs) + 1 <= LEDGER_MAX && ExecDone(k, image, segs) {
      Adopted(k3, c);
      SegsSame(kc, k3, k1, c, segs);
      SegsClearRecorded(kc, k1, c, segs);
    }
  }

  lemma Adopted(k: Kernel, c: nat)
    ensures var k1 := k.(proc := SetRoot(k.proc, c)); k1.vm == k.vm && k.proc.ledger <= k1.proc.ledger
  {
  }

  lemma SegsClearRecorded(k0: Kernel, k: Kernel, c: nat, segs: seq<Segment>)
    requires SegsRecorded(k0, k, c, segs)
    ensures forall i :: 0 <= i < |segs| && SegClear(k0.vm.pm.mem, c, segs[i]) ==> SegRecorded(k, c, segs[i])
  {
    hide SegClear, SegRecorded;
    forall i | 0 <= i < |segs|
      ensures SegClear(k0.vm.pm.mem, c, segs[i]) ==> SegRecorded(k, c, segs[i])
    {
      assert ClearRecorded(k0, k, c, segs[i]);
    }
  }

  lemma ExecLegalSame(k: Kernel, k0: Kernel, image: Image, segs: seq<Segment>)
    requires ExecLegal(k, image, segs) && k0.vm == k.vm && k0.cr3 == k.cr3
    ensures ExecLegal(k0, image, segs)
  {
  }

  // The stages of a successful exec.
  lemma ExecParts(k: Kernel, image: Image, segs: seq<Segment>)
    requires KernelOk(k) && ExecLegal(k, image, segs) && Exec(k, image, segs).1
    ensures var k0 := k.(proc := k.proc.(brkStart := 0, brkCurr := 0));
            var (vm1, c) := Clone(k0.vm, k0.cr3);
            var kc := k0.(vm := vm1);
            var (k2, ok) := LoadSegments(kc, c, image, segs);
            var (k3, ok3) := Place(k2, c, StackPage());
            var k1 := k3.(proc := SetRoot(k3.proc, c));
            && c != 0 && ok && ok3 && Exec(k, image, segs).0 == k1 && k1.vm == k3.vm && k1.proc.pml4 == c
            && KernelOk(k0) && k1.kernelRoot == k.kernelRoot && k1.cr3 == k.cr3
            && (ExecDone(k, image, segs) ==> LoadDone(kc, c, image, segs))
            && Kept(kc, c, k3) && c !in kc.proc.ledger && Live(vm1.pm, c)
  {
    var k0 := k.(proc := k.proc.(brkStart := 0, brkCurr := 0));
    assert KernelOk(k0);
    CloneKernelOk(k0);
    var (vm1, c) := Clone(k0.vm, k0.cr3);
    CloneWalks(k0.vm, k0.cr3);
    ClonedSegsOk(k0.vm, k0.cr3, image, segs);
    hide Kept, KernelOk, LoadSegments, LoadDone, SegsOk;
    ExecLoad(k0.(vm := vm1), c, image, segs);
    KeptSame(k0.(vm := vm1), c, LoadSegments(k0.(vm := vm1), c, image, segs).0);
    KeptSame(k0.(vm := vm1), c, Place(LoadSegments(k0.(vm := vm1), c, image, segs).0, c, StackPage()).0);
  }

  lemma KeptSame(k: Kernel, c: nat, k1: Kernel)
    requires Kept(k, c, k1)
    ensures k1.kernelRoot == k.kernelRoot && k1.cr3 == k.cr3
  {
  }

  lemma CloneIsRoot(k: Kernel, image: Image, segs: seq<Segment>)
    requires KernelOk(k) && Clone(k.vm, k.cr3).1 != 0 && Loadable(k.vm, k.cr3, image, segs)
    requires ExecLegal(k, image, segs)
    ensures var (vm1, c) := Clone(k.vm, k.cr3);
            && KernelOk(k.(vm := vm1)) && IsRoot(vm1, c) && IsRoot(vm1, k.cr3) && Loadable(vm1, c, image, segs)
            && Clear(vm1.pm.mem, c, STACK_VPN)
            && forall i :: 0 <= i < |segs| ==>
                (SegClear(vm1.pm.mem, c, segs[i]) <==> SegClear(k.vm.pm.mem, k.cr3, segs[i]))
  {
    hide Loadable, SegClear;
    CloneCorrect(k.vm, k.cr3);
    CloneKernelOk(k);
    CloneWalks(k.vm, k.cr3);
    ClonedLoadable(k.vm, k.cr3, image, segs);
  }

  // ---- The ledger after sys_execve ----

  function Cap(n: nat): nat { if n > LEDGER_MAX then LEDGER_MAX else n }

  lemma {:induction false} PlaceAllLedger(k: Kernel, c: nat, qs: seq<Placement>)
    requires |k.proc.ledger| <= LEDGER_MAX && PlaceAll(k, c, qs).1
    ensures |PlaceAll(k, c, qs).0.proc.ledger| == Cap(|k.proc.ledger| + |qs|)
  {
    if qs == [] {
    } else {
      PlaceAllLedger(k, c, qs[..|qs| - 1]);
    }
  }

  lemma {:induction false} LoadSegmentsLedger(k: Kernel, c: nat, image: Image, segs: seq<Segment>)
    requires |k.proc.ledger| <= LEDGER_MAX && LoadSegments(k, c, image, segs).1
    ensures |LoadSegments(k, c, image, segs).0.proc.ledger| == Cap(|k.proc.ledger| + TotalPages(segs))
  {
    hide PlaceAll;
    if segs == [] {
    } else {
      var init, seg := segs[..|segs| - 1], segs[|segs| - 1];
      LoadSegmentsLedger(k, c, image, init);
      PlaceAllLedger(LoadSegments(k, c, image, init).0, c, SegPages(image, seg, NumPages(seg)));
    }
  }

  // Exactly when the ledger has room for the image, the stack page and the root is the root recorded.
  lemma RootRecordedExactly(k: Kernel, image: Image, segs: seq<Segment>)
    requires KernelOk(k) && ExecLegal(k, image, segs) && Exec(k, image, segs).1
    ensures var k1 := Exec(k, image, segs).0;
            k1.proc.pml4 in k1.proc.ledger <==> |k.proc.ledger| + TotalPages(segs) + 1 < 256
  {
    hide Kept, KernelOk, LoadSegments, LoadDone, Clone, Place, Exec, ExecDone, ExecLegal;
    ExecParts(k, image, segs);
    var k0 := k.(proc := k.proc.(brkStart := 0, brkCurr := 0));
    var (vm1, c) := Clone(k0.vm, k0.cr3);
    var kc := k0.(vm := vm1);
    var k2 := LoadSegments(kc, c, image, segs).0;
    LedgerFits(k0);
    LoadSegmentsLedger(kc, c, image, segs);
    StackLedger(k2, c);
    FreshLedger(kc, c, Place(k2, c, StackPage()).0);
  }

  // While there is room the ledger grows by the image's pages, the stack page and the root, in this order.
  lemma RootRecordedLast(k: Kernel, image: Image, segs: seq<Segment>)
    requires KernelOk(k) && ExecLegal(k, image, segs) && Exec(k, image, segs).1
    requires |k.proc.ledger| + TotalPages(segs) + 1 < 256
    ensures var k1 := Exec(k, image, segs).0;
            var n := |k1.proc.ledger|;
            n == |k.proc.ledger| + TotalPages(segs) + 2 && k1.proc.ledger[n - 1] == k1.proc.pml4
  {
    hide Kept, KernelOk, LoadSegments, LoadDone, Clone, Place, Exec, ExecDone, ExecLegal;
    ExecParts(k, image, segs);
    var k0 := k.(proc := k.proc.(brkStart := 0, brkCurr := 0));
    var (vm1, c) := Clone(k0.vm, k0.cr3);
    var kc := k0.(vm := vm1);
    LedgerFits(k0);
    LoadSegmentsLedger(kc, c, image, segs);
    StackLedger(LoadSegments(kc, c, image, segs).0, c);
  }

  // So, if the program makes no break call, the page handed out first after its exit is the root it ran on.
  lemma RootReusedFirst(k: Kernel, image: Image, segs: seq<Segment>)
    requires KernelOk(k) && ExecLegal(k, image, segs) && Exec(k, image, segs).1
    requires |k.proc.ledger| + TotalPages(segs) + 1 < 256
    ensures Alloc(Exit(EnterUser(Exec(k, image, segs).0)).vm.pm).1 == Exec(k, image, segs).0.proc.pml4
  {
    hide *;
    var k1 := Exec(k, image, segs).0;
    ExecOk(k, image, segs);
    ExecParts(k, image, segs);
    RootRecordedLast(k, image, segs);
    EnterKeeps(k1);
    ExitOrder(EnterUser(k1));
    FirstOut(Exit(EnterUser(k1)).vm.pm);
  }

  lemma FirstOut(s: Pmm.State)
    ensures |s.free| > 0 ==> Alloc(s).1 == s.free[0]
  {
  }

  lemma LedgerFits(k: Kernel)
    requires KernelOk(k)
    ensures |k.proc.ledger| <= LEDGER_MAX
  {
  }

  lemma StackLedger(k: Kernel, c: nat)
    requires |k.proc.ledger| <= LEDGER_MAX && Place(k, c, StackPage()).1
    ensures |Place(k, c, StackPage()).0.proc.ledger| == Cap(|k.proc.ledger| + 1)
  {
  }

  lemma FreshLedger(k: Kernel, c: nat, k1: Kernel)
    requires Kept(k, c, k1) && c !in k.proc.ledger && Live(k.vm.pm, c)
    ensures c !in k1.proc.ledger
  {
  }

  // A break call records pages that were not live, and forgets none.
  lemma BrkLedger(k: Kernel, addr: nat, f: nat)
    requires KernelOk(k) && ProcLegal(k, BrkOp(addr)) && Live(k.vm.pm, f)
    ensures var k1 := Brk(k, addr).0;
            && (f in k1.proc.ledger <==> f in k.proc.ledger) && Live(k1.vm.pm, f)
            && k1.cr3 == k.cr3 && k1.proc.pml4 == k.proc.pml4
  {
    hide PlaceAll, PlaceAllDone, RoundUp, HeapPages, Mappable, TablesOk, LedgerOk, AllHeld, Live;
    var k0 := k.(proc := StartHeap(k.proc));
    var top := Target(k0.proc, addr);
    assert KernelOk(k0);
    if addr != 0 && top > k0.proc.brkCurr {
      var qs := HeapPages(k0.proc.brkCurr, top);
      LegalGrowth(k, addr);
      HeapPlaceable(k0, top);
      PlaceAllCorrect(k0, k0.proc.pml4, qs);
      PlaceAllKept(k0, k0.proc.pml4, qs);
      GrowsLive(k0.vm, PlaceAll(k0, k0.proc.pml4, qs).0.vm);
    }
  }

  ghost predicate BrkSafeRun(k: Kernel, addrs: seq<nat>) {
    || addrs == []
    || (BrkSafeRun(k, addrs[..|addrs| - 1]) && ProcLegal(BrkRun(k, addrs[..|addrs| - 1]), BrkOp(addrs[|addrs| - 1])))
  }

  lemma {:induction false} BrkRunLedger(k: Kernel, addrs: seq<nat>, f: nat)
    requires KernelOk(k) && BrkSafeRun(k, addrs) && Live(k.vm.pm, f)
    ensures var k1 := BrkRun(k, addrs);
            && KernelOk(k1) && (f in k1.proc.ledger <==> f in k.proc.ledger) && Live(k1.vm.pm, f)
            && k1.cr3 == k.cr3 && k1.proc.pml4 == k.proc.pml4
  {
    hide KernelOk, ProcLegal, Brk, Live;
    if addrs == [] {
    } else {
      var init, addr := addrs[..|addrs| - 1], addrs[|addrs| - 1];
      BrkRunLedger(k, init, f);
      BrkLedger(BrkRun(k, init), addr, f);
      BrkKeepsKernel(BrkRun(k, init), addr);
    }
  }

  // So, for a program that was started and has moved its break any number of times: while it exits, the pages of
  // slot 0 are translated as before if and only if its root was not recorded or they were not translated.
  lemma ExitingRootExactly(k: Kernel, image: Image, segs: seq<Segment>, addrs: seq<nat>, v: nat)
    requires KernelOk(k) && ExecLegal(k, image, segs) && Exec(k, image, segs).1 && v < VPN_LIMIT && Idx(v, 4) == 0
    requires BrkSafeRun(EnterUser(Exec(k, image, segs).0), addrs)
    ensures var k1 := BrkRun(EnterUser(Exec(k, image, segs).0), addrs);
            var x := Walk(k1.vm.pm.mem, k1.cr3, 4, v);
            Walk(ReleaseAll(k1.vm, k1.proc.ledger).pm.mem, k1.cr3, 4, v) == x
            <==> |k.proc.ledger| + TotalPages(segs) + 1 >= 256 || x == Absent
  {
    hide *;
    var k1 := EnterUser(Exec(k, image, segs).0);
    ExecOk(k, image, segs);
    ExecParts(k, image, segs);
    RootRecordedExactly(k, image, segs);
    EnterKeeps(Exec(k, image, segs).0);
    ExecRootLive(k, image, segs);
    BrkRunLedger(k1, addrs, k1.cr3);
    ReleasedRootExactly(BrkRun(k1, addrs), v);
  }

  lemma ExecRootLive(k: Kernel, image: Image, segs: seq<Segment>)
    requires KernelOk(k) && ExecLegal(k, image, segs) && Exec(k, image, segs).1
    ensures var k1 := Exec(k, image, segs).0; Live(k1.vm.pm, k1.proc.pml4)
  {
    hide LoadSegments, LoadDone, Place, Clone, Exec, ExecDone, ExecLegal, KernelOk, Live;
    ExecParts(k, image, segs);
  }

  // ---- sys_exit ----

  // A walk depends on the root through one entry.
  lemma TopEntry(mem: Memory, r: nat, c: nat, v: nat)
    ensures Cell(mem, r, Idx(v, 4)) == Cell(mem, c, Idx(v, 4)) ==> Walk(mem, r, 4, v) == Walk(mem, c, 4, v)
    ensures !Present(Cell(mem, r, Idx(v, 4))) ==> Walk(mem, r, 4, v) == Absent
  {
  }

  // Run a program from the kernel's own root and exit: the kernel's root has nothing at a page of the image
  // again if and only if the page's slot was absent before. Otherwise it goes on translating the page, to a
  // page that is no longer live.
  lemma ExitForgetsExactly(k: Kernel, image: Image, segs: seq<Segment>, i: nat, v: nat)
    requires KernelOk(k) && ExecLegal(k, image, segs) && Loadable(k.vm, k.cr3, image, segs) && k.cr3 == k.kernelRoot
    requires (forall j :: 0 <= j < |segs| ==> StackApart(segs[j])) && ExecDone(k, image, segs)
    requires |k.proc.ledger| + TotalPages(segs) + 1 <= LEDGER_MAX
    requires i < |segs| && InSeg(segs[i], v) && SegClear(k.vm.pm.mem, k.cr3, segs[i])
    ensures var k3 := Exit(EnterUser(Exec(k, image, segs).0));
            var x := Walk(k3.vm.pm.mem, k3.cr3, 4, v);
            && (x == Absent <==> !Present(Cell(k.vm.pm.mem, k.kernelRoot, Idx(v, 4))))
            && (x != Absent ==> x.Page? && !Live(k3.vm.pm, FrameOf(x.entry)))
  {
    hide *;
    var k1 := Exec(k, image, segs).0;
    var c, j := k1.proc.pml4, Idx(v, 4);
    ExecHolds(k, image, segs);
    ExecTraced(k, image, segs);
    ExecOk(k, image, segs);
    SegmentPages(k.vm, k.cr3, image, segs, i, v);
    EnterKeeps(k1);
    ExitReleases(EnterUser(k1), v);
    EntriesAt(k.vm.pm.mem, k1.vm.pm.mem, k.cr3, c, v);
    TopEntry(k1.vm.pm.mem, k.cr3, c, v);
    RecordedAt(k1, c, segs[i], v);
  }

  lemma SegmentPages(vm: Vm, r: nat, image: Image, segs: seq<Segment>, i: nat, v: nat)
    requires Loadable(vm, r, image, segs) && i < |segs| && InSeg(segs[i], v)
    ensures v < VPN_LIMIT
  {
    PagesInRange(image, segs[i]);
  }

  lemma EnterKeeps(k: Kernel)
    requires KernelOk(k) && k.proc.pml4 != 0
    ensures KernelOk(EnterUser(k)) && EnterUser(k).proc == k.proc && EnterUser(k).vm == k.vm
    ensures EnterUser(k).kernelRoot == k.kernelRoot && EnterUser(k).cr3 == k.proc.pml4
  {
  }

  lemma EntriesAt(mem0: Memory, mem: Memory, r: nat, c: nat, v: nat)
    requires CloneEntries(mem0, mem, r, c)
    ensures Cell(mem, r, Idx(v, 4)) == Cell(mem0, r, Idx(v, 4))
    ensures Present(Cell(mem0, r, Idx(v, 4))) ==> Cell(mem, c, Idx(v, 4)) == Cell(mem, r, Idx(v, 4))
  {
  }

  lemma RecordedAt(k: Kernel, c: nat, seg: Segment, v: nat)
    requires SegRecorded(k, c, seg) && InSeg(seg, v)
    ensures var x := Walk(k.vm.pm.mem, c, 4, v); x.Page? && FrameOf(x.entry) in k.proc.ledger && x != Absent
  {
    assert Recorded(k, c, v);
  }
}
