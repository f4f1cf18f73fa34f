// The process record of proc.c and the memory system calls of syscall.c, updating machine and process in
// place. Each method computes the step of the same name in Placing, Loader, Heap or Lifecycle.
module Syscalls {
  import opened Words
  import opened Pmm
  import opened PageTables
  import opened LowPages
  import opened AddressSpaces
  import opened Placing
  import opened Loader
  import opened Heap
  import opened Lifecycle
  import opened Machines

  class Process {
    var pml4Phys: Word
    const allocPages: array<Word>
    var allocCount: nat
    var brkStart: Word
    var brkCurr: Word
    var imageHi: Word

    ghost predicate Rep()
      reads this, allocPages
    {
      && allocPages.Length == LEDGER_MAX && allocCount <= LEDGER_MAX
      && pml4Phys % 4096 == 0
      && (forall i :: 0 <= i < allocCount ==> allocPages[i] % 4096 == 0)
    }

    ghost function Ledger(): (r: seq<nat>)
      requires Rep()
      reads this, allocPages
    {
      Frames(allocPages[..allocCount])
    }

    ghost function Abs(): Proc
      requires Rep()
      reads this, allocPages
    {
      Proc(pml4Phys / 4096, Ledger(), brkStart, brkCurr, imageHi)
    }

    // proc_init
    constructor ()
      ensures Rep() && Abs() == Proc(0, [], 0, 0, 0) && fresh(allocPages)
    {
      pml4Phys, brkStart, brkCurr, imageHi := 0, 0, 0, 0;
      allocPages := new Word[LEDGER_MAX](_ => 0);
      allocCount := 0;
    }

    // proc_add_allocated_page
    method AddAllocatedPage(phys: Word) returns (r: int)
      requires Rep() && phys % 4096 == 0
      modifies this`allocCount, allocPages
      ensures Rep() && Abs() == Record(old(Abs()), phys / 4096)
      ensures r == if |old(Ledger())| >= 256 then -1 else 0
    {
      if allocCount >= LEDGER_MAX { return -1; }
      allocPages[allocCount] := phys;
      allocCount := allocCount + 1;
      assert allocPages[..allocCount] == old(allocPages[..allocCount]) + [phys];
      r := 0;
    }

    // proc_set_pml4
    method SetPml4(phys: Word)
      requires Rep() && phys % 4096 == 0
      modifies this`pml4Phys
      ensures Rep() && Abs() == old(Abs()).(pml4 := phys / 4096)
    {
      pml4Phys := phys;
    }

    // proc_free_allocated_pages
    method FreeAllocatedPages()
      requires Rep()
      modifies this`allocCount
      ensures Rep() && Abs() == old(Abs()).(ledger := [])
    {
      allocCount := 0;
    }
  }

  function Frames(pages: seq<Word>): (r: seq<nat>)
    ensures |r| == |pages| && forall i :: 0 <= i < |r| ==> r[i] == pages[i] / 4096
  {
    seq<nat>(|pages|, i requires 0 <= i < |pages| => pages[i] / 4096)
  }

  ghost predicate Ready(m: Machine, p: Process)
    reads m, m.ram, p, p.allocPages
    ensures Ready(m, p) ==> m.Rep() && p.Rep()
  {
    m.Valid() && p.Rep() && m.ram != p.allocPages
  }

  ghost function State(m: Machine, p: Process): Kernel
    requires Ready(m, p)
    reads m, m.ram, p, p.allocPages
  {
    Kernel(m.Space(), m.cr3 / 4096, m.kernelCr3 / 4096, p.Abs())
  }

  // Allocates a page, zeroes it again when asked, and copies bytes to its start.
  method FilledPage(m: Machine, bytes: seq<Byte>, rezero: bool) returns (phys: Word)
    requires m.Valid() && |bytes| <= 4096
    modifies m`pmmCur, m`pmmEnd, m`pmmFreeList, m`free, m.ram
    ensures m.Valid() && phys == 4096 * (Alloc(old(m.Pm())).1 as int)
    ensures m.Space() == if phys == 0 then old(m.Space()) else Filled(old(m.Space()), bytes)
  {
    hide *;
    m.SpaceIs();
    m.ValidIs();
    FillPlan(m.Space(), bytes);
    phys := m.PmmAlloc();
    if phys != 0 {
      if rezero {
        m.ZeroPage(phys);
      }
      m.CopyBytes(phys, bytes);
    }
    m.SpaceIs();
    m.ValidIs();
  }

  lemma FillPlan(vm: Vm, bytes: seq<Byte>)
    requires TablesOk(vm) && |bytes| <= 4096
    ensures var (pm, f) := Alloc(vm.pm);
            && PagesOk(vm.pm)
            && (f == 0 ==> pm == vm.pm)
            && (f != 0 ==>
                  && f * 4096 / 4096 == f
                  && ZeroFrame(pm.mem, f) == pm.mem
                  && Filled(vm, bytes) == vm.(pm := pm.(mem := PutBytes(pm.mem, 4096 * f, bytes)))
                  && TablesOk(Filled(vm, bytes)))
  {
    AllocCorrect(vm.pm);
    var f := Alloc(vm.pm).1;
    if f != 0 {
      FilledCorrect(vm, bytes);
      ZeroAgain(vm.pm);
    }
  }

  lemma ZeroAgain(s: Pmm.State)
    ensures Alloc(s).1 != 0 ==> ZeroFrame(Alloc(s).0.mem, Alloc(s).1) == Alloc(s).0.mem
  {
    ZeroTwice(s.mem, Alloc(s).1);
  }

  // Allocate, fill, map, record: the body of the page loops of sys_execve and sys_brk.
  method PlacePage(m: Machine, p: Process, root: Word, virt: Word, bytes: seq<Byte>, flags: Flags,
      rezero: bool) returns (ok: bool)
    requires Ready(m, p) && TablesOk(m.Space()) && root % 4096 == 0 && IsRoot(m.Space(), root / 4096)
    requires virt % 4096 == 0 && PlacementOk(Placement(virt / 4096, bytes, flags))
    requires Mappable(m.Space(), root / 4096, virt / 4096)
    modifies m`pmmCur, m`pmmEnd, m`pmmFreeList, m`free, m`roles, m.ram, p`allocCount, p.allocPages
    ensures Ready(m, p)
    ensures (State(m, p), ok) == Place(old(State(m, p)), root / 4096, Placement(virt / 4096, bytes, flags))
  {
    hide TablesOk, PagesOk, Alloc, Filled, Machine.Valid, Machine.Pm, Machine.Space, Machine.Rep, Place, Map, Record,
         Walk, Mappable, Followable;
    ghost var k, q := State(m, p), Placement(virt / 4096, bytes, flags);
    PlacePlan(k, root / 4096, q);
    m.SpaceIs();
    m.MemIs();
    var phys := FilledPage(m, bytes, rezero);
    m.SpaceIs();
    m.MemIs();
    m.ValidIs();
    if phys == 0 { return false; }
    var done := m.VmMapPagePml4(root, virt, phys, flags);
    m.ValidIs();
    var r := p.AddAllocatedPage(phys);
    ok := true;
  }

  lemma PlacePlan(k: Kernel, root: nat, q: Placement)
    requires TablesOk(k.vm) && IsRoot(k.vm, root) && PlacementOk(q) && Mappable(k.vm, root, q.vpn)
    ensures var f := Alloc(k.vm.pm).1;
            && 4096 * (f as int) / 4096 == f && q.vpn < VPN_LIMIT && |q.bytes| <= 4096
            && (f == 0 ==> Place(k, root, q) == (k, false))
            && (f != 0 ==>
                  var vm0 := Filled(k.vm, q.bytes);
                  var vm1 := Map(vm0, root, q.vpn, LeafEntry(4096 * (f as int), q.flags)).0;
                  && PagesOk(vm0.pm) && Followable(vm0.pm, root, 4, q.vpn) && TablesOk(vm1)
                  && Place(k, root, q) == (k.(vm := vm1, proc := Record(k.proc, f)), true))
  {
    if Alloc(k.vm.pm).1 != 0 {
      PlaceIs(k, root, q);
      FilledMappable(k.vm, root, q.bytes, q.vpn);
      hide Filled, Map, Place, Mappable;
      MappableFollowable(Filled(k.vm, q.bytes), root, q.vpn);
      MapCorrect(Filled(k.vm, q.bytes), root, q.vpn, LeafEntry(4096 * (Alloc(k.vm.pm).1 as int), q.flags));
    }
  }

  lemma PlaceIs(k: Kernel, root: nat, q: Placement)
    ensures var f := Alloc(k.vm.pm).1;
            f != 0 ==> Place(k, root, q) ==
                       (k.(vm := Map(Filled(k.vm, q.bytes), root, q.vpn, LeafEntry(4096 * (f as int), q.flags)).0,
                           proc := Record(k.proc, f)), true)
  {
  }

  lemma StateIs(m: Machine, p: Process)
    requires Ready(m, p)
    ensures State(m, p) == Kernel(m.Space(), m.cr3 / 4096, m.kernelCr3 / 4096, p.Abs())
    ensures m.Space().pm.mem == m.ram[..] && m.Valid()
  {
  }

  // ---- Page loops ----

  lemma PlaceStep(k: Kernel, root: nat, qs: seq<Placement>, n: nat)
    requires KernelOk(k) && IsRoot(k.vm, root) && SafeToPlace(k.vm, root, qs) && n < |qs|
    requires PlaceAll(k, root, qs[..n]).1
    ensures var k1 := PlaceAll(k, root, qs[..n]).0;
            && KernelOk(k1) && TablesOk(k1.vm) && IsRoot(k1.vm, root) && PlacementOk(qs[n])
              && Mappable(k1.vm, root, qs[n].vpn)
            && PlaceAll(k, root, qs[..n + 1]) == Place(k1, root, qs[n])
  {
    hide Kept, KernelOk, Mappable, Place;
    assert qs[n] in qs && qs[..n + 1][..n] == qs[..n];
    assert forall q :: q in qs[..n] ==> q in qs;
    PlaceAllKept(k, root, qs[..n]);
    KeptKernel(k, root, PlaceAll(k, root, qs[..n]).0);
    KernelTables(PlaceAll(k, root, qs[..n]).0);
    MappableKept(k, root, PlaceAll(k, root, qs[..n]).0, qs[n].vpn);
  }

  // A page that could not be allocated ends the sequence.
  lemma {:induction false} PlaceAllStops(k: Kernel, root: nat, qs: seq<Placement>, n: nat)
    requires n <= |qs|
    requires !PlaceAll(k, root, qs[..n]).1
    ensures PlaceAll(k, root, qs) == (PlaceAll(k, root, qs[..n]).0, false)
    decreases |qs|
  {
    if n == |qs| {
      assert qs[..n] == qs;
    } else {
      assert qs[..|qs| - 1][..n] == qs[..n];
      PlaceAllStops(k, root, qs[..|qs| - 1], n);
    }
  }

  // One page of a segment: the part of it that overlaps the file is copied.
  method LoadPage(m: Machine, p: Process, root: Word, image: Image, seg: Segment, page: nat) returns (ok: bool)
    requires Ready(m, p) && root % 4096 == 0 && IsRoot(m.Space(), root / 4096)
    requires SegOk(image, seg) && page < NumPages(seg) && FirstPage(seg) + NumPages(seg) <= VPN_LIMIT
    requires Mappable(m.Space(), root / 4096, FirstPage(seg) + page)
    modifies m`pmmCur, m`pmmEnd, m`pmmFreeList, m`free, m`roles, m.ram, p`allocCount, p.allocPages
    ensures Ready(m, p)
    ensures (State(m, p), ok) == Place(old(State(m, p)), root / 4096, SegPage(image, seg, page))
  {
    hide *;
    var base := seg.vaddr / 4096 * 4096;
    var delta := seg.vaddr - base;
    var filesz := seg.filesz + delta;
    var flags: Flags := if seg.flags / 2 % 2 == 1 then 7 else 5;
    var off := page * 4096;
    var bytes := [];
    PageCount(seg);
    FileSlice(image, seg, page);
    if off < filesz {
      var copy := if filesz - off > 4096 then 4096 else filesz - off;
      bytes := image[seg.offset + off - delta..seg.offset + off - delta + copy];
    }
    PageAt(image, seg, page, bytes);
    ReadyTables(m, p);
    ok := PlacePage(m, p, root, base + off, bytes, flags, true);
  }

  lemma ReadyTables(m: Machine, p: Process)
    requires Ready(m, p)
    ensures TablesOk(m.Space())
  {
  }

  // The page loop of one segment.
  method LoadSegment(m: Machine, p: Process, root: Word, image: Image, seg: Segment) returns (ok: bool)
    requires Ready(m, p) && KernelOk(State(m, p)) && root % 4096 == 0 && IsRoot(m.Space(), root / 4096)
    requires SegOk(image, seg) && SegMappable(m.Space(), root / 4096, seg)
    modifies m`pmmCur, m`pmmEnd, m`pmmFreeList, m`free, m`roles, m.ram, p`allocCount, p.allocPages
    ensures Ready(m, p)
    ensures (State(m, p), ok) == PlaceAll(old(State(m, p)), root / 4096, SegPages(image, seg, NumPages(seg)))
  {
    hide *;
    var memsz := seg.memsz + seg.vaddr % 4096;
    var numPages := (memsz + 4095) / 4096;
    PageCount(seg);
    ghost var k, qs := State(m, p), SegPages(image, seg, numPages);
    StateIs(m, p);
    SegmentPlan(k, root / 4096, image, seg);
    PlaceNone(k, root / 4096, qs);
    var page := 0;
    while page < numPages
      invariant 0 <= page <= numPages
      invariant Ready(m, p) && (State(m, p), true) == PlaceAll(k, root / 4096, qs[..page])
    {
      StateIs(m, p);
      PlaceStep(k, root / 4096, qs, page);
      ok := LoadPage(m, p, root, image, seg, page);
      if !ok {
        PlaceAllStops(k, root / 4096, qs, page + 1);
        return;
      }
      page := page + 1;
    }
    assert qs[..page] == qs;
    ok := true;
  }

  lemma PageCount(seg: Segment)
    ensures NumPages(seg) == (seg.memsz + seg.vaddr % 4096 + 4095) / 4096
    ensures Delta(seg) == seg.vaddr % 4096 == seg.vaddr - seg.vaddr / 4096 * 4096
    ensures SegFlags(seg) == if seg.flags / 2 % 2 == 1 then 7 else 5
  {
  }

  lemma PlaceNone(k: Kernel, root: nat, qs: seq<Placement>)
    ensures qs[..0] == [] && PlaceAll(k, root, qs[..0]) == (k, true)
  {
  }

  lemma SegmentPlan(k: Kernel, root: nat, image: Image, seg: Segment)
    requires KernelOk(k) && IsRoot(k.vm, root) && SegOk(image, seg) && SegMappable(k.vm, root, seg)
    ensures SafeToPlace(k.vm, root, SegPages(image, seg, NumPages(seg)))
    ensures FirstPage(seg) + NumPages(seg) <= VPN_LIMIT
    ensures forall p: nat :: p < NumPages(seg) ==> SegPage(image, seg, p).vpn == FirstPage(seg) + p
  {
    SegSafe(k.vm, root, image, seg, NumPages(seg));
    PagesInRange(image, seg);
  }

  lemma FileSlice(image: Image, seg: Segment, page: nat)
    requires SegOk(image, seg)
    ensures var off, delta := 4096 * page, Delta(seg);
            var copy := if seg.filesz + delta - off > 4096 then 4096 else seg.filesz + delta - off;
            if off < seg.filesz + delta then
              && 0 <= seg.offset + off - delta <= seg.offset + off - delta + copy <= |image|
              && image[seg.offset + off - delta..seg.offset + off - delta + copy] == FileBytes(image, seg, page)
            else FileBytes(image, seg, page) == []
  {
  }

  lemma PageAt(image: Image, seg: Segment, page: nat, bytes: seq<Byte>)
    requires SegOk(image, seg) && page < NumPages(seg) && bytes == FileBytes(image, seg, page)
    requires FirstPage(seg) + NumPages(seg) <= VPN_LIMIT
    ensures var virt := seg.vaddr / 4096 * 4096 + page * 4096;
            virt < 0x1_0000_0000_0000_0000 && virt % 4096 == 0 && virt / 4096 == FirstPage(seg) + page
    ensures SegPage(image, seg, page) == Placement(FirstPage(seg) + page, bytes, SegFlags(seg)) && |bytes| <= 4096
    ensures FirstPage(seg) + page < VPN_LIMIT && SegFlags(seg) % 2 == 1 && PlacementOk(SegPage(image, seg, page))
  {
    assert seg.vaddr / 4096 * 4096 + page * 4096 == 4096 * (FirstPage(seg) + page);
  }

  // ---- sys_execve ----

  lemma SegmentStep(k: Kernel, root: nat, image: Image, segs: seq<Segment>, n: nat)
    requires KernelOk(k) && IsRoot(k.vm, root) && SegsOk(k.vm, root, image, segs) && n < |segs|
    requires LoadSegments(k, root, image, segs[..n]).1
    ensures var k1 := LoadSegments(k, root, image, segs[..n]).0;
            && KernelOk(k1) && IsRoot(k1.vm, root) && SegOk(image, segs[n]) && SegMappable(k1.vm, root, segs[n])
            && var (k2, ok) := PlaceAll(k1, root, SegPages(image, segs[n], NumPages(segs[n])));
               LoadSegments(k, root, image, segs[..n + 1]) ==
                 if ok then (k2.(proc := RaiseHi(k2.proc, segs[n])), true) else (k2, false)
  {
    assert segs[n] in segs && segs[..n + 1][..n] == segs[..n];
    assert forall seg :: seg in segs[..n] ==> seg in segs;
    hide Kept, KernelOk, SegMappable, PlaceAll;
    LoadSegmentsKept(k, root, image, segs[..n]);
    KeptKernel(k, root, LoadSegments(k, root, image, segs[..n]).0);
    SegMappableKept(k, root, LoadSegments(k, root, image, segs[..n]).0, image, segs[n]);
  }

  lemma {:induction false} LoadSegmentsStops(k: Kernel, root: nat, image: Image, segs: seq<Segment>, n: nat)
    requires n <= |segs| && !LoadSegments(k, root, image, segs[..n]).1
    ensures LoadSegments(k, root, image, segs) == (LoadSegments(k, root, image, segs[..n]).0, false)
    decreases |segs|
  {
    hide PlaceAll;
    if n == |segs| {
      assert segs[..n] == segs;
    } else {
      assert segs[..|segs| - 1][..n] == segs[..n];
      LoadSegmentsStops(k, root, image, segs[..|segs| - 1], n);
    }
  }

  lemma LoadNone(k: Kernel, root: nat, image: Image, segs: seq<Segment>)
    ensures segs[..0] == [] && LoadSegments(k, root, image, segs[..0]) == (k, true)
  {
  }

  // image_hi is raised to the end of the segment just loaded.
  method RaiseImageHi(m: Machine, p: Process, seg: Segment)
    requires Ready(m, p)
    modifies p`imageHi
    ensures Ready(m, p) && State(m, p) == old(State(m, p)).(proc := RaiseHi(old(State(m, p)).proc, seg))
  {
    hide TablesOk, Machine.Pm, Machine.Rep;
    var end := (seg.vaddr + seg.memsz) % 0x1_0000_0000_0000_0000;
    if end > p.imageHi { p.imageHi := end; }
  }

  // The segment loop.
  method LoadImage(m: Machine, p: Process, root: Word, image: Image, segs: seq<Segment>) returns (ok: bool)
    requires Ready(m, p) && KernelOk(State(m, p)) && root % 4096 == 0 && IsRoot(m.Space(), root / 4096)
    requires SegsOk(m.Space(), root / 4096, image, segs)
    modifies m`pmmCur, m`pmmEnd, m`pmmFreeList, m`free, m`roles, m.ram, p`allocCount, p`imageHi, p.allocPages
    ensures Ready(m, p)
    ensures (State(m, p), ok) == LoadSegments(old(State(m, p)), root / 4096, image, segs)
  {
    hide *;
    ghost var k := State(m, p);
    StateIs(m, p);
    LoadNone(k, root / 4096, image, segs);
    var si := 0;
    while si < |segs|
      invariant 0 <= si <= |segs|
      invariant Ready(m, p) && (State(m, p), true) == LoadSegments(k, root / 4096, image, segs[..si])
    {
      StateIs(m, p);
      SegmentStep(k, root / 4096, image, segs, si);
      ok := LoadSegment(m, p, root, image, segs[si]);
      if !ok {
        LoadSegmentsStops(k, root / 4096, image, segs, si + 1);
        return;
      }
      RaiseImageHi(m, p, segs[si]);
      si := si + 1;
    }
    assert segs[..si] == segs;
    ok := true;
  }

  // A fresh image starts with no heap.
  method ResetBreak(m: Machine, p: Process)
    requires Ready(m, p)
    modifies p`brkStart, p`brkCurr
    ensures Ready(m, p) && State(m, p) == FreshHeap(old(State(m, p)))
  {
    p.brkStart, p.brkCurr := 0, 0;
  }

  ghost function FreshHeap(k: Kernel): Kernel { k.(proc := k.proc.(brkStart := 0, brkCurr := 0)) }

  method CloneRoot(m: Machine, p: Process) returns (c: Word)
    requires Ready(m, p) && IsRoot(m.Space(), m.cr3 / 4096)
    modifies m`pmmCur, m`pmmEnd, m`pmmFreeList, m`free, m`roles, m.ram
    ensures Ready(m, p) && c % 4096 == 0
    ensures var k := old(State(m, p)); State(m, p) == k.(vm := Clone(k.vm, k.cr3).0) && c / 4096 == Clone(k.vm, k.cr3).1
  {
    hide TablesOk, Clone;
    PageAddress(Clone(m.Space(), m.cr3 / 4096).1);
    c := m.VmCloneCurrentPml4();
  }

  // The root becomes the process's and is recorded.
  method AdoptRoot(m: Machine, p: Process, c: Word)
    requires Ready(m, p) && c % 4096 == 0
    modifies p`pml4Phys, p`allocCount, p.allocPages
    ensures Ready(m, p)
    ensures var k := old(State(m, p)); State(m, p) == k.(proc := SetRoot(k.proc, c / 4096))
  {
    hide Machine.Valid, Machine.Rep, Machine.Space, Record;
    p.SetPml4(c);
    var r := p.AddAllocatedPage(c);
  }

  // How Exec unfolds, step by step.
  lemma ExecPlan(k: Kernel, image: Image, segs: seq<Segment>)
    requires KernelOk(k) && ExecLegal(k, image, segs)
    ensures var k0 := FreshHeap(k);
            var (vm1, c) := Clone(k0.vm, k0.cr3);
            var k1 := k0.(vm := vm1);
            && KernelOk(k0) && IsRoot(k0.vm, k0.cr3)
            && (c == 0 ==> Exec(k, image, segs) == (k1, false))
            && (c != 0 ==>
                  && KernelOk(k1) && IsRoot(vm1, c) && SegsOk(vm1, c, image, segs)
                  && var (k2, ok) := LoadSegments(k1, c, image, segs);
                     && (!ok ==> Exec(k, image, segs) == (k2, false))
                     && (ok ==> StackReady(k2, c) && StackNext(k, image, segs, k2, c)))
  {
    var k0 := FreshHeap(k);
    assert KernelOk(k0);
    CloneKernelOk(k0);
    CloneCorrect(k0.vm, k0.cr3);
    var (vm1, c) := Clone(k0.vm, k0.cr3);
    if c != 0 {
      CloneWalks(k0.vm, k0.cr3);
      ClonedSegsOk(k0.vm, k0.cr3, image, segs);
      StackPlan(k, image, segs, k0.(vm := vm1), c);
    }
  }

  ghost predicate StackReady(k: Kernel, c: nat) {
    && TablesOk(k.vm) && IsRoot(k.vm, c) && StackPage() == Placement((0x7FF_FFFF_0000 - 4096) / 4096, [], 7)
    && PlacementOk(StackPage()) && Mappable(k.vm, c, StackPage().vpn)
  }

  ghost predicate StackNext(k: Kernel, image: Image, segs: seq<Segment>, k2: Kernel, c: nat) {
    var (k3, ok3) := Place(k2, c, StackPage());
    && (!ok3 ==> Exec(k, image, segs) == (k3, false))
    && (ok3 ==> Exec(k, image, segs) == (k3.(proc := SetRoot(k3.proc, c)), true))
  }

  lemma StackPlan(k: Kernel, image: Image, segs: seq<Segment>, k1: Kernel, c: nat)
    requires KernelOk(k1) && IsRoot(k1.vm, c) && SegsOk(k1.vm, c, image, segs)
    requires var k0 := FreshHeap(k); (k1.vm, c) == Clone(k0.vm, k0.cr3) && k1 == k0.(vm := k1.vm) && c != 0
    requires Clear(k1.vm.pm.mem, c, STACK_VPN)
    ensures var (k2, ok) := LoadSegments(k1, c, image, segs);
            if ok then StackReady(k2, c) && StackNext(k, image, segs, k2, c)
            else Exec(k, image, segs) == (k2, false)
  {
    hide LoadSegments, Clone, TablesOk, Place, Walk;
    LoadSegmentsKept(k1, c, image, segs);
    var (k2, ok) := LoadSegments(k1, c, image, segs);
    if ok {
      KeptClear(k1, c, k2, STACK_VPN);
      PlaceFails(k2, c, StackPage());
    }
  }

  lemma PlaceFails(k: Kernel, root: nat, q: Placement)
    ensures !Place(k, root, q).1 ==> Place(k, root, q).0 == k
  {
  }

  // sys_execve from the break reset until the new root is the process's.
  method SysExecve(m: Machine, p: Process, image: Image, segs: seq<Segment>) returns (ok: bool)
    requires Ready(m, p) && KernelOk(State(m, p)) && ExecLegal(State(m, p), image, segs)
    modifies m`pmmCur, m`pmmEnd, m`pmmFreeList, m`free, m`roles, m.ram, p, p.allocPages
    ensures Ready(m, p)
    ensures (State(m, p), ok) == Exec(old(State(m, p)), image, segs)
  {
    hide *;
    ghost var k := State(m, p);
    ExecPlan(k, image, segs);
    ResetBreak(m, p);
    StateIs(m, p);
    var c := CloneRoot(m, p);
    StateIs(m, p);
    if c == 0 { return false; }
    ok := LoadImage(m, p, c, image, segs);
    if !ok { return; }
    StateIs(m, p);
    StackIs(State(m, p), c / 4096);
    StackNextIs(k, image, segs, State(m, p), c / 4096);
    ok := PlacePage(m, p, c, 0x7FF_FFFF_0000 - 4096, [], 7, false);
    if !ok { return; }
    AdoptRoot(m, p, c);
  }

  lemma StackIs(k: Kernel, c: nat)
    requires StackReady(k, c)
    ensures TablesOk(k.vm) && IsRoot(k.vm, c) && StackPage() == Placement((0x7FF_FFFF_0000 - 4096) / 4096, [], 7)
    ensures PlacementOk(StackPage()) && Mappable(k.vm, c, (0x7FF_FFFF_0000 - 4096) / 4096)
  {
  }

  lemma StackNextIs(k: Kernel, image: Image, segs: seq<Segment>, k2: Kernel, c: nat)
    requires StackNext(k, image, segs, k2, c)
    ensures var (k3, ok3) := Place(k2, c, StackPage());
            && (!ok3 ==> Exec(k, image, segs) == (k3, false))
            && (ok3 ==> Exec(k, image, segs) == (k3.(proc := SetRoot(k3.proc, c)), true))
  {
  }

  // Then the page of the kernel stack is mapped onto itself.
  method MapKernelStack(m: Machine, p: Process, rsp: Word)
    requires Ready(m, p) && KernelOk(State(m, p)) && p.pml4Phys != 0 && rsp / 4096 < FRAMES
    requires Mappable(m.Space(), p.pml4Phys / 4096, rsp / 4096)
    modifies m`pmmCur, m`pmmEnd, m`pmmFreeList, m`free, m`roles, m.ram
    ensures Ready(m, p) && State(m, p) == MapStack(old(State(m, p)), rsp / 4096)
  {
    hide *;
    ProcIs(m, p);
    StateIs(m, p);
    ReadyIs(m, p);
    StackMapPlan(State(m, p), rsp / 4096);
    PageAddress(rsp / 4096);
    m.SpaceIs();
    m.ValidIs();
    var page := rsp / 4096 * 4096;
    var done := m.VmMapPagePml4(p.pml4Phys, page, page, 3);
    m.ValidIs();
    ReadyIs(m, p);
    StateIs(m, p);
  }

  lemma ReadyIs(m: Machine, p: Process)
    ensures Ready(m, p) <==> m.Valid() && p.Rep() && m.ram != p.allocPages
  {
  }

  lemma StackMapPlan(k: Kernel, kstack: nat)
    requires KernelOk(k) && k.proc.pml4 != 0 && kstack < FRAMES && Mappable(k.vm, k.proc.pml4, kstack)
    ensures PagesOk(k.vm.pm) && Followable(k.vm.pm, k.proc.pml4, 4, kstack)
    ensures var vm1 := Map(k.vm, k.proc.pml4, kstack, LeafEntry(4096 * kstack, 3)).0;
            TablesOk(vm1) && MapStack(k, kstack) == k.(vm := vm1)
    ensures 4096 * kstack < 4096 * VPN_LIMIT
  {
    MappableFollowable(k.vm, k.proc.pml4, kstack);
    MapCorrect(k.vm, k.proc.pml4, kstack, LeafEntry(4096 * kstack, 3));
  }

  // ---- sys_brk ----

  // The first call places the heap above the image.
  method SetHeapStart(m: Machine, p: Process)
    requires Ready(m, p)
    modifies p`brkStart, p`brkCurr
    ensures Ready(m, p) && State(m, p) == old(State(m, p)).(proc := StartHeap(old(State(m, p)).proc))
  {
    if p.brkStart == 0 {
      var base;
      if p.imageHi != 0 {
        base := (p.imageHi + 0x10_0000 + 4095) % 0x1_0000_0000_0000_0000 / 4096 * 4096;
      } else {
        base := (0x100_0000 + 0x10_0000 + 4095) % 0x1_0000_0000_0000_0000 / 4096 * 4096;
      }
      p.brkStart := base;
      p.brkCurr := base;
    }
  }

  method SetBreak(m: Machine, p: Process, top: Word)
    requires Ready(m, p)
    modifies p`brkCurr
    ensures Ready(m, p) && State(m, p) == old(State(m, p)).(proc := old(State(m, p)).proc.(brkCurr := top))
  {
    p.brkCurr := top;
  }

  lemma GrowPlan(k: Kernel, top: nat)
    requires KernelOk(k) && k.proc.pml4 != 0 && k.proc.brkCurr <= top <= BRK_LIMIT && GrowSafe(k, top)
    ensures var lo, hi, qs := RoundUp(k.proc.brkCurr), RoundUp(top), HeapPages(k.proc.brkCurr, top);
            && lo == (k.proc.brkCurr + 4095) / 4096 * 4096 && hi == (top + 4095) / 4096 * 4096 && lo <= hi
              && hi < 4096 * VPN_LIMIT
            && lo % 4096 == 0 && hi % 4096 == 0 && |qs| == (hi - lo) / 4096
            && (forall i :: 0 <= i < |qs| ==> qs[i] == Placement(lo / 4096 + i, [], 7))
            && SafeToPlace(k.vm, k.proc.pml4, qs) && IsRoot(k.vm, k.proc.pml4)
  {
    RoundUpInRange(k.proc.brkCurr);
    RoundUpInRange(top);
    HeapPlaceable(k, top);
  }

  // The page loop of sys_brk; it stops early when no page is left.
  method GrowHeap(m: Machine, p: Process, top: Word)
    requires Ready(m, p) && KernelOk(State(m, p)) && p.pml4Phys != 0 && p.brkCurr <= top <= BRK_LIMIT
    requires GrowSafe(State(m, p), top)
    modifies m`pmmCur, m`pmmEnd, m`pmmFreeList, m`free, m`roles, m.ram, p`allocCount, p.allocPages
    ensures Ready(m, p)
    ensures State(m, p) == PlaceAll(old(State(m, p)), p.pml4Phys / 4096, HeapPages(p.brkCurr, top)).0
  {
    hide *;
    ghost var k, qs := State(m, p), HeapPages(p.brkCurr, top);
    ProcIs(m, p);
    StateIs(m, p);
    GrowPlan(k, top);
    PlaceNone(k, k.proc.pml4, qs);
    var start, end := (p.brkCurr + 4095) / 4096 * 4096, (top + 4095) / 4096 * 4096;
    var va, root := start, p.pml4Phys;
    ghost var n := 0;
    while va < end
      invariant va == start + 4096 * n && 0 <= n <= |qs|
      invariant Ready(m, p) && (State(m, p), true) == PlaceAll(k, root / 4096, qs[..n])
    {
      StateIs(m, p);
      PlaceStep(k, root / 4096, qs, n);
      HeapAddress(start, n);
      var ok := PlacePage(m, p, root, va, [], 7, false);
      if !ok {
        PlaceAllStops(k, root / 4096, qs, n + 1);
        return;
      }
      va := va + 4096;
      n := n + 1;
    }
    assert qs[..n] == qs;
  }

  lemma HeapAddress(start: nat, n: nat)
    requires start % 4096 == 0
    ensures (start + 4096 * n) % 4096 == 0 && (start + 4096 * n) / 4096 == start / 4096 + n
  {
  }

  lemma ProcIs(m: Machine, p: Process)
    requires Ready(m, p)
    ensures State(m, p).proc.pml4 == p.pml4Phys / 4096 && p.pml4Phys % 4096 == 0
    ensures State(m, p).proc.brkStart == p.brkStart && State(m, p).proc.brkCurr == p.brkCurr
    ensures State(m, p).proc.imageHi == p.imageHi
  {
  }

  lemma BrkPlan(k: Kernel, addr: nat)
    requires KernelOk(k) && ProcLegal(k, BrkOp(addr))
    ensures var k0 := k.(proc := StartHeap(k.proc));
            var top := if addr < k0.proc.brkStart then k0.proc.brkStart else addr;
            && KernelOk(k0) && k0.proc.pml4 != 0
            && (addr == 0 ==> Brk(k, addr) == (k0, k0.proc.brkCurr))
            && (addr != 0 ==>
                  && top <= BRK_LIMIT
                  && (top > k0.proc.brkCurr ==> GrowSafe(k0, top))
                  && var k1 := if top > k0.proc.brkCurr
                               then PlaceAll(k0, k0.proc.pml4, HeapPages(k0.proc.brkCurr, top)).0 else k0;
                     Brk(k, addr) == (k1.(proc := k1.proc.(brkCurr := top)), top))
  {
    hide PlaceAll, TablesOk, Walk, RoundUp, HeapPages, Mappable;
    LegalGrowth(k, addr);
    assert KernelOk(k.(proc := StartHeap(k.proc)));
  }

  method SysBrk(m: Machine, p: Process, addr: Word) returns (ret: Word)
    requires Ready(m, p) && KernelOk(State(m, p)) && ProcLegal(State(m, p), BrkOp(addr))
    modifies m`pmmCur, m`pmmEnd, m`pmmFreeList, m`free, m`roles, m.ram
    modifies p`allocCount, p`brkStart, p`brkCurr, p.allocPages
    ensures Ready(m, p) && (State(m, p), ret as nat) == Brk(old(State(m, p)), addr)
  {
    hide *;
    BrkPlan(State(m, p), addr);
    SetHeapStart(m, p);
    ProcIs(m, p);
    StateIs(m, p);
    if addr == 0 { return p.brkCurr; }
    var newBrk := addr;
    if newBrk < p.brkStart { newBrk := p.brkStart; }
    if newBrk > p.brkCurr {
      GrowHeap(m, p, newBrk);
    }
    SetBreak(m, p, newBrk);
    ret := newBrk;
  }

  // ---- sys_exit ----

  lemma ReleaseStep(k: Kernel, i: nat)
    requires KernelOk(k) && i < |k.proc.ledger|
    ensures var vm1, f := ReleaseAll(k.vm, k.proc.ledger[..i]), k.proc.ledger[i];
            && Live(vm1.pm, f) && ReleaseAll(k.vm, k.proc.ledger[..i + 1]) == Release(vm1, f)
            && TablesOk(Release(vm1, f))
  {
    hide TablesOk, KernelOk, LedgerOk, Release;
    var ledger := k.proc.ledger;
    assert ledger[..i + 1][..i] == ledger[..i];
    LedgerPrefix(k, i);
    ReleaseAllCorrect(k.vm, ledger[..i]);
    ReleaseCorrect(ReleaseAll(k.vm, ledger[..i]), ledger[i]);
  }

  // The first i pages of the ledger are distinct and releasable, and page i is another one.
  lemma LedgerPrefix(k: Kernel, i: nat)
    requires KernelOk(k) && i < |k.proc.ledger|
    ensures TablesOk(k.vm) && Releasable(k.vm, k.proc.ledger[i]) && k.proc.ledger[i] !in k.proc.ledger[..i]
    ensures forall f :: f in k.proc.ledger[..i] ==> Releasable(k.vm, f)
    ensures forall a, b :: 0 <= a < b < i ==> k.proc.ledger[..i][a] != k.proc.ledger[..i][b]
  {
  }

  // The free loop of sys_exit.
  method ReleaseLedger(m: Machine, p: Process)
    requires Ready(m, p) && KernelOk(State(m, p))
    modifies m`pmmFreeList, m`free, m`roles, m.ram
    ensures Ready(m, p)
    ensures State(m, p) == old(State(m, p)).(vm := ReleaseAll(old(State(m, p)).vm, old(State(m, p)).proc.ledger))
  {
    hide *;
    ghost var k := State(m, p);
    LedgerIs(m, p);
    StateIs(m, p);
    ReleaseNone(k.vm, k.proc.ledger);
    var i := 0;
    while i < p.allocCount
      invariant 0 <= i <= p.allocCount && Ready(m, p)
      invariant State(m, p) == k.(vm := ReleaseAll(k.vm, k.proc.ledger[..i]))
    {
      ReleaseStep(k, i);
      LedgerIs(m, p);
      StateIs(m, p);
      m.SpaceIs();
      ReleaseOne(m, p, p.allocPages[i]);
      i := i + 1;
    }
    assert k.proc.ledger[..i] == k.proc.ledger;
  }

  lemma ReleaseNone(vm: Vm, pages: seq<nat>)
    ensures pages[..0] == [] && ReleaseAll(vm, pages[..0]) == vm
  {
  }

  lemma LedgerIs(m: Machine, p: Process)
    requires Ready(m, p)
    ensures |State(m, p).proc.ledger| == p.allocCount <= p.allocPages.Length
    ensures forall i :: 0 <= i < p.allocCount ==>
              p.allocPages[i] % 4096 == 0 && p.allocPages[i] / 4096 == State(m, p).proc.ledger[i]
  {
  }

  method ReleaseOne(m: Machine, p: Process, page: Word)
    requires Ready(m, p) && page % 4096 == 0 && Live(m.Pm(), page / 4096) && TablesOk(Release(m.Space(), page / 4096))
    modifies m`pmmFreeList, m`free, m`roles, m.ram
    ensures Ready(m, p) && State(m, p) == old(State(m, p)).(vm := Release(old(State(m, p)).vm, page / 4096))
  {
    hide TablesOk, Release, Machine.Rep, Machine.Space;
    m.ReleasePage(page);
  }

  // Back to the kernel's root; the process has none.
  method LeaveProcess(m: Machine, p: Process)
    requires Ready(m, p)
    modifies m`cr3, m`tlb, p`allocCount, p`pml4Phys
    ensures Ready(m, p)
    ensures var k := old(State(m, p)); State(m, p) == k.(cr3 := k.kernelRoot, proc := k.proc.(ledger := [], pml4 := 0))
  {
    p.FreeAllocatedPages();
    m.VmSetCr3(m.kernelCr3);
    p.pml4Phys := 0;
  }

  lemma ExitIs(k: Kernel)
    ensures Exit(k) == if k.proc.pml4 == 0 then k
                       else k.(vm := ReleaseAll(k.vm, k.proc.ledger), cr3 := k.kernelRoot,
                               proc := k.proc.(ledger := [], pml4 := 0))
  {
  }

  method SysExit(m: Machine, p: Process)
    requires Ready(m, p) && KernelOk(State(m, p))
    modifies m`pmmFreeList, m`free, m`roles, m`cr3, m`tlb, m.ram, p`allocCount, p`pml4Phys
    ensures Ready(m, p) && State(m, p) == Exit(old(State(m, p)))
  {
    hide *;
    ProcIs(m, p);
    ExitIs(State(m, p));
    if p.pml4Phys != 0 {
      ReleaseLedger(m, p);
      LeaveProcess(m, p);
    }
  }
}
