// The segment-loading loop of sys_execve: what a loaded image reads like through the new root
// (System V gABI, chapter 5, "Program Header", PT_LOAD).
module Loader {
  import opened Words
  import opened Pmm
  import opened PageTables
  import opened LowPages
  import opened AddressSpaces
  import opened Placing

  const VADDR_LIMIT: nat := 4096 * VPN_LIMIT

  datatype Segment = Segment(vaddr: Word, memsz: Word, filesz: Word, offset: Word, flags: nat)

  type Image = seq<Byte>

  function ImageByte(image: Image, a: int): Byte {
    if 0 <= a < |image| then image[a] else 0
  }

  function Slice(image: Image, a: int, n: nat): (r: seq<Byte>)
    ensures |r| == n && forall i :: 0 <= i < n ==> r[i] == ImageByte(image, a + i)
  {
    seq<Byte>(n, i => ImageByte(image, a + i))
  }

  // Offset of the segment's first byte in its first page.
  function Delta(seg: Segment): nat { seg.vaddr % 4096 }

  function NumPages(seg: Segment): nat { (seg.memsz + Delta(seg) + 4095) / 4096 }

  function FirstPage(seg: Segment): nat { seg.vaddr / 4096 }

  // Present and user; writable when the segment carries PF_W.
  function SegFlags(seg: Segment): Flags { if seg.flags / 2 % 2 == 1 then 7 else 5 }

  // The part of page p that comes from the file. The copy starts Delta bytes before the segment.
  function FileBytes(image: Image, seg: Segment, p: nat): (r: seq<Byte>)
    ensures |r| <= 4096
  {
    var filesz := seg.filesz + Delta(seg);
    var off := 4096 * p;
    if off < filesz then
      Slice(image, seg.offset + off - Delta(seg), if filesz - off > 4096 then 4096 else filesz - off)
    else []
  }

  function SegPage(image: Image, seg: Segment, p: nat): (q: Placement)
    ensures q.flags % 2 == 1 && |q.bytes| <= 4096
  {
    Placement(FirstPage(seg) + p, FileBytes(image, seg, p), SegFlags(seg))
  }

  function SegPages(image: Image, seg: Segment, n: nat): (qs: seq<Placement>)
    ensures |qs| == n && forall p :: 0 <= p < n ==> qs[p] == SegPage(image, seg, p)
  {
    seq(n, p requires 0 <= p < n => SegPage(image, seg, p))
  }

  // image_hi after the segment.
  function RaiseHi(p: Proc, seg: Segment): Proc {
    var end := (seg.vaddr + seg.memsz) % 0x1_0000_0000_0000_0000;
    if end > p.imageHi then p.(imageHi := end) else p
  }

  // The segment loop; the flag is false when a data page could not be allocated.
  function LoadSegments(k: Kernel, root: nat, image: Image, segs: seq<Segment>): (Kernel, bool) {
    if segs == [] then (k, true)
    else
      var (k1, ok) := LoadSegments(k, root, image, segs[..|segs| - 1]);
      var seg := segs[|segs| - 1];
      if !ok then (k1, false)
      else
        var (k2, ok2) := PlaceAll(k1, root, SegPages(image, seg, NumPages(seg)));
        if !ok2 then (k2, false) else (k2.(proc := RaiseHi(k2.proc, seg)), true)
  }

  // No step of the loop ran out of memory.
  function LoadDone(k: Kernel, root: nat, image: Image, segs: seq<Segment>): bool {
    segs == [] ||
    var seg := segs[|segs| - 1];
    && LoadDone(k, root, image, segs[..|segs| - 1])
    && PlaceAllDone(LoadSegments(k, root, image, segs[..|segs| - 1]).0, root, SegPages(image, seg, NumPages(seg)))
  }

  // ---- What the loop demands ----

  ghost predicate SegOk(image: Image, seg: Segment) {
    && Delta(seg) <= seg.offset
    && seg.offset + seg.filesz <= |image|
    && seg.vaddr + seg.memsz + 4096 <= VADDR_LIMIT
  }

  predicate SegApart(a: Segment, b: Segment) {
    FirstPage(a) + NumPages(a) <= FirstPage(b) || FirstPage(b) + NumPages(b) <= FirstPage(a)
  }

  predicate InSeg(seg: Segment, v: nat) { FirstPage(seg) <= v < FirstPage(seg) + NumPages(seg) }

  // No entry stops the walk of any page of the segment.
  ghost predicate SegClear(mem: Memory, root: nat, seg: Segment) {
    forall v: nat :: InSeg(seg, v) ==> Clear(mem, root, v)
  }

  ghost predicate SegMappable(vm: Vm, root: nat, seg: Segment) {
    forall v: nat :: InSeg(seg, v) ==> Mappable(vm, root, v)
  }

  ghost predicate Loadable(vm: Vm, root: nat, image: Image, segs: seq<Segment>) {
    && (forall i :: 0 <= i < |segs| ==> SegOk(image, segs[i]) && SegMappable(vm, root, segs[i]))
    && (forall i, j :: 0 <= i < j < |segs| ==> SegApart(segs[i], segs[j]))
  }

  // The part of Loadable that needs no disjointness.
  ghost predicate SegsOk(vm: Vm, root: nat, image: Image, segs: seq<Segment>) {
    forall seg :: seg in segs ==> SegOk(image, seg) && SegMappable(vm, root, seg)
  }

  function TotalPages(segs: seq<Segment>): nat {
    if segs == [] then 0 else TotalPages(segs[..|segs| - 1]) + NumPages(segs[|segs| - 1])
  }

  // ---- The loop ----

  ghost predicate Loaded(vm: Vm, root: nat, image: Image, seg: Segment) {
    forall p: nat :: p < NumPages(seg) ==> Holds(vm, root, SegPage(image, seg, p))
  }

  lemma PagesInRange(image: Image, seg: Segment)
    requires SegOk(image, seg)
    ensures FirstPage(seg) + NumPages(seg) <= VPN_LIMIT
  {
    assert 4096 * (FirstPage(seg) + NumPages(seg)) <= seg.vaddr + seg.memsz + 4095;
  }

  lemma SegPlaceable(k: Kernel, root: nat, image: Image, seg: Segment)
    requires SegOk(image, seg) && SegMappable(k.vm, root, seg)
    ensures Placeable(k, root, SegPages(image, seg, NumPages(seg)))
  {
    SegSafe(k.vm, root, image, seg, NumPages(seg));
  }

  lemma SegSafe(vm: Vm, root: nat, image: Image, seg: Segment, n: nat)
    requires SegOk(image, seg) && SegMappable(vm, root, seg) && n <= NumPages(seg)
    ensures SafeToPlace(vm, root, SegPages(image, seg, n))
  {
    hide Mappable;
    PagesInRange(image, seg);
    var qs := SegPages(image, seg, n);
    forall q | q in qs
      ensures PlacementOk(q) && Mappable(vm, root, q.vpn)
    {
      var p :| 0 <= p < |qs| && qs[p] == q;
      assert q == SegPage(image, seg, p) && InSeg(seg, FirstPage(seg) + p);
    }
  }

  lemma SegMappableKept(k: Kernel, root: nat, k1: Kernel, image: Image, seg: Segment)
    requires KernelOk(k) && IsRoot(k.vm, root) && Kept(k, root, k1) && SegOk(image, seg) && SegMappable(k.vm, root, seg)
    ensures SegMappable(k1.vm, root, seg)
  {
    hide Mappable, Kept, KernelOk;
    PagesInRange(image, seg);
    forall v: nat | InSeg(seg, v)
      ensures Mappable(k1.vm, root, v)
    {
      MappableKept(k, root, k1, v);
    }
  }

  lemma SegClearKept(k: Kernel, root: nat, k1: Kernel, image: Image, seg: Segment)
    requires Kept(k, root, k1) && IsRoot(k.vm, root) && SegOk(image, seg)
    ensures SegClear(k1.vm.pm.mem, root, seg) <==> SegClear(k.vm.pm.mem, root, seg)
  {
    hide Clear, Kept;
    PagesInRange(image, seg);
    forall v: nat | InSeg(seg, v)
      ensures Clear(k1.vm.pm.mem, root, v) <==> Clear(k.vm.pm.mem, root, v)
    {
      KeptClear(k, root, k1, v);
    }
  }

  // Whatever the segments, overlapping or not, the loop keeps the kernel invariant.
  lemma {:induction false} LoadSegmentsKept(k: Kernel, root: nat, image: Image, segs: seq<Segment>)
    requires KernelOk(k) && IsRoot(k.vm, root) && SegsOk(k.vm, root, image, segs)
    ensures Kept(k, root, LoadSegments(k, root, image, segs).0)
    decreases |segs|
  {
    hide Kept, KernelOk, PlaceAll, SegMappable;
    if segs == [] {
      KeptSelf(k, root);
    } else {
      var init, seg := segs[..|segs| - 1], segs[|segs| - 1];
      assert seg in segs && forall s :: s in init ==> s in segs;
      LoadSegmentsKept(k, root, image, init);
      var (k1, ok) := LoadSegments(k, root, image, init);
      if ok {
        SegMappableKept(k, root, k1, image, seg);
        KeptKernel(k, root, k1);
        SegSafe(k1.vm, root, image, seg, NumPages(seg));
        PlaceAllKept(k1, root, SegPages(image, seg, NumPages(seg)));
        var (k2, ok2) := PlaceAll(k1, root, SegPages(image, seg, NumPages(seg)));
        KeptTrans(k, root, k1, k2);
        RaisedKept(k, root, k2, seg);
      }
    }
  }

  lemma RaisedKept(k: Kernel, root: nat, k1: Kernel, seg: Segment)
    requires Kept(k, root, k1)
    ensures Kept(k, root, k1.(proc := RaiseHi(k1.proc, seg)))
  {
    hide Walk, Grows, TablesOk, LedgerOk;
  }

  // Page v is none of the segment's, or the segment is below large pages.
  ghost predicate OutOf(mem: Memory, root: nat, seg: Segment, v: nat) {
    !InSeg(seg, v) || !Clear(mem, root, v)
  }

  // Loading one segment changes no walk outside its pages.
  lemma SegWalk(k: Kernel, root: nat, image: Image, seg: Segment, v: nat)
    requires KernelOk(k) && IsRoot(k.vm, root) && SegOk(image, seg) && SegMappable(k.vm, root, seg) && v < VPN_LIMIT
    requires OutOf(k.vm.pm.mem, root, seg, v)
    ensures Walk(PlaceAll(k, root, SegPages(image, seg, NumPages(seg))).0.vm.pm.mem, root, 4, v) ==
              Walk(k.vm.pm.mem, root, 4, v)
  {
    hide KernelOk, PlaceAll, Clear, Mappable;
    var qs := SegPages(image, seg, NumPages(seg));
    SegSafe(k.vm, root, image, seg, NumPages(seg));
    forall q | q in qs
      ensures q.vpn != v || !Clear(k.vm.pm.mem, root, q.vpn)
    {
      var p :| 0 <= p < |qs| && qs[p] == q;
      assert q == SegPage(image, seg, p) && InSeg(seg, FirstPage(seg) + p);
    }
    PlaceAllWalk(k, root, qs, v);
  }

  lemma SegLoaded(k: Kernel, root: nat, image: Image, seg: Segment)
    requires KernelOk(k) && IsRoot(k.vm, root) && SegOk(image, seg) && SegMappable(k.vm, root, seg)
    ensures var qs := SegPages(image, seg, NumPages(seg));
            var (k1, ok) := PlaceAll(k, root, qs);
            && PlacedAll(k, root, qs, k1, ok)
            && (PlaceAllDone(k, root, qs) && SegClear(k.vm.pm.mem, root, seg) ==> Loaded(k1.vm, root, image, seg))
  {
    hide Holds, KernelOk, PlaceAll, PlaceAllDone, Clear, Mappable;
    SegPlaceable(k, root, image, seg);
    var qs := SegPages(image, seg, NumPages(seg));
    PlaceAllCorrect(k, root, qs);
    var k1 := PlaceAll(k, root, qs).0;
    forall p: nat | p < NumPages(seg) && PlaceAllDone(k, root, qs) && SegClear(k.vm.pm.mem, root, seg)
      ensures Holds(k1.vm, root, SegPage(image, seg, p))
    {
      assert qs[p] in qs && InSeg(seg, FirstPage(seg) + p);
    }
  }

  // A loaded segment stays loaded while another, page-disjoint one is loaded.
  lemma LoadedKept(k: Kernel, root: nat, image: Image, seg: Segment, other: Segment)
    requires KernelOk(k) && IsRoot(k.vm, root) && SegOk(image, seg) && SegMappable(k.vm, root, seg)
    requires SegOk(image, other) && SegApart(other, seg) && Loaded(k.vm, root, image, other)
    ensures Loaded(PlaceAll(k, root, SegPages(image, seg, NumPages(seg))).0.vm, root, image, other)
  {
    hide TablesOk, PlaceAll, Holds, PlaceAllDone, AllHeld, Walk, SegMappable;
    SegLoaded(k, root, image, seg);
    PagesInRange(image, other);
    var k1 := PlaceAll(k, root, SegPages(image, seg, NumPages(seg))).0;
    forall p: nat | p < NumPages(other)
      ensures Holds(k1.vm, root, SegPage(image, other, p))
    {
      SegWalk(k, root, image, seg, FirstPage(other) + p);
      HoldsKept(k.vm, k1.vm, root, SegPage(image, other, p));
    }
  }

  // Every segment no entry stops the walk to is loaded, and every segment ends at or below image_hi.
  ghost predicate AllLoaded(k: Kernel, root: nat, image: Image, segs: seq<Segment>, k1: Kernel) {
    forall i :: 0 <= i < |segs| ==> SegDone(k, root, image, segs[i], k1)
  }

  ghost predicate SegDone(k: Kernel, root: nat, image: Image, seg: Segment, k1: Kernel) {
    && (SegClear(k.vm.pm.mem, root, seg) ==> Loaded(k1.vm, root, image, seg))
    && seg.vaddr + seg.memsz <= k1.proc.imageHi
  }

  // The whole loop keeps the kernel invariant; if it never ran out of memory every segment is loaded.
  ghost predicate LoadResult(k: Kernel, root: nat, image: Image, segs: seq<Segment>, k1: Kernel, ok: bool) {
    && KernelOk(k1) && Grows(k.vm, k1.vm) && IsRoot(k1.vm, root)
    && Avail(k.vm.pm) - 4 * TotalPages(segs) <= Avail(k1.vm.pm) <= Avail(k.vm.pm)
    && (Avail(k1.vm.pm) > 0 ==> LoadDone(k, root, image, segs))
    && (LoadDone(k, root, image, segs) ==> ok && AllLoaded(k, root, image, segs, k1))
    && k1 == k.(vm := k1.vm, proc := k.proc.(ledger := k1.proc.ledger, imageHi := k1.proc.imageHi))
    && k.proc.imageHi <= k1.proc.imageHi
  }

  lemma LoadableParts(vm: Vm, root: nat, image: Image, segs: seq<Segment>)
    requires Loadable(vm, root, image, segs)
    ensures SegsOk(vm, root, image, segs)
    ensures segs != [] ==>
              var init, seg := segs[..|segs| - 1], segs[|segs| - 1];
              && Loadable(vm, root, image, init) && SegOk(image, seg) && SegMappable(vm, root, seg)
              && forall i :: 0 <= i < |init| ==> init[i] == segs[i] && SegOk(image, init[i]) && SegApart(init[i], seg)
  {
    hide SegOk, SegMappable, SegApart;
    forall seg | seg in segs
      ensures SegOk(image, seg) && SegMappable(vm, root, seg)
    {
      var i :| 0 <= i < |segs| && segs[i] == seg;
    }
  }

  // The loop changes no walk outside the segments' pages.
  lemma {:induction false} LoadSegmentsWalk(k: Kernel, root: nat, image: Image, segs: seq<Segment>, v: nat)
    requires KernelOk(k) && IsRoot(k.vm, root) && SegsOk(k.vm, root, image, segs) && v < VPN_LIMIT
    requires forall seg :: seg in segs ==> OutOf(k.vm.pm.mem, root, seg, v)
    ensures Walk(LoadSegments(k, root, image, segs).0.vm.pm.mem, root, 4, v) == Walk(k.vm.pm.mem, root, 4, v)
    decreases |segs|
  {
    hide KernelOk, Kept, PlaceAll, Clear, SegOk, SegMappable, InSeg;
    if segs == [] {
    } else {
      var init, seg := segs[..|segs| - 1], segs[|segs| - 1];
      assert seg in segs && forall s :: s in init ==> s in segs;
      LoadSegmentsWalk(k, root, image, init, v);
      LoadSegmentsKept(k, root, image, init);
      var (k1, ok) := LoadSegments(k, root, image, init);
      if ok {
        KeptKernel(k, root, k1);
        KeptClear(k, root, k1, v);
        SegMappableKept(k, root, k1, image, seg);
        SegWalk(k1, root, image, seg, v);
      }
    }
  }

  lemma {:induction false} LoadSegmentsResult(k: Kernel, root: nat, image: Image, segs: seq<Segment>)
    requires KernelOk(k) && IsRoot(k.vm, root) && Loadable(k.vm, root, image, segs)
    ensures var (k1, ok) := LoadSegments(k, root, image, segs); LoadResult(k, root, image, segs, k1, ok)
    decreases |segs|
  {
    hide KernelOk, Kept, PlaceAll, SegOk, SegMappable, SegApart, Loadable, PlaceAllDone;
    LoadableParts(k.vm, root, image, segs);
    if segs == [] {
    } else {
      var init := segs[..|segs| - 1];
      LoadSegmentsResult(k, root, image, init);
      var (k1, ok) := LoadSegments(k, root, image, init);
      if ok {
        LoadableParts(k.vm, root, image, init);
        LoadSegmentsKept(k, root, image, init);
        LoadStep(k, root, image, segs, k1);
      }
    }
  }

  lemma LoadStep(k: Kernel, root: nat, image: Image, segs: seq<Segment>, k1: Kernel)
    requires KernelOk(k) && IsRoot(k.vm, root) && Loadable(k.vm, root, image, segs) && segs != []
    requires (k1, true) == LoadSegments(k, root, image, segs[..|segs| - 1]) && Kept(k, root, k1)
    requires LoadResult(k, root, image, segs[..|segs| - 1], k1, true)
    ensures var (k2, ok) := LoadSegments(k, root, image, segs); LoadResult(k, root, image, segs, k2, ok)
  {
    hide KernelOk, Kept, PlaceAll, PlaceAllDone, SegDone, SegOk, SegMappable, SegApart, Loadable, AllHeld, Grows;
    LoadableParts(k.vm, root, image, segs);
    var init, seg := segs[..|segs| - 1], segs[|segs| - 1];
    var qs := SegPages(image, seg, NumPages(seg));
    SegMappableKept(k, root, k1, image, seg);
    SegLoaded(k1, root, image, seg);
    var (k2, ok2) := PlaceAll(k1, root, qs);
    GrowsTrans(k.vm, k1.vm, k2.vm);
    HiRaised(k2, image, seg);
    var (k3, ok3) := LoadSegments(k, root, image, segs);
    if PlaceAllDone(k1, root, qs) && LoadDone(k, root, image, init) {
      assert k3 == k2.(proc := RaiseHi(k2.proc, seg));
      forall i | 0 <= i < |segs|
        ensures SegDone(k, root, image, segs[i], k3)
      {
        if i < |init| {
          assert SegDone(k, root, image, init[i], k1);
          SegDoneKept(k, root, image, seg, init[i], k1);
        } else {
          LastSegDone(k, root, image, seg, k1);
        }
      }
    }
  }

  lemma SegDoneKept(k: Kernel, root: nat, image: Image, seg: Segment, other: Segment, k1: Kernel)
    requires KernelOk(k1) && IsRoot(k1.vm, root) && SegOk(image, seg) && SegMappable(k1.vm, root, seg)
    requires SegOk(image, other) && SegApart(other, seg) && SegDone(k, root, image, other, k1)
    ensures var k2 := PlaceAll(k1, root, SegPages(image, seg, NumPages(seg))).0;
            SegDone(k, root, image, other, k2.(proc := RaiseHi(k2.proc, seg)))
  {
    hide Loaded, KernelOk, PlaceAll, SegMappable, SegClear, AllHeld, PlaceAllDone, SegApart;
    if SegClear(k.vm.pm.mem, root, other) { LoadedKept(k1, root, image, seg, other); }
    SegLoaded(k1, root, image, seg);
  }

  lemma LastSegDone(k: Kernel, root: nat, image: Image, seg: Segment, k1: Kernel)
    requires KernelOk(k1) && IsRoot(k.vm, root) && IsRoot(k1.vm, root) && SegOk(image, seg)
    requires SegMappable(k1.vm, root, seg) && Kept(k, root, k1)
    requires PlaceAllDone(k1, root, SegPages(image, seg, NumPages(seg)))
    ensures var k2 := PlaceAll(k1, root, SegPages(image, seg, NumPages(seg))).0;
            SegDone(k, root, image, seg, k2.(proc := RaiseHi(k2.proc, seg)))
  {
    hide Loaded, KernelOk, Kept, PlaceAll, SegMappable, SegClear, AllHeld, PlaceAllDone;
    SegClearKept(k, root, k1, image, seg);
    SegLoaded(k1, root, image, seg);
  }

  lemma HiRaised(k: Kernel, image: Image, seg: Segment)
    requires KernelOk(k) && SegOk(image, seg)
    ensures var k1 := k.(proc := RaiseHi(k.proc, seg));
            KernelOk(k1) && seg.vaddr + seg.memsz <= k1.proc.imageHi && k.proc.imageHi <= k1.proc.imageHi
  {
  }

  // ---- The result, byte by byte ----

  // A held page read through the translation.
  lemma HeldByte(vm: Vm, root: nat, q: Placement, virt: nat)
    requires PlacementOk(q) && virt / 4096 == q.vpn && TablesOk(vm) && Holds(vm, root, q) && root < NO_TABLE
    ensures var a := GetPhys(vm.pm.mem, root, virt);
            a != 0 && ByteAt(vm.pm.mem, a) == if virt % 4096 < |q.bytes| then q.bytes[virt % 4096] else 0
  {
    GetPhysWalk(vm.pm.mem, root, virt);
    var f := FrameOf(Walk(vm.pm.mem, root, 4, q.vpn).entry);
    var o: nat := virt % 4096;
    assert GetPhys(vm.pm.mem, root, virt) == 4096 * f + o;
    assert FrameByte(vm.pm.mem, f, o) == if o < |q.bytes| then q.bytes[o] else 0;
  }

  // Byte b of a loaded segment.
  lemma LoadedByte(vm: Vm, root: nat, image: Image, seg: Segment, b: nat)
    requires TablesOk(vm) && SegOk(image, seg) && b < seg.memsz && Loaded(vm, root, image, seg) && root < NO_TABLE
    ensures var a := GetPhys(vm.pm.mem, root, seg.vaddr + b);
            a != 0 && ByteAt(vm.pm.mem, a) == if b < seg.filesz then image[seg.offset + b] else 0
  {
    var q := Delta(seg) + b;
    var p, o := q / 4096, q % 4096;
    assert seg.vaddr + b == 4096 * (FirstPage(seg) + p) + o;
    PagesInRange(image, seg);
    HeldByte(vm, root, SegPage(image, seg, p), seg.vaddr + b);
    FileByte(image, seg, p, o);
  }

  lemma FileByte(image: Image, seg: Segment, p: nat, o: nat)
    requires SegOk(image, seg) && o < 4096 && Delta(seg) <= 4096 * p + o
    ensures var b := 4096 * p + o - Delta(seg);
            (if o < |FileBytes(image, seg, p)| then FileBytes(image, seg, p)[o] else 0) ==
            if b < seg.filesz then image[seg.offset + b] else 0
  {
  }

  // For page-disjoint segments inside the image, and if the loop never ran out of memory: walking the new
  // root at every address of every segment that no entry stops the walk to reaches the file's byte, or zero
  // past the file part.
  lemma LoaderCorrect(k: Kernel, root: nat, image: Image, segs: seq<Segment>, i: nat, b: nat)
    requires KernelOk(k) && IsRoot(k.vm, root) && Loadable(k.vm, root, image, segs) && LoadDone(k, root, image, segs)
    requires i < |segs| && b < segs[i].memsz && SegClear(k.vm.pm.mem, root, segs[i])
    ensures var (k1, ok) := LoadSegments(k, root, image, segs);
            var mem, a := k1.vm.pm.mem, GetPhys(k1.vm.pm.mem, root, segs[i].vaddr + b);
            ok && a != 0 && ByteAt(mem, a) == if b < segs[i].filesz then image[segs[i].offset + b] else 0
  {
    hide *;
    LoadSegmentsResult(k, root, image, segs);
    var (k1, ok) := LoadSegments(k, root, image, segs);
    DoneSegment(k, root, image, segs, i, k1, ok);
    LoadedByte(k1.vm, root, image, segs[i], b);
  }

  lemma DoneSegment(k: Kernel, root: nat, image: Image, segs: seq<Segment>, i: nat, k1: Kernel, ok: bool)
    requires LoadResult(k, root, image, segs, k1, ok) && LoadDone(k, root, image, segs)
    requires Loadable(k.vm, root, image, segs)
    requires i < |segs| && SegClear(k.vm.pm.mem, root, segs[i])
    ensures ok && TablesOk(k1.vm) && root < NO_TABLE && SegOk(image, segs[i]) && Loaded(k1.vm, root, image, segs[i])
  {
    assert SegDone(k, root, image, segs[i], k1);
    assert root in k1.vm.roles;
  }

  // The pages of a segment are exactly those that some byte from the start of its first page to its end lies in.
  lemma SegmentPagesExactly(seg: Segment, v: nat)
    ensures InSeg(seg, v) <==> exists a: nat :: Spanned(seg, a) && PageOf(a) == v
  {
    if InSeg(seg, v) {
      assert Spanned(seg, 4096 * v) && PageOf(4096 * v) == v;
    }
    if a: nat :| Spanned(seg, a) && PageOf(a) == v {
      assert seg.vaddr / 4096 <= v;
      assert 4096 * v < 4096 * FirstPage(seg) + seg.memsz + Delta(seg);
    }
  }

  function PageOf(a: nat): nat { a / 4096 }

  predicate Spanned(seg: Segment, a: nat) { seg.vaddr / 4096 * 4096 <= a < seg.vaddr + seg.memsz }

  // Every page of a loaded segment is present and open to user mode, and writable if and only if the segment
  // carries PF_W, bit 1 of its flags.
  lemma LoadedProtection(vm: Vm, root: nat, image: Image, seg: Segment, v: nat)
    requires Loaded(vm, root, image, seg) && InSeg(seg, v)
    ensures var x := Walk(vm.pm.mem, root, 4, v);
            x.Page? && x.entry % 4096 == if seg.flags / 2 % 2 == 1 then 0x7 else 0x5
  {
    assert Holds(vm, root, SegPage(image, seg, v - FirstPage(seg)));
  }

  predicate NoWrap(segs: seq<Segment>) {
    forall seg :: seg in segs ==> seg.vaddr + seg.memsz < 0x1_0000_0000_0000_0000
  }

  // hi is the highest of what was known before and of the segments' ends.
  ghost predicate IsHighest(hi: nat, before: nat, segs: seq<Segment>) {
    && before <= hi && (forall seg :: seg in segs ==> seg.vaddr + seg.memsz <= hi)
    && (hi == before || exists seg :: seg in segs && hi == seg.vaddr + seg.memsz)
  }

  // A completed segment loop leaves image_hi at exactly that.
  lemma {:induction false} ImageHiExactly(k: Kernel, root: nat, image: Image, segs: seq<Segment>)
    requires NoWrap(segs) && LoadSegments(k, root, image, segs).1
    ensures IsHighest(LoadSegments(k, root, image, segs).0.proc.imageHi, k.proc.imageHi, segs)
    decreases |segs|
  {
    hide PlaceAll;
    if segs == [] {
    } else {
      var init, seg := segs[..|segs| - 1], segs[|segs| - 1];
      assert forall s :: s in segs <==> s in init || s == seg;
      ImageHiExactly(k, root, image, init);
      PlaceAllProc(LoadSegments(k, root, image, init).0, root, SegPages(image, seg, NumPages(seg)));
    }
  }

  // Four free pages for every image page are always enough.
  lemma EnoughLoads(k: Kernel, root: nat, image: Image, segs: seq<Segment>)
    requires KernelOk(k) && IsRoot(k.vm, root) && Loadable(k.vm, root, image, segs)
    requires Avail(k.vm.pm) > 4 * TotalPages(segs)
    ensures LoadDone(k, root, image, segs)
  {
    hide KernelOk, LoadSegments, LoadDone, AllLoaded, Loadable;
    LoadSegmentsResult(k, root, image, segs);
  }
}
