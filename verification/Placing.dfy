// Placing fresh pages in an address space: allocate, fill, map, record in the process ledger.
//
// The segment loop of sys_execve, its stack page and the growth loop of sys_brk are all sequences of
// such placements.
module Placing {
  import opened Words
  import opened Pmm
  import opened PageTables
  import opened LowPages
  import opened AddressSpaces

  const LEDGER_MAX := 256

  // pml4 is the frame of the process's root, 0 for none; ledger lists the pages freed at exit.
  datatype Proc = Proc(pml4: nat, ledger: seq<nat>, brkStart: nat, brkCurr: nat, imageHi: nat)

  datatype Kernel = Kernel(vm: Vm, cr3: nat, kernelRoot: nat, proc: Proc)

  // proc_add_allocated_page; a full ledger silently drops the page.
  function Record(p: Proc, f: nat): Proc {
    if |p.ledger| >= LEDGER_MAX then p else p.(ledger := p.ledger + [f])
  }

  // Recorded pages are distinct and live, none is an interior table or the kernel root.
  ghost predicate LedgerOk(vm: Vm, ledger: seq<nat>) {
    && |ledger| <= LEDGER_MAX
    && (forall i, j :: 0 <= i < j < |ledger| ==> ledger[i] != ledger[j])
    && (forall f :: f in ledger ==> Releasable(vm, f))
  }

  ghost predicate KernelOk(k: Kernel) {
    && TablesOk(k.vm)
    && LedgerOk(k.vm, k.proc.ledger)
    && IsRoot(k.vm, k.kernelRoot) && k.kernelRoot !in k.proc.ledger
    && (k.proc.pml4 != 0 ==> IsRoot(k.vm, k.proc.pml4))
    && IsRoot(k.vm, k.cr3)
  }

  // ---- One page ----

  type Flags = f: nat | f < 4096

  datatype Placement = Placement(vpn: nat, bytes: seq<Byte>, flags: Flags)

  ghost predicate PlacementOk(q: Placement) {
    q.vpn < VPN_LIMIT && |q.bytes| <= 4096 && q.flags % 2 == 1
  }

  // The flag is false when no data page was left. A missing table page goes unnoticed.
  function Place(k: Kernel, root: nat, q: Placement): (Kernel, bool)
  {
    var f := Alloc(k.vm.pm).1;
    if f == 0 then (k, false)
    else (k.(vm := MapFilled(k.vm, root, q, f), proc := Record(k.proc, f)), true)
  }

  // No step of the placement ran out of memory.
  function PlaceDone(k: Kernel, root: nat, q: Placement): bool {
    var f := Alloc(k.vm.pm).1;
    f != 0 && MapFilledDone(k.vm, root, q, f)
  }

  function MapFilledDone(vm: Vm, root: nat, q: Placement, f: Frame): bool {
    Map(Filled(vm, q.bytes), root, q.vpn, LeafEntry(4096 * (f as int), q.flags)).1
  }

  // No entry stops the walk of page v.
  predicate Clear(mem: Memory, root: nat, v: nat) { !Walk(mem, root, 4, v).Opaque? }

  function MapFilled(vm: Vm, root: nat, q: Placement, f: Frame): Vm
  {
    Map(Filled(vm, q.bytes), root, q.vpn, LeafEntry(4096 * (f as int), q.flags)).0
  }

  // The state between filling the page and mapping it.
  function Filled(vm: Vm, bytes: seq<Byte>): Vm {
    var (pm, f) := Alloc(vm.pm);
    vm.(pm := pm.(mem := PutBytes(pm.mem, 4096 * f, bytes)))
  }

  // The page is mapped to a live data page holding the bytes, padded with zeros.
  ghost predicate Holds(vm: Vm, root: nat, q: Placement)
  {
    var x := Walk(vm.pm.mem, root, 4, q.vpn);
    && x.Page?
    && var f := FrameOf(x.entry);
       && Live(vm.pm, f) && f !in vm.roles && x.entry == LeafEntry(4096 * f, q.flags)
       && FrameHolds(vm.pm.mem, f, q.bytes)
  }

  // Byte o of frame f.
  function FrameByte(mem: Memory, f: nat, o: nat): Byte {
    ByteAt(mem, 4096 * f + o)
  }

  ghost predicate FrameHolds(mem: Memory, f: nat, bytes: seq<Byte>) {
    forall o: nat :: o < 4096 ==> FrameByte(mem, f, o) == if o < |bytes| then bytes[o] else 0
  }

  lemma SameFrameBytes(a: Memory, b: Memory, f: nat, o: nat)
    requires SameFrame(a, b, f) && |a| == |b| && o < 4096
    ensures FrameByte(a, f, o) == FrameByte(b, f, o)
  {
    var w := (4096 * f + o) / 8;
    assert w == 512 * f + o / 8;
    assert Cell(a, f, o / 8) == Cell(b, f, o / 8);
  }

  // Filling a zeroed page.
  lemma FillFrame(mem: Memory, f: nat, bytes: seq<Byte>)
    requires 512 * f + 512 <= |mem| && |bytes| <= 4096
    requires forall i: nat :: i < 512 ==> Cell(mem, f, i) == 0
    ensures FrameHolds(PutBytes(mem, 4096 * f, bytes), f, bytes)
    ensures forall g: nat :: g != f ==> SameFrame(mem, PutBytes(mem, 4096 * f, bytes), g)
  {
    var mem1 := PutBytes(mem, 4096 * f, bytes);
    PutBytesReadBack(mem, 4096 * f, bytes);
    forall o: nat | o < 4096
      ensures FrameByte(mem1, f, o) == if o < |bytes| then bytes[o] else 0
    {
      assert (4096 * f + o) / 8 == 512 * f + o / 8;
      assert Cell(mem, f, o / 8) == 0;
      ZeroHasZeroBytes((4096 * f + o) % 8);
      if o < |bytes| { assert ByteAt(mem1, 4096 * f + o) == bytes[o]; }
    }
    forall g: nat | g != f
      ensures SameFrame(mem, mem1, g)
    {
      forall i: nat | i < 512
        ensures Cell(mem, g, i) == Cell(mem1, g, i)
      {
        var j := 512 * g + i;
        if j < |mem| { assert 8 * j + 8 <= 4096 * f || 4096 * f + |bytes| <= 8 * j; }
      }
    }
  }

  lemma FilledCorrect(vm: Vm, bytes: seq<Byte>)
    requires TablesOk(vm) && |bytes| <= 4096 && Alloc(vm.pm).1 != 0
    ensures var f, vm1 := Alloc(vm.pm).1, Filled(vm, bytes);
            && TablesOk(vm1) && Grows(vm, vm1) && Avail(vm1.pm) == Avail(vm.pm) - 1
            && !Owned(vm.pm, f) && f !in vm1.roles && Live(vm1.pm, f) && FrameHolds(vm1.pm.mem, f, bytes)
            && (forall g, m: nat, v: nat :: TableFor(vm.roles, g, m, v) ==>
                Walk(vm1.pm.mem, g, m, v) == Walk(vm.pm.mem, g, m, v))
            && (forall g: nat :: g != f ==> SameFrame(vm.pm.mem, vm1.pm.mem, g))
  {
    FilledPages(vm, bytes);
    TablesOwned(vm);
    hide Alloc, Filled, FrameHolds, WellFormed, PagesOk;
    SameTablesInv(vm, Filled(vm, bytes));
  }

  // The pages after filling a fresh one.
  lemma FilledPages(vm: Vm, bytes: seq<Byte>)
    requires PagesOk(vm.pm) && |bytes| <= 4096 && Alloc(vm.pm).1 != 0
    ensures var f, vm1 := Alloc(vm.pm).1, Filled(vm, bytes);
            && PagesOk(vm1.pm) && vm1.roles == vm.roles && vm1.pm.start == vm.pm.start
              && Avail(vm1.pm) == Avail(vm.pm) - 1
            && !Owned(vm.pm, f) && Live(vm1.pm, f)
              && (forall g: nat :: g != f ==> (Live(vm1.pm, g) <==> Live(vm.pm, g)))
            && FrameHolds(vm1.pm.mem, f, bytes)
            && (forall g: nat :: g != f ==> SameFrame(vm.pm.mem, vm1.pm.mem, g))
  {
    AllocCorrect(vm.pm);
    var (pm, f) := Alloc(vm.pm);
    var vm1 := Filled(vm, bytes);
    FreshInMemory(vm.pm);
    hide Alloc;
    FillFrame(pm.mem, f, bytes);
    SameListOk(pm, vm1.pm);
    forall g: nat | g != f
      ensures SameFrame(vm.pm.mem, vm1.pm.mem, g)
    {
      assert SameFrame(vm.pm.mem, pm.mem, g) && SameFrame(pm.mem, vm1.pm.mem, g);
    }
  }

  lemma FreshInMemory(pm: Pmm.State)
    requires PagesOk(pm) && Alloc(pm).1 != 0
    ensures var (pm1, f) := Alloc(pm); 512 * f + 512 <= |pm1.mem| && pm1.start <= f && f !in pm1.free && !Owned(pm, f)
  {
    AllocCorrect(pm);
  }

  lemma FrameHoldsKept(a: Memory, b: Memory, f: nat, bytes: seq<Byte>)
    requires FrameHolds(a, f, bytes) && SameFrame(a, b, f) && |a| == |b|
    ensures FrameHolds(b, f, bytes)
  {
    forall o: nat | o < 4096
      ensures FrameByte(b, f, o) == if o < |bytes| then bytes[o] else 0
    {
      SameFrameBytes(a, b, f, o);
    }
  }

  // Filling a page leaves every page as mappable as it was.
  lemma FilledMappable(vm: Vm, root: nat, bytes: seq<Byte>, v: nat)
    requires TablesOk(vm) && IsRoot(vm, root) && |bytes| <= 4096 && Alloc(vm.pm).1 != 0 && v < VPN_LIMIT
    requires Mappable(vm, root, v)
    ensures var vm0 := Filled(vm, bytes);
            && Mappable(vm0, root, v) && IsRoot(vm0, root) && TablesOk(vm0) && Grows(vm, vm0)
            && Walk(vm0.pm.mem, root, 4, v) == Walk(vm.pm.mem, root, 4, v)
  {
    hide Filled, Walk;
    FilledCorrect(vm, bytes);
    RootTable(vm, root, v);
    if LowSpot(vm, root, v) { LowSpotStays(vm, Filled(vm, bytes), root, v); }
  }

  // Mapping the filled page f at q.vpn.
  lemma MapFilledCorrect(vm: Vm, root: nat, q: Placement)
    requires TablesOk(vm) && IsRoot(vm, root) && PlacementOk(q) && Alloc(vm.pm).1 != 0 && Mappable(vm, root, q.vpn)
    ensures var f := Alloc(vm.pm).1;
            var vm1 := MapFilled(vm, root, q, f);
            && TablesOk(vm1) && Grows(vm, vm1) && IsRoot(vm1, root)
            && Avail(vm.pm) - 4 <= Avail(vm1.pm) <= Avail(vm.pm)
            && (Avail(vm1.pm) > 0 ==> MapFilledDone(vm, root, q, f))
            && !Owned(vm.pm, f) && Live(vm1.pm, f) && f !in vm1.roles
  {
    var f := Alloc(vm.pm).1;
    FilledCorrect(vm, q.bytes);
    FilledMappable(vm, root, q.bytes, q.vpn);
    hide Filled, Map, TablesOk, Mappable;
    var vm0 := Filled(vm, q.bytes);
    var e := LeafEntry(4096 * (f as int), q.flags);
    MapCorrect(vm0, root, q.vpn, e);
    GrowsTrans(vm, vm0, Map(vm0, root, q.vpn, e).0);
  }

  lemma MapFilledHolds(vm: Vm, root: nat, q: Placement)
    requires TablesOk(vm) && IsRoot(vm, root) && PlacementOk(q) && Alloc(vm.pm).1 != 0
    requires Clear(vm.pm.mem, root, q.vpn) && MapFilledDone(vm, root, q, Alloc(vm.pm).1)
    ensures Holds(MapFilled(vm, root, q, Alloc(vm.pm).1), root, q)
  {
    var f := Alloc(vm.pm).1;
    FilledCorrect(vm, q.bytes);
    FilledMappable(vm, root, q.bytes, q.vpn);
    hide Filled, Map, TablesOk, FrameHolds, Holds;
    var vm0 := Filled(vm, q.bytes);
    var e := LeafEntry(4096 * (f as int), q.flags);
    MapCorrect(vm0, root, q.vpn, e);
    MapWalk(vm0, root, q.vpn, e, root, q.vpn);
    var vm1 := Map(vm0, root, q.vpn, e).0;
    FilledKept(vm0, vm1, f, q.bytes);
    HoldsFrom(vm1, root, q, f);
  }

  lemma FilledKept(vm0: Vm, vm1: Vm, f: Frame, bytes: seq<Byte>)
    requires TablesOk(vm0) && TablesOk(vm1) && Grows(vm0, vm1)
    requires Live(vm0.pm, f) && f !in vm0.roles && FrameHolds(vm0.pm.mem, f, bytes)
    ensures Live(vm1.pm, f) && f !in vm1.roles && FrameHolds(vm1.pm.mem, f, bytes)
  {
    FrameHoldsKept(vm0.pm.mem, vm1.pm.mem, f, bytes);
  }

  lemma HoldsFrom(vm: Vm, root: nat, q: Placement, f: Frame)
    requires PlacementOk(q) && Walk(vm.pm.mem, root, 4, q.vpn) == Page(LeafEntry(4096 * (f as int), q.flags))
    requires Live(vm.pm, f) && f !in vm.roles && FrameHolds(vm.pm.mem, f, q.bytes)
    ensures Holds(vm, root, q)
  {
    assert 4096 * (f as int) / 4096 == f;
  }

  // What a placement at q.vpn does to the walk of v through any root g.
  lemma MapFilledWalk(vm: Vm, root: nat, q: Placement, g: nat, v: nat)
    requires TablesOk(vm) && IsRoot(vm, root) && PlacementOk(q) && Alloc(vm.pm).1 != 0 && Mappable(vm, root, q.vpn)
    requires IsRoot(vm, g) && v < VPN_LIMIT
    ensures var f := Alloc(vm.pm).1;
            var x, x1 := Walk(vm.pm.mem, g, 4, v), Walk(MapFilled(vm, root, q, f).pm.mem, g, 4, v);
            && (x1 == x || x1 == XlatOf(LeafEntry(4096 * (f as int), q.flags)))
            && (v != q.vpn || !Clear(vm.pm.mem, root, q.vpn) || !MapFilledDone(vm, root, q, f) ==> x1 == x)
            && (g == root ==> (x1.Opaque? <==> x.Opaque?))
  {
    hide Filled, Map, TablesOk, Walk, PlacementOk, Mappable;
    MapFilledTables(vm, root, q, g, v);
    var e := LeafEntry(4096 * (Alloc(vm.pm).1 as int), q.flags);
    MapWalk(Filled(vm, q.bytes), root, q.vpn, e, g, v);
  }

  lemma MapFilledTables(vm: Vm, root: nat, q: Placement, g: nat, v: nat)
    requires TablesOk(vm) && IsRoot(vm, root) && PlacementOk(q) && Alloc(vm.pm).1 != 0 && Mappable(vm, root, q.vpn)
    requires IsRoot(vm, g) && v < VPN_LIMIT
    ensures var vm0 := Filled(vm, q.bytes);
            && TablesOk(vm0) && IsRoot(vm0, root) && IsRoot(vm0, g) && Mappable(vm0, root, q.vpn) && q.vpn < VPN_LIMIT
            && Walk(vm0.pm.mem, g, 4, v) == Walk(vm.pm.mem, g, 4, v)
            && Walk(vm0.pm.mem, root, 4, q.vpn) == Walk(vm.pm.mem, root, 4, q.vpn)
  {
    FilledCorrect(vm, q.bytes);
    FilledMappable(vm, root, q.bytes, q.vpn);
    RootTable(vm, g, v);
  }

  // What a placement guarantees. With a page still available afterwards nothing failed on the way.
  ghost predicate Placed(k: Kernel, root: nat, q: Placement, k1: Kernel, ok: bool)
  {
    && KernelOk(k1) && Grows(k.vm, k1.vm) && IsRoot(k1.vm, root)
    && Avail(k.vm.pm) - 4 <= Avail(k1.vm.pm) <= Avail(k.vm.pm)
    && (Avail(k1.vm.pm) > 0 ==> PlaceDone(k, root, q))
    && (PlaceDone(k, root, q) ==> ok && (Clear(k.vm.pm.mem, root, q.vpn) ==> Holds(k1.vm, root, q)))
    && k1 == k.(vm := k1.vm, proc := k.proc.(ledger := k1.proc.ledger))
    && k.proc.ledger <= k1.proc.ledger
  }

  lemma GrowsLedger(vm: Vm, vm1: Vm, ledger: seq<nat>)
    requires LedgerOk(vm, ledger) && Grows(vm, vm1)
    ensures LedgerOk(vm1, ledger)
  {
  }

  lemma PlaceCorrect(k: Kernel, root: nat, q: Placement)
    requires KernelOk(k) && IsRoot(k.vm, root) && PlacementOk(q) && Mappable(k.vm, root, q.vpn)
    ensures var (k1, ok) := Place(k, root, q); Placed(k, root, q, k1, ok)
  {
    AllocCorrect(k.vm.pm);
    var f := Alloc(k.vm.pm).1;
    if f != 0 {
      MapFilledCorrect(k.vm, root, q);
      var vm1 := MapFilled(k.vm, root, q, f);
      if PlaceDone(k, root, q) && Clear(k.vm.pm.mem, root, q.vpn) { MapFilledHolds(k.vm, root, q); }
      GrowsLedger(k.vm, vm1, k.proc.ledger);
      RecordOk(k.vm, vm1, k.proc, f);
    }
  }

  lemma RecordOk(vm: Vm, vm1: Vm, p: Proc, f: nat)
    requires LedgerOk(vm, p.ledger) && LedgerOk(vm1, p.ledger) && !Live(vm.pm, f) && Releasable(vm1, f)
    ensures LedgerOk(vm1, Record(p, f).ledger)
  {
    forall i | 0 <= i < |p.ledger|
      ensures p.ledger[i] != f
    {
      assert p.ledger[i] in p.ledger;
    }
  }

  // A placement elsewhere, one below a large page, and one that ran out of memory keep the walk.
  lemma PlaceWalk(k: Kernel, root: nat, q: Placement, v: nat)
    requires KernelOk(k) && IsRoot(k.vm, root) && PlacementOk(q) && v < VPN_LIMIT && Mappable(k.vm, root, q.vpn)
    requires v != q.vpn || !Clear(k.vm.pm.mem, root, q.vpn) || !PlaceDone(k, root, q)
    ensures Walk(Place(k, root, q).0.vm.pm.mem, root, 4, v) == Walk(k.vm.pm.mem, root, 4, v)
  {
    if Alloc(k.vm.pm).1 != 0 {
      MapFilledWalk(k.vm, root, q, root, v);
    }
  }

  // A placement changes for no page and no root whether an entry stops the walk.
  lemma PlaceOpaque(k: Kernel, root: nat, q: Placement, g: nat, v: nat)
    requires KernelOk(k) && IsRoot(k.vm, root) && PlacementOk(q) && v < VPN_LIMIT && Mappable(k.vm, root, q.vpn)
    requires IsRoot(k.vm, g)
    ensures Walk(Place(k, root, q).0.vm.pm.mem, g, 4, v).Opaque? <==> Walk(k.vm.pm.mem, g, 4, v).Opaque?
  {
    if Alloc(k.vm.pm).1 != 0 {
      MapFilledOpaque(k.vm, root, q, g, v);
    }
  }

  lemma MapFilledOpaque(vm: Vm, root: nat, q: Placement, g: nat, v: nat)
    requires TablesOk(vm) && IsRoot(vm, root) && PlacementOk(q) && Alloc(vm.pm).1 != 0 && Mappable(vm, root, q.vpn)
    requires IsRoot(vm, g) && v < VPN_LIMIT
    ensures Walk(MapFilled(vm, root, q, Alloc(vm.pm).1).pm.mem, g, 4, v).Opaque? <==> Walk(vm.pm.mem, g, 4, v).Opaque?
  {
    hide Filled, TablesOk, PlacementOk, Mappable;
    MapFilledTables(vm, root, q, g, v);
    MapOpaque(Filled(vm, q.bytes), root, q.vpn, LeafEntry(4096 * (Alloc(vm.pm).1 as int), q.flags), g, v);
  }

  // The page mapped is the page allocated.
  lemma FilledFrame(vm: Vm, c: nat, q: Placement)
    requires TablesOk(vm) && IsRoot(vm, c) && PlacementOk(q) && Alloc(vm.pm).1 != 0 && Clear(vm.pm.mem, c, q.vpn)
    requires MapFilledDone(vm, c, q, Alloc(vm.pm).1)
    ensures var x := Walk(MapFilled(vm, c, q, Alloc(vm.pm).1).pm.mem, c, 4, q.vpn);
            x.Page? && FrameOf(x.entry) == Alloc(vm.pm).1
  {
    hide Map, Filled;
    FilledMappable(vm, c, q.bytes, q.vpn);
    var f := Alloc(vm.pm).1;
    var vm1, e := Filled(vm, q.bytes), LeafEntry(4096 * (f as int), q.flags);
    hide TablesOk;
    MapCorrect(vm1, c, q.vpn, e);
    MapWalk(vm1, c, q.vpn, e, c, q.vpn);
    LeafOf(f, q.flags);
  }

  lemma LeafOf(f: Frame, flags: Flags)
    requires flags % 2 == 1
    ensures var e := LeafEntry(4096 * (f as int), flags); XlatOf(e) == Page(e) && FrameOf(e) == f
  {
  }

  // ---- Many pages ----

  function PlaceAll(k: Kernel, root: nat, qs: seq<Placement>): (Kernel, bool)
  {
    if qs == [] then (k, true)
    else
      var (k1, ok) := PlaceAll(k, root, qs[..|qs| - 1]);
      if !ok then (k1, false) else Place(k1, root, qs[|qs| - 1])
  }

  // No step of any placement ran out of memory.
  function PlaceAllDone(k: Kernel, root: nat, qs: seq<Placement>): bool {
    qs == [] || (PlaceAllDone(k, root, qs[..|qs| - 1])
      && PlaceDone(PlaceAll(k, root, qs[..|qs| - 1]).0, root, qs[|qs| - 1]))
  }

  // Of the process record placements change the ledger only.
  lemma {:induction false} PlaceAllProc(k: Kernel, root: nat, qs: seq<Placement>)
    ensures var p := PlaceAll(k, root, qs).0.proc; p == k.proc.(ledger := p.ledger)
  {
    if qs != [] {
      hide MapFilled;
      PlaceAllProc(k, root, qs[..|qs| - 1]);
    }
  }

  // Distinct mappable pages.
  ghost predicate Placeable(k: Kernel, root: nat, qs: seq<Placement>) {
    && (forall q :: q in qs ==> PlacementOk(q) && Mappable(k.vm, root, q.vpn))
    && (forall i, j :: 0 <= i < j < |qs| ==> qs[i].vpn != qs[j].vpn)
  }

  // Pages that may be placed in any order, repeated or not.
  ghost predicate SafeToPlace(vm: Vm, root: nat, qs: seq<Placement>) {
    forall q :: q in qs ==> PlacementOk(q) && Mappable(vm, root, q.vpn)
  }

  // What any sequence of placements keeps, whether or not memory suffices.
  ghost predicate Kept(k: Kernel, root: nat, k1: Kernel) {
    && KernelOk(k1) && Grows(k.vm, k1.vm) && IsRoot(k1.vm, root)
    && Avail(k1.vm.pm) <= Avail(k.vm.pm)
    && k1 == k.(vm := k1.vm, proc := k.proc.(ledger := k1.proc.ledger, imageHi := k1.proc.imageHi))
    && (forall f :: f in k1.proc.ledger ==> f in k.proc.ledger || !Live(k.vm.pm, f))
    && (forall g, v: nat :: IsRoot(k.vm, g) && v < VPN_LIMIT ==> SameOpaque(k.vm.pm.mem, k1.vm.pm.mem, g, v))
  }

  predicate SameOpaque(mem: Memory, mem1: Memory, g: nat, v: nat) {
    Walk(mem1, g, 4, v).Opaque? <==> Walk(mem, g, 4, v).Opaque?
  }

  lemma KeptTrans(k: Kernel, root: nat, k1: Kernel, k2: Kernel)
    requires Kept(k, root, k1) && Kept(k1, root, k2)
    ensures Kept(k, root, k2)
  {
    GrowsTrans(k.vm, k1.vm, k2.vm);
    forall g, v: nat | IsRoot(k.vm, g) && v < VPN_LIMIT
      ensures SameOpaque(k.vm.pm.mem, k2.vm.pm.mem, g, v)
    {
      assert SameOpaque(k.vm.pm.mem, k1.vm.pm.mem, g, v) && SameOpaque(k1.vm.pm.mem, k2.vm.pm.mem, g, v);
    }
  }

  lemma KeptSelf(k: Kernel, root: nat)
    requires KernelOk(k) && IsRoot(k.vm, root)
    ensures Kept(k, root, k)
  {
  }

  // What is mappable stays mappable.
  lemma MappableKept(k: Kernel, root: nat, k1: Kernel, v: nat)
    requires KernelOk(k) && Kept(k, root, k1) && IsRoot(k.vm, root) && v < VPN_LIMIT && Mappable(k.vm, root, v)
    ensures Mappable(k1.vm, root, v)
  {
    assert SameOpaque(k.vm.pm.mem, k1.vm.pm.mem, root, v);
    if LowSpot(k.vm, root, v) { LowSpotStays(k.vm, k1.vm, root, v); }
  }

  lemma PlaceKept(k: Kernel, root: nat, q: Placement)
    requires KernelOk(k) && IsRoot(k.vm, root) && PlacementOk(q) && Mappable(k.vm, root, q.vpn)
    ensures Kept(k, root, Place(k, root, q).0)
  {
    hide Walk, TablesOk, Place, Mappable;
    var k1 := Place(k, root, q).0;
    PlaceCorrect(k, root, q);
    PlaceLedger(k, root, q);
    forall g, v: nat | IsRoot(k.vm, g) && v < VPN_LIMIT
      ensures SameOpaque(k.vm.pm.mem, k1.vm.pm.mem, g, v)
    {
      PlaceOpaque(k, root, q, g, v);
    }
  }

  // Placements record fresh pages only.
  lemma PlaceLedger(k: Kernel, root: nat, q: Placement)
    requires KernelOk(k)
    ensures forall f :: f in Place(k, root, q).0.proc.ledger ==> f in k.proc.ledger || !Live(k.vm.pm, f)
  {
    AllocCorrect(k.vm.pm);
  }

  lemma {:induction false} PlaceAllKept(k: Kernel, root: nat, qs: seq<Placement>)
    requires KernelOk(k) && IsRoot(k.vm, root) && SafeToPlace(k.vm, root, qs)
    ensures Kept(k, root, PlaceAll(k, root, qs).0)
  {
    hide Kept, KernelOk, Place, Mappable;
    if qs == [] {
      KeptSelf(k, root);
    } else {
      var init, q := qs[..|qs| - 1], qs[|qs| - 1];
      assert q in qs && forall p :: p in init ==> p in qs;
      PlaceAllKept(k, root, init);
      var (k1, ok) := PlaceAll(k, root, init);
      if ok {
        MappableKept(k, root, k1, q.vpn);
        KeptKernel(k, root, k1);
        PlaceKept(k1, root, q);
        KeptTrans(k, root, k1, Place(k1, root, q).0);
      }
    }
  }

  lemma KeptKernel(k: Kernel, root: nat, k1: Kernel)
    requires Kept(k, root, k1)
    ensures KernelOk(k1) && IsRoot(k1.vm, root) && Grows(k.vm, k1.vm)
  {
  }

  // A held page stays held while other pages are placed.
  lemma HoldsKept(vm: Vm, vm1: Vm, root: nat, q: Placement)
    requires TablesOk(vm) && TablesOk(vm1) && PlacementOk(q) && Holds(vm, root, q) && Grows(vm, vm1)
    requires Walk(vm1.pm.mem, root, 4, q.vpn) == Walk(vm.pm.mem, root, 4, q.vpn)
    ensures Holds(vm1, root, q)
  {
    var f := FrameOf(Walk(vm.pm.mem, root, 4, q.vpn).entry);
    FrameHoldsKept(vm.pm.mem, vm1.pm.mem, f, q.bytes);
  }

  lemma PlaceableInit(k: Kernel, root: nat, qs: seq<Placement>)
    requires Placeable(k, root, qs) && qs != []
    ensures Placeable(k, root, qs[..|qs| - 1])
    ensures forall p :: p in qs[..|qs| - 1] ==> p in qs && p.vpn != qs[|qs| - 1].vpn
    ensures forall p :: p in qs ==> p in qs[..|qs| - 1] || p == qs[|qs| - 1]
    ensures SafeToPlace(k.vm, root, qs[..|qs| - 1]) && PlacementOk(qs[|qs| - 1])
    ensures Mappable(k.vm, root, qs[|qs| - 1].vpn)
  {
    var init := qs[..|qs| - 1];
    assert qs == init + [qs[|qs| - 1]];
    forall p | p in init
      ensures p in qs && p.vpn != qs[|qs| - 1].vpn
    {
      var i :| 0 <= i < |init| && init[i] == p;
      assert qs[i] == p;
    }
  }

  // A page held stays held under one more placement elsewhere.
  lemma PlaceHeld(k: Kernel, root: nat, q: Placement, p: Placement)
    requires KernelOk(k) && IsRoot(k.vm, root) && PlacementOk(q) && Mappable(k.vm, root, q.vpn)
    requires PlacementOk(p) && p.vpn != q.vpn && Holds(k.vm, root, p)
    ensures Holds(Place(k, root, q).0.vm, root, p)
  {
    hide Place, Holds, Walk, Mappable;
    PlaceCorrect(k, root, q);
    PlaceWalk(k, root, q, p.vpn);
    HoldsKept(k.vm, Place(k, root, q).0.vm, root, p);
  }

  // What placing distinct pages guarantees.
  ghost predicate PlacedAll(k: Kernel, root: nat, qs: seq<Placement>, k1: Kernel, ok: bool)
  {
    && KernelOk(k1) && Grows(k.vm, k1.vm) && IsRoot(k1.vm, root)
    && Avail(k.vm.pm) - 4 * |qs| <= Avail(k1.vm.pm) <= Avail(k.vm.pm)
    && (Avail(k1.vm.pm) > 0 ==> PlaceAllDone(k, root, qs))
    && (PlaceAllDone(k, root, qs) ==> ok && AllHeld(k, root, qs, k1))
    && k1 == k.(vm := k1.vm, proc := k.proc.(ledger := k1.proc.ledger))
    && k.proc.ledger <= k1.proc.ledger
  }

  ghost predicate AllHeld(k: Kernel, root: nat, qs: seq<Placement>, k1: Kernel) {
    forall q :: q in qs && Clear(k.vm.pm.mem, root, q.vpn) ==> Holds(k1.vm, root, q)
  }

  lemma {:induction false} PlaceAllCorrect(k: Kernel, root: nat, qs: seq<Placement>)
    requires KernelOk(k) && IsRoot(k.vm, root) && Placeable(k, root, qs)
    ensures var (k1, ok) := PlaceAll(k, root, qs); PlacedAll(k, root, qs, k1, ok)
    decreases |qs|
  {
    if qs == [] {
    } else {
      hide KernelOk, Grows, Place, PlaceDone, Clear, Holds, Mappable, PlacementOk, Placeable;
      var init, q := qs[..|qs| - 1], qs[|qs| - 1];
      PlaceableInit(k, root, qs);
      PlaceAllCorrect(k, root, init);
      PlaceAllKept(k, root, init);
      var (k1, ok) := PlaceAll(k, root, init);
      if ok {
        PlaceAllWalk(k, root, init, q.vpn) by { PlaceableSmall(q); }
        MappableKept(k, root, k1, q.vpn) by { PlaceableSmall(q); }
        PlaceCorrect(k1, root, q);
        var k2 := Place(k1, root, q).0;
        GrowsTrans(k.vm, k1.vm, k2.vm);
        SameClear(k.vm.pm.mem, k1.vm.pm.mem, root, q.vpn);
        forall p | p in qs && Clear(k.vm.pm.mem, root, p.vpn) && PlaceAllDone(k, root, qs)
          ensures Holds(k2.vm, root, p)
        {
          if p != q {
            PlaceableIn(k, root, init, p);
            PlaceHeld(k1, root, q, p);
          }
        }
      }
    }
  }

  lemma PlaceableSmall(q: Placement)
    requires PlacementOk(q)
    ensures q.vpn < VPN_LIMIT
  {
  }

  lemma PlaceableIn(k: Kernel, root: nat, qs: seq<Placement>, p: Placement)
    requires Placeable(k, root, qs) && p in qs
    ensures PlacementOk(p)
  {
  }

  lemma SameClear(mem: Memory, mem1: Memory, root: nat, v: nat)
    requires Walk(mem1, root, 4, v) == Walk(mem, root, 4, v)
    ensures Clear(mem1, root, v) <==> Clear(mem, root, v)
  {
  }

  // Placing distinct pages keeps the walk of every other page and of every page below a large one.
  lemma {:induction false} PlaceAllWalk(k: Kernel, root: nat, qs: seq<Placement>, v: nat)
    requires KernelOk(k) && IsRoot(k.vm, root) && SafeToPlace(k.vm, root, qs) && v < VPN_LIMIT
    requires forall q :: q in qs ==> q.vpn != v || !Clear(k.vm.pm.mem, root, q.vpn)
    ensures Walk(PlaceAll(k, root, qs).0.vm.pm.mem, root, 4, v) == Walk(k.vm.pm.mem, root, 4, v)
    decreases |qs|
  {
    hide Walk, Place, Mappable, Kept;
    if qs == [] {
    } else {
      var init, q := qs[..|qs| - 1], qs[|qs| - 1];
      assert q in qs && forall p :: p in init ==> p in qs;
      PlaceAllWalk(k, root, init, v);
      PlaceAllKept(k, root, init);
      var (k1, ok) := PlaceAll(k, root, init);
      if ok {
        MappableKept(k, root, k1, q.vpn);
        KeptKernel(k, root, k1);
        KeptClear(k, root, k1, q.vpn);
        PlaceWalk(k1, root, q, v);
      }
    }
  }

  lemma KeptClear(k: Kernel, root: nat, k1: Kernel, v: nat)
    requires Kept(k, root, k1) && IsRoot(k.vm, root) && v < VPN_LIMIT
    ensures Clear(k1.vm.pm.mem, root, v) <==> Clear(k.vm.pm.mem, root, v)
  {
    assert SameOpaque(k.vm.pm.mem, k1.vm.pm.mem, root, v);
  }

  // When some placement ran out of memory, some page has the walk it had before.
  lemma {:induction false} PlaceAllMissing(k: Kernel, root: nat, qs: seq<Placement>)
    requires KernelOk(k) && IsRoot(k.vm, root) && Placeable(k, root, qs) && !PlaceAllDone(k, root, qs)
    ensures exists q :: q in qs
                && Walk(PlaceAll(k, root, qs).0.vm.pm.mem, root, 4, q.vpn) == Walk(k.vm.pm.mem, root, 4, q.vpn)
    decreases |qs|
  {
    hide Walk, Place, PlaceDone, Mappable, Kept, KernelOk, PlacementOk, Placeable;
    var init, q := qs[..|qs| - 1], qs[|qs| - 1];
    PlaceableInit(k, root, qs);
    PlaceableSmall(q);
    PlaceAllKept(k, root, init);
    var (k1, ok) := PlaceAll(k, root, init);
    MappableKept(k, root, k1, q.vpn);
    KeptKernel(k, root, k1);
    assert q in qs;
    if PlaceAllDone(k, root, init) {
      PlaceAllWalk(k, root, init, q.vpn);
      if ok { PlaceWalk(k1, root, q, q.vpn); }
    } else {
      PlaceAllMissing(k, root, init);
      var p :| p in init && Walk(k1.vm.pm.mem, root, 4, p.vpn) == Walk(k.vm.pm.mem, root, 4, p.vpn);
      PlaceableIn(k, root, init, p);
      PlaceableSmall(p);
      if ok { PlaceWalk(k1, root, q, p.vpn); }
      assert p in qs;
    }
  }

  // What a completed sequence maps is fresh: the page behind each walk was not live before.
  lemma {:induction false} PlaceAllFresh(k: Kernel, root: nat, qs: seq<Placement>, q: Placement)
    requires KernelOk(k) && IsRoot(k.vm, root) && Placeable(k, root, qs) && PlaceAllDone(k, root, qs)
    requires q in qs && Clear(k.vm.pm.mem, root, q.vpn)
    ensures var x := Walk(PlaceAll(k, root, qs).0.vm.pm.mem, root, 4, q.vpn);
            x.Page? && !Live(k.vm.pm, FrameOf(x.entry))
    decreases |qs|
  {
    hide Walk, Place, PlaceDone, Mappable, Kept, KernelOk, PlacementOk, Placeable, Live, Clear;
    var init, last := qs[..|qs| - 1], qs[|qs| - 1];
    PlaceableInit(k, root, qs);
    PlaceableSmall(last);
    PlaceAllKept(k, root, init);
    PlaceAllCorrect(k, root, init);
    var k1 := PlaceAll(k, root, init).0;
    MappableKept(k, root, k1, last.vpn);
    KeptKernel(k, root, k1);
    if q == last {
      KeptClear(k, root, k1, q.vpn);
      PlaceFresh(k1, root, q);
      GrowsLive(k.vm, k1.vm);
    } else {
      PlaceAllFresh(k, root, init, q);
      PlaceableIn(k, root, init, q);
      PlaceableSmall(q);
      PlaceWalk(k1, root, last, q.vpn);
    }
  }

  lemma PlaceFresh(k: Kernel, root: nat, q: Placement)
    requires KernelOk(k) && IsRoot(k.vm, root) && PlacementOk(q) && Clear(k.vm.pm.mem, root, q.vpn)
    requires PlaceDone(k, root, q)
    ensures var x := Walk(Place(k, root, q).0.vm.pm.mem, root, 4, q.vpn); x.Page? && !Live(k.vm.pm, FrameOf(x.entry))
  {
    FilledFrame(k.vm, root, q);
    AllocCorrect(k.vm.pm);
  }

  lemma GrowsLive(vm: Vm, vm1: Vm)
    requires Grows(vm, vm1)
    ensures forall f: nat :: Live(vm.pm, f) ==> Live(vm1.pm, f)
  {
  }
}
