// Coherence of the processor's translation cache (Intel SDM Vol. 3A, section 4.10).
//
// The hardware may cache the walk of any present page at any moment and may drop entries at any moment.
// Only invlpg and a write to CR3 are under the kernel's control.
module Tlb {
  import opened Words
  import opened Pmm
  import opened PageTables
  import opened LowPages
  import opened AddressSpaces

  datatype Mmu = Mmu(vm: Vm, cr3: nat, tlb: map<nat, Xlat>)

  datatype MmuOp =
    | Fill(vpn: nat)                                // hardware caches a walk
    | Evict(vpn: nat)                               // hardware drops an entry
    | MapCurrent(vpn: nat, entry: Word)             // vm_map_page
    | UnmapCurrent(vpn: nat)                        // vm_unmap_page
    | MapRoot(root: nat, vpn: nat, entry: Word)     // vm_map_page_pml4: no invlpg
    | LoadCr3(root: nat)                            // vm_set_cr3
    | CloneCurrent                                  // vm_clone_current_pml4
    | TakePage                                      // pmm_alloc_page
    | GivePage(page: nat)                           // pmm_free_page

  function MmuStep(m: Mmu, op: MmuOp): Mmu {
    match op
    case Fill(v) =>
      var x := Walk(m.vm.pm.mem, m.cr3, 4, v);
      if x == Absent then m else m.(tlb := m.tlb[v := x])
    case Evict(v) => m.(tlb := m.tlb - {v})
    case MapCurrent(v, e) =>
      var (vm1, ok) := Map(m.vm, m.cr3, v, e);
      m.(vm := vm1, tlb := if ok then m.tlb - {v} else m.tlb)
    case UnmapCurrent(v) =>
      var found := CodeWalk(m.vm.pm.mem, m.cr3, 4, v) != NO_TABLE;
      m.(vm := Unmap(m.vm, m.cr3, v), tlb := if found then m.tlb - {v} else m.tlb)
    case MapRoot(r, v, e) => m.(vm := Map(m.vm, r, v, e).0)
    case LoadCr3(r) => m.(cr3 := r, tlb := map[])
    case CloneCurrent => m.(vm := Clone(m.vm, m.cr3).0)
    case TakePage => m.(vm := m.vm.(pm := Alloc(m.vm.pm).0))
    case GivePage(f) => m.(vm := Release(m.vm, f))
  }

  ghost predicate MmuOk(m: Mmu) {
    TablesOk(m.vm) && IsRoot(m.vm, m.cr3)
  }

  // Every cached translation is the one a walk would find now.
  ghost predicate Coherent(m: Mmu) {
    forall v :: v in m.tlb ==> v < VPN_LIMIT && m.tlb[v] != Absent && m.tlb[v] == Walk(m.vm.pm.mem, m.cr3, 4, v)
  }

  ghost predicate MmuLegal(m: Mmu, op: MmuOp) {
    match op
    case Fill(v) => v < VPN_LIMIT
    case Evict(v) => true
    case MapCurrent(v, e) => v < VPN_LIMIT && Mappable(m.vm, m.cr3, v)
    case UnmapCurrent(v) => v < VPN_LIMIT && Mappable(m.vm, m.cr3, v)
    case MapRoot(r, v, e) => IsRoot(m.vm, r) && v < VPN_LIMIT && Mappable(m.vm, r, v)
    case LoadCr3(r) => IsRoot(m.vm, r)
    case CloneCurrent => true
    case TakePage => true
    case GivePage(f) => Releasable(m.vm, f) && f != m.cr3
  }

  // When vm_map_page_pml4 may skip the invalidation: the running root had nothing at v, or an entry stops
  // the walk, or the running root does not share v's subtree with r, or the entry is rewritten as it was.
  predicate NeedsNoFlush(m: Mmu, r: nat, v: nat, e: Word) {
    || Walk(m.vm.pm.mem, m.cr3, 4, v) == Absent
    || Walk(m.vm.pm.mem, r, 4, v).Opaque?
    || !SameSubtree(m.vm.pm.mem, r, m.cr3, Idx(v, 4))
    || Walk(m.vm.pm.mem, m.cr3, 4, v) == XlatOf(e)
  }

  lemma StepOk(m: Mmu, op: MmuOp)
    requires MmuOk(m) && MmuLegal(m, op)
    ensures MmuOk(MmuStep(m, op))
  {
    match op
    case Fill(v) =>
    case Evict(v) =>
    case MapCurrent(v, e) => MapCorrect(m.vm, m.cr3, v, e);
    case UnmapCurrent(v) => UnmapCorrect(m.vm, m.cr3, v);
    case MapRoot(r, v, e) => MapCorrect(m.vm, r, v, e);
    case LoadCr3(r) =>
    case CloneCurrent => CloneCorrect(m.vm, m.cr3);
    case TakePage => AllocKeepsSpaces(m.vm);
    case GivePage(f) => ReleaseCorrect(m.vm, f);
  }

  // How one step changes the walk of page w through the running root, when CR3 is not rewritten.
  lemma StepWalk(m: Mmu, op: MmuOp, w: nat)
    requires MmuOk(m) && MmuLegal(m, op) && w < VPN_LIMIT && !op.LoadCr3?
    requires op.MapRoot? ==> NeedsNoFlush(m, op.root, op.vpn, op.entry)
    ensures var x, x1 := Walk(m.vm.pm.mem, m.cr3, 4, w), Walk(MmuStep(m, op).vm.pm.mem, m.cr3, 4, w);
            x1 == x || w !in MmuStep(m, op).tlb || x == Absent
  {
    match op
    case Fill(v) =>
    case Evict(v) =>
    case MapCurrent(v, e) => MapWalk(m.vm, m.cr3, v, e, m.cr3, w);
    case UnmapCurrent(v) => UnmapWalk(m.vm, m.cr3, v, m.cr3, w);
    case MapRoot(r, v, e) =>
      MapWalk(m.vm, r, v, e, m.cr3, w);
      if !Walk(m.vm.pm.mem, r, 4, v).Opaque? { SubtreeStable(m.vm, r, v, e, m.cr3); }
    case TakePage =>
      RootTable(m.vm, m.cr3, w);
      AllocKeepsSpaces(m.vm);
    case GivePage(f) =>
      RootTable(m.vm, m.cr3, w);
      ReleaseWalk(m.vm, f, m.cr3, 4, w);
    case CloneCurrent =>
      if Clone(m.vm, m.cr3).1 != 0 {
        CloneTranslates(m.vm, m.cr3, m.cr3);
        assert w in Flat(m.vm.pm.mem, m.cr3);
      } else {
        CloneCorrect(m.vm, m.cr3);
      }
  }

  // Mapping does not change whether two roots share a subtree.
  lemma SubtreeStable(vm: Vm, r: nat, v: nat, e: Word, q: nat)
    requires TablesOk(vm) && IsRoot(vm, r) && IsRoot(vm, q) && v < VPN_LIMIT && !Walk(vm.pm.mem, r, 4, v).Opaque?
    ensures SameSubtree(Map(vm, r, v, e).0.pm.mem, r, q, Idx(v, 4)) <==> SameSubtree(vm.pm.mem, r, q, Idx(v, 4))
  {
    RootTable(vm, r, v);
    DescendCorrect(vm, r, 4, v);
    DescendTop(vm, r, 4, v);
    var (vm1, t) := Descend(vm, r, 4, v);
    if t != NO_TABLE { SetLeafCorrect(vm1, t, v, e); }
    assert EntryOk(vm.pm.mem, vm.roles, q, Idx(v, 4));
  }

  lemma StepCoherent(m: Mmu, op: MmuOp)
    requires MmuOk(m) && MmuLegal(m, op) && Coherent(m)
    requires op.MapRoot? ==> NeedsNoFlush(m, op.root, op.vpn, op.entry)
    ensures Coherent(MmuStep(m, op))
  {
    var m1 := MmuStep(m, op);
    if !op.LoadCr3? {
      forall w | w in m1.tlb
        ensures w < VPN_LIMIT && m1.tlb[w] != Absent && m1.tlb[w] == Walk(m1.vm.pm.mem, m1.cr3, 4, w)
      {
        if !op.Fill? { StepWalk(m, op, w); }
      }
    }
  }

  // ---- Whole runs ----

  function MmuRun(m: Mmu, ops: seq<MmuOp>): Mmu {
    if ops == [] then m else MmuStep(MmuRun(m, ops[..|ops| - 1]), ops[|ops| - 1])
  }

  ghost predicate MmuLegalRun(m: Mmu, ops: seq<MmuOp>) {
    ops == [] ||
    var last, op := MmuRun(m, ops[..|ops| - 1]), ops[|ops| - 1];
    MmuLegalRun(m, ops[..|ops| - 1]) && MmuLegal(last, op)
      && (op.MapRoot? ==> NeedsNoFlush(last, op.root, op.vpn, op.entry))
  }

  // Whatever the hardware caches and drops in between, the cache agrees with the page tables after every
  // step of a run in which unflushed maps are made only where they need no flush.
  lemma {:induction false} RunCoherent(m: Mmu, ops: seq<MmuOp>)
    requires MmuOk(m) && Coherent(m) && MmuLegalRun(m, ops)
    ensures MmuOk(MmuRun(m, ops)) && Coherent(MmuRun(m, ops))
  {
    if ops == [] {
    } else {
      var init := ops[..|ops| - 1];
      RunCoherent(m, init);
      StepOk(MmuRun(m, init), ops[|ops| - 1]);
      StepCoherent(MmuRun(m, init), ops[|ops| - 1]);
    }
  }

  // ---- The exact condition for vm_map_page_pml4 ----

  // A descent along a path that already reaches a leaf entry allocates nothing.
  lemma DescendMapped(vm: Vm, f: nat, l: nat, vpn: nat)
    requires Walk(vm.pm.mem, f, l, vpn).Page? && f < NO_TABLE && l > 0
    ensures Descend(vm, f, l, vpn) == (vm, CodeWalk(vm.pm.mem, f, l, vpn)) && CodeWalk(vm.pm.mem, f, l, vpn) != NO_TABLE
  {
    CodeWalkAgrees(vm.pm.mem, f, l, vpn);
    DescendPresent(vm, f, l, vpn);
  }

  // NeedsNoFlush is exact: it holds if and only if no coherent cache can be made stale by the call.
  lemma NoFlushExact(m: Mmu, r: nat, v: nat, e: Word)
    requires MmuOk(m) && MmuLegal(m, MapRoot(r, v, e))
    ensures NeedsNoFlush(m, r, v, e) <==>
            forall tlb: map<nat, Xlat> :: Coherent(m.(tlb := tlb)) ==>
                Coherent(MmuStep(m.(tlb := tlb), MapRoot(r, v, e)))
  {
    if NeedsNoFlush(m, r, v, e) {
      forall tlb: map<nat, Xlat> | Coherent(m.(tlb := tlb))
        ensures Coherent(MmuStep(m.(tlb := tlb), MapRoot(r, v, e)))
      {
        StepCoherent(m.(tlb := tlb), MapRoot(r, v, e));
      }
    } else {
      var mem := m.vm.pm.mem;
      var m1 := m.(tlb := map[v := Walk(mem, m.cr3, 4, v)]);
      assert Coherent(m1);
      assert Walk(mem, r, 4, v) == Walk(mem, m.cr3, 4, v);
      DescendMapped(m.vm, r, 4, v);
      RootTable(m.vm, r, v);
      MapWalk(m.vm, r, v, e, m.cr3, v);
      SubtreeStable(m.vm, r, v, e, m.cr3);
      assert v in MmuStep(m1, MapRoot(r, v, e)).tlb;
      assert !Coherent(MmuStep(m1, MapRoot(r, v, e)));
    }
  }
}
