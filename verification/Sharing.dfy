// Shallow clones of a root: which subtrees two roots share, over whole runs.
module Sharing {
  import opened Words
  import opened Pmm
  import opened PageTables
  import opened LowPages
  import opened AddressSpaces

  // A legal step that does not release root r changes at most one of r's entries: the one on the path of
  // a map through r, from absent to a table no one else has.
  ghost predicate RootEntryStep(vm: Vm, vm1: Vm, op: Op, r: nat, i: nat) {
    var old_, new_ := Cell(vm.pm.mem, r, i), Cell(vm1.pm.mem, r, i);
    || new_ == old_
    || (op.MapPage? && op.root == r && !Present(old_) && IsTable(new_) && !Owned(vm.pm, FrameOf(new_)))
  }

  lemma RootStep(vm: Vm, op: Op, r: nat)
    requires TablesOk(vm) && Legal(vm, op) && IsRoot(vm, r) && op != ReleasePage(r)
    ensures IsRoot(Step(vm, op), r)
    ensures forall i: nat :: i < 512 ==> RootEntryStep(vm, Step(vm, op), op, r, i)
  {
    var vm1 := Step(vm, op);
    match op
    case AllocPage =>
      AllocKeepsSpaces(vm);
      assert SameFrame(vm.pm.mem, vm1.pm.mem, r);
    case ReleasePage(f) =>
      ReleaseCorrect(vm, f);
      assert SameFrame(vm.pm.mem, vm1.pm.mem, r);
    case MapPage(q, v, e) => MapRootStep(vm, q, v, e, r);
    case UnmapPage(q, v) => UnmapRootStep(vm, q, v, r);
    case CloneRoot(q) =>
      CloneCorrect(vm, q);
      assert Clone(vm, q).1 != 0 ==> SameFrame(vm.pm.mem, vm1.pm.mem, r);
  }

  lemma MapRootStep(vm: Vm, q: nat, v: nat, e: Word, r: nat)
    requires TablesOk(vm) && Legal(vm, MapPage(q, v, e)) && IsRoot(vm, r)
    ensures var vm1 := Map(vm, q, v, e).0;
            IsRoot(vm1, r) && forall i: nat :: i < 512 ==> RootEntryStep(vm, vm1, MapPage(q, v, e), r, i)
  {
    if Walk(vm.pm.mem, q, 4, v).Opaque? {
      LowMapCorrect(vm, q, v, e);
      assert SameFrame(vm.pm.mem, Map(vm, q, v, e).0.pm.mem, r);
    } else {
      RootTable(vm, q, v);
      DescendCorrect(vm, q, 4, v);
      DescendTop(vm, q, 4, v);
      var (vm2, t) := Descend(vm, q, 4, v);
      if t != NO_TABLE { SetLeafCorrect(vm2, t, v, e); }
    }
  }

  lemma UnmapRootStep(vm: Vm, q: nat, v: nat, r: nat)
    requires TablesOk(vm) && Legal(vm, UnmapPage(q, v)) && IsRoot(vm, r)
    ensures IsRoot(Unmap(vm, q, v), r) && SameFrame(vm.pm.mem, Unmap(vm, q, v).pm.mem, r)
  {
    if Walk(vm.pm.mem, q, 4, v).Opaque? {
      LowUnmap(vm, q, v);
      LowMapCorrect(vm, q, v, 0);
    } else {
      RootTable(vm, q, v);
      CodeWalkAgrees(vm.pm.mem, q, 4, v);
      CodeWalkRole(vm, q, 4, v);
      var t := CodeWalk(vm.pm.mem, q, 4, v);
      if t != NO_TABLE { SetLeafCorrect(vm, t, v, 0); }
    }
  }

  // mem0 is the memory when r was cloned into c. A slot present then holds the same entry in both roots
  // ever after; a slot absent then never leads to a common table.
  ghost predicate SlotOk(mem0: Memory, mem: Memory, r: nat, c: nat, i: nat) {
    if Present(Cell(mem0, r, i)) then Cell(mem, r, i) == Cell(mem0, r, i) && Cell(mem, c, i) == Cell(mem0, r, i)
    else Apart(mem, r, c, i)
  }

  ghost predicate SlotsOk(mem0: Memory, mem: Memory, r: nat, c: nat) {
    forall i: nat :: i < 512 ==> SlotOk(mem0, mem, r, c, i)
  }

  lemma SlotsStep(mem0: Memory, vm: Vm, op: Op, r: nat, c: nat)
    requires TablesOk(vm) && Legal(vm, op) && IsRoot(vm, r) && IsRoot(vm, c) && r != c
    requires op != ReleasePage(r) && op != ReleasePage(c)
    requires SlotsOk(mem0, vm.pm.mem, r, c)
    ensures SlotsOk(mem0, Step(vm, op).pm.mem, r, c)
  {
    RootStep(vm, op, r);
    RootStep(vm, op, c);
    var vm1 := Step(vm, op);
    forall i: nat | i < 512
      ensures SlotOk(mem0, vm1.pm.mem, r, c, i)
    {
      assert SlotOk(mem0, vm.pm.mem, r, c, i);
      assert RootEntryStep(vm, vm1, op, r, i) && RootEntryStep(vm, vm1, op, c, i);
      assert EntryOk(vm.pm.mem, vm.roles, r, i) && EntryOk(vm.pm.mem, vm.roles, c, i);
    }
  }

  predicate Keeps(ops: seq<Op>, r: nat) {
    ReleasePage(r) !in ops
  }

  lemma {:induction false} SlotsRun(mem0: Memory, vm: Vm, ops: seq<Op>, r: nat, c: nat)
    requires TablesOk(vm) && LegalRun(vm, ops) && IsRoot(vm, r) && IsRoot(vm, c) && r != c
    requires Keeps(ops, r) && Keeps(ops, c) && SlotsOk(mem0, vm.pm.mem, r, c)
    ensures TablesOk(Run(vm, ops)) && IsRoot(Run(vm, ops), r) && IsRoot(Run(vm, ops), c)
    ensures SlotsOk(mem0, Run(vm, ops).pm.mem, r, c)
  {
    if ops == [] {
    } else {
      var init, op := ops[..|ops| - 1], ops[|ops| - 1];
      SlotsRun(mem0, vm, init, r, c);
      assert op in ops;
      StepInv(Run(vm, init), op);
      RootStep(Run(vm, init), op, r);
      RootStep(Run(vm, init), op, c);
      SlotsStep(mem0, Run(vm, init), op, r, c);
    }
  }

  lemma CloneSlots(vm: Vm, root: nat, ops: seq<Op>)
    requires TablesOk(vm) && IsRoot(vm, root) && Clone(vm, root).1 != 0
    requires var (vm1, c) := Clone(vm, root); LegalRun(vm1, ops) && Keeps(ops, root) && Keeps(ops, c)
    ensures var (vm1, c) := Clone(vm, root);
            var last := Run(vm1, ops);
            TablesOk(last) && IsRoot(last, root) && IsRoot(last, c) && root != c
              && SlotsOk(vm.pm.mem, last.pm.mem, root, c)
  {
    CloneCorrect(vm, root);
    var (vm1, c) := Clone(vm, root);
    assert SameFrame(vm.pm.mem, vm1.pm.mem, root);
    forall i: nat | i < 512
      ensures SlotOk(vm.pm.mem, vm1.pm.mem, root, c, i)
    {
    }
    SlotsRun(vm.pm.mem, vm1, ops, root, c);
  }

  // Clone a root, then run anything that does not release the two roots. A page whose slot was present
  // when cloning translates identically through both.
  lemma SharedSlotsAgree(vm: Vm, root: nat, ops: seq<Op>, v: nat)
    requires TablesOk(vm) && IsRoot(vm, root) && Clone(vm, root).1 != 0 && v < VPN_LIMIT
    requires var (vm1, c) := Clone(vm, root); LegalRun(vm1, ops) && Keeps(ops, root) && Keeps(ops, c)
    requires Present(Cell(vm.pm.mem, root, Idx(v, 4)))
    ensures var (vm1, c) := Clone(vm, root);
            var mem := Run(vm1, ops).pm.mem;
            Walk(mem, root, 4, v) == Walk(mem, c, 4, v)
  {
    CloneSlots(vm, root, ops);
    var (vm1, c) := Clone(vm, root);
    assert SlotOk(vm.pm.mem, Run(vm1, ops).pm.mem, root, c, Idx(v, 4));
  }

  // A page whose slot was absent when cloning is private: mapping or unmapping it through either root, at
  // any later moment, changes no translation of the other.
  lemma AbsentSlotsStayPrivate(vm: Vm, root: nat, ops: seq<Op>, op: Op, w: nat)
    requires TablesOk(vm) && IsRoot(vm, root) && Clone(vm, root).1 != 0 && w < VPN_LIMIT
    requires var (vm1, c) := Clone(vm, root); LegalRun(vm1, ops) && Keeps(ops, root) && Keeps(ops, c)
    requires Legal(Run(Clone(vm, root).0, ops), op) && (op.MapPage? || op.UnmapPage?)
    requires op.root == root || op.root == Clone(vm, root).1
    requires !Present(Cell(vm.pm.mem, root, Idx(op.vpn, 4)))
    ensures var (vm1, c) := Clone(vm, root);
            var last := Run(vm1, ops);
            var other := if op.root == root then c else root;
            Walk(Step(last, op).pm.mem, other, 4, w) == Walk(last.pm.mem, other, 4, w)
  {
    CloneSlots(vm, root, ops);
    var (vm1, c) := Clone(vm, root);
    var last := Run(vm1, ops);
    var other := if op.root == root then c else root;
    SlotsStep(vm.pm.mem, last, op, root, c);
    assert SlotOk(vm.pm.mem, last.pm.mem, root, c, Idx(op.vpn, 4));
    assert SlotOk(vm.pm.mem, Step(last, op).pm.mem, root, c, Idx(op.vpn, 4));
    match op {
      case MapPage(r, v, e) => MapWalk(last, r, v, e, other, w);
      case UnmapPage(r, v) => UnmapWalk(last, r, v, other, w);
    }
  }
}
