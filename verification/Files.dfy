// File contents in the bump arena (the fs_disk.c variant, which refuses what does not fit), and whole
// runs of file-system calls and shell commands.
module Files {
  import opened CStrings
  import opened Tree

  // ---- Contents ----

  ghost predicate ExtentOk(fs: Fs, n: nat)
    requires n < |fs.nodes|
  {
    var x := fs.nodes[n];
    if x.data < 0 then x.size == 0 else x.data + x.size <= fs.aoff
  }

  // Extents in use lie below the bump offset and never overlap.
  ghost predicate ArenaOk(fs: Fs) {
    && |fs.arena| == ARENA_SIZE && fs.aoff <= ARENA_SIZE
    && (forall n: nat :: n < |fs.nodes| ==> ExtentOk(fs, n))
    && (forall f: nat, g: nat :: f < |fs.nodes| && g < |fs.nodes| && f != g ==> Disjoint(fs.nodes[f], fs.nodes[g]))
  }

  predicate Disjoint(a: Node, b: Node) {
    a.data < 0 || b.data < 0 || a.data + a.size <= b.data || b.data + b.size <= a.data
  }

  function Content(fs: Fs, n: nat): string {
    if n < |fs.nodes| && 0 <= fs.nodes[n].data && fs.nodes[n].data + fs.nodes[n].size <= |fs.arena| then
      fs.arena[fs.nodes[n].data..fs.nodes[n].data + fs.nodes[n].size]
    else []
  }

  function Splice(arena: string, at: nat, bytes: string): (r: string)
    requires at + |bytes| <= |arena|
    ensures |r| == |arena| && r[at..at + |bytes|] == bytes && r[..at] == arena[..at]
    ensures r[at + |bytes|..] == arena[at + |bytes|..]
  {
    arena[..at] + bytes + arena[at + |bytes|..]
  }

  predicate IsFile(fs: Fs, f: nat) { f < |fs.nodes| && fs.nodes[f].kind == File }

  // bytes placed at the bump offset become the content of f.
  function Stored(fs: Fs, f: nat, bytes: string): Fs
    requires f < |fs.nodes| && fs.aoff + |bytes| <= |fs.arena|
  {
    fs.(nodes := fs.nodes[f := fs.nodes[f].(data := fs.aoff, size := |bytes|)],
        arena := Splice(fs.arena, fs.aoff, bytes), aoff := fs.aoff + |bytes|)
  }

  // fs_write: an overwrite stores data, an append the old content and data, both in a new extent.
  function Write(fs: Fs, f: nat, data: string, append: bool): (Fs, int) {
    if !IsFile(fs, f) then (fs, -1)
    else
      var bytes := if append then Content(fs, f) + data else data;
      if fs.aoff + |bytes| > |fs.arena| then (fs, -2) else (Stored(fs, f, bytes), 0)
  }

  function Read(fs: Fs, f: nat, max: nat): string {
    if !IsFile(fs, f) then [] else Content(fs, f)[..Min(|Content(fs, f)|, max)]
  }

  // fs_clone_file: the copy is made in the arena, then linking resets the new node's data and size.
  function CloneFile(fs: Fs, p: nat, src: nat, name: string): (Fs, Option<nat>) {
    if !IsDir(fs.nodes, p) || !IsFile(fs, src) || FindIn(fs.nodes, p, name).Some? || |fs.nodes| > SLOTS then (fs, None)
    else
      var bytes := Content(fs, src);
      if fs.aoff + |bytes| > |fs.arena| then
        (fs.(nodes := fs.nodes + [Node(Cut(name), File, None, [], -1, 0)]), None)
      else
        (fs.(nodes := AddNode(fs.nodes, p, name, File), arena := Splice(fs.arena, fs.aoff, bytes),
            aoff := fs.aoff + |bytes|),
         Some(|fs.nodes|))
  }

  // ---- One call ----

  lemma ContentBelow(fs: Fs, fs1: Fs, g: nat, at: nat, bytes: string)
    requires ArenaOk(fs) && g < |fs.nodes| && g < |fs1.nodes| && at == fs.aoff && at + |bytes| <= |fs.arena|
    requires fs1.arena == Splice(fs.arena, at, bytes)
    requires fs1.nodes[g].data == fs.nodes[g].data && fs1.nodes[g].size == fs.nodes[g].size
    ensures Content(fs1, g) == Content(fs, g)
  {
    assert ExtentOk(fs, g);
    var x := fs.nodes[g];
    if 0 <= x.data {
      forall i | 0 <= i < at
        ensures fs1.arena[i] == fs.arena[i]
      {
        assert fs1.arena[..at][i] == fs.arena[..at][i];
      }
      assert fs1.arena[x.data..x.data + x.size] == fs.arena[x.data..x.data + x.size];
    }
  }

  // A successful overwrite sets the content, a successful append extends it, every other file keeps its
  // content, a refused write changes nothing, and refusal means not a file or no room. The arena loses exactly
  // the bytes of the new content.
  lemma WriteCorrect(fs: Fs, f: nat, data: string, append: bool)
    requires ArenaOk(fs)
    ensures var (fs1, r) := Write(fs, f, data, append);
            var want := if append then Content(fs, f) + data else data;
            && ArenaOk(fs1)
            && (r == 0 <==> IsFile(fs, f) && fs.aoff + |want| <= ARENA_SIZE)
            && (r != 0 ==> fs1 == fs && r == if IsFile(fs, f) then -2 else -1)
            && (r == 0 ==> Content(fs1, f) == want && fs1.aoff == fs.aoff + |want|)
            && (forall g: nat :: g < |fs.nodes| && g != f ==> Content(fs1, g) == Content(fs, g))
  {
    var (fs1, r) := Write(fs, f, data, append);
    if r == 0 {
      var want := if append then Content(fs, f) + data else data;
      forall g: nat | g < |fs.nodes| && g != f
        ensures Content(fs1, g) == Content(fs, g)
      {
        ContentBelow(fs, fs1, g, fs.aoff, want);
      }
      forall n: nat | n < |fs1.nodes|
        ensures ExtentOk(fs1, n)
      {
        assert ExtentOk(fs, n);
      }
      forall g: nat, h: nat | g < |fs1.nodes| && h < |fs1.nodes| && g != h
        ensures Disjoint(fs1.nodes[g], fs1.nodes[h])
      {
        assert ExtentOk(fs, g) && ExtentOk(fs, h) && Disjoint(fs.nodes[g], fs.nodes[h]);
      }
    }
  }

  // Adding and re-linking nodes leaves every existing content alone.
  lemma NodesOnly(fs: Fs, fs1: Fs)
    requires ArenaOk(fs) && fs1.arena == fs.arena && fs1.aoff == fs.aoff && |fs.nodes| <= |fs1.nodes|
    requires forall n: nat :: n < |fs.nodes| ==>
               fs1.nodes[n].data == fs.nodes[n].data && fs1.nodes[n].size == fs.nodes[n].size
    requires forall n: nat :: |fs.nodes| <= n < |fs1.nodes| ==> fs1.nodes[n].data == -1 && fs1.nodes[n].size == 0
    ensures ArenaOk(fs1)
    ensures forall g: nat :: g < |fs.nodes| ==> Content(fs1, g) == Content(fs, g)
  {
    forall n: nat | n < |fs1.nodes|
      ensures ExtentOk(fs1, n)
    {
      if n < |fs.nodes| { assert ExtentOk(fs, n); }
    }
    forall g: nat, h: nat | g < |fs1.nodes| && h < |fs1.nodes| && g != h
      ensures Disjoint(fs1.nodes[g], fs1.nodes[h])
    {
      if g < |fs.nodes| && h < |fs.nodes| { assert Disjoint(fs.nodes[g], fs.nodes[h]); }
    }
  }

  lemma CloneFileCorrect(fs: Fs, p: nat, src: nat, name: string)
    requires TreeOk(fs.nodes) && ArenaOk(fs) && |name| <= NAME_MAX
    ensures var fs1 := CloneFile(fs, p, src, name).0;
            && TreeOk(fs1.nodes) && ArenaOk(fs1) && |fs.nodes| <= |fs1.nodes| && fs1.cwd == fs.cwd
            && (forall g: nat :: g < |fs.nodes| ==> Content(fs1, g) == Content(fs, g))
            && (forall n: nat :: n < |fs.nodes| ==>
                fs1.nodes[n].parent == fs.nodes[n].parent && fs1.nodes[n].kind == fs.nodes[n].kind)
  {
    var (fs1, r) := CloneFile(fs, p, src, name);
    var bytes := Content(fs, src);
    if fs1 != fs && r.None? {
      assert fs1.nodes == fs.nodes + [Node(Cut(name), File, None, [], -1, 0)];
      NodesOnly(fs, fs1);
      forall n: nat | n < |fs1.nodes|
        ensures NodeOk(fs1.nodes, n)
      {
        if n < |fs.nodes| {
          assert NodeOk(fs.nodes, n);
          SameKids(fs.nodes, fs1.nodes, n);
        }
      }
    } else if r.Some? {
      AddNodeOk(fs.nodes, p, name, File);
      var mid := fs.(nodes := fs1.nodes);
      NodesOnly(fs, mid);
      forall g: nat | g < |fs.nodes|
        ensures Content(fs1, g) == Content(mid, g)
      {
        ContentBelow(mid, fs1, g, fs.aoff, bytes);
      }
      forall n: nat | n < |fs1.nodes|
        ensures ExtentOk(fs1, n)
      {
        assert ExtentOk(mid, n);
      }
    }
  }

  // ---- Attached nodes ----

  // Changing nothing but nodes above m keeps m attached.
  lemma {:induction false} AttachedFrame(nodes: seq<Node>, r: seq<Node>, m: nat)
    requires Attached(nodes, m) && |nodes| <= |r|
    requires forall n: nat :: n <= m && n < |nodes| ==> r[n].parent == nodes[n].parent
    ensures Attached(r, m)
  {
    if m != 0 {
      AttachedFrame(nodes, r, nodes[m].parent.value);
    }
  }

  // m is n or below it.
  predicate Under(nodes: seq<Node>, n: nat, m: nat)
    decreases m
  {
    m == n || (m < |nodes| && nodes[m].parent.Some? && nodes[m].parent.value < m
      && Under(nodes, n, nodes[m].parent.value))
  }

  // The child of n on the way down to m.
  function Toward(nodes: seq<Node>, n: nat, m: nat): Option<nat>
    decreases m
  {
    if m < |nodes| && nodes[m].parent.Some? && nodes[m].parent.value < m then
      if nodes[m].parent.value == n then Some(m) else Toward(nodes, n, nodes[m].parent.value)
    else None
  }

  lemma {:induction false} UnderIsAbove(nodes: seq<Node>, n: nat, m: nat)
    requires Under(nodes, n, m)
    ensures n <= m
    decreases m
  {
    if m != n { UnderIsAbove(nodes, n, nodes[m].parent.value); }
  }

  lemma {:induction false} UnderChild(nodes: seq<Node>, n: nat, k: nat, m: nat)
    requires TreeOk(nodes) && n < k < |nodes| && nodes[k].parent == Some(n)
    ensures Under(nodes, k, m) <==> Toward(nodes, n, m) == Some(k)
    decreases m
  {
    if m < |nodes| && nodes[m].parent.Some? && nodes[m].parent.value < m {
      var q := nodes[m].parent.value;
      UnderChild(nodes, n, k, q);
      if q == n && m != k && Under(nodes, k, q) {
        UnderIsAbove(nodes, k, q);
      }
      if m == k && q != n { assert false; }
    }
  }

  lemma {:induction false} UnderOrToward(nodes: seq<Node>, n: nat, m: nat)
    requires TreeOk(nodes) && n < |nodes|
    ensures Under(nodes, n, m) <==> m == n || Toward(nodes, n, m).Some?
    ensures Toward(nodes, n, m).Some? ==> Toward(nodes, n, m).value in nodes[n].kids && m != n
    decreases m
  {
    if m < |nodes| {
      assert NodeOk(nodes, m);
      if nodes[m].parent.Some? {
        UnderOrToward(nodes, n, nodes[m].parent.value);
        if Toward(nodes, n, nodes[m].parent.value).Some? && m == n {
          TowardIsAbove(nodes, n, nodes[m].parent.value);
        }
      }
    }
  }

  lemma {:induction false} TowardIsAbove(nodes: seq<Node>, n: nat, m: nat)
    requires Toward(nodes, n, m).Some?
    ensures n < m
    decreases m
  {
    if nodes[m].parent.value != n { TowardIsAbove(nodes, n, nodes[m].parent.value); }
  }

  lemma {:induction false} AttachedIsUnderRoot(nodes: seq<Node>, m: nat)
    ensures Attached(nodes, m) <==> Under(nodes, 0, m)
    decreases m
  {
    if m != 0 && m < |nodes| && nodes[m].parent.Some? && nodes[m].parent.value < m {
      AttachedIsUnderRoot(nodes, nodes[m].parent.value);
    }
  }

  // The traversal that follows child and sibling links.
  function Visit(nodes: seq<Node>, n: nat): seq<nat>
    decreases |nodes| - n, 1, 0
  {
    if n < |nodes| then [n] + VisitKids(nodes, n, nodes[n].kids) else []
  }

  function VisitKids(nodes: seq<Node>, n: nat, kids: seq<nat>): seq<nat>
    decreases |nodes| - n, 0, |kids|
  {
    if kids == [] then []
    else (if n < kids[0] < |nodes| then Visit(nodes, kids[0]) else []) + VisitKids(nodes, n, kids[1..])
  }

  lemma {:induction false} VisitCounts(nodes: seq<Node>, n: nat, m: nat)
    requires TreeOk(nodes) && n < |nodes|
    ensures multiset(Visit(nodes, n))[m] == if Under(nodes, n, m) then 1 else 0
    decreases |nodes| - n, 1, 0
  {
    assert NodeOk(nodes, n);
    VisitKidsCounts(nodes, n, nodes[n].kids, m);
    UnderOrToward(nodes, n, m);
    assert multiset(Visit(nodes, n)) == multiset{n} + multiset(VisitKids(nodes, n, nodes[n].kids));
  }

  lemma {:induction false} VisitKidsCounts(nodes: seq<Node>, n: nat, kids: seq<nat>, m: nat)
    requires TreeOk(nodes) && n < |nodes| && Distinct(kids)
    requires forall c :: c in kids ==> n < c < |nodes| && nodes[c].parent == Some(n)
    ensures multiset(VisitKids(nodes, n, kids))[m] ==
            if Toward(nodes, n, m).Some? && Toward(nodes, n, m).value in kids then 1 else 0
    decreases |nodes| - n, 0, |kids|
  {
    if kids == [] {
    } else {
      hide Visit, Toward, Under, NodeOk;
      var rest := kids[1..];
      assert kids[0] in kids && forall c :: c in rest ==> c in kids;
      assert kids == [kids[0]] + rest;
      VisitCounts(nodes, kids[0], m);
      DistinctTail(kids);
      VisitKidsCounts(nodes, n, rest, m);
      UnderChild(nodes, n, kids[0], m);
      var a, b := Visit(nodes, kids[0]), VisitKids(nodes, n, rest);
      assert VisitKids(nodes, n, kids) == a + b;
      assert multiset(a + b) == multiset(a) + multiset(b);
    }
  }

  lemma DistinctTail(s: seq<nat>)
    requires s != [] && Distinct(s)
    ensures Distinct(s[1..]) && s[0] !in s[1..]
  {
  }

  // Following the links from the root reaches each attached node exactly once and nothing else.
  lemma RootVisitsOnce(nodes: seq<Node>, m: nat)
    requires TreeOk(nodes)
    ensures multiset(Visit(nodes, 0))[m] == if Attached(nodes, m) then 1 else 0
  {
    VisitCounts(nodes, 0, m);
    AttachedIsUnderRoot(nodes, m);
  }

  // ---- Whole runs ----

  datatype FsOp =
    | CreateOp(parent: nat, name: string, kind: Kind)
    | UnlinkOp(parent: nat, name: string)
    | RenameOp(parent: nat, from: string, to: string)
    | CloneOp(parent: nat, src: nat, name: string)
    | WriteOp(file: nat, data: string, append: bool)

  function FsStep(fs: Fs, op: FsOp): Fs {
    match op
    case CreateOp(p, name, kind) => Create(fs, p, name, kind).0
    case UnlinkOp(p, name) => Unlink(fs, p, name).0
    case RenameOp(p, from, to) => Rename(fs, p, from, to).0
    case CloneOp(p, src, name) => CloneFile(fs, p, src, name).0
    case WriteOp(f, data, append) => Write(fs, f, data, append).0
  }

  // Names that fit a node.
  predicate FitsNames(op: FsOp) {
    match op
    case CreateOp(_, name, _) => |name| <= NAME_MAX
    case RenameOp(_, _, to) => |to| <= NAME_MAX
    case CloneOp(_, _, name) => |name| <= NAME_MAX
    case _ => true
  }

  ghost predicate FsOk(fs: Fs) { TreeOk(fs.nodes) && ArenaOk(fs) }

  // The content a step gives to file g: a successful write to g, else what it was.
  function NextContent(fs: Fs, op: FsOp, g: nat): string {
    match op
    case WriteOp(f, data, append) =>
      if f == g && Write(fs, f, data, append).1 == 0 then if append then Content(fs, g) + data else data
      else Content(fs, g)
    case _ => Content(fs, g)
  }

  // Every step keeps tree and arena, never gives a slot away again, and changes the content of no file but
  // the one written.
  lemma FsStepOk(fs: Fs, op: FsOp, g: nat)
    requires FsOk(fs) && FitsNames(op) && g < |fs.nodes|
    ensures var fs1 := FsStep(fs, op);
            && FsOk(fs1) && |fs.nodes| <= |fs1.nodes|
            && fs1.nodes[g].kind == fs.nodes[g].kind
            && Content(fs1, g) == NextContent(fs, op, g)
  {
    match op
    case CreateOp(p, name, kind) => CreateOk(fs, p, name, kind); NodesOnly(fs, FsStep(fs, op));
    case UnlinkOp(p, name) => UnlinkOk(fs, p, name); NodesOnly(fs, FsStep(fs, op));
    case RenameOp(p, from, to) => RenameOk(fs, p, from, to); NodesOnly(fs, FsStep(fs, op));
    case CloneOp(p, src, name) => CloneFileCorrect(fs, p, src, name);
    case WriteOp(f, data, append) =>
      WriteCorrect(fs, f, data, append);
      WriteKeepsTree(fs, f, data, append);
  }

  lemma WriteKeepsTree(fs: Fs, f: nat, data: string, append: bool)
    requires TreeOk(fs.nodes)
    ensures TreeOk(Write(fs, f, data, append).0.nodes)
  {
    var r := Write(fs, f, data, append).0.nodes;
    forall n: nat | n < |r|
      ensures NodeOk(r, n)
    {
      assert NodeOk(fs.nodes, n);
      SameKids(fs.nodes, r, n);
    }
  }

  function FsRun(fs: Fs, ops: seq<FsOp>): Fs {
    if ops == [] then fs else FsStep(FsRun(fs, ops[..|ops| - 1]), ops[|ops| - 1])
  }

  // ---- What a run stores, told from its operations ----

  // The text an operation asks the arena to take after the run ops.
  function Wanted(fs: Fs, ops: seq<FsOp>, op: FsOp): string
    decreases |ops|, 1
  {
    match op
    case WriteOp(f, data, append) => if append then Replay(fs, ops, f) + data else data
    case CloneOp(_, src, _) => Replay(fs, ops, src)
    case _ => ""
  }

  // After the run ops the operation stores its text: the tree lets it, and the bytes stored so far leave room.
  predicate Stores(fs: Fs, ops: seq<FsOp>, op: FsOp)
    decreases |ops|, 2
  {
    var end := FsRun(fs, ops);
    && fs.aoff + Used(fs, ops) + |Wanted(fs, ops, op)| <= 131072
    && match op
       case WriteOp(f, _, _) => IsFile(end, f)
       case CloneOp(p, src, name) =>
         IsDir(end.nodes, p) && IsFile(end, src) && FindIn(end.nodes, p, name).None? && |end.nodes| <= 512
       case _ => false
  }

  // The bytes the run has stored: the sum over its successful writes and copies.
  function Used(fs: Fs, ops: seq<FsOp>): nat
    decreases |ops|, 0
  {
    if ops == [] then 0
    else
      var init, op := ops[..|ops| - 1], ops[|ops| - 1];
      Used(fs, init) + if Stores(fs, init, op) then |Wanted(fs, init, op)| else 0
  }

  // The content of g after a run is its own successful writes replayed; no other call shows.
  function Replay(fs: Fs, ops: seq<FsOp>, g: nat): string
    decreases |ops|, 0
  {
    if ops == [] then Content(fs, g)
    else
      var init, op := ops[..|ops| - 1], ops[|ops| - 1];
      if op.WriteOp? && op.file == g && Stores(fs, init, op) then Wanted(fs, init, op) else Replay(fs, init, g)
  }

  // The same of one call: whether it stores, and what.
  predicate StoresNow(fs: Fs, op: FsOp) {
    match op
    case WriteOp(f, data, append) => Write(fs, f, data, append).1 == 0
    case CloneOp(p, src, name) => CloneFile(fs, p, src, name).1.Some?
    case _ => false
  }

  function WantedNow(fs: Fs, op: FsOp): string {
    match op
    case WriteOp(f, data, append) => if append then Content(fs, f) + data else data
    case CloneOp(_, src, _) => Content(fs, src)
    case _ => ""
  }

  // One call moves the bump offset by what it stores, and only a write shows in a content.
  lemma StepStores(fs: Fs, op: FsOp, g: nat)
    requires FsOk(fs) && FitsNames(op)
    ensures var fs1, want := FsStep(fs, op), WantedNow(fs, op);
            && fs1.aoff == fs.aoff + (if StoresNow(fs, op) then |want| else 0)
            && Content(fs1, g) == if StoresNow(fs, op) && op.WriteOp? && op.file == g then want else Content(fs, g)
  {
    if g < |fs.nodes| {
      FsStepOk(fs, op, g);
    } else {
      NewIsEmpty(fs, op, g);
    }
  }

  lemma NewIsEmpty(fs: Fs, op: FsOp, g: nat)
    requires g >= |fs.nodes|
    ensures Content(FsStep(fs, op), g) == ""
  {
  }

  // Over every run the bump offset is the sum of the bytes stored and each file, old or new, has its replay as
  // content.
  lemma {:induction false} FsRunOk(fs: Fs, ops: seq<FsOp>, g: nat)
    requires FsOk(fs) && (forall op :: op in ops ==> FitsNames(op))
    ensures var fs1 := FsRun(fs, ops);
            && FsOk(fs1) && |fs.nodes| <= |fs1.nodes| && (g < |fs.nodes| ==> fs1.nodes[g].kind == fs.nodes[g].kind)
            && fs1.aoff == fs.aoff + Used(fs, ops) && Content(fs1, g) == Replay(fs, ops, g)
  {
    hide FsOk, Content, IsFile, IsDir, FindIn;
    if ops == [] {
    } else {
      var init, op := ops[..|ops| - 1], ops[|ops| - 1];
      assert op in ops;
      var mid := FsRun(fs, init);
      FsRunOk(fs, init, g);
      if op.WriteOp? { FsRunOk(fs, init, op.file); }
      if op.CloneOp? { FsRunOk(fs, init, op.src); }
      StepGrows(mid, op, g);
      StepStores(mid, op, g);
      StoredExactly(fs, init, op);
    }
  }

  lemma StepGrows(fs: Fs, op: FsOp, g: nat)
    requires FsOk(fs) && FitsNames(op)
    ensures var fs1 := FsStep(fs, op);
            && FsOk(fs1) && |fs.nodes| <= |fs1.nodes| && (g < |fs.nodes| ==> fs1.nodes[g].kind == fs.nodes[g].kind)
  {
    FsStepOk(fs, op, if g < |fs.nodes| then g else 0);
  }

  // The calls themselves store exactly when the operations' own account says so.
  lemma StoredExactly(fs: Fs, ops: seq<FsOp>, op: FsOp)
    requires FsOk(FsRun(fs, ops)) && FsRun(fs, ops).aoff == fs.aoff + Used(fs, ops)
    requires op.WriteOp? ==> Content(FsRun(fs, ops), op.file) == Replay(fs, ops, op.file)
    requires op.CloneOp? ==> Content(FsRun(fs, ops), op.src) == Replay(fs, ops, op.src)
    ensures WantedNow(FsRun(fs, ops), op) == Wanted(fs, ops, op)
    ensures StoresNow(FsRun(fs, ops), op) <==> Stores(fs, ops, op)
  {
    hide Content, FsRun, Used, Replay, FindIn, Stored, TreeOk;
  }

  // After every run a write succeeds if and only if it is to a file and its text fits behind the bytes the run's
  // operations have stored.
  lemma WriteSucceedsExactly(fs: Fs, ops: seq<FsOp>, f: nat, data: string, append: bool)
    requires FsOk(fs) && (forall op :: op in ops ==> FitsNames(op))
    ensures var end := FsRun(fs, ops);
            var want := if append then Replay(fs, ops, f) + data else data;
            var (fs1, r) := Write(end, f, data, append);
            && (r == 0 <==> IsFile(end, f) && fs.aoff + Used(fs, ops) + |want| <= 131072)
            && (r == 0 ==> Content(fs1, f) == want && Read(fs1, f, |want|) == want)
  {
    hide Content, FsRun, Used, Replay, FsOk, IsFile;
    FsRunOk(fs, ops, f);
    WriteAfter(FsRun(fs, ops), f, data, append);
  }

  lemma WriteAfter(fs: Fs, f: nat, data: string, append: bool)
    requires FsOk(fs)
    ensures var (fs1, r) := Write(fs, f, data, append);
            var want := if append then Content(fs, f) + data else data;
            && (r == 0 <==> IsFile(fs, f) && fs.aoff + |want| <= 131072)
            && (r == 0 ==> Content(fs1, f) == want && Read(fs1, f, |want|) == want)
  {
    WriteCorrect(fs, f, data, append);
    var want := if append then Content(fs, f) + data else data;
    assert want[..|want|] == want;
  }

  // After every run, reading a file gives the first bytes of what replaying the successful writes to it gives.
  lemma ReadAfterRun(fs: Fs, ops: seq<FsOp>, f: nat, max: nat)
    requires FsOk(fs) && (forall op :: op in ops ==> FitsNames(op)) && IsFile(FsRun(fs, ops), f)
    ensures Read(FsRun(fs, ops), f, max) == Replay(fs, ops, f)[..Min(|Replay(fs, ops, f)|, max)]
  {
    hide Content, FsRun, Replay, FsOk;
    FsRunOk(fs, ops, f);
  }
}
