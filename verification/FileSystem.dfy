// The node table and arena updated in place: first-child, next-sibling and parent links between slots,
// -1 for a null pointer. Every method computes the function of the same name on the abstract tree.
module FileSystems {
  import opened CStrings
  import opened Tree
  import opened Files
  import opened Paths

  // A node record as stored; links are slots.
  datatype Rec = Rec(name: string, kind: Kind, parent: int, sibling: int, child: int, data: int, size: nat)

  function Nth(s: seq<nat>, i: nat): int { if i < |s| then s[i] else -1 }

  function Ptr(o: Option<nat>): int { if o.Some? then o.value else -1 }

  function Ref(p: int): Option<nat> { if p < 0 then None else Some(p) }

  // ---- Links and lists ----

  // Entry i of a list is a slot below bound whose sibling link leads to entry i + 1.
  ghost predicate NextOk(tab: seq<Rec>, bound: nat, list: seq<nat>, i: nat)
    requires bound <= |tab| && i < |list|
  {
    list[i] < bound && tab[list[i]].sibling == Nth(list, i + 1)
  }

  // The child and sibling links of slot n spell out its list of children.
  ghost predicate Spells(tab: seq<Rec>, kids: seq<seq<nat>>, n: nat)
    requires |kids| <= |tab| && n < |kids|
  {
    && tab[n].child == Nth(kids[n], 0)
    && tab[n].parent >= -1
    && (forall i: nat :: i < |kids[n]| ==> NextOk(tab, |kids|, kids[n], i))
  }

  ghost predicate Linked(tab: seq<Rec>, kids: seq<seq<nat>>) {
    |kids| <= |tab| && forall n: nat :: n < |kids| ==> Spells(tab, kids, n)
  }

  function NodeOf(r: Rec, kids: seq<nat>): Node { Node(r.name, r.kind, Ref(r.parent), kids, r.data, r.size) }

  ghost function Nodes(tab: seq<Rec>, kids: seq<seq<nat>>): (nodes: seq<Node>)
    requires |kids| <= |tab|
    ensures |nodes| == |kids| && forall n: nat :: n < |kids| ==> nodes[n] == NodeOf(tab[n], kids[n])
  {
    seq(|kids|, n requires 0 <= n < |kids| => NodeOf(tab[n], kids[n]))
  }

  // In a well-formed tree no node is listed twice.
  lemma OneList(nodes: seq<Node>, n: nat, i: nat, m: nat, j: nat)
    requires TreeOk(nodes) && n < |nodes| && m < |nodes| && i < |nodes[n].kids| && j < |nodes[m].kids|
    ensures nodes[n].kids[i] == nodes[m].kids[j] <==> n == m && i == j
  {
    assert NodeOk(nodes, n) && NodeOk(nodes, m);
    assert nodes[n].kids[i] in nodes[n].kids && nodes[m].kids[j] in nodes[m].kids;
  }

  // Writing a fresh slot and hooking it in front of p's list.
  lemma HookFirst(tab: seq<Rec>, kids: seq<seq<nat>>, p: nat, name: string, kind: Kind)
    requires Linked(tab, kids) && p < |kids| < |tab|
    ensures var n := |kids|;
            var tab1 := tab[n := Rec(Cut(name), kind, p, tab[p].child, -1, -1, 0)];
            var tab2 := tab1[p := tab1[p].(child := n)];
            var kids2 := kids[p := [n] + kids[p]] + [[]];
            Linked(tab2, kids2) && Nodes(tab2, kids2) == AddNode(Nodes(tab, kids), p, name, kind)
  {
    var n := |kids|;
    var tab1 := tab[n := Rec(Cut(name), kind, p, tab[p].child, -1, -1, 0)];
    var tab2 := tab1[p := tab1[p].(child := n)];
    var kids2 := kids[p := [n] + kids[p]] + [[]];
    forall m: nat | m < |kids2|
      ensures Spells(tab2, kids2, m)
    {
      if m < n {
        assert Spells(tab, kids, m);
        forall i: nat | i < |kids2[m]|
          ensures NextOk(tab2, |kids2|, kids2[m], i)
        {
          if m != p {
            assert NextOk(tab, |kids|, kids[m], i);
          } else if i > 0 {
            assert NextOk(tab, |kids|, kids[p], i - 1);
            assert kids2[p][i] == kids[p][i - 1];
          }
        }
      }
    }
    HookedNodes(tab, kids, p, name, kind, tab2, kids2);
  }

  lemma HookedNodes(tab: seq<Rec>, kids: seq<seq<nat>>, p: nat, name: string, kind: Kind, tab2: seq<Rec>,
      kids2: seq<seq<nat>>)
    requires p < |kids| < |tab| && |tab2| == |tab| && kids2 == kids[p := [|kids|] + kids[p]] + [[]]
    requires forall n: nat :: n < |kids| ==> NodeOf(tab2[n], []) == NodeOf(tab[n], [])
    requires tab2[|kids|].(sibling := -1, child := -1) == Rec(Cut(name), kind, p, -1, -1, -1, 0)
    ensures Nodes(tab2, kids2) == AddNode(Nodes(tab, kids), p, name, kind)
  {
    var a, b := Nodes(tab2, kids2), AddNode(Nodes(tab, kids), p, name, kind);
    forall n: nat | n < |a|
      ensures a[n] == b[n]
    {
      if n < |kids| { assert NodeOf(tab2[n], []) == NodeOf(tab[n], []); }
    }
  }

  // The table after taking c, whose predecessor in the list is prev or none, out of p's list.
  function Unhooked(tab: seq<Rec>, p: nat, prev: int, c: nat): (r: seq<Rec>)
    requires p < |tab| && -1 <= prev < |tab| && c < |tab|
    ensures |r| == |tab|
  {
    var tab1 := if prev != -1 then tab[prev := tab[prev].(sibling := tab[c].sibling)]
      else tab[p := tab[p].(child := tab[c].sibling)];
    tab1[c := tab1[c].(parent := -1, sibling := -1)]
  }

  lemma Unhook(tab: seq<Rec>, kids: seq<seq<nat>>, p: nat, i: nat, prev: int, c: nat)
    requires Linked(tab, kids) && TreeOk(Nodes(tab, kids)) && p < |kids| && i < |kids[p]|
    requires c == kids[p][i] && c < |kids| && prev == (if i == 0 then -1 else kids[p][i - 1]) && prev < |kids|
    ensures var tab2, kids2, nodes := Unhooked(tab, p, prev, c), kids[p := Without(kids[p], c)], Nodes(tab, kids);
            && Linked(tab2, kids2)
            && var nodes1 := nodes[p := nodes[p].(kids := Without(kids[p], c))];
               Nodes(tab2, kids2) == nodes1[c := nodes1[c].(parent := None)]
  {
    hide TreeOk, Linked, Spells, Unhooked, Nodes, Without;
    LinkedAt(tab, kids, p);
    var tab2, kids2 := Unhooked(tab, p, prev, c), kids[p := Without(kids[p], c)];
    forall m: nat | m < |kids2|
      ensures Spells(tab2, kids2, m)
    {
      LinkedAt(tab, kids, m);
      if m != p { UnhookOther(tab, kids, p, i, prev, c, m); } else { UnhookOwn(tab, kids, p, i, prev, c); }
    }
    LinkedFrom(tab2, kids2);
    UnhookedNodes(tab, kids, p, prev, c);
  }

  lemma LinkedAt(tab: seq<Rec>, kids: seq<seq<nat>>, m: nat)
    requires Linked(tab, kids) && m < |kids|
    ensures |kids| <= |tab| && Spells(tab, kids, m)
  {
  }

  lemma LinkedFrom(tab: seq<Rec>, kids: seq<seq<nat>>)
    requires |kids| <= |tab| && forall m: nat :: m < |kids| ==> Spells(tab, kids, m)
    ensures Linked(tab, kids)
  {
  }

  // The lists of other nodes keep their links: c and its predecessor are in p's list only.
  lemma UnhookOther(tab: seq<Rec>, kids: seq<seq<nat>>, p: nat, i: nat, prev: int, c: nat, m: nat)
    requires |kids| <= |tab| && TreeOk(Nodes(tab, kids)) && p < |kids| && m < |kids| && m != p && i < |kids[p]|
    requires c == kids[p][i] && c < |kids| && prev == (if i == 0 then -1 else kids[p][i - 1]) && prev < |kids|
    requires Spells(tab, kids, m)
    ensures Spells(Unhooked(tab, p, prev, c), kids[p := Without(kids[p], c)], m)
  {
    hide TreeOk, Without;
    var tab2, kids2, nodes := Unhooked(tab, p, prev, c), kids[p := Without(kids[p], c)], Nodes(tab, kids);
    forall j: nat | j < |kids[m]|
      ensures NextOk(tab2, |kids2|, kids2[m], j)
    {
      assert NextOk(tab, |kids|, kids[m], j);
      OneList(nodes, m, j, p, i);
      if i > 0 { OneList(nodes, m, j, p, i - 1); }
    }
  }

  // p's own list loses c.
  lemma UnhookOwn(tab: seq<Rec>, kids: seq<seq<nat>>, p: nat, i: nat, prev: int, c: nat)
    requires |kids| <= |tab| && TreeOk(Nodes(tab, kids)) && p < |kids| && i < |kids[p]|
    requires c == kids[p][i] && c < |kids| && prev == (if i == 0 then -1 else kids[p][i - 1]) && prev < |kids|
    requires Spells(tab, kids, p)
    ensures Spells(Unhooked(tab, p, prev, c), kids[p := Without(kids[p], c)], p)
  {
    OwnList(Nodes(tab, kids), p, c);
    hide TreeOk, Without;
    WithoutAt(kids[p], i);
    if i > 0 { assert NextOk(tab, |kids|, kids[p], i - 1); }
    assert NextOk(tab, |kids|, kids[p], i);
    UnhookList(tab, Unhooked(tab, p, prev, c), |kids|, kids[p], i, prev, Without(kids[p], c));
  }

  lemma OwnList(nodes: seq<Node>, p: nat, c: nat)
    requires TreeOk(nodes) && p < |nodes| && c in nodes[p].kids
    ensures Distinct(nodes[p].kids) && c != p
  {
    assert NodeOk(nodes, p);
  }

  lemma UnhookedNodes(tab: seq<Rec>, kids: seq<seq<nat>>, p: nat, prev: int, c: nat)
    requires p < |kids| <= |tab| && -1 <= prev < |kids| && c < |kids|
    ensures var nodes := Nodes(tab, kids);
            var nodes1 := nodes[p := nodes[p].(kids := Without(kids[p], c))];
            Nodes(Unhooked(tab, p, prev, c), kids[p := Without(kids[p], c)]) == nodes1[c := nodes1[c].(parent := None)]
  {
    var nodes := Nodes(tab, kids);
    var nodes1 := nodes[p := nodes[p].(kids := Without(kids[p], c))];
    var a, b := Nodes(Unhooked(tab, p, prev, c), kids[p := Without(kids[p], c)]),
        nodes1[c := nodes1[c].(parent := None)];
    forall n: nat | n < |a|
      ensures a[n] == b[n]
    {
    }
  }

  lemma UnhookList(tab: seq<Rec>, tab2: seq<Rec>, bound: nat, kids: seq<nat>, i: nat, prev: int, list: seq<nat>)
    requires Distinct(kids) && i < |kids| && list == kids[..i] + kids[i + 1..] && bound <= |tab| == |tab2|
    requires forall j: nat :: j < |kids| ==> NextOk(tab, bound, kids, j)
    requires prev == if i == 0 then -1 else kids[i - 1]
    requires forall n: nat :: n < |tab| && n != kids[i] && n != prev ==> tab2[n].sibling == tab[n].sibling
    requires i > 0 ==> kids[i - 1] < |tab| && kids[i] < |tab| && tab2[kids[i - 1]].sibling == tab[kids[i]].sibling
    ensures forall j: nat :: j < |list| ==> NextOk(tab2, bound, list, j)
  {
    forall j: nat | j < |list|
      ensures NextOk(tab2, bound, list, j)
    {
      var at := if j < i then j else j + 1;
      assert list[j] == kids[at];
      assert NextOk(tab, bound, kids, at) && NextOk(tab, bound, kids, i);
    }
  }

  class FileSystem {
    const table: array<Rec>  // slot 0 is the root, slot k + 1 is nodes[k]
    var ni: nat
    var cwd: nat
    const arena: array<char>
    var aoff: nat
    ghost var kids: seq<seq<nat>>

    ghost predicate Rep()
      reads this, table, arena
    {
      && table.Length == SLOTS + 1 && arena.Length == ARENA_SIZE
      && |kids| == ni + 1 <= SLOTS + 1
      && Linked(table[..], kids)
    }

    ghost function Abs(): (fs: Fs)
      requires Rep()
      reads this, table, arena
    {
      Fs(Nodes(table[..], kids), cwd, arena[..], aoff)
    }

    ghost predicate Valid()
      reads this, table, arena
      ensures Valid() ==> Rep()
    {
      Rep() && FsOk(Abs())
    }

    // fs_init
    constructor ()
      ensures Valid() && fresh(table) && fresh(arena)
      ensures Abs().nodes == [Node("/", Dir, None, [], -1, 0)] && cwd == 0 && aoff == 0
    {
      table := new Rec[SLOTS + 1](_ => Rec("", Dir, -1, -1, -1, -1, 0));
      arena := new char[ARENA_SIZE](_ => '\0');
      ni, cwd, aoff, kids := 0, 0, 0, [[]];
      new;
      table[0] := Rec("/", Dir, -1, -1, -1, -1, 0);
      assert Spells(table[..], kids, 0);
      assert NodeOk(Abs().nodes, 0);
      assert ExtentOk(Abs(), 0);
    }

    // One step along p's list: entry i is a slot, its link leads on, and the search result follows.
    lemma ListStep(p: nat, i: nat, name: string)
      requires Valid() && p <= ni && i < |kids[p]|
      ensures var c, nodes := kids[p][i], Abs().nodes;
              && c <= ni && c < table.Length && table[c].sibling == Nth(kids[p], i + 1)
              && FindKid(nodes, kids[p][i..], name) ==
                 if table[c].name == name then Some(c) else FindKid(nodes, kids[p][i + 1..], name)
    {
      assert Spells(table[..], kids, p);
      assert NextOk(table[..], |kids|, kids[p], i);
      assert kids[p][i..][1..] == kids[p][i + 1..];
    }

    lemma ListHead(p: nat, name: string)
      requires Valid() && p <= ni
      ensures p < table.Length && p < |kids| && table[p].child == Nth(kids[p], 0)
      ensures FindIn(Abs().nodes, p, name) == FindKid(Abs().nodes, kids[p][0..], name)
      ensures FindKid(Abs().nodes, [], name) == None && Ptr(None) == -1 && forall c: nat :: Ptr(Some(c)) == c
      ensures forall i: nat :: Nth(kids[p], i) == if i < |kids[p]| then kids[p][i] else -1
    {
      assert Spells(table[..], kids, p);
      assert kids[p][0..] == kids[p];
    }

    // find_in: along the sibling links to the first entry of that name.
    method FindKidIn(p: nat, name: string) returns (c: int)
      requires Valid() && p <= ni
      ensures c == Ptr(FindIn(Abs().nodes, p, name)) && -1 <= c <= ni
    {
      hide *;
      ghost var i := 0;
      ListHead(p, name);
      c := table[p].child;
      while c != -1
        invariant 0 <= i <= |kids[p]| && c == Nth(kids[p], i)
        invariant FindIn(Abs().nodes, p, name) == FindKid(Abs().nodes, kids[p][i..], name)
        decreases |kids[p]| - i
      {
        ListStep(p, i, name);
        if table[c].name == name { return; }
        c := table[c].sibling;
        i := i + 1;
      }
      assert kids[p][i..] == [];
    }

    // A fresh slot, filled in and linked first in p's list (add_child).
    method AddChild(p: nat, name: string, kind: Kind) returns (n: nat)
      requires Valid() && p <= ni && ni < SLOTS
      modifies this`ni, this`kids, table
      ensures Rep() && n == old(ni) + 1
      ensures Abs() == old(Abs()).(nodes := AddNode(old(Abs()).nodes, p, name, kind))
    {
      HookFirst(table[..], kids, p, name, kind);
      n := ni + 1;
      ni := ni + 1;
      table[n] := Rec(Cut(name), kind, -1, -1, -1, -1, 0);
      table[n] := table[n].(parent := p);
      table[n] := table[n].(sibling := table[p].child);
      table[n] := table[n].(child := -1, data := -1, size := 0);
      table[p] := table[p].(child := n);
      kids := kids[p := [n] + kids[p]] + [[]];
      assert table[..] ==
          old(table[..])[n := Rec(Cut(name), kind, p, old(table[p].child), -1, -1, 0)][p := old(table[p]).(child := n)];
    }

    lemma CreateStep(p: nat, name: string, kind: Kind)
      requires Valid() && |name| <= NAME_MAX
      ensures FsOk(Create(Abs(), p, name, kind).0)
    {
      FsStepOk(Abs(), CreateOp(p, name, kind), 0);
    }

    // fs_mkdir
    method FsMkdir(parent: int, name: string) returns (r: int)
      requires Valid() && -1 <= parent <= ni
      modifies this`ni, this`kids, table
      ensures Rep() && (|name| <= NAME_MAX ==> Valid())
      ensures parent == -1 ==> r == -1 && Abs() == old(Abs())
      ensures parent != -1 ==>
                Abs() == Create(old(Abs()), parent, name, Dir).0 && r == Ptr(Create(old(Abs()), parent, name, Dir).1)
    {
      if parent == -1 || table[parent].kind != Dir { return -1; }
      if |name| <= NAME_MAX { CreateStep(parent, name, Dir); }
      var e := FindKidIn(parent, name);
      if e != -1 { return -1; }
      if ni >= SLOTS { return -1; }
      r := AddChild(parent, name, Dir);
    }

    // fs_create_file; fs_create_chardev is the same with its own kind.
    method FsCreate(parent: int, name: string, kind: Kind) returns (r: int)
      requires Valid() && -1 <= parent <= ni && kind != Dir
      modifies this`ni, this`kids, table
      ensures Rep() && (|name| <= NAME_MAX ==> Valid())
      ensures parent == -1 ==> r == -1 && Abs() == old(Abs())
      ensures parent != -1 ==>
                Abs() == Create(old(Abs()), parent, name, kind).0 && r == Ptr(Create(old(Abs()), parent, name, kind).1)
    {
      if parent == -1 || table[parent].kind != Dir { return -1; }
      if |name| <= NAME_MAX { CreateStep(parent, name, kind); }
      var e := FindKidIn(parent, name);
      if e != -1 {
        if table[e].kind == kind { return e; } else { return -1; }
      }
      if ni >= SLOTS { return -1; }
      r := AddChild(parent, name, kind);
    }

    // The first entry of that name and the one before it in p's list, -1 for none.
    method FindWithPrev(p: nat, name: string) returns (prev: int, c: int, ghost i: nat)
      requires Valid() && p <= ni
      ensures c == Ptr(FindIn(Abs().nodes, p, name)) && -1 <= c <= ni
      ensures c != -1 ==>
                i < |kids[p]| && kids[p][i] == c && prev == (if i == 0 then -1 else kids[p][i - 1]) && -1 <= prev <= ni
    {
      hide *;
      i := 0;
      ListHead(p, name);
      prev, c := -1, table[p].child;
      while c != -1
        invariant 0 <= i <= |kids[p]| && c == Nth(kids[p], i) && prev == (if i == 0 then -1 else kids[p][i - 1])
        invariant -1 <= prev <= ni
        invariant FindIn(Abs().nodes, p, name) == FindKid(Abs().nodes, kids[p][i..], name)
        decreases |kids[p]| - i
      {
        ListStep(p, i, name);
        if table[c].name == name { return; }
        prev, c := c, table[c].sibling;
        i := i + 1;
      }
      assert kids[p][i..] == [];
    }

    // What a record says about its node.
    lemma RecIs(n: nat)
      requires Rep() && n <= ni
      ensures var fs := Abs();
              && |fs.nodes| == ni + 1 && |fs.arena| == arena.Length == ARENA_SIZE && fs.aoff == aoff
                && fs.arena == arena[..]
              && fs.nodes[n].kind == table[n].kind && fs.nodes[n].data == table[n].data
                && fs.nodes[n].size == table[n].size
              && fs.nodes[n].kids == kids[n] && (IsDir(fs.nodes, n) <==> table[n].kind == Dir)
                && (IsFile(fs, n) <==> table[n].kind == File)
              && n < table.Length == SLOTS + 1
    {
    }

    lemma ValidIs()
      ensures Valid() <==> Rep() && FsOk(Abs())
    {
    }

    // fs_unlink
    method FsUnlink(parent: int, name: string) returns (r: int)
      requires Valid() && -1 <= parent <= ni
      modifies this`kids, table
      ensures Valid()
      ensures parent == -1 ==> r == -1 && Abs() == old(Abs())
      ensures parent != -1 ==>
                Abs() == Unlink(old(Abs()), parent, name).0 && r == Ptr(Unlink(old(Abs()), parent, name).1)
    {
      hide *;
      if parent == -1 { return -1; }
      RecIs(parent);
      UnlinkCases(Abs(), parent, name);
      if table[parent].kind != Dir { return -1; }
      ValidIs();
      FsStepOk(Abs(), UnlinkOp(parent, name), 0);
      var prev, c;
      ghost var i;
      prev, c, i := FindWithPrev(parent, name);
      if c == -1 { return -1; }
      UnlinkAt(parent, i, prev, c);
      ValidIs();
      r := c;
    }

    method UnlinkAt(parent: nat, ghost i: nat, prev: int, c: nat)
      requires Valid() && parent <= ni && i < |kids[parent]| && c == kids[parent][i] && c <= ni
      requires prev == (if i == 0 then -1 else kids[parent][i - 1]) && prev <= ni
      modifies this`kids, table
      ensures Rep()
      ensures var nodes := old(Abs()).nodes;
              var nodes1 := nodes[parent := nodes[parent].(kids := Without(old(kids[parent]), c))];
              Abs() == old(Abs()).(nodes := nodes1[c := nodes1[c].(parent := None)])
    {
      Unhook(table[..], kids, parent, i, prev, c);
      if prev != -1 {
        table[prev] := table[prev].(sibling := table[c].sibling);
      } else {
        table[parent] := table[parent].(child := table[c].sibling);
      }
      table[c] := table[c].(parent := -1);
      table[c] := table[c].(sibling := -1);
      assert table[..] == Unhooked(old(table[..]), parent, prev, c);
      kids := kids[parent := Without(kids[parent], c)];
    }

    // fs_rename
    method FsRename(parent: int, from: string, to: string) returns (r: int)
      requires Valid() && -1 <= parent <= ni
      modifies table
      ensures Rep() && (|to| <= NAME_MAX ==> Valid())
      ensures parent == -1 ==> r == -1 && Abs() == old(Abs())
      ensures parent != -1 ==>
                Abs() == Rename(old(Abs()), parent, from, to).0 && r == Rename(old(Abs()), parent, from, to).1
    {
      if parent == -1 || table[parent].kind != Dir { return -1; }
      if |to| <= NAME_MAX { FsStepOk(Abs(), RenameOp(parent, from, to), 0); }
      var n := FindKidIn(parent, from);
      if n == -1 { return -1; }
      var taken := FindKidIn(parent, to);
      if taken != -1 { return -2; }
      SetRec(n, table[n].(name := Cut(to)));
      r := 0;
    }

    // Overwrites a record without touching its links.
    method SetRec(n: nat, r: Rec)
      requires Rep() && n <= ni && r.parent == table[n].parent && r.sibling == table[n].sibling
      requires r.child == table[n].child
      modifies table
      ensures Rep() && Abs() == old(Abs()).(nodes := old(Abs()).nodes[n := NodeOf(r, old(Abs()).nodes[n].kids)])
    {
      ghost var tab, tab1 := table[..], table[..][n := r];
      forall m: nat | m < |kids|
        ensures Spells(tab1, kids, m)
      {
        assert Spells(tab, kids, m);
        forall i: nat | i < |kids[m]|
          ensures NextOk(tab1, |kids|, kids[m], i)
        {
          assert NextOk(tab, |kids|, kids[m], i);
        }
      }
      table[n] := r;
      assert table[..] == old(table[..])[n := r];
    }

    // ---- Contents ----

    // kmemcpy into the arena at its bump offset plus at.
    method CopyIn(at: nat, bytes: string)
      requires aoff + at + |bytes| <= arena.Length
      modifies arena
      ensures arena[..] == Splice(old(arena[..]), aoff + at, bytes)
    {
      var i := 0;
      while i < |bytes|
        invariant 0 <= i <= |bytes|
        invariant forall j :: 0 <= j < arena.Length ==>
                    arena[j] == if aoff + at <= j < aoff + at + i then bytes[j - aoff - at] else old(arena[j])
      {
        arena[aoff + at + i] := bytes[i];
        i := i + 1;
      }
      assert arena[..] == Splice(old(arena[..]), aoff + at, bytes);
    }

    // The file's bytes, as the source's copy reads them.
    method ContentOf(f: nat) returns (was: string)
      requires Valid() && f <= ni
      ensures was == Content(Abs(), f) && |was| == table[f].size
    {
      assert ExtentOk(Abs(), f);
      was := if table[f].data < 0 then [] else arena[table[f].data..table[f].data + table[f].size];
    }

    // Copies a and then b to the bump offset and makes them the content of f.
    method PutContent(f: nat, a: string, b: string)
      requires Rep() && f <= ni && aoff + |a| + |b| <= ARENA_SIZE
      modifies this`aoff, table, arena
      ensures Rep() && Abs() == Stored(old(Abs()), f, a + b)
    {
      hide Linked, Nodes, Splice;
      SpliceTwice(arena[..], aoff, a, b);
      if |a| > 0 { CopyIn(0, a); }
      CopyIn(|a|, b);
      SetExtent(f, |a| + |b|);
    }

    // fs_write: 0, -1 for a non-file, -2 when the arena is exhausted.
    method FsWrite(f: int, data: string, append: bool) returns (r: int)
      requires Valid() && -1 <= f <= ni
      modifies this`aoff, table, arena
      ensures Valid()
      ensures f == -1 ==> r == -1 && Abs() == old(Abs())
      ensures f != -1 ==> (Abs(), r) == Write(old(Abs()), f, data, append)
    {
      hide *;
      if f == -1 { return -1; }
      RecIs(f);
      WriteCases(Abs(), f, data, append);
      if table[f].kind != File { return -1; }
      ValidIs();
      FsStepOk(Abs(), WriteOp(f, data, append), f);
      WriteStep(Abs(), f, data, append);
      if !append {
        if aoff + |data| > arena.Length { return -2; }
        assert [] + data == data;
        PutContent(f, [], data);
      } else {
        var was := ContentOf(f);
        if aoff + |was| + |data| > arena.Length { return -2; }
        PutContent(f, was, data);
      }
      ValidIs();
      r := 0;
    }

    // The file's contents are the size bytes at the bump offset, which moves past them.
    method SetExtent(f: nat, size: nat)
      requires Rep() && f <= ni
      modifies this`aoff, table
      ensures Rep()
      ensures Abs() ==
                old(Abs()).(nodes := old(Abs()).nodes[f := old(Abs()).nodes[f].(data := old(aoff), size := size)],
                    aoff := old(aoff) + size)
    {
      SetRec(f, table[f].(data := aoff, size := size));
      aoff := aoff + size;
    }

    // fs_read: the first bytes of the content.
    method FsRead(f: int, max: nat) returns (out: string)
      requires Valid() && -1 <= f <= ni
      ensures out == if f == -1 then [] else Read(Abs(), f, max)
    {
      if f == -1 || table[f].kind != File || table[f].data < 0 { return []; }
      assert ExtentOk(Abs(), f);
      var n := if table[f].size < max then table[f].size else max;
      out := arena[table[f].data..table[f].data + n];
      SubSlice(arena[..], table[f].data, table[f].data + table[f].size, n);
    }

    // fs_clone_file
    method FsCloneFile(parent: int, src: int, name: string) returns (r: int)
      requires Valid() && -1 <= parent <= ni && -1 <= src <= ni
      modifies this`ni, this`kids, this`aoff, table, arena
      ensures Rep() && (|name| <= NAME_MAX ==> Valid())
      ensures parent == -1 || src == -1 ==> r == -1 && Abs() == old(Abs())
      ensures parent != -1 && src != -1 ==>
                Abs() == CloneFile(old(Abs()), parent, src, name).0
                  && r == Ptr(CloneFile(old(Abs()), parent, src, name).1)
    {
      hide *;
      if parent == -1 || src == -1 { return -1; }
      RecIs(parent);
      RecIs(src);
      CloneCases(Abs(), parent, src, name);
      if table[parent].kind != Dir || table[src].kind != File { return -1; }
      ValidIs();
      if |name| <= NAME_MAX { CloneFits(parent, src, name); }
      CloneStep(Abs(), parent, src, name);
      var e := FindKidIn(parent, name);
      if e != -1 { return -1; }
      if ni >= SLOTS { return -1; }
      var bytes := ContentOf(src);
      if table[src].size > 0 && aoff + table[src].size > arena.Length {
        TakeSlot(name);
        ValidIs();
        return -1;
      }
      RecIs(0);
      r := AddChild(parent, name, File);
      Consume(bytes);
      ValidIs();
    }

    lemma CloneFits(p: nat, src: nat, name: string)
      requires Valid() && |name| <= NAME_MAX
      ensures FsOk(FsStep(Abs(), CloneOp(p, src, name)))
    {
      FsStepOk(Abs(), CloneOp(p, src, name), 0);
    }

    // Copies bytes to the bump offset and moves it on.
    method Consume(bytes: string)
      requires Rep() && aoff + |bytes| <= ARENA_SIZE
      modifies this`aoff, arena
      ensures Rep()
      ensures Abs() ==
                old(Abs()).(arena := Splice(old(Abs()).arena, old(Abs()).aoff, bytes),
                    aoff := old(Abs()).aoff + |bytes|)
    {
      SpliceTwice(arena[..], aoff, bytes, []);
      if |bytes| > 0 {
        CopyIn(0, bytes);
        aoff := aoff + |bytes|;
      }
    }

    // A slot handed out but linked nowhere.
    method TakeSlot(name: string)
      requires Rep() && ni < SLOTS
      modifies this`ni, this`kids, table
      ensures Rep() && Abs() == old(Abs()).(nodes := old(Abs()).nodes + [Node(Cut(name), File, None, [], -1, 0)])
    {
      ghost var tab := table[..];
      ni := ni + 1;
      table[ni] := Rec(Cut(name), File, -1, -1, -1, -1, 0);
      kids := kids + [[]];
      ghost var tab1 := table[..];
      forall m: nat | m < |kids|
        ensures Spells(tab1, kids, m)
      {
        if m < ni {
          assert Spells(tab, old(kids), m);
          forall i: nat | i < |kids[m]|
            ensures NextOk(tab1, |kids|, kids[m], i)
          {
            assert NextOk(tab, |old(kids)|, kids[m], i);
          }
        }
      }
      assert Nodes(table[..], kids) == Nodes(tab, old(kids)) + [Node(Cut(name), File, None, [], -1, 0)];
    }
  }

  lemma SubSlice(s: string, a: nat, b: nat, n: nat)
    requires a + n <= b <= |s|
    ensures s[a..b][..n] == s[a..a + n]
  {
    assert |s[a..b][..n]| == n;
  }

  lemma SpliceTwice(arena: string, at: nat, a: string, b: string)
    requires at + |a| + |b| <= |arena|
    ensures Splice(Splice(arena, at, a), at + |a|, b) == Splice(arena, at, a + b)
    ensures a == [] ==> Splice(arena, at, a) == arena
  {
  }

  // The value-level functions case by case.
  lemma UnlinkCases(fs: Fs, p: nat, name: string)
    requires p < |fs.nodes|
    ensures FsStep(fs, UnlinkOp(p, name)) == Unlink(fs, p, name).0
    ensures !IsDir(fs.nodes, p) ==> Unlink(fs, p, name) == (fs, None)
    ensures FindIn(fs.nodes, p, name).None? ==> Unlink(fs, p, name) == (fs, None)
    ensures Ptr(None) == -1
    ensures IsDir(fs.nodes, p) && FindIn(fs.nodes, p, name).Some? ==>
              var c := FindIn(fs.nodes, p, name).value;
              && c < |fs.nodes| && Ptr(Some(c)) == c
              && var nodes1 := fs.nodes[p := fs.nodes[p].(kids := Without(fs.nodes[p].kids, c))];
                 Unlink(fs, p, name) == (fs.(nodes := nodes1[c := nodes1[c].(parent := None)]), Some(c))
    ensures Ptr(FindIn(fs.nodes, p, name)) == -1 <==> FindIn(fs.nodes, p, name).None?
  {
  }

  lemma WriteCases(fs: Fs, f: nat, data: string, append: bool)
    ensures !IsFile(fs, f) ==> Write(fs, f, data, append) == (fs, -1)
    ensures IsFile(fs, f) ==> f < |fs.nodes|
    ensures IsFile(fs, f) ==>
              var bytes := if append then Content(fs, f) + data else data;
              Write(fs, f, data, append) ==
                if fs.aoff + |bytes| > |fs.arena| then (fs, -2) else (Stored(fs, f, bytes), 0)
  {
  }

  lemma WriteStep(fs: Fs, f: nat, data: string, append: bool)
    ensures FsStep(fs, WriteOp(f, data, append)) == Write(fs, f, data, append).0
  {
  }

  lemma CloneCases(fs: Fs, p: nat, src: nat, name: string)
    requires p < |fs.nodes|
    ensures !IsDir(fs.nodes, p) || !IsFile(fs, src) || FindIn(fs.nodes, p, name).Some? || |fs.nodes| > SLOTS ==>
              CloneFile(fs, p, src, name) == (fs, None)
    ensures IsDir(fs.nodes, p) && IsFile(fs, src) && FindIn(fs.nodes, p, name).None? && |fs.nodes| <= SLOTS ==>
              var bytes := Content(fs, src);
              CloneFile(fs, p, src, name) ==
              if fs.aoff + |bytes| > |fs.arena| then
                (fs.(nodes := fs.nodes + [Node(Cut(name), File, None, [], -1, 0)]), None)
              else
                (fs.(nodes := AddNode(fs.nodes, p, name, File), arena := Splice(fs.arena, fs.aoff, bytes),
                     aoff := fs.aoff + |bytes|), Some(|fs.nodes|))
    ensures Ptr(FindIn(fs.nodes, p, name)) == -1 <==> FindIn(fs.nodes, p, name).None?
    ensures Ptr(None) == -1 && Ptr(Some(|fs.nodes|)) == |fs.nodes|
  {
  }

  lemma CloneStep(fs: Fs, p: nat, src: nat, name: string)
    requires FsOk(fs) && IsFile(fs, src)
    ensures FsStep(fs, CloneOp(p, src, name)) == CloneFile(fs, p, src, name).0
    ensures fs.aoff <= |fs.arena| && |Content(fs, src)| == fs.nodes[src].size
  {
    assert ExtentOk(fs, src);
  }
}
