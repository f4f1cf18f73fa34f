// The file-system tree: nodes named by their slot (0 is the root, k + 1 is nodes[k]), each with its
// children in list order, newest first.
module Tree {
  import opened CStrings

  const SLOTS := 512
  const NAME_MAX := 31
  const ARENA_SIZE := 131072

  datatype Option<T> = None | Some(value: T)
  datatype Kind = Dir | File | CharDev

  // data is the arena offset of a file's contents, -1 for none.
  datatype Node = Node(name: string, kind: Kind, parent: Option<nat>, kids: seq<nat>, data: int, size: nat)

  datatype Fs = Fs(nodes: seq<Node>, cwd: nat, arena: seq<char>, aoff: nat)

  // ---- The tree invariant ----

  ghost predicate Distinct(s: seq<nat>) {
    forall i, j :: 0 <= i < j < |s| ==> s[i] != s[j]
  }

  ghost predicate NamesDistinct(nodes: seq<Node>, kids: seq<nat>) {
    forall i, j :: 0 <= i < j < |kids| && kids[i] < |nodes| && kids[j] < |nodes| ==>
        nodes[kids[i]].name != nodes[kids[j]].name
  }

  // Parents are older than their children and list them; only directories have children.
  ghost predicate NodeOk(nodes: seq<Node>, n: nat)
    requires n < |nodes|
  {
    var x := nodes[n];
    && |x.name| <= NAME_MAX
    && (x.parent.Some? ==> x.parent.value < n && n in nodes[x.parent.value].kids)
    && (forall c :: c in x.kids ==> n < c < |nodes| && nodes[c].parent == Some(n))
    && Distinct(x.kids) && NamesDistinct(nodes, x.kids)
    && (x.kind != Dir ==> x.kids == [])
  }

  ghost predicate TreeOk(nodes: seq<Node>) {
    && 1 <= |nodes| <= SLOTS + 1
    && nodes[0].kind == Dir && nodes[0].parent == None
    && (forall n: nat :: n < |nodes| ==> NodeOk(nodes, n))
  }

  // n is the root or a child of an attached node.
  predicate Attached(nodes: seq<Node>, n: nat)
    decreases n
  {
    n == 0 || (n < |nodes| && nodes[n].parent.Some? && nodes[n].parent.value < n
      && Attached(nodes, nodes[n].parent.value))
  }

  // ---- Lookups in one directory ----

  // The first of kids with the given name.
  function FindKid(nodes: seq<Node>, kids: seq<nat>, name: string): (r: Option<nat>)
    ensures r.Some? ==> r.value in kids && r.value < |nodes| && nodes[r.value].name == name
    ensures r.None? ==> forall c :: c in kids && c < |nodes| ==> nodes[c].name != name
  {
    if kids == [] then None
    else if kids[0] < |nodes| && nodes[kids[0]].name == name then Some(kids[0])
    else FindKid(nodes, kids[1..], name)
  }

  function FindIn(nodes: seq<Node>, p: nat, name: string): Option<nat> {
    if p < |nodes| then FindKid(nodes, nodes[p].kids, name) else None
  }

  predicate IsDir(nodes: seq<Node>, p: nat) { p < |nodes| && nodes[p].kind == Dir }

  // Names are cut to 31 characters when stored.
  function Cut(name: string): (t: string)
    ensures |t| <= NAME_MAX && (|name| <= NAME_MAX ==> t == name)
  {
    if |name| <= NAME_MAX then name else name[..NAME_MAX]
  }

  // ---- Tree edits ----

  // A fresh slot, first in the parent's list.
  function AddNode(nodes: seq<Node>, p: nat, name: string, kind: Kind): (r: seq<Node>)
    requires p < |nodes|
    ensures |r| == |nodes| + 1
  {
    nodes[p := nodes[p].(kids := [|nodes|] + nodes[p].kids)] + [Node(Cut(name), kind, Some(p), [], -1, 0)]
  }

  // fs_create_file, fs_mkdir and fs_create_chardev differ in what they do with an existing name only.
  function Create(fs: Fs, p: nat, name: string, kind: Kind): (Fs, Option<nat>) {
    if !IsDir(fs.nodes, p) then (fs, None)
    else
      var e := FindIn(fs.nodes, p, name);
      if e.Some? then (fs, if kind != Dir && fs.nodes[e.value].kind == kind then e else None)
      else if |fs.nodes| > SLOTS then (fs, None)
      else (fs.(nodes := AddNode(fs.nodes, p, name, kind)), Some(|fs.nodes|))
  }

  function Without(s: seq<nat>, c: nat): (r: seq<nat>)
    ensures forall x :: x in r ==> x in s && x != c
    ensures forall x :: x in s && x != c ==> x in r
  {
    if s == [] then []
    else if s[0] == c then Without(s[1..], c)
    else [s[0]] + Without(s[1..], c)
  }

  // fs_unlink
  function Unlink(fs: Fs, p: nat, name: string): (Fs, Option<nat>) {
    if !IsDir(fs.nodes, p) then (fs, None)
    else
      var e := FindIn(fs.nodes, p, name);
      if e.None? then (fs, None)
      else
        var nodes1 := fs.nodes[p := fs.nodes[p].(kids := Without(fs.nodes[p].kids, e.value))];
        (fs.(nodes := nodes1[e.value := nodes1[e.value].(parent := None)]), e)
  }

  // fs_rename: 0, -1 for no such entry, -2 for a taken name.
  function Rename(fs: Fs, p: nat, from: string, to: string): (Fs, int) {
    if !IsDir(fs.nodes, p) then (fs, -1)
    else
      var e := FindIn(fs.nodes, p, from);
      if e.None? then (fs, -1)
      else if FindIn(fs.nodes, p, to).Some? then (fs, -2)
      else (fs.(nodes := fs.nodes[e.value := fs.nodes[e.value].(name := Cut(to))]), 0)
  }

  // ---- What the edits keep ----

  lemma {:induction false} WithoutDistinct(s: seq<nat>, c: nat)
    requires Distinct(s)
    ensures Distinct(Without(s, c))
  {
    if s == [] {
    } else {
      WithoutDistinct(s[1..], c);
      var r := Without(s[1..], c);
      if s[0] != c {
        forall j | 0 <= j < |r|
          ensures r[j] != s[0]
        {
          assert r[j] in s[1..];
        }
      }
    }
  }

  lemma {:induction false} WithoutNames(nodes: seq<Node>, s: seq<nat>, c: nat)
    requires NamesDistinct(nodes, s)
    ensures NamesDistinct(nodes, Without(s, c))
  {
    if s == [] {
    } else {
      WithoutNames(nodes, s[1..], c);
      var r := Without(s[1..], c);
      if s[0] != c {
        forall j | 0 <= j < |r| && r[j] < |nodes| && s[0] < |nodes|
          ensures nodes[r[j]].name != nodes[s[0]].name
        {
          assert r[j] in s[1..];
          var k :| 0 <= k < |s[1..]| && s[1..][k] == r[j];
          assert s[k + 1] == r[j];
        }
      }
    }
  }

  lemma {:induction false} WithoutAt(s: seq<nat>, i: nat)
    requires Distinct(s) && i < |s|
    ensures Without(s, s[i]) == s[..i] + s[i + 1..]
  {
    if i == 0 {
      WithoutNone(s[1..], s[0]);
      assert Without(s, s[0]) == Without(s[1..], s[0]);
    } else {
      WithoutAt(s[1..], i - 1);
      assert s[1..][i - 1] == s[i] && s[1..][..i - 1] == s[1..i];
    }
  }

  lemma {:induction false} WithoutNone(s: seq<nat>, c: nat)
    requires c !in s
    ensures Without(s, c) == s
  {
    if s != [] { WithoutNone(s[1..], c); }
  }

  // Adding a child keeps the invariant when no sibling has the name as stored.
  lemma AddNodeOk(nodes: seq<Node>, p: nat, name: string, kind: Kind)
    requires TreeOk(nodes) && IsDir(nodes, p) && |nodes| <= SLOTS
    requires FindIn(nodes, p, Cut(name)).None?
    ensures TreeOk(AddNode(nodes, p, name, kind))
  {
    var r := AddNode(nodes, p, name, kind);
    forall n: nat | n < |r|
      ensures NodeOk(r, n)
    {
      if n < |nodes| {
        assert NodeOk(nodes, n);
        if n == p {
          AddedKids(nodes, p, name, kind);
        } else {
          SameKids(nodes, r, n);
        }
      }
    }
  }

  lemma AddedKids(nodes: seq<Node>, p: nat, name: string, kind: Kind)
    requires TreeOk(nodes) && p < |nodes| && FindIn(nodes, p, Cut(name)).None?
    ensures var r := AddNode(nodes, p, name, kind);
            && Distinct(r[p].kids) && NamesDistinct(r, r[p].kids)
            && (forall c :: c in r[p].kids ==> p < c < |r| && r[c].parent == Some(p))
  {
    assert NodeOk(nodes, p);
    var r := AddNode(nodes, p, name, kind);
    var old_, new_ := nodes[p].kids, r[p].kids;
    assert new_ == [|nodes|] + old_;
    forall i | 0 <= i < |old_|
      ensures old_[i] < |nodes| && r[old_[i]].name == nodes[old_[i]].name && r[old_[i]].name != Cut(name)
    {
      assert old_[i] in old_;
    }
  }

  // A node whose own record and children's names and parents are kept stays well formed.
  lemma SameKids(nodes: seq<Node>, r: seq<Node>, n: nat)
    requires n < |nodes| <= |r| && NodeOk(nodes, n)
    requires r[n].(data := 0, size := 0) == nodes[n].(data := 0, size := 0)
    requires forall c :: c in nodes[n].kids ==> r[c].name == nodes[c].name && r[c].parent == nodes[c].parent
    requires nodes[n].parent.Some? ==> n in r[nodes[n].parent.value].kids
    ensures NodeOk(r, n)
  {
    var kids := nodes[n].kids;
    forall i | 0 <= i < |kids|
      ensures kids[i] in kids
    {
    }
  }

  lemma CreateOk(fs: Fs, p: nat, name: string, kind: Kind)
    requires TreeOk(fs.nodes) && |name| <= NAME_MAX
    ensures TreeOk(Create(fs, p, name, kind).0.nodes)
  {
    if IsDir(fs.nodes, p) && FindIn(fs.nodes, p, name).None? && |fs.nodes| <= SLOTS {
      AddNodeOk(fs.nodes, p, name, kind);
    }
  }

  lemma UnlinkOk(fs: Fs, p: nat, name: string)
    requires TreeOk(fs.nodes)
    ensures TreeOk(Unlink(fs, p, name).0.nodes)
  {
    var (fs1, e) := Unlink(fs, p, name);
    if e.Some? {
      var nodes, r, c := fs.nodes, fs1.nodes, e.value;
      assert NodeOk(nodes, p) && c in nodes[p].kids;
      assert NodeOk(nodes, c);
      assert r[p] == nodes[p].(kids := Without(nodes[p].kids, c)) && r[c] == nodes[c].(parent := None);
      forall n: nat | n < |r|
        ensures NodeOk(r, n)
      {
        assert NodeOk(nodes, n);
        if n == p {
          WithoutDistinct(nodes[p].kids, c);
          WithoutNames(nodes, nodes[p].kids, c);
          UnlinkedNames(nodes, r, Without(nodes[p].kids, c), c);
        } else if n == c {
          UnlinkedNames(nodes, r, nodes[c].kids, c);
        } else {
          assert c !in nodes[n].kids;
          SameKids(nodes, r, n);
        }
      }
    }
  }

  lemma UnlinkedNames(nodes: seq<Node>, r: seq<Node>, kids: seq<nat>, c: nat)
    requires |r| == |nodes| && NamesDistinct(nodes, kids) && c !in kids
    requires forall n: nat :: n < |nodes| && n != c ==> r[n].name == nodes[n].name
    ensures NamesDistinct(r, kids)
  {
    forall i | 0 <= i < |kids|
      ensures kids[i] != c
    {
      assert kids[i] in kids;
    }
  }

  lemma RenameOk(fs: Fs, p: nat, from: string, to: string)
    requires TreeOk(fs.nodes) && |to| <= NAME_MAX
    ensures TreeOk(Rename(fs, p, from, to).0.nodes)
  {
    var (fs1, ret) := Rename(fs, p, from, to);
    if ret == 0 {
      var nodes, r, c := fs.nodes, fs1.nodes, FindIn(fs.nodes, p, from).value;
      assert NodeOk(nodes, p) && c in nodes[p].kids;
      forall n: nat | n < |r|
        ensures NodeOk(r, n)
      {
        assert NodeOk(nodes, n);
        if c in nodes[n].kids {
          assert n == p;
          RenamedNames(nodes, r, nodes[p].kids, c, to);
        } else {
          UnlinkedNames(nodes, r, nodes[n].kids, c);
        }
      }
    }
  }

  lemma RenamedNames(nodes: seq<Node>, r: seq<Node>, kids: seq<nat>, c: nat, to: string)
    requires c < |nodes| && r == nodes[c := nodes[c].(name := to)] && NamesDistinct(nodes, kids) && Distinct(kids)
    requires forall d :: d in kids && d < |nodes| ==> nodes[d].name != to
    ensures NamesDistinct(r, kids)
  {
    forall i | 0 <= i < |kids|
      ensures kids[i] in kids
    {
    }
  }

  // ---- Sibling names, exactly ----

  // A creation keeps sibling names distinct if and only if no sibling bears the name as it will be stored.
  lemma CreateDistinctExactly(fs: Fs, p: nat, name: string, kind: Kind)
    requires TreeOk(fs.nodes) && IsDir(fs.nodes, p) && |fs.nodes| <= SLOTS && FindIn(fs.nodes, p, name).None?
    ensures TreeOk(Create(fs, p, name, kind).0.nodes) <==> FindIn(fs.nodes, p, Cut(name)).None?
  {
    if FindIn(fs.nodes, p, Cut(name)).None? {
      AddNodeOk(fs.nodes, p, name, kind);
    } else {
      var nodes, r := fs.nodes, Create(fs, p, name, kind).0.nodes;
      assert NodeOk(nodes, p);
      var c := FindIn(nodes, p, Cut(name)).value;
      var i :| 0 <= i < |nodes[p].kids| && nodes[p].kids[i] == c;
      assert r[p].kids == [|nodes|] + nodes[p].kids;
      assert r[p].kids[0] == |nodes| && r[p].kids[i + 1] == c;
      assert r[|nodes|].name == r[c].name;
      assert !NamesDistinct(r, r[p].kids);
      assert !NodeOk(r, p);
    }
  }

  // Creating a 32-character name twice makes two siblings of one name.
  lemma LongNamesCollide(fs: Fs, name: string)
    requires TreeOk(fs.nodes) && |fs.nodes| < SLOTS && |name| == 32
    requires FindIn(fs.nodes, 0, name).None? && FindIn(fs.nodes, 0, Cut(name)).None?
    ensures var fs1 := Create(fs, 0, name, File).0;
            TreeOk(fs1.nodes) && FindIn(fs1.nodes, 0, name).None? && !TreeOk(Create(fs1, 0, name, File).0.nodes)
  {
    CreateDistinctExactly(fs, 0, name, File);
    var fs1 := Create(fs, 0, name, File).0;
    var n := |fs.nodes|;
    assert fs1.nodes[0].kids == [n] + fs.nodes[0].kids;
    assert fs1.nodes[n].name == Cut(name) != name;
    assert NodeOk(fs.nodes, 0);
    assert forall c :: c in fs.nodes[0].kids ==> fs1.nodes[c].name == fs.nodes[c].name;
    assert FindIn(fs1.nodes, 0, Cut(name)) == Some(n);
    CreateDistinctExactly(fs1, 0, name, File);
  }
}
