// What the tree edits do to directories seen as maps from names to nodes.
module Directories {
  import opened CStrings
  import opened Tree
  import opened Files
  import opened Paths

  // In a well-formed tree a search finds c exactly when c is a child with that name.
  lemma FoundIff(nodes: seq<Node>, d: nat, t: string, c: nat)
    requires TreeOk(nodes)
    ensures FindIn(nodes, d, t) == Some(c) <==> d < |nodes| && c in nodes[d].kids && c < |nodes| && nodes[c].name == t
  {
    if d < |nodes| {
      assert NodeOk(nodes, d);
      if c in nodes[d].kids && nodes[c].name == t { FindKidByName(nodes, nodes[d].kids, c); }
    }
  }

  // Directory entry (d, t) leads to e.
  ghost predicate Leads(nodes: seq<Node>, d: nat, t: string, e: Option<nat>) {
    forall c: nat :: e == Some(c) <==> d < |nodes| && c in nodes[d].kids && c < |nodes| && nodes[c].name == t
  }

  lemma LeadsFound(nodes: seq<Node>, d: nat, t: string, e: Option<nat>)
    requires TreeOk(nodes) && Leads(nodes, d, t, e)
    ensures FindIn(nodes, d, t) == e
  {
    hide FindIn, TreeOk;
    var f := FindIn(nodes, d, t);
    if f.Some? { FoundIff(nodes, d, t, f.value); }
    if e.Some? { FoundIff(nodes, d, t, e.value); }
  }

  // A successful creation of a new name adds that entry, an empty node, in front of that directory's list and changes
  // no other entry of any directory; otherwise nothing changes, and an existing entry of the right kind is returned.
  lemma CreateEntry(fs: Fs, p: nat, name: string, kind: Kind, d: nat, t: string)
    requires TreeOk(fs.nodes) && |name| <= NAME_MAX
    ensures var (fs1, r) := Create(fs, p, name, kind);
            var was := FindIn(fs.nodes, p, name);
            var added := IsDir(fs.nodes, p) && was.None? && |fs.nodes| <= SLOTS;
            && (r.Some? <==> added || (was.Some? && kind != Dir && fs.nodes[was.value].kind == kind))
            && (added ==>
                && r == Some(|fs.nodes|) && |fs1.nodes| == |fs.nodes| + 1 && fs1.nodes[|fs.nodes|].kind == kind
                && fs1.nodes[|fs.nodes|].parent == Some(p) && fs1.nodes[|fs.nodes|].kids == []
                && fs1.nodes[p].kids == [|fs.nodes|] + fs.nodes[p].kids
                && Content(fs1, |fs.nodes|) == "")
            && (!added ==> fs1 == fs && (r.Some? ==> r == was))
            && FindIn(fs1.nodes, d, t) == if added && d == p && t == name then r else FindIn(fs.nodes, d, t)
  {
    CreateOk(fs, p, name, kind);
    var (fs1, r) := Create(fs, p, name, kind);
    if p < |fs.nodes| { assert NodeOk(fs.nodes, p); }
    if IsDir(fs.nodes, p) && FindIn(fs.nodes, p, name).None? && |fs.nodes| <= SLOTS {
      AddedEntry(fs.nodes, p, name, kind, d, t);
    }
  }

  lemma AddedEntry(nodes: seq<Node>, p: nat, name: string, kind: Kind, d: nat, t: string)
    requires TreeOk(nodes) && p < |nodes| && |name| <= NAME_MAX && FindIn(nodes, p, name).None?
    requires TreeOk(AddNode(nodes, p, name, kind))
    ensures FindIn(AddNode(nodes, p, name, kind), d, t) ==
            if d == p && t == name then Some(|nodes|) else FindIn(nodes, d, t)
  {
    var n, r := |nodes|, AddNode(nodes, p, name, kind);
    var e := if d == p && t == name then Some(n) else FindIn(nodes, d, t);
    assert r[p].kids == [n] + nodes[p].kids;
    hide FindIn;
    forall c: nat
      ensures e == Some(c) <==> d < |r| && c in r[d].kids && c < |r| && r[c].name == t
    {
      FoundIff(nodes, d, t, c);
      FoundIff(nodes, p, name, c);
      if d < n { assert NodeOk(nodes, d); }
    }
    LeadsFound(r, d, t, e);
  }

  // A longer name is stored as its first 31 characters: looking those up finds the new node, the name itself does
  // not.
  lemma CreateLongEntry(fs: Fs, p: nat, name: string, kind: Kind)
    requires TreeOk(fs.nodes) && |name| > 31 && IsDir(fs.nodes, p) && |fs.nodes| <= 512
    requires FindIn(fs.nodes, p, name[..31]).None?
    ensures var (fs1, r) := Create(fs, p, name, kind);
            && r == Some(|fs.nodes|) && TreeOk(fs1.nodes)
            && FindIn(fs1.nodes, p, name[..31]) == r && FindIn(fs1.nodes, p, name).None?
  {
    var n, fs1 := |fs.nodes|, Create(fs, p, name, kind).0;
    NoLongEntry(fs.nodes, p, name);
    AddNodeOk(fs.nodes, p, name, kind);
    assert fs1.nodes[p].kids == [n] + fs.nodes[p].kids;
    FoundIff(fs1.nodes, p, name[..31], n);
    NoLongEntry(fs1.nodes, p, name);
  }

  // So does renaming to a longer name.
  lemma RenameLongEntry(fs: Fs, p: nat, from: string, to: string, c: nat)
    requires TreeOk(fs.nodes) && |to| > 31 && FindIn(fs.nodes, p, from) == Some(c) && IsDir(fs.nodes, p)
    requires FindIn(fs.nodes, p, to[..31]).None?
    ensures var (fs1, r) := Rename(fs, p, from, to);
            r == 0 && fs1.nodes[c].name == to[..31] && FindIn(fs1.nodes, p, to[..31]) == Some(c)
  {
    NoLongEntry(fs.nodes, p, to);
    var cut := to[..31];
    RenameEntry(fs, p, from, cut, p, cut);
    assert Rename(fs, p, from, to) == Rename(fs, p, from, cut);
  }

  lemma NoLongEntry(nodes: seq<Node>, p: nat, name: string)
    requires TreeOk(nodes) && |name| > 31
    ensures FindIn(nodes, p, name).None?
  {
    forall c: nat | c < |nodes|
      ensures |nodes[c].name| <= 31
    {
      assert NodeOk(nodes, c);
    }
  }

  // Unlinking removes that entry of that directory and no other, and returns the node it led to.
  lemma UnlinkEntry(fs: Fs, p: nat, name: string, d: nat, t: string)
    requires TreeOk(fs.nodes)
    ensures var (fs1, r) := Unlink(fs, p, name);
            && r == FindIn(fs.nodes, p, name)
            && (r.Some? ==> fs1.nodes[r.value] == fs.nodes[r.value].(parent := None))
            && FindIn(fs1.nodes, d, t) == if d == p && t == name then None else FindIn(fs.nodes, d, t)
  {
    UnlinkOk(fs, p, name);
    var (fs1, r) := Unlink(fs, p, name);
    if p < |fs.nodes| { assert NodeOk(fs.nodes, p); }
    if r.Some? {
      assert NodeOk(fs.nodes, r.value);
      UnlinkedEntry(fs.nodes, fs1.nodes, p, name, r.value, d, t);
    }
  }

  // The other entries of the directory stay in order.
  lemma UnlinkKeepsOrder(fs: Fs, p: nat, name: string, i: nat)
    requires TreeOk(fs.nodes) && IsDir(fs.nodes, p) && i < |fs.nodes[p].kids|
    requires FindIn(fs.nodes, p, name) == Some(fs.nodes[p].kids[i])
    ensures Unlink(fs, p, name).0.nodes[p].kids == fs.nodes[p].kids[..i] + fs.nodes[p].kids[i + 1..]
  {
    assert NodeOk(fs.nodes, p);
    var kids := fs.nodes[p].kids;
    assert kids[i] in kids;
    WithoutAt(kids, i);
  }

  lemma UnlinkedEntry(nodes: seq<Node>, r: seq<Node>, p: nat, name: string, u: nat, d: nat, t: string)
    requires TreeOk(nodes) && TreeOk(r) && |r| == |nodes| && p < |nodes| && u < |nodes|
    requires FindIn(nodes, p, name) == Some(u)
    requires r[p].kids == Without(nodes[p].kids, u)
    requires forall n: nat :: n < |nodes| ==> r[n].name == nodes[n].name && (n != p ==> r[n].kids == nodes[n].kids)
    ensures FindIn(r, d, t) == if d == p && t == name then None else FindIn(nodes, d, t)
  {
    var e := if d == p && t == name then None else FindIn(nodes, d, t);
    hide FindIn, TreeOk;
    forall c: nat
      ensures e == Some(c) <==> d < |r| && c in r[d].kids && c < |r| && r[c].name == t
    {
      FoundIff(nodes, d, t, c);
      FoundIff(nodes, p, name, c);
      FoundIff(nodes, p, name, u);
    }
    LeadsFound(r, d, t, e);
  }

  // Renaming moves one entry: afterwards the new name leads where the old one did, the old name leads nowhere,
  // every other entry of every directory is as before. It fails exactly when the old name is absent (-1) or
  // the new one taken (-2).
  lemma RenameEntry(fs: Fs, p: nat, from: string, to: string, d: nat, t: string)
    requires TreeOk(fs.nodes) && |to| <= NAME_MAX
    ensures var (fs1, r) := Rename(fs, p, from, to);
            var old_, taken := FindIn(fs.nodes, p, from), FindIn(fs.nodes, p, to).Some?;
            && r == (if old_.None? then -1 else if taken then -2 else 0)
            && (r != 0 ==> fs1 == fs)
            && (r == 0 ==> FindIn(fs1.nodes, d, t) ==
                           if d == p && t == to then old_ else if d == p && t == from then None
                             else FindIn(fs.nodes, d, t))
  {
    RenameOk(fs, p, from, to);
    var (fs1, r) := Rename(fs, p, from, to);
    if p < |fs.nodes| { assert NodeOk(fs.nodes, p); }
    if r == 0 {
      RenamedEntry(fs.nodes, fs1.nodes, p, from, to, FindIn(fs.nodes, p, from).value, d, t);
    }
  }

  lemma RenamedEntry(nodes: seq<Node>, r: seq<Node>, p: nat, from: string, to: string, u: nat, d: nat, t: string)
    requires TreeOk(nodes) && TreeOk(r) && p < |nodes| && u < |nodes| && r == nodes[u := nodes[u].(name := to)]
    requires FindIn(nodes, p, from) == Some(u) && FindIn(nodes, p, to) == None
    ensures FindIn(r, d, t) ==
            if d == p && t == to then Some(u) else if d == p && t == from then None else FindIn(nodes, d, t)
  {
    var e := if d == p && t == to then Some(u) else if d == p && t == from then None else FindIn(nodes, d, t);
    hide FindIn;
    FoundIff(nodes, p, from, u);
    forall c: nat
      ensures e == Some(c) <==> d < |r| && c in r[d].kids && c < |r| && r[c].name == t
    {
      FoundIff(nodes, d, t, c);
      FoundIff(nodes, p, to, c);
      FoundIff(nodes, p, from, c);
      if d < |nodes| && c in nodes[d].kids { OneParent(nodes, d, p, c, u); }
    }
    LeadsFound(r, d, t, e);
  }

  // A node is listed by one directory only.
  lemma OneParent(nodes: seq<Node>, d: nat, p: nat, c: nat, u: nat)
    requires TreeOk(nodes) && d < |nodes| && p < |nodes| && c in nodes[d].kids && u in nodes[p].kids
    ensures c == u ==> d == p
  {
    assert NodeOk(nodes, d) && NodeOk(nodes, p);
  }

  // A path that led somewhere leads to the same node after a creation.
  lemma {:induction false} CreateKeepsPaths(fs: Fs, p: nat, name: string, kind: Kind, from: nat, toks: seq<string>)
    requires TreeOk(fs.nodes) && |name| <= NAME_MAX && from < |fs.nodes|
    requires Follow(fs.nodes, from, toks).Some?
    ensures Follow(Create(fs, p, name, kind).0.nodes, from, toks) == Follow(fs.nodes, from, toks)
    decreases |toks|
  {
    if toks == [] {
    } else {
      var h := Hop(fs.nodes, from, toks[0]);
      HopInside(fs.nodes, from, toks[0]);
      CreateHop(fs, p, name, kind, from, toks[0]);
      CreateKeepsPaths(fs, p, name, kind, h.value, toks[1..]);
    }
  }

  lemma HopInside(nodes: seq<Node>, cur: nat, tok: string)
    requires TreeOk(nodes) && cur < |nodes|
    ensures Hop(nodes, cur, tok).Some? ==> Hop(nodes, cur, tok).value < |nodes|
  {
    assert NodeOk(nodes, cur);
  }

  lemma CreateHop(fs: Fs, p: nat, name: string, kind: Kind, cur: nat, tok: string)
    requires TreeOk(fs.nodes) && |name| <= NAME_MAX && cur < |fs.nodes| && Hop(fs.nodes, cur, tok).Some?
    ensures Hop(Create(fs, p, name, kind).0.nodes, cur, tok) == Hop(fs.nodes, cur, tok)
  {
    CreateEntry(fs, p, name, kind, cur, tok);
  }

  // ---- What the components of a path mean ----

  lemma LookupWord(nodes: seq<Node>, n: nat, word: string)
    requires word != "" && '/' !in word
    ensures Lookup(nodes, n, word) == Hop(nodes, n, word)
  {
    hide Hop, Split;
    SplitWord(word, []);
    SplitNone();
    assert word + [] == word && Split(word) == [word] && [word][1..] == [];
    assert word[0] in word;
    var h := Hop(nodes, n, word);
    assert h.Some? ==> Follow(nodes, n, [word]) == Follow(nodes, h.value, []);
  }

  // A plain name leads to the directory entry of that name.
  lemma LookupName(nodes: seq<Node>, d: nat, t: string)
    requires Plain(t)
    ensures Lookup(nodes, d, t) == FindIn(nodes, d, t)
  {
    LookupWord(nodes, d, t);
  }

  // ".." leads to the parent, from the root and from a detached node nowhere else; "." leads nowhere else.
  lemma LookupDots(nodes: seq<Node>, n: nat)
    requires n < |nodes|
    ensures Lookup(nodes, n, "..") == if nodes[n].parent.Some? then nodes[n].parent else Some(n)
    ensures Lookup(nodes, n, ".") == Some(n)
  {
    LookupWord(nodes, n, "..");
    LookupWord(nodes, n, ".");
  }

  // Down to a plain name's entry and up again.
  lemma LookupDownUp(nodes: seq<Node>, d: nat, t: string, c: nat)
    requires TreeOk(nodes) && Plain(t) && FindIn(nodes, d, t) == Some(c)
    ensures Lookup(nodes, d, t + "/..") == Some(d) && Lookup(nodes, c, "..") == Some(d)
  {
    FoundIff(nodes, d, t, c);
    assert NodeOk(nodes, d);
    LookupComposes(nodes, d, t, "..");
    assert t + "/" + ".." == t + "/..";
    LookupName(nodes, d, t);
    LookupDots(nodes, c);
  }

  // An absolute path is looked up from the root, wherever one is.
  lemma LookupAbsolute(nodes: seq<Node>, n: nat, p: string)
    requires p == "" || p[0] != '/'
    ensures Lookup(nodes, n, "/" + p) == Lookup(nodes, 0, p)
  {
    hide Split;
    assert "/" + p == ['/'] + p;
    SplitCons('/', p);
    assert ([[]] + Split(p))[1..] == Split(p);
    assert Follow(nodes, 0, [[]] + Split(p)) == Follow(nodes, 0, Split(p));
    if p == "" {
      SplitNone();
      assert Follow(nodes, 0, [[]]) == Follow(nodes, 0, [[]][1..]) == Some(0);
    }
  }

  // k times "/..".
  function Ups(k: nat): string { if k == 0 then "" else Ups(k - 1) + "/.." }

  // The node k levels above n, the root when there are fewer.
  function Ancestor(nodes: seq<Node>, n: nat, k: nat): nat {
    if k == 0 then n
    else
      var m := Ancestor(nodes, n, k - 1);
      if m < |nodes| && nodes[m].parent.Some? then nodes[m].parent.value else m
  }

  lemma ParentBelow(nodes: seq<Node>, n: nat)
    requires TreeOk(nodes) && n < |nodes|
    ensures nodes[n].parent.Some? ==> nodes[n].parent.value < |nodes|
  {
    assert NodeOk(nodes, n);
  }

  // Behind any path, k times ".." leads k levels up and no higher than the root.
  lemma {:induction false} LookupAncestors(nodes: seq<Node>, from: nat, p: string, n: nat, k: nat)
    requires TreeOk(nodes) && n < |nodes| && p != "" && Lookup(nodes, from, p) == Some(n)
    ensures Lookup(nodes, from, p + Ups(k)) == Some(Ancestor(nodes, n, k)) && Ancestor(nodes, n, k) < |nodes|
    decreases k
  {
    hide Lookup, TreeOk;
    if k == 0 {
      assert p + "" == p;
    } else {
      LookupAncestors(nodes, from, p, n, k - 1);
      var m := Ancestor(nodes, n, k - 1);
      ParentBelow(nodes, m);
      LookupComposes(nodes, from, p + Ups(k - 1), "..");
      assert p + Ups(k) == p + Ups(k - 1) + "/" + "..";
      LookupDots(nodes, m);
    }
  }

  // A node created under a plain name is what looking that name up there finds.
  lemma CreatedIsFound(fs: Fs, p: nat, name: string, kind: Kind)
    requires TreeOk(fs.nodes) && |name| <= NAME_MAX && Plain(name)
    ensures var (fs1, r) := Create(fs, p, name, kind); r.Some? ==> Lookup(fs1.nodes, p, name) == r
  {
    CreateEntry(fs, p, name, kind, p, name);
    LookupName(Create(fs, p, name, kind).0.nodes, p, name);
  }

  // A successful copy adds one entry, to a new file; a failed one changes no entry. The new file is empty: linking
  // it drops the bytes just copied, which stay taken from the arena. A copy that finds no room there loses the slot
  // it took.
  lemma CopyEntry(fs: Fs, p: nat, src: nat, name: string, d: nat, t: string)
    requires FsOk(fs) && |name| <= NAME_MAX
    ensures var (fs1, r) := CloneFile(fs, p, src, name);
            && (r.Some? ==>
                && FindIn(fs.nodes, p, name).None? && r == Some(|fs.nodes|) && IsFile(fs1, r.value)
                && fs1.nodes[r.value].parent == Some(p)
                && Content(fs1, r.value) == "" && fs1.aoff == fs.aoff + |Content(fs, src)|)
            && (r.Some? <==>
               IsDir(fs.nodes, p) && IsFile(fs, src) && FindIn(fs.nodes, p, name).None? && |fs.nodes| <= SLOTS
                             && fs.aoff + |Content(fs, src)| <= ARENA_SIZE)
            && (|fs1.nodes| == |fs.nodes| + 1 <==>
                IsDir(fs.nodes, p) && IsFile(fs, src) && FindIn(fs.nodes, p, name).None? && |fs.nodes| <= 512)
            && (|fs1.nodes| == |fs.nodes| + 1 || fs1 == fs)
            && FindIn(fs1.nodes, d, t) == if r.Some? && d == p && t == name then r else FindIn(fs.nodes, d, t)
  {
    CloneFileCorrect(fs, p, src, name);
    var (fs1, r) := CloneFile(fs, p, src, name);
    if r.Some? {
      AddedEntry(fs.nodes, p, name, File, d, t);
    } else if fs1 != fs {
      LostSlotEntry(fs.nodes, fs1.nodes, d, t);
    }
  }

  lemma LostSlotEntry(nodes: seq<Node>, r: seq<Node>, d: nat, t: string)
    requires TreeOk(nodes) && TreeOk(r) && |r| == |nodes| + 1 && r[..|nodes|] == nodes && r[|nodes|].kids == []
    ensures FindIn(r, d, t) == FindIn(nodes, d, t)
  {
    hide FindIn;
    forall c: nat
      ensures FindIn(nodes, d, t) == Some(c) <==> d < |r| && c in r[d].kids && c < |r| && r[c].name == t
    {
      FoundIff(nodes, d, t, c);
      assert forall n :: 0 <= n < |nodes| ==> r[n] == nodes[n];
      if d < |nodes| { assert NodeOk(nodes, d); }
    }
    LeadsFound(r, d, t, FindIn(nodes, d, t));
  }

  // ---- A directory the printer cannot name ----

  // n directories named "a", each inside the one before.
  function Chain(n: nat): Fs {
    if n == 0 then Fs([Node("/", Dir, None, [], -1, 0)], 0, [], 0) else Create(Chain(n - 1), n - 1, "a", Dir).0
  }

  lemma {:induction false} ChainOk(n: nat)
    requires n < SLOTS
    ensures var nodes := Chain(n).nodes;
            && TreeOk(nodes) && |nodes| == n + 1 && Attached(nodes, n) && nodes[n].kind == Dir && nodes[n].kids == []
            && Names(nodes, n) == seq(n, i => "a")
  {
    if n == 0 {
      assert NodeOk(Chain(0).nodes, 0);
      assert Names(Chain(0).nodes, 0) == [];
    } else {
      ChainOk(n - 1);
      var fs := Chain(n - 1);
      CreateOk(fs, n - 1, "a", Dir);
      var r := Chain(n).nodes;
      assert FindIn(fs.nodes, n - 1, "a").None?;
      assert r == AddNode(fs.nodes, n - 1, "a", Dir);
      NamesFrame(fs.nodes, r, n - 1);
      AttachedFrame(fs.nodes, r, n - 1);
      assert seq(n, i => "a") == seq(n - 1, i => "a") + ["a"];
    }
  }

  lemma {:induction false} NamesFrame(nodes: seq<Node>, r: seq<Node>, m: nat)
    requires m < |nodes| <= |r| && forall k: nat :: k < |nodes| ==>
               r[k].parent == nodes[k].parent && r[k].name == nodes[k].name
    ensures Names(r, m) == Names(nodes, m)
    decreases m
  {
    if nodes[m].parent.Some? && nodes[m].parent.value < m { NamesFrame(nodes, r, nodes[m].parent.value); }
  }

  lemma {:induction false} JoinShort(n: nat)
    ensures |Join(seq(n, i => "a"))| == 2 * n
  {
    if n == 0 {
    } else {
      var s := seq(n, i => "a");
      assert s[1..] == seq(n - 1, i => "a");
      JoinShort(n - 1);
    }
  }

  // The directory at depth 32 is attached, has plain names and a short path, and looking up what the printer
  // shows for it does not lead back to it.
  lemma DepthThirtyTwoLost(from: nat)
    ensures var nodes := Chain(32).nodes;
            && TreeOk(nodes) && 32 < |nodes| && Attached(nodes, 32) && |Names(nodes, 32)| == 32
            && Lookup(nodes, from, CwdPath(nodes, 32, 128)) != Some(32)
  {
    hide Chain, Lookup, CwdPath;
    ChainOk(32);
    JoinShort(32);
    var nodes := Chain(32).nodes;
    forall t | t in Names(nodes, 32)
      ensures Plain(t)
    {
      assert t == "a";
    }
    PathRoundTrip(nodes, 32, from);
  }
}
