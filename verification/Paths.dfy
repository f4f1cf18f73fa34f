// Path strings: the parser fs_lookup, the printer get_cwd_path, and the shell commands that use them.
module Paths {
  import opened CStrings
  import opened Tree
  import opened Files

  // ---- Parsing ----

  // The components between slashes; k slashes give k + 1 components, empty ones included.
  function Split(path: string): (toks: seq<string>)
    ensures |toks| > 0
    ensures forall t :: t in toks ==> '/' !in t
  {
    if path == [] then [[]]
    else
      var rest := Split(path[1..]);
      if path[0] == '/' then [[]] + rest
      else [[path[0]] + rest[0]] + rest[1..]
  }

  // One component: "" and "." stay, ".." goes to the parent and stops at a node without one.
  function Hop(nodes: seq<Node>, cur: nat, tok: string): Option<nat> {
    if tok == "" || tok == "." then Some(cur)
    else if tok == ".." then
      if cur < |nodes| && nodes[cur].parent.Some? then nodes[cur].parent else Some(cur)
    else FindIn(nodes, cur, tok)
  }

  function Follow(nodes: seq<Node>, cur: nat, toks: seq<string>): Option<nat>
    decreases |toks|
  {
    if toks == [] then Some(cur)
    else
      match Hop(nodes, cur, toks[0])
      case None => None
      case Some(next) => Follow(nodes, next, toks[1..])
  }

  // fs_lookup
  function Lookup(nodes: seq<Node>, from: nat, path: string): Option<nat> {
    if path == "" then Some(from)
    else Follow(nodes, if path[0] == '/' then 0 else from, Split(path))
  }

  lemma {:induction false} FollowAppend(nodes: seq<Node>, cur: nat, a: seq<string>, b: seq<string>)
    ensures Follow(nodes, cur, a + b) ==
            match Follow(nodes, cur, a) { case None => None case Some(next) => Follow(nodes, next, b) }
    decreases |a|
  {
    if a == [] {
      assert a + b == b;
    } else {
      assert (a + b)[1..] == a[1..] + b;
      match Hop(nodes, cur, a[0])
      case None =>
      case Some(next) => FollowAppend(nodes, next, a[1..], b);
    }
  }

  lemma SplitCons(c: char, t: string)
    ensures Split([c] + t) == if c == '/' then [[]] + Split(t) else [[c] + Split(t)[0]] + Split(t)[1..]
  {
    assert ([c] + t)[1..] == t;
  }

  lemma {:induction false} SplitJoin(p: string, q: string)
    ensures Split(p + "/" + q) == Split(p) + Split(q)
  {
    hide Split;
    if p == [] {
      assert p + "/" + q == ['/'] + q;
      SplitCons('/', q);
      SplitNone();
    } else {
      var t := p[1..];
      SplitJoin(t, q);
      assert p + "/" + q == [p[0]] + (t + "/" + q) && p == [p[0]] + t;
      SplitCons(p[0], t + "/" + q);
      SplitCons(p[0], t);
      ConsFirst(p[0], Split(t), Split(q));
    }
  }

  // Putting a character in front of the first component.
  lemma ConsFirst(c: char, a: seq<string>, b: seq<string>)
    requires a != []
    ensures [[c] + (a + b)[0]] + (a + b)[1..] == [[c] + a[0]] + a[1..] + b
  {
    assert (a + b)[1..] == a[1..] + b;
  }

  lemma SplitNone()
    ensures Split([]) == [[]]
  {
  }

  // Lookups compose: following p and then the relative path q is following p/q.
  lemma LookupComposes(nodes: seq<Node>, n: nat, p: string, q: string)
    requires p != "" && (q == "" || q[0] != '/')
    ensures Lookup(nodes, n, p + "/" + q) ==
            match Lookup(nodes, n, p) { case None => None case Some(m) => Lookup(nodes, m, q) }
  {
    SplitJoin(p, q);
    var start := if p[0] == '/' then 0 else n;
    assert (p + "/" + q)[0] == p[0];
    FollowAppend(nodes, start, Split(p), Split(q));
    if q == "" && Follow(nodes, start, Split(p)).Some? {
      var m := Follow(nodes, start, Split(p)).value;
      assert Split(q) == [[]];
      assert Follow(nodes, m, [[]]) == Follow(nodes, m, []) == Some(m);
    }
  }

  // Lookups from an attached node only reach attached nodes.
  lemma {:induction false} FollowAttached(nodes: seq<Node>, cur: nat, toks: seq<string>)
    requires TreeOk(nodes) && cur < |nodes| && Attached(nodes, cur)
    ensures var r := Follow(nodes, cur, toks); r.Some? ==> r.value < |nodes| && Attached(nodes, r.value)
    decreases |toks|
  {
    if toks == [] {
    } else {
      var h := Hop(nodes, cur, toks[0]);
      assert NodeOk(nodes, cur);
      if h.Some? {
        if h.value != cur && toks[0] != ".." { assert h.value in nodes[cur].kids; }
        FollowAttached(nodes, h.value, toks[1..]);
      }
    }
  }

  // ---- Printing ----

  // The names from the root down to n, the root's own name left out.
  function Names(nodes: seq<Node>, n: nat): seq<string>
    decreases n
  {
    if n < |nodes| && nodes[n].parent.Some? && nodes[n].parent.value < n then
      Names(nodes, nodes[n].parent.value) + [nodes[n].name]
    else []
  }

  function Join(names: seq<string>): string {
    if names == [] then "" else "/" + names[0] + Join(names[1..])
  }

  function LastOf(names: seq<string>, k: nat): seq<string> {
    if |names| > k then names[|names| - k..] else names
  }

  // get_cwd_path with a 32-node stack and a buffer of max bytes: at most the last 31 names, cut to fit.
  function CwdPath(nodes: seq<Node>, n: nat, max: nat): string
    requires max >= 2
  {
    if Names(nodes, n) == [] then "/"
    else
      var full := Join(LastOf(Names(nodes, n), 31));
      full[..Min(|full|, max - 1)]
  }

  // The printed path is the last 31 names, all of them at no greater depth, each behind a slash, as far as the
  // buffer holds them with a NUL.
  lemma CwdPathIs(nodes: seq<Node>, n: nat, max: nat, above: seq<string>, shown: seq<string>)
    requires max >= 2 && Names(nodes, n) == above + shown && (|shown| == 31 || (above == [] && |shown| < 31))
    ensures var full := if shown == [] then "/" else Join(shown);
            CwdPath(nodes, n, max) == if |full| < max then full else full[..max - 1]
  {
    hide Names, Join;
    assert above == [] ==> above + shown == shown;
    assert (above + shown)[|above|..] == shown;
  }

  // Names a lookup takes literally.
  predicate Plain(t: string) { t != "" && '/' !in t && t != "." && t != ".." }

  lemma {:induction false} SplitWord(w: string, path: string)
    requires '/' !in w
    ensures Split(w + path) == [w + Split(path)[0]] + Split(path)[1..]
  {
    hide Split;
    if w == [] {
      assert w + path == path && w + Split(path)[0] == Split(path)[0];
      assert [Split(path)[0]] + Split(path)[1..] == Split(path);
    } else {
      var t := w[1..];
      SplitWord(t, path);
      assert w + path == [w[0]] + (t + path);
      SplitCons(w[0], t + path);
      assert [w[0]] + (t + Split(path)[0]) == w + Split(path)[0];
    }
  }

  lemma {:induction false} SplitOfJoin(names: seq<string>)
    requires forall t :: t in names ==> '/' !in t
    ensures Split(Join(names)) == [[]] + names
  {
    if names == [] {
    } else {
      SplitOfJoin(names[1..]);
      var tail := Join(names[1..]);
      assert ("/" + names[0] + tail)[1..] == names[0] + tail;
      SplitWord(names[0], tail);
      assert names[0] + [] == names[0];
      assert names == [names[0]] + names[1..];
    }
  }

  // In a directory the name of a child finds that child.
  lemma {:induction false} FindKidByName(nodes: seq<Node>, kids: seq<nat>, c: nat)
    requires c in kids && c < |nodes| && Distinct(kids) && NamesDistinct(nodes, kids)
    requires forall k :: k in kids ==> k < |nodes|
    ensures FindKid(nodes, kids, nodes[c].name) == Some(c)
  {
    if kids[0] != c {
      assert kids[0] in kids;
      var i :| 0 <= i < |kids| && kids[i] == c;
      assert nodes[kids[0]].name != nodes[kids[i]].name;
      assert kids[1..][i - 1] == c;
      assert forall k :: k in kids[1..] ==> k in kids;
      FindKidByName(nodes, kids[1..], c);
    }
  }

  // Following an attached node's plain names from the root leads to the node.
  lemma {:induction false} FollowNames(nodes: seq<Node>, n: nat)
    requires TreeOk(nodes) && n < |nodes| && Attached(nodes, n)
    requires forall t :: t in Names(nodes, n) ==> Plain(t)
    ensures Follow(nodes, 0, Names(nodes, n)) == Some(n)
    decreases n
  {
    if n != 0 {
      var p := nodes[n].parent.value;
      var names := Names(nodes, p);
      FollowNames(nodes, p);
      FollowAppend(nodes, 0, names, [nodes[n].name]);
      assert NodeOk(nodes, n) && NodeOk(nodes, p);
      FindKidByName(nodes, nodes[p].kids, n);
      assert nodes[n].name in Names(nodes, n);
      assert Follow(nodes, p, [nodes[n].name]) == Some(n);
    }
  }

  // Plain names go down one level each.
  lemma {:induction false} FollowDepth(nodes: seq<Node>, cur: nat, toks: seq<string>)
    requires TreeOk(nodes) && cur < |nodes| && (forall t :: t in toks ==> Plain(t))
    ensures var r := Follow(nodes, cur, toks);
            r.Some? ==> r.value < |nodes| && |Names(nodes, r.value)| == |Names(nodes, cur)| + |toks|
    decreases |toks|
  {
    if toks == [] {
    } else {
      assert toks[0] in toks && forall t :: t in toks[1..] ==> t in toks;
      var h := Hop(nodes, cur, toks[0]);
      assert NodeOk(nodes, cur);
      if h.Some? {
        assert h.value in nodes[cur].kids;
        FollowDepth(nodes, h.value, toks[1..]);
      }
    }
  }

  lemma {:induction false} JoinLength(names: seq<string>, k: nat)
    requires k <= |names|
    ensures |Join(names[k..])| <= |Join(names)|
    decreases k
  {
    if k == 0 {
    } else {
      assert names[1..][k - 1..] == names[k..];
      JoinLength(names[1..], k - 1);
    }
  }

  // Path print/parse round trip, exactly: for an attached node with plain names and a path of at most 126
  // characters, looking up the printed path from anywhere returns the node if and only if its depth is at
  // most 31.
  lemma PathRoundTrip(nodes: seq<Node>, n: nat, from: nat)
    requires TreeOk(nodes) && n < |nodes| && Attached(nodes, n)
    requires (forall t :: t in Names(nodes, n) ==> Plain(t)) && |Join(Names(nodes, n))| <= 126
    ensures Lookup(nodes, from, CwdPath(nodes, n, 128)) == Some(n) <==> |Names(nodes, n)| <= 31
  {
    hide TreeOk, Attached, Split, Follow;
    var names := Names(nodes, n);
    var shown := LastOf(names, 31);
    if names == [] {
      RootHasNoNames(nodes, n);
      LookupSlash(nodes, from);
    } else {
      if |names| > 31 { JoinLength(names, |names| - 31); }
      assert CwdPath(nodes, n, 128) == Join(shown);
      forall t | t in shown
        ensures t in names
      {
      }
      LookupJoined(nodes, from, shown);
      if |names| <= 31 {
        FollowNames(nodes, n);
      } else {
        RootOk(nodes);
        FollowDepth(nodes, 0, shown);
      }
    }
  }

  lemma LookupSlash(nodes: seq<Node>, from: nat)
    ensures Lookup(nodes, from, "/") == Some(0)
  {
    SplitCons('/', []);
    SplitNone();
    assert "/" == ['/'] + [];
    assert Split("/") == [[], []];
    assert Follow(nodes, 0, [[], []]) == Follow(nodes, 0, [[], []][1..]) == Some(0);
  }

  // A printed path of plain names is followed from the root, wherever the lookup starts.
  lemma LookupJoined(nodes: seq<Node>, from: nat, names: seq<string>)
    requires names != [] && forall t :: t in names ==> Plain(t)
    ensures Lookup(nodes, from, Join(names)) == Follow(nodes, 0, names)
  {
    hide Split;
    SplitOfJoin(names);
    assert ([[]] + names)[1..] == names;
  }

  lemma RootOk(nodes: seq<Node>)
    requires TreeOk(nodes)
    ensures 0 < |nodes| && Names(nodes, 0) == []
  {
  }

  lemma RootHasNoNames(nodes: seq<Node>, n: nat)
    requires Attached(nodes, n) && Names(nodes, n) == []
    ensures n == 0
  {
  }

  // ---- Shell commands ----

  datatype Command =
    | Mkdir(name: string)
    | Touch(name: string)
    | Rm(name: string)
    | Mv(from: string, to: string)
    | Cp(from: string, to: string)
    | Cd(path: string)

  // builtin_rm refuses a directory that still has children.
  function RemoveEntry(fs: Fs, name: string): Fs {
    match FindIn(fs.nodes, fs.cwd, name)
    case None => fs
    case Some(c) => if fs.nodes[c].kind == Dir && fs.nodes[c].kids != [] then fs else Unlink(fs, fs.cwd, name).0
  }

  function Shell(fs: Fs, cmd: Command): Fs {
    match cmd
    case Mkdir(name) => if name == "" then fs else Create(fs, fs.cwd, name, Dir).0
    case Touch(name) => if name == "" then fs else Create(fs, fs.cwd, name, File).0
    case Rm(name) => if name == "" then fs else RemoveEntry(fs, name)
    case Mv(from, to) => if from == "" || to == "" then fs else Rename(fs, fs.cwd, from, to).0
    case Cp(from, to) =>
      if from == "" || to == "" then fs
      else
        (match FindIn(fs.nodes, fs.cwd, from)
         case None => fs
         case Some(src) => if fs.nodes[src].kind == File then CloneFile(fs, fs.cwd, src, to).0 else fs)
    case Cd(path) =>
      (match Lookup(fs.nodes, fs.cwd, path)
       case None => fs
       case Some(n) => if IsDir(fs.nodes, n) then fs.(cwd := n) else fs)
  }

  predicate FitsCommand(cmd: Command) {
    match cmd
    case Mkdir(name) => |name| <= NAME_MAX
    case Touch(name) => |name| <= NAME_MAX
    case Mv(_, to) => |to| <= NAME_MAX
    case Cp(_, to) => |to| <= NAME_MAX
    case _ => true
  }

  ghost predicate ShellOk(fs: Fs) {
    FsOk(fs) && IsDir(fs.nodes, fs.cwd) && Attached(fs.nodes, fs.cwd)
  }

  // Removing an entry detaches that entry and nothing else, because what is removed has nothing below it.
  lemma {:induction false} RmDetachesExactly(fs: Fs, name: string, m: nat)
    requires ShellOk(fs) && m < |fs.nodes|
    ensures var fs1 := RemoveEntry(fs, name);
            Attached(fs1.nodes, m) <==>
              Attached(fs.nodes, m) && (fs1 == fs || Some(m) != FindIn(fs.nodes, fs.cwd, name))
    decreases m
  {
    assert NodeOk(fs.nodes, m) && NodeOk(fs.nodes, fs.cwd);
    var e := FindIn(fs.nodes, fs.cwd, name);
    if e.Some? {
      assert NodeOk(fs.nodes, e.value) && e.value in fs.nodes[fs.cwd].kids;
    }
    if m != 0 && fs.nodes[m].parent.Some? {
      RmDetachesExactly(fs, name, fs.nodes[m].parent.value);
    }
  }

  lemma CreateKeepsShell(fs: Fs, name: string, kind: Kind)
    requires ShellOk(fs) && |name| <= NAME_MAX
    ensures ShellOk(Create(fs, fs.cwd, name, kind).0)
  {
    FsStepOk(fs, CreateOp(fs.cwd, name, kind), fs.cwd);
    AttachedFrame(fs.nodes, Create(fs, fs.cwd, name, kind).0.nodes, fs.cwd);
  }

  lemma UnlinkKeepsShell(fs: Fs, name: string)
    requires ShellOk(fs)
    ensures ShellOk(Unlink(fs, fs.cwd, name).0)
  {
    FsStepOk(fs, UnlinkOp(fs.cwd, name), fs.cwd);
    assert NodeOk(fs.nodes, fs.cwd);
    AttachedFrame(fs.nodes, Unlink(fs, fs.cwd, name).0.nodes, fs.cwd);
  }

  lemma RenameKeepsShell(fs: Fs, from: string, to: string)
    requires ShellOk(fs) && |to| <= NAME_MAX
    ensures ShellOk(Rename(fs, fs.cwd, from, to).0)
  {
    FsStepOk(fs, RenameOp(fs.cwd, from, to), fs.cwd);
    AttachedFrame(fs.nodes, Rename(fs, fs.cwd, from, to).0.nodes, fs.cwd);
  }

  lemma CloneKeepsShell(fs: Fs, src: nat, to: string)
    requires ShellOk(fs) && |to| <= NAME_MAX
    ensures ShellOk(CloneFile(fs, fs.cwd, src, to).0)
  {
    hide CloneFile;
    CloneFileCorrect(fs, fs.cwd, src, to);
    AttachedFrame(fs.nodes, CloneFile(fs, fs.cwd, src, to).0.nodes, fs.cwd);
  }

  lemma CdKeepsShell(fs: Fs, path: string)
    requires ShellOk(fs)
    ensures ShellOk(Shell(fs, Cd(path)))
  {
    FollowAttached(fs.nodes, fs.cwd, Split(path));
    FollowAttached(fs.nodes, 0, Split(path));
    NodesOnly(fs, Shell(fs, Cd(path)));
  }

  lemma ShellStepOk(fs: Fs, cmd: Command)
    requires ShellOk(fs) && FitsCommand(cmd)
    ensures ShellOk(Shell(fs, cmd))
  {
    hide ShellOk, Create, Unlink, Rename, CloneFile, FindIn;
    match cmd
    case Mkdir(name) => CreateKeepsShell(fs, name, Dir);
    case Touch(name) => CreateKeepsShell(fs, name, File);
    case Rm(name) => UnlinkKeepsShell(fs, name);
    case Mv(from, to) => RenameKeepsShell(fs, from, to);
    case Cp(from, to) =>
      var src := FindIn(fs.nodes, fs.cwd, from);
      if src.Some? { CloneKeepsShell(fs, src.value, to); }
    case Cd(path) => CdKeepsShell(fs, path);
  }

  function ShellRun(fs: Fs, cmds: seq<Command>): Fs {
    if cmds == [] then fs else Shell(ShellRun(fs, cmds[..|cmds| - 1]), cmds[|cmds| - 1])
  }

  // Over every run of shell commands the working directory is a directory attached to the root.
  lemma {:induction false} ShellRunOk(fs: Fs, cmds: seq<Command>)
    requires ShellOk(fs) && (forall cmd :: cmd in cmds ==> FitsCommand(cmd))
    ensures ShellOk(ShellRun(fs, cmds))
  {
    if cmds == [] {
    } else {
      assert cmds[|cmds| - 1] in cmds;
      ShellRunOk(fs, cmds[..|cmds| - 1]);
      ShellStepOk(ShellRun(fs, cmds[..|cmds| - 1]), cmds[|cmds| - 1]);
    }
  }

  // Hence "pwd" can be fed back to "cd" at any moment of a run, within the printer's limits.
  lemma PwdThenCd(fs: Fs, cmds: seq<Command>)
    requires ShellOk(fs) && (forall cmd :: cmd in cmds ==> FitsCommand(cmd))
    requires var end := ShellRun(fs, cmds);
             (forall t :: t in Names(end.nodes, end.cwd) ==> Plain(t)) && |Join(Names(end.nodes, end.cwd))| <= 126
               && |Names(end.nodes, end.cwd)| <= 31
    ensures var end := ShellRun(fs, cmds); Shell(end, Cd(CwdPath(end.nodes, end.cwd, 128))) == end
  {
    ShellRunOk(fs, cmds);
    var end := ShellRun(fs, cmds);
    PathRoundTrip(end.nodes, end.cwd, end.cwd);
  }
}
