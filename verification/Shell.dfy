// The path walker with its in-place tokenizer, the path printer with its stack and buffer, and the shell
// commands, over the node table.
module ShellCode {
  import opened CStrings
  import opened Tree
  import opened Files
  import opened Paths
  import opened FileSystems

  // ---- fs_lookup ----

  // The first component ends at the first slash or at the end.
  lemma SplitFirst(s: string, k: nat)
    requires k <= |s| && '/' !in s[..k]
    ensures k == |s| ==> Split(s) == [s]
    ensures k < |s| && s[k] == '/' ==> Split(s) == [s[..k]] + Split(s[k + 1..])
  {
    hide Split;
    SplitWord(s[..k], s[k..]);
    assert s[..k] + s[k..] == s;
    if k == |s| {
      SplitNone();
    } else if s[k] == '/' {
      SplitCons('/', s[k + 1..]);
      assert s[k..] == ['/'] + s[k + 1..] && s[..k] + [] == s[..k];
      assert ([[]] + Split(s[k + 1..]))[1..] == Split(s[k + 1..]);
    }
  }

  // tmp holds path from tok on, terminated.
  ghost predicate Buffered(tmp: string, path: string, tok: nat) {
    |path| < |tmp| && tmp[|path|] == '\0' && forall j :: tok <= j < |path| ==> tmp[j] == path[j]
  }

  // After the separator at i is overwritten, the text at tok is the component path[tok..i].
  lemma TokenText(tmp: string, path: string, tok: nat, i: nat)
    requires Buffered(tmp, path, tok) && tok <= i <= |path| && '\0' !in path
    ensures CStr(tmp[i := '\0'][tok..]) == path[tok..i] && '\0' in tmp[i := '\0'][tok..]
  {
    var s := tmp[i := '\0'][tok..];
    assert s[i - tok] == '\0';
    forall j | 0 <= j < i - tok
      ensures s[..i - tok][j] != '\0' && s[j] == path[tok..i][j]
    {
      assert s[j] == path[tok + j];
      assert path[tok + j] in path;
    }
    CStrAt(s, i - tok);
    assert s[..i - tok] == path[tok..i];
  }

  // kstrcmp(tok, word) == 0
  method TokIs(tmp: array<char>, tok: nat, word: string) returns (eq: bool)
    requires tok <= tmp.Length && '\0' in tmp[tok..] && '\0' !in word
    ensures eq <==> CStr(tmp[tok..]) == word
  {
    CStrTerminated(word, []);
    assert word + "\0" + [] == word + "\0";
    assert (word + "\0")[|word|] == '\0';
    var r := KStrCmp(tmp[tok..], word + "\0");
    eq := r == 0;
  }

  // One component of the walk; -1 when a name is not found.
  method HopTo(fs: FileSystem, tmp: array<char>, tok: nat, cur: nat, ghost text: string) returns (next: int)
    requires fs.Valid() && cur <= fs.ni && tok <= tmp.Length && '\0' in tmp[tok..] && text == CStr(tmp[tok..])
    ensures next == Ptr(Hop(fs.Abs().nodes, cur, text)) && -1 <= next <= fs.ni
  {
    HopCases(fs, cur, text);
    var empty := TokIs(tmp, tok, "");
    if empty { return cur; }
    var dot := TokIs(tmp, tok, ".");
    if dot { return cur; }
    var dotdot := TokIs(tmp, tok, "..");
    if dotdot {
      return if fs.table[cur].parent != -1 then fs.table[cur].parent else cur;
    }
    next := fs.FindKidIn(cur, CStr(tmp[tok..]));
  }

  lemma HopCases(fs: FileSystem, cur: nat, text: string)
    requires fs.Valid() && cur <= fs.ni
    ensures cur < fs.table.Length && -1 <= fs.table[cur].parent <= fs.ni
    ensures fs.Abs().nodes[cur].parent == Ref(fs.table[cur].parent)
  {
    assert Spells(fs.table[..], fs.kids, cur);
    assert NodeOk(fs.Abs().nodes, cur);
  }

  // The walk has come to cur, the component at tok is read up to i, and following the rest gives goal.
  ghost predicate Walking(tmp: string, path: string, tok: nat, i: nat, nodes: seq<Node>, cur: nat, goal: Option<nat>) {
    && tok <= i <= |path| < |tmp| && '/' !in path[tok..i] && Buffered(tmp, path, tok)
    && goal == Follow(nodes, cur, Split(path[tok..]))
  }

  // What the walker's 128-byte buffer holds of a path: at most 127 characters.
  function Copied(path: string): string { path[..Min(|path|, 127)] }

  // fs_lookup: the path is copied to a 128-byte buffer and cut into components there. The copy leaves the
  // buffer's last byte as it was; a path that reaches it needs that byte to be NUL.
  method FsLookup(fs: FileSystem, from: nat, path: string, last: char) returns (r: int)
    requires fs.Valid() && from <= fs.ni && '\0' !in path && (|path| <= 126 || last == '\0')
    ensures r == Ptr(Lookup(fs.Abs().nodes, from, Copied(path))) && -1 <= r <= fs.ni
  {
    hide *;
    CopiedIs(path);
    ghost var text := Copied(path);
    LookupIs(fs, from, text);
    if path == "" { return from; }
    var tmp := new char[128];
    tmp[127] := last;
    KStrNCpy(tmp, path, 127);
    assert tmp[127] == tmp[127..][0];
    ghost var nodes := fs.Abs().nodes;
    ghost var goal := Lookup(nodes, from, text);
    var cur := if path[0] == '/' then 0 else from;
    WalkStart(tmp[..], text, nodes, cur);
    var tok, i := 0, 0;
    while true
      invariant 0 <= cur <= fs.ni && 0 <= tok <= i <= |text|
      invariant Walking(tmp[..], text, tok, i, nodes, cur, goal)
      decreases |text| - i
    {
      if tmp[i] == '/' || tmp[i] == '\0' {
        var c := tmp[i];
        WalkSeparator(tmp[..], text, tok, i, nodes, cur, goal);
        tmp[i] := '\0';
        assert tmp[tok..] == tmp[..][tok..];
        var next := HopTo(fs, tmp, tok, cur, text[tok..i]);
        if next == -1 { return -1; }
        cur := next;
        if c == '\0' { break; }
        tok := i + 1;
      } else {
        WalkOn(tmp[..], text, tok, i, nodes, cur, goal);
      }
      i := i + 1;
    }
    r := cur;
  }

  lemma CopiedIs(path: string)
    requires '\0' !in path
    ensures '\0' !in Copied(path) && |Copied(path)| == Min(|path|, 127) <= 127
    ensures Copied(path) == "" <==> path == ""
    ensures path != "" ==> Copied(path)[0] == path[0]
    ensures path[..Min(|path|, 127)] == Copied(path)
    ensures |path| <= 126 ==> Copied(path) == path
  {
    assert forall c :: c in Copied(path) ==> c in path;
  }

  lemma LookupIs(fs: FileSystem, from: nat, path: string)
    requires fs.Rep()
    ensures Lookup(fs.Abs().nodes, from, path) ==
            if path == "" then Some(from) else Follow(fs.Abs().nodes, if path[0] == '/' then 0 else from, Split(path))
    ensures Ptr(None) == -1 && forall n: nat :: Ptr(Some(n)) == n
  {
  }

  lemma WalkStart(tmp: string, path: string, nodes: seq<Node>, cur: nat)
    requires |tmp| == 128 && |path| <= 127 && tmp[..127] == path + Fill(127 - |path|)
    requires |path| == 127 ==> tmp[127] == '\0'
    ensures Walking(tmp, path, 0, 0, nodes, cur, Follow(nodes, cur, Split(path)))
  {
    hide Follow, Split;
    BufferStart(tmp, path);
    assert path[0..] == path;
  }

  // At a separator: the component's text, the hop it stands for, and the walk behind it.
  lemma WalkSeparator(tmp: string, path: string, tok: nat, i: nat, nodes: seq<Node>, cur: nat, goal: Option<nat>)
    requires Walking(tmp, path, tok, i, nodes, cur, goal) && '\0' !in path
    requires tmp[i] == '/' || tmp[i] == '\0'
    ensures var cut, h := tmp[i := '\0'], Hop(nodes, cur, path[tok..i]);
            && CStr(cut[tok..]) == path[tok..i] && '\0' in cut[tok..]
            && (tmp[i] == '\0' <==> i == |path|)
            && (h == None ==> goal == None)
            && (h.Some? && i == |path| ==> goal == h)
            && (h.Some? && i < |path| ==> Walking(cut, path, i + 1, i + 1, nodes, h.value, goal))
    ensures Ptr(None) == -1 && forall n: nat :: Ptr(Some(n)) == n
  {
    hide Follow, Split, Hop, CStr;
    SeparatorAt(tmp, path, tok, i);
    TokenText(tmp, path, tok, i);
    ComponentStep(nodes, cur, path, tok, i);
  }

  lemma WalkOn(tmp: string, path: string, tok: nat, i: nat, nodes: seq<Node>, cur: nat, goal: Option<nat>)
    requires Walking(tmp, path, tok, i, nodes, cur, goal) && tmp[i] != '/' && tmp[i] != '\0'
    ensures i < |path| && Walking(tmp, path, tok, i + 1, nodes, cur, goal)
  {
    hide Follow, Split;
    NoSeparator(tmp, path, tok, i);
  }

  lemma BufferStart(tmp: string, path: string)
    requires |tmp| == 128 && |path| <= 127 && tmp[..127] == path + Fill(127 - |path|)
    requires |path| == 127 ==> tmp[127] == '\0'
    ensures Buffered(tmp, path, 0)
  {
    if |path| < 127 { assert tmp[|path|] == tmp[..127][|path|]; }
    forall j | 0 <= j < |path|
      ensures tmp[j] == path[j]
    {
      assert tmp[j] == tmp[..127][j];
    }
  }

  // A slash or NUL under the cursor is the path's own slash or its end.
  lemma SeparatorAt(tmp: string, path: string, tok: nat, i: nat)
    requires Buffered(tmp, path, tok) && tok <= i <= |path| && '\0' !in path
    requires tmp[i] == '/' || tmp[i] == '\0'
    ensures tmp[i] == '\0' <==> i == |path|
    ensures i < |path| ==> path[i] == '/'
    ensures i < |path| ==> Buffered(tmp[i := '\0'], path, i + 1)
  {
    if i < |path| { assert path[i] in path; }
  }

  lemma NoSeparator(tmp: string, path: string, tok: nat, i: nat)
    requires Buffered(tmp, path, tok) && tok <= i <= |path| && '/' !in path[tok..i]
    requires tmp[i] != '/' && tmp[i] != '\0'
    ensures i < |path| && '/' !in path[tok..i + 1]
  {
    assert i < |path| ==> path[tok..i + 1] == path[tok..i] + [path[i]];
  }

  // Consuming one component advances the walk by one hop.
  lemma ComponentStep(nodes: seq<Node>, cur: nat, path: string, tok: nat, i: nat)
    requires tok <= i <= |path| && '/' !in path[tok..i] && (i < |path| ==> path[i] == '/')
    ensures var h, t := Hop(nodes, cur, path[tok..i]), Follow(nodes, cur, Split(path[tok..]));
            && (h == None ==> t == None)
            && (h.Some? ==> t == if i == |path| then h else Follow(nodes, h.value, Split(path[i + 1..])))
    ensures Ptr(None) == -1 && forall n: nat :: Ptr(Some(n)) == n
  {
    hide Split, Hop;
    var s := path[tok..];
    assert s[..i - tok] == path[tok..i];
    SplitFirst(s, i - tok);
    var toks := Split(s);
    if i < |path| {
      assert s[i - tok + 1..] == path[i + 1..];
      assert toks == [path[tok..i]] + Split(path[i + 1..]);
      assert toks[1..] == Split(path[i + 1..]);
    } else {
      assert s == path[tok..i];
      assert toks == [s] && toks[1..] == [];
    }
  }

  // ---- get_cwd_path ----

  // The names of stack[sp - 2] down to stack[0]: what the printer shows.
  function StackNames(nodes: seq<Node>, stack: seq<nat>): (r: seq<string>)
    requires stack != []
    ensures |r| == |stack| - 1
  {
    if |stack| == 1 then []
    else StackNames(nodes, stack[1..]) + [if stack[0] < |nodes| then nodes[stack[0]].name else ""]
  }

  // stack lists a node and its ancestors upward.
  ghost predicate Climbs(nodes: seq<Node>, stack: seq<nat>) {
    && (forall k :: 0 <= k < |stack| ==> stack[k] < |nodes|)
    && (forall k :: 0 <= k < |stack| ==> OnClimb(nodes, stack, k))
  }

  // The parent of the k-th node of the stack is the next one.
  ghost predicate OnClimb(nodes: seq<Node>, stack: seq<nat>, k: nat)
    requires k < |stack| && stack[k] < |nodes|
  {
    k + 1 < |stack| ==> nodes[stack[k]].parent == Some(stack[k + 1])
  }

  lemma {:induction false} ClimbNames(nodes: seq<Node>, stack: seq<nat>)
    requires TreeOk(nodes) && stack != [] && Climbs(nodes, stack)
    ensures Names(nodes, stack[0]) == Names(nodes, stack[|stack| - 1]) + StackNames(nodes, stack)
    decreases |stack|
  {
    if |stack| > 1 {
      var up := stack[1..];
      assert NodeOk(nodes, stack[0]) && OnClimb(nodes, stack, 0);
      forall k | 0 <= k < |up|
        ensures up[k] < |nodes| && OnClimb(nodes, up, k)
      {
        assert OnClimb(nodes, stack, k + 1);
      }
      ClimbNames(nodes, up);
    }
  }

  predicate NoParent(nodes: seq<Node>, n: nat) { n < |nodes| && nodes[n].parent == None }

  // A stack that ends at a node without parent, or is 32 deep, shows exactly the last 31 names.
  lemma ShownNames(nodes: seq<Node>, stack: seq<nat>)
    requires TreeOk(nodes) && 1 <= |stack| <= 32 && Climbs(nodes, stack)
    requires |stack| == 32 || NoParent(nodes, stack[|stack| - 1])
    ensures StackNames(nodes, stack) == LastOf(Names(nodes, stack[0]), 31)
    ensures |stack| == 1 <==> Names(nodes, stack[0]) == []
  {
    ClimbNames(nodes, stack);
  }

  lemma {:induction false} JoinSnoc(names: seq<string>, t: string)
    ensures Join(names + [t]) == Join(names) + "/" + t
    decreases |names|
  {
    if names == [] {
      assert names + [t] == [t] && [t][1..] == [];
    } else {
      assert (names + [t])[1..] == names[1..] + [t];
      JoinSnoc(names[1..], t);
    }
  }

  lemma {:induction false} JoinPrefix(names: seq<string>, k: nat)
    requires k <= |names|
    ensures Join(names[..k]) <= Join(names)
    decreases |names| - k
  {
    if k < |names| {
      JoinPrefix(names, k + 1);
      assert names[..k + 1] == names[..k] + [names[k]];
      JoinSnoc(names[..k], names[k]);
    } else {
      assert names[..k] == names;
    }
  }

  lemma {:induction false} StackNameAt(nodes: seq<Node>, stack: seq<nat>, i: nat)
    requires i + 1 < |stack| && stack[i] < |nodes|
    ensures StackNames(nodes, stack)[|stack| - 2 - i] == nodes[stack[i]].name
    decreases |stack|
  {
    if i == 0 {
    } else {
      StackNameAt(nodes, stack[1..], i - 1);
    }
  }

  // Climbs from the working directory to the root, at most 32 nodes.
  method ClimbStack(fs: FileSystem, stack: array<nat>) returns (sp: nat)
    requires fs.Valid() && fs.cwd <= fs.ni && stack.Length == 32
    modifies stack
    ensures 1 <= sp <= 32 && stack[0] == fs.cwd && Climbs(fs.Abs().nodes, stack[..sp])
    ensures sp == 32 || NoParent(fs.Abs().nodes, stack[..sp][sp - 1])
  {
    ghost var nodes := fs.Abs().nodes;
    sp := 0;
    var cur: int := fs.cwd;
    while cur != -1
      invariant 0 <= sp < 32 && -1 <= cur <= fs.ni && fs.Valid() && fs.Abs().nodes == nodes
      invariant sp == 0 ==> cur == fs.cwd
      invariant Climbs(nodes, stack[..sp])
      invariant sp > 0 ==> stack[0] == fs.cwd && nodes[stack[..sp][sp - 1]].parent == Ref(cur)
      decreases 32 - sp
    {
      HopCases(fs, cur, "");
      ghost var before := stack[..sp];
      stack[sp] := cur;
      assert stack[..sp + 1] == before + [cur];
      ClimbOn(nodes, before, cur);
      cur := fs.table[cur].parent;
      sp := sp + 1;
      if sp >= 32 { break; }
    }
  }

  lemma ClimbOn(nodes: seq<Node>, stack: seq<nat>, n: nat)
    requires Climbs(nodes, stack) && n < |nodes| && (stack != [] ==> nodes[stack[|stack| - 1]].parent == Some(n))
    ensures Climbs(nodes, stack + [n])
  {
    var s := stack + [n];
    forall k | 0 <= k < |s|
      ensures s[k] < |nodes| && OnClimb(nodes, s, k)
    {
      if k < |stack| { assert OnClimb(nodes, stack, k); }
    }
  }

  // Copies name to out from j on, up to max - 1 characters in all.
  method AppendName(out: array<char>, max: nat, j: nat, name: string) returns (end: nat)
    requires 2 <= max <= out.Length && j <= max - 1
    modifies out
    ensures end == j + Min(|name|, max - 1 - j)
    ensures out[..end] == old(out[..j]) + name[..Min(|name|, max - 1 - j)]
  {
    end := j;
    var k := 0;
    while k < |name| && end < max - 1
      invariant 0 <= k <= |name| && end == j + k <= max - 1
      invariant out[..end] == old(out[..j]) + name[..k]
    {
      ghost var before := out[..end];
      out[end] := name[k];
      assert out[..end + 1] == before + [name[k]];
      assert name[..k + 1] == name[..k] + [name[k]];
      end := end + 1;
      k := k + 1;
    }
  }

  // The printed text so far, when one more name is appended.
  lemma PrintStep(names: seq<string>, m: nat, max: nat, text: string, next: string)
    requires m < |names| && text == Join(names[..m]) && |text| < max - 1
    requires next == text + "/" + names[m][..Min(|names[m]|, max - 1 - (|text| + 1))]
    ensures |next| < max - 1 ==> next == Join(names[..m + 1])
    ensures |next| <= max - 1
    ensures |next| == max - 1 ==> |Join(names)| >= max - 1 && next == Join(names)[..max - 1]
  {
    hide Join;
    assert names[..m + 1] == names[..m] + [names[m]];
    JoinSnoc(names[..m], names[m]);
    JoinPrefix(names, m + 1);
    CutAfter(text + "/", names[m], Min(|names[m]|, max - 1 - (|text| + 1)));
    CutOnce(Join(names[..m + 1]), Join(names), |next|);
  }

  lemma CutAfter(a: string, b: string, k: nat)
    requires k <= |b|
    ensures a + b[..k] == (a + b)[..|a| + k]
    ensures k == |b| ==> a + b[..k] == a + b
  {
  }

  lemma CutOnce(a: string, b: string, k: nat)
    requires a <= b && k <= |a|
    ensures a[..k] == b[..k]
  {
  }

  // get_cwd_path: out holds the path and a NUL.
  method GetCwdPath(fs: FileSystem, out: array<char>, max: nat)
    requires fs.Valid() && fs.cwd <= fs.ni && 2 <= max <= out.Length && out != fs.arena
    modifies out
    ensures var path := CwdPath(fs.Abs().nodes, fs.cwd, max);
            |path| < max && out[..|path|] == path && out[|path|] == '\0'
  {
    var stack := new nat[32];
    var sp := ClimbStack(fs, stack);
    ghost var nodes := fs.Abs().nodes;
    ghost var names := StackNames(nodes, stack[..sp]);
    ShownNames(nodes, stack[..sp]);
    if sp == 1 {
      out[0] := '/';
      out[1] := '\0';
      assert out[..1] == "/";
      return;
    }
    assert stack[..sp][0] == fs.cwd;
    assert names == LastOf(Names(nodes, fs.cwd), 31) && Names(nodes, fs.cwd) != [];
    assert CwdPath(nodes, fs.cwd, max) == Join(names)[..Min(|Join(names)|, max - 1)];
    var j := PrintNames(fs, out, max, stack, sp);
    out[j] := '\0';
  }

  // The output loop over the stack, root side first.
  method PrintNames(fs: FileSystem, out: array<char>, max: nat, stack: array<nat>, sp: nat) returns (j: nat)
    requires fs.Valid() && 2 <= max <= out.Length && out != fs.arena && 2 <= sp <= stack.Length
    requires Climbs(fs.Abs().nodes, stack[..sp])
    modifies out
    ensures var full := Join(StackNames(fs.Abs().nodes, stack[..sp]));
            j == Min(|full|, max - 1) && out[..j] == full[..j]
  {
    ghost var nodes, names := fs.Abs().nodes, StackNames(fs.Abs().nodes, stack[..sp]);
    j := 0;
    var i := sp - 2;
    assert names[..0] == [];
    while i >= 0
      invariant -1 <= i <= sp - 2 && j < max - 1 && fs.Valid() && fs.Abs().nodes == nodes
      invariant out[..j] == Join(names[..sp - 2 - i])
      decreases i
    {
      StackNameAt(nodes, stack[..sp], i);
      NameIs(fs, stack[i]);
      ghost var text := out[..j];
      out[j] := '/';
      assert out[..j + 1] == text + "/";
      j := AppendName(out, max, j + 1, fs.table[stack[i]].name);
      PrintStep(names, sp - 2 - i, max, text, out[..j]);
      if j >= max - 1 { return; }
      i := i - 1;
    }
    assert names[..|names|] == names;
  }

  lemma NameIs(fs: FileSystem, n: nat)
    requires fs.Valid() && n <= fs.ni
    ensures n < fs.table.Length && fs.Abs().nodes[n].name == fs.table[n].name
  {
  }

  // ---- The commands ----

  // Paths the walker's 128-byte buffer holds with a NUL, its last byte being as given.
  predicate FitsBuffer(cmd: Command, last: char) {
    cmd.Cd? ==> '\0' !in cmd.path && (|cmd.path| <= 126 || last == '\0')
  }

  // The command as the walker's buffer leaves it.
  function Cut127(cmd: Command): Command { if cmd.Cd? then Cd(Copied(cmd.path)) else cmd }

  // builtin_rm
  method BuiltinRm(fs: FileSystem, name: string)
    requires fs.Valid() && fs.cwd <= fs.ni
    modifies fs`kids, fs.table
    ensures fs.Valid() && fs.Abs() == RemoveEntry(old(fs.Abs()), name)
  {
    hide *;
    RemoveCases(fs.Abs(), name);
    AbsCwd(fs);
    var n := fs.FindKidIn(fs.cwd, name);
    if n == -1 { return; }
    fs.RecIs(n);
    NoKids(fs, n);
    if fs.table[n].kind == Dir && fs.table[n].child != -1 { return; }
    var r := fs.FsUnlink(fs.cwd, name);
  }

  lemma AbsCwd(fs: FileSystem)
    requires fs.Rep()
    ensures fs.Abs().cwd == fs.cwd && |fs.Abs().nodes| == fs.ni + 1
    ensures forall o: Option<nat> :: Ptr(o) == if o.Some? then o.value else -1
  {
  }

  lemma NoKids(fs: FileSystem, n: nat)
    requires fs.Valid() && n <= fs.ni
    ensures n < fs.table.Length && (fs.table[n].child == -1 <==> fs.Abs().nodes[n].kids == [])
  {
    assert Spells(fs.table[..], fs.kids, n);
  }

  lemma RemoveCases(fs: Fs, name: string)
    ensures var e := FindIn(fs.nodes, fs.cwd, name);
            && (e.None? ==> RemoveEntry(fs, name) == fs)
            && (e.Some? ==> e.value < |fs.nodes|)
            && (e.Some? ==> RemoveEntry(fs, name) ==
                            if fs.nodes[e.value].kind == Dir && fs.nodes[e.value].kids != [] then fs
                              else Unlink(fs, fs.cwd, name).0)
  {
  }

  // builtin_cp
  method BuiltinCp(fs: FileSystem, from: string, to: string)
    requires fs.Valid() && fs.cwd <= fs.ni && from != "" && to != ""
    modifies fs`ni, fs`kids, fs`aoff, fs.table, fs.arena
    ensures fs.Rep() && (|to| <= NAME_MAX ==> fs.Valid()) && fs.Abs() == Shell(old(fs.Abs()), Cp(from, to))
  {
    hide CloneFile, Linked, FsOk;
    AbsCwd(fs);
    var src := fs.FindKidIn(fs.cwd, from);
    if src == -1 { return; }
    fs.RecIs(src);
    if fs.table[src].kind != File { return; }
    var r := fs.FsCloneFile(fs.cwd, src, to);
  }

  // builtin_cd
  method BuiltinCd(fs: FileSystem, path: string, last: char)
    requires fs.Valid() && fs.cwd <= fs.ni && '\0' !in path && (|path| <= 126 || last == '\0')
    modifies fs`cwd
    ensures fs.Valid() && fs.Abs() == Shell(old(fs.Abs()), Cd(Copied(path)))
  {
    hide Lookup, Linked, FsOk;
    AbsCwd(fs);
    var n := FsLookup(fs, fs.cwd, path, last);
    if n == -1 { return; }
    fs.RecIs(n);
    if fs.table[n].kind == Dir { FsSetCwd(fs, n); }
  }

  // fs_set_cwd
  method FsSetCwd(fs: FileSystem, n: int)
    requires fs.Valid() && -1 <= n <= fs.ni
    modifies fs`cwd
    ensures fs.Valid()
    ensures fs.Abs() == if n != -1 && IsDir(old(fs.Abs()).nodes, n) then old(fs.Abs()).(cwd := n) else old(fs.Abs())
  {
    if n != -1 && fs.table[n].kind == Dir {
      NodesOnly(fs.Abs(), fs.Abs().(cwd := n));
      fs.cwd := n;
    }
  }

  // One command typed at the prompt computes the step of the same name; if its names fit it keeps the tree and
  // an attached working directory.
  method RunCommand(fs: FileSystem, cmd: Command, last: char)
    requires fs.Valid() && ShellOk(fs.Abs()) && FitsBuffer(cmd, last)
    modifies fs, fs.table, fs.arena
    ensures fs.Rep() && fs.Abs() == Shell(old(fs.Abs()), Cut127(cmd))
    ensures FitsCommand(cmd) ==> fs.Valid() && ShellOk(fs.Abs())
  {
    hide ShellOk, Create, Rename, FsOk, Linked;
    if FitsCommand(cmd) { ShellStepOk(fs.Abs(), Cut127(cmd)); }
    CwdIn(fs);
    var r;
    match cmd {
      case Mkdir(name) => if name != "" { r := fs.FsMkdir(fs.cwd, name); }
      case Touch(name) => if name != "" { r := fs.FsCreate(fs.cwd, name, File); }
      case Rm(name) => if name != "" { BuiltinRm(fs, name); }
      case Mv(from, to) => if from != "" && to != "" { r := fs.FsRename(fs.cwd, from, to); }
      case Cp(from, to) => if from != "" && to != "" { BuiltinCp(fs, from, to); }
      case Cd(path) => BuiltinCd(fs, path, last);
    }
  }

  lemma CwdIn(fs: FileSystem)
    requires fs.Rep() && ShellOk(fs.Abs())
    ensures fs.cwd <= fs.ni && fs.Abs().cwd == fs.cwd
  {
  }
}
