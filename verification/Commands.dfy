// What the shell's commands do, told by directory entries and lookups.
module Commands {
  import opened CStrings
  import opened Tree
  import opened Files
  import opened Paths
  import opened Directories

  // Slots keep their kind and contents, and the working directory is the same.
  ghost predicate SameNodes(fs: Fs, fs1: Fs) {
    && |fs.nodes| <= |fs1.nodes| && fs1.cwd == fs.cwd
    && forall g: nat :: g < |fs.nodes| ==> fs1.nodes[g].kind == fs.nodes[g].kind && Content(fs1, g) == Content(fs, g)
  }

  // Directory entry (d, t) of the working directory's name.
  predicate Here(fs: Fs, name: string, d: nat, t: string) { d == fs.cwd && t == name }

  lemma CreateSame(fs: Fs, name: string, kind: Kind)
    requires ShellOk(fs) && |name| <= 31
    ensures SameNodes(fs, Create(fs, fs.cwd, name, kind).0)
  {
    forall g: nat | g < |fs.nodes|
      ensures var fs1 := Create(fs, fs.cwd, name, kind).0;
              fs1.nodes[g].kind == fs.nodes[g].kind && Content(fs1, g) == Content(fs, g)
    {
      FsStepOk(fs, CreateOp(fs.cwd, name, kind), g);
    }
  }

  // mkdir with a name that is not empty and not taken, while a slot is free, adds one empty directory to the
  // working directory; otherwise nothing changes.
  lemma MkdirMakes(fs: Fs, name: string, d: nat, t: string)
    requires ShellOk(fs) && |name| <= 31
    ensures var fs1, n := Shell(fs, Mkdir(name)), |fs.nodes|;
            var made := name != "" && FindIn(fs.nodes, fs.cwd, name).None? && n <= 512;
            && SameNodes(fs, fs1) && (!made ==> fs1 == fs)
            && (made ==> IsDir(fs1.nodes, n) && fs1.nodes[n].kids == [] && fs1.nodes[n].parent == Some(fs.cwd))
            && FindIn(fs1.nodes, d, t) == if made && Here(fs, name, d, t) then Some(n) else FindIn(fs.nodes, d, t)
  {
    hide TreeOk, Attached, Content, Create, ArenaOk;
    CreateEntry(fs, fs.cwd, name, Dir, d, t);
    CreateSame(fs, name, Dir);
  }

  // touch does the same with an empty file.
  lemma TouchMakes(fs: Fs, name: string, d: nat, t: string)
    requires ShellOk(fs) && |name| <= 31
    ensures var fs1, n := Shell(fs, Touch(name)), |fs.nodes|;
            var made := name != "" && FindIn(fs.nodes, fs.cwd, name).None? && n <= 512;
            && SameNodes(fs, fs1) && (!made ==> fs1 == fs)
            && (made ==> IsFile(fs1, n) && Content(fs1, n) == "" && fs1.nodes[n].parent == Some(fs.cwd))
            && FindIn(fs1.nodes, d, t) == if made && Here(fs, name, d, t) then Some(n) else FindIn(fs.nodes, d, t)
  {
    hide TreeOk, Attached, Content, Create, ArenaOk;
    CreateEntry(fs, fs.cwd, name, File, d, t);
    CreateSame(fs, name, File);
  }

  // rm takes an entry away if and only if there is one and it is no directory with children; no other entry
  // changes.
  lemma RmRemovesExactly(fs: Fs, name: string, d: nat, t: string)
    requires ShellOk(fs) && name != ""
    ensures var fs1, e := Shell(fs, Rm(name)), FindIn(fs.nodes, fs.cwd, name);
            var gone := e.Some? && !(IsDir(fs.nodes, e.value) && fs.nodes[e.value].kids != []);
            && SameNodes(fs, fs1) && (!gone ==> fs1 == fs)
            && FindIn(fs1.nodes, d, t) == if gone && Here(fs, name, d, t) then None else FindIn(fs.nodes, d, t)
  {
    hide TreeOk, Attached, Content, Unlink, ArenaOk;
    UnlinkEntry(fs, fs.cwd, name, d, t);
    UnlinkSame(fs, name);
  }

  lemma UnlinkSame(fs: Fs, name: string)
    requires ShellOk(fs)
    ensures SameNodes(fs, Unlink(fs, fs.cwd, name).0)
  {
    forall g: nat | g < |fs.nodes|
      ensures var fs1 := Unlink(fs, fs.cwd, name).0;
              fs1.nodes[g].kind == fs.nodes[g].kind && Content(fs1, g) == Content(fs, g)
    {
      FsStepOk(fs, UnlinkOp(fs.cwd, name), g);
    }
  }

  // mv moves exactly that entry to the new name, if there is one and the new name is free.
  lemma MvMoves(fs: Fs, from: string, to: string, d: nat, t: string)
    requires ShellOk(fs) && |to| <= 31
    ensures var fs1, e := Shell(fs, Mv(from, to)), FindIn(fs.nodes, fs.cwd, from);
            var moved := from != "" && to != "" && e.Some? && FindIn(fs.nodes, fs.cwd, to).None?;
            && SameNodes(fs, fs1) && (!moved ==> fs1 == fs)
            && FindIn(fs1.nodes, d, t) ==
               if moved && Here(fs, to, d, t) then e
               else if moved && Here(fs, from, d, t) then None else FindIn(fs.nodes, d, t)
  {
    hide TreeOk, Attached, Content, Rename, ArenaOk;
    RenameEntry(fs, fs.cwd, from, to, d, t);
    RenameSame(fs, from, to);
  }

  lemma RenameSame(fs: Fs, from: string, to: string)
    requires ShellOk(fs) && |to| <= 31
    ensures SameNodes(fs, Rename(fs, fs.cwd, from, to).0)
  {
    forall g: nat | g < |fs.nodes|
      ensures var fs1 := Rename(fs, fs.cwd, from, to).0;
              fs1.nodes[g].kind == fs.nodes[g].kind && Content(fs1, g) == Content(fs, g)
    {
      FsStepOk(fs, RenameOp(fs.cwd, from, to), g);
    }
  }

  // cp adds one file, if the old name is a file's, the new one is free, a slot is free and the arena has room for
  // the content. Whatever the old file holds, the new one is empty.
  lemma CpMakesEmpty(fs: Fs, from: string, to: string, d: nat, t: string)
    requires ShellOk(fs) && |to| <= 31
    ensures var fs1, e, n := Shell(fs, Cp(from, to)), FindIn(fs.nodes, fs.cwd, from), |fs.nodes|;
            var copied := && from != "" && to != "" && e.Some? && IsFile(fs, e.value)
                          && FindIn(fs.nodes, fs.cwd, to).None? && n <= 512
                          && fs.aoff + |Content(fs, e.value)| <= 131072;
            && SameNodes(fs, fs1)
            && (copied ==> IsFile(fs1, n) && Content(fs1, n) == "" && fs1.nodes[n].parent == Some(fs.cwd))
            && FindIn(fs1.nodes, d, t) == if copied && Here(fs, to, d, t) then Some(n) else FindIn(fs.nodes, d, t)
  {
    hide TreeOk, Attached, Content, CloneFile, ArenaOk;
    var e := FindIn(fs.nodes, fs.cwd, from);
    if e.Some? {
      CopyEntry(fs, fs.cwd, e.value, to, d, t);
      CopySame(fs, e.value, to);
    }
  }

  lemma CopySame(fs: Fs, src: nat, to: string)
    requires ShellOk(fs) && |to| <= 31
    ensures SameNodes(fs, CloneFile(fs, fs.cwd, src, to).0)
  {
    CloneFileCorrect(fs, fs.cwd, src, to);
  }

  // cd moves to what the path leads to if that is a directory, and changes nothing else.
  lemma CdMoves(fs: Fs, path: string, n: nat)
    requires ShellOk(fs)
    ensures var fs1 := Shell(fs, Cd(path));
            && fs1 == fs.(cwd := fs1.cwd)
            && (Lookup(fs.nodes, fs.cwd, path) == Some(n) && IsDir(fs.nodes, n) ==> fs1.cwd == n)
            && (fs1.cwd != fs.cwd ==> Lookup(fs.nodes, fs.cwd, path) == Some(fs1.cwd) && IsDir(fs.nodes, fs1.cwd))
  {
    hide Lookup, TreeOk, Attached, ArenaOk;
  }

  // A directory just made can be entered by its name, is empty, and ".." leads back out of it.
  lemma MkdirCdBack(fs: Fs, name: string, t: string)
    requires ShellOk(fs) && |name| <= 31 && Plain(name)
    requires FindIn(fs.nodes, fs.cwd, name).None? && |fs.nodes| <= 512
    ensures var made := Shell(fs, Mkdir(name));
            var inside := Shell(made, Cd(name));
            && inside.cwd != fs.cwd && FindIn(inside.nodes, inside.cwd, t).None?
            && Shell(inside, Cd("..")) == made
  {
    hide Lookup, TreeOk, Attached, ArenaOk, FindIn;
    var made, n := Shell(fs, Mkdir(name)), |fs.nodes|;
    var inside := Shell(made, Cd(name));
    MkdirMakes(fs, name, fs.cwd, name);
    ShellStepOk(fs, Mkdir(name));
    LookupName(made.nodes, made.cwd, name);
    CdMoves(made, name, n);
    NoEntries(inside.nodes, n, t);
    ShellStepOk(made, Cd(name));
    LookupDots(inside.nodes, n);
    CdMoves(inside, "..", fs.cwd);
  }

  lemma NoEntries(nodes: seq<Node>, n: nat, t: string)
    requires n < |nodes| && nodes[n].kids == []
    ensures FindIn(nodes, n, t).None?
  {
  }

  // "cd .." leads to the parent of the working directory, and stays at the root.
  lemma CdUp(fs: Fs)
    requires ShellOk(fs)
    ensures var up := Shell(fs, Cd(".."));
            && up == fs.(cwd := up.cwd)
            && (if fs.cwd == 0 then up.cwd == 0 else fs.nodes[fs.cwd].parent == Some(up.cwd))
  {
    LookupDots(fs.nodes, fs.cwd);
    assert NodeOk(fs.nodes, fs.cwd);
    if fs.cwd != 0 { assert NodeOk(fs.nodes, fs.nodes[fs.cwd].parent.value); }
    hide Lookup;
  }
}
