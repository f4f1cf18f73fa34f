// The physical page allocator: a bump pointer over [start, FRAMES) and a LIFO free list whose links
// are stored in the first word of the free pages themselves.
//
// Pages are named by frame number (byte address / 4096). Frame 0 stands for the NULL page.
module Pmm {
  import opened Words

  const FRAMES: nat := 32768 // 128 MiB of 4096-byte pages

  type Frame = f: nat | f < FRAMES
  type Bump = f: nat | f <= FRAMES

  // Word i of frame f; frames beyond the memory read as zero.
  function Cell(mem: Memory, f: nat, i: nat): Word {
    if 512 * f + i < |mem| then mem[512 * f + i] else 0
  }

  function Store(mem: Memory, f: nat, i: nat, w: Word): (r: Memory)
    ensures |r| == |mem|
    ensures i < 512 && 512 * f + 512 <= |mem| ==> Cell(r, f, i) == w
    ensures forall g: nat, j: nat :: i < 512 && j < 512 && (g != f || j != i) ==> Cell(r, g, j) == Cell(mem, g, j)
  {
    if 512 * f + i < |mem| then mem[512 * f + i := w] else mem
  }

  function ZeroFrame(mem: Memory, f: nat): (r: Memory)
    ensures |r| == |mem|
    ensures forall g: nat, j: nat :: j < 512 ==> Cell(r, g, j) == if g == f then 0 else Cell(mem, g, j)
  {
    seq(|mem|, k requires 0 <= k < |mem| => if 512 * f <= k < 512 * f + 512 then 0 else mem[k])
  }

  function CopyFrame(mem: Memory, dst: nat, src: nat): (r: Memory)
    ensures |r| == |mem|
    ensures 512 * dst + 512 <= |mem| ==>
              forall g: nat, j: nat :: j < 512 ==>
                  Cell(r, g, j) == if g == dst then Cell(mem, src, j) else Cell(mem, g, j)
  {
    if 512 * dst + 512 > |mem| then mem
    else mem[..512 * dst] + seq(512, i requires 0 <= i < 512 => Cell(mem, src, i)) + mem[512 * dst + 512..]
  }

  // Frames f of two memories hold the same words.
  ghost predicate SameFrame(a: Memory, b: Memory, f: nat) {
    forall i: nat :: i < 512 ==> Cell(a, f, i) == Cell(b, f, i)
  }

  // A memory is determined by its cells.
  lemma SameCells(a: Memory, b: Memory)
    requires |a| == |b| && forall f: nat, i: nat :: i < 512 ==> Cell(a, f, i) == Cell(b, f, i)
    ensures a == b
  {
    forall j | 0 <= j < |a|
      ensures a[j] == b[j]
    {
      assert Cell(a, j / 512, j % 512) == Cell(b, j / 512, j % 512);
    }
  }

  datatype State = State(mem: Memory, start: nat, cur: Bump, free: seq<Frame>)

  // The link word stored in the page before position i of the free list; 0 ends the list.
  function Link(free: seq<Frame>, i: nat): (w: Word) {
    if i < |free| then (free[i] as int) * 4096 else 0
  }

  ghost predicate PagesOk(s: State) {
    && |s.mem| == 512 * FRAMES
    && 0 < s.start <= s.cur
    && (forall i :: 0 <= i < |s.free| ==> s.start <= s.free[i] < s.cur)
    && (forall i, j :: 0 <= i < j < |s.free| ==> s.free[i] != s.free[j])
    && (forall i :: 0 <= i < |s.free| ==> Cell(s.mem, s.free[i], 0) == Link(s.free, i + 1))
  }

  // Handed out and not returned.
  predicate Live(s: State, f: nat) {
    s.start <= f < s.cur && f !in s.free
  }

  function LiveSet(s: State): set<nat> {
    set f | s.start <= f < s.cur && f !in s.free
  }

  // Pages an allocation can still deliver.
  function Avail(s: State): int {
    |s.free| + FRAMES - s.cur
  }

  function Alloc(s: State): (State, Frame) {
    if |s.free| > 0 then
      (s.(mem := ZeroFrame(s.mem, s.free[0]), free := s.free[1..]), s.free[0])
    else if s.cur >= FRAMES then
      (s, 0)
    else
      (s.(mem := ZeroFrame(s.mem, s.cur), cur := s.cur + 1), s.cur)
  }

  function Free(s: State, f: nat): State {
    if f == 0 || f >= FRAMES then s
    else s.(mem := Store(s.mem, f, 0, Link(s.free, 0)), free := [f] + s.free)
  }

  // Allocation fails exactly when the list is empty and the bump pointer is at 128 MiB. Otherwise the
  // page it returns was not live, is live now, is zero, and no other page's contents or status change.
  lemma AllocCorrect(s: State)
    requires PagesOk(s)
    ensures PagesOk(Alloc(s).0)
    ensures Alloc(s).1 == 0 <==> Avail(s) == 0
    ensures Alloc(s).1 == 0 ==> Alloc(s).0 == s
    ensures Alloc(s).1 != 0 ==>
              var (t, p) := Alloc(s);
              && !Live(s, p) && Live(t, p) && p < FRAMES
              && (forall f: nat :: f != p ==> (Live(t, f) <==> Live(s, f)))
              && (forall i: nat :: i < 512 ==> Cell(t.mem, p, i) == 0)
              && (forall f: nat :: f != p ==> SameFrame(s.mem, t.mem, f))
              && Avail(t) == Avail(s) - 1
              && t.start == s.start
  {
    var (t, p) := Alloc(s);
    if |s.free| > 0 {
      forall i | 0 <= i < |t.free|
        ensures s.start <= t.free[i] < s.cur && t.free[i] != p
        ensures Cell(t.mem, t.free[i], 0) == Link(t.free, i + 1)
      {
        assert t.free[i] == s.free[i + 1];
      }
      assert s.free == [p] + t.free;
    }
  }

  // A live page returned to the allocator stops being live; no other page changes.
  lemma FreeCorrect(s: State, f: nat)
    requires PagesOk(s) && Live(s, f)
    ensures PagesOk(Free(s, f))
    ensures Free(s, f).free == [f] + s.free
    ensures forall g: nat :: Live(Free(s, f), g) <==> Live(s, g) && g != f
    ensures forall g: nat :: g != f ==> SameFrame(s.mem, Free(s, f).mem, g)
    ensures Avail(Free(s, f)) == Avail(s) + 1
  {
    StoreKeepsList(s, f, 0, Link(s.free, 0));
    PushKeepsList(s.(mem := Store(s.mem, f, 0, Link(s.free, 0))), f);
  }

  // The page released last is handed out next, and the list is then as it was before the release; with an empty
  // list the pages come in address order up to 128 MiB. Releasing the null page does nothing.
  lemma LastOutFirst(s: State, f: nat)
    requires PagesOk(s)
    ensures Live(s, f) ==> Alloc(Free(s, f)).1 == f && Alloc(Free(s, f)).0.free == s.free
    ensures Free(s, 0) == s
    ensures s.free == [] ==>
              if s.cur < 32768 then Alloc(s).1 == s.cur && Alloc(s).0.cur == s.cur + 1 else Alloc(s).1 == 0
  {
    if Live(s, f) {
      FreeCorrect(s, f);
      assert ([f] + s.free)[1..] == s.free;
    }
  }

  lemma PushKeepsList(s: State, f: Frame)
    requires PagesOk(s) && Live(s, f) && Cell(s.mem, f, 0) == Link(s.free, 0)
    ensures PagesOk(s.(free := [f] + s.free))
  {
    var free := [f] + s.free;
    forall i | 0 <= i < |free|
      ensures s.start <= free[i] < s.cur && Cell(s.mem, free[i], 0) == Link(free, i + 1)
      ensures i > 0 ==> free[i] != f
    {
      if i > 0 {
        assert free[i] == s.free[i - 1];
      }
    }
  }

  // A write that avoids the listed pages keeps the list.
  lemma StoreKeepsList(s: State, f: nat, i: nat, w: Word)
    requires PagesOk(s) && f !in s.free && i < 512
    ensures PagesOk(s.(mem := Store(s.mem, f, i, w)))
  {
    var mem1 := Store(s.mem, f, i, w);
    forall k | 0 <= k < |s.free|
      ensures Cell(mem1, s.free[k], 0) == Link(s.free, k + 1)
    {
      assert s.free[k] != f;
    }
  }

  // Only the links matter to the list.
  lemma SameListOk(s: State, t: State)
    requires PagesOk(s) && t == s.(mem := t.mem) && |t.mem| == |s.mem|
    requires forall i :: 0 <= i < |s.free| ==> SameFrame(s.mem, t.mem, s.free[i])
    ensures PagesOk(t)
  {
    forall i | 0 <= i < |s.free|
      ensures Cell(t.mem, s.free[i], 0) == Link(s.free, i + 1)
    {
      assert SameFrame(s.mem, t.mem, s.free[i]);
    }
  }

  // ---- Whole runs ----

  datatype PageOp = AllocOp | FreeOp(page: nat)

  // Executes ops from s; out is the set of pages handed out by this run and not yet returned.
  function RunPages(s: State, out: set<nat>, ops: seq<PageOp>): (State, set<nat>) {
    if ops == [] then (s, out)
    else
      var (s1, out1) := RunPages(s, out, ops[..|ops| - 1]);
      match ops[|ops| - 1]
      case AllocOp =>
        var (s2, p) := Alloc(s1);
        (s2, if p == 0 then out1 else out1 + {p})
      case FreeOp(p) => (Free(s1, p), out1 - {p})
  }

  // Every free returns a page that is out at that point.
  predicate FreesOnlyLive(s: State, out: set<nat>, ops: seq<PageOp>) {
    ops == [] ||
    var init, op := ops[..|ops| - 1], ops[|ops| - 1];
    FreesOnlyLive(s, out, init) && (op.FreeOp? ==> op.page in RunPages(s, out, init).1)
  }

  // Over every run that frees only live pages: the list stays well formed, the pages out are exactly
  // the live ones, and every page ever bumped is either out or on the list.
  lemma {:induction false} RunConserves(s: State, out: set<nat>, ops: seq<PageOp>)
    requires PagesOk(s) && out == LiveSet(s)
    requires FreesOnlyLive(s, out, ops)
    ensures var (t, o) := RunPages(s, out, ops);
            PagesOk(t) && o == LiveSet(t) && t.start == s.start && s.cur <= t.cur && |o| + |t.free| == t.cur - t.start
  {
    if ops == [] {
      CountPages(s);
    } else {
      var init := ops[..|ops| - 1];
      RunConserves(s, out, init);
      var (s1, out1) := RunPages(s, out, init);
      var (t, o) := RunPages(s, out, ops);
      match ops[|ops| - 1] {
        case AllocOp => AllocCorrect(s1);
        case FreeOp(p) => assert p in LiveSet(s1); FreeCorrect(s1, p);
      }
      forall f: nat
        ensures f in o <==> f in LiveSet(t)
      {
        assert f in LiveSet(s1) <==> Live(s1, f);
        assert f in LiveSet(t) <==> Live(t, f);
      }
      CountPages(t);
    }
  }

  lemma CountPages(s: State)
    requires PagesOk(s)
    ensures |LiveSet(s)| + |s.free| == s.cur - s.start
  {
    var listed, span := Elements(s.free), Span(s.start, s.cur);
    hide Elements, Span;
    forall f | f in listed
      ensures f in span
    {
      var i :| 0 <= i < |s.free| && s.free[i] == f;
    }
    assert LiveSet(s) == span - listed;
    assert |span - listed| == |span| - |listed|;
  }

  function Span(lo: nat, hi: nat): (r: set<nat>)
    requires lo <= hi
    ensures forall f :: f in r <==> lo <= f < hi
    ensures |r| == hi - lo
    decreases hi - lo
  {
    if lo == hi then {} else Span(lo, hi - 1) + {hi - 1}
  }

  function Elements(s: seq<Frame>): (r: set<nat>)
    requires forall i, j :: 0 <= i < j < |s| ==> s[i] != s[j]
    ensures forall f :: f in r <==> f in s
    ensures |r| == |s|
  {
    if s == [] then {} else
      var init := s[..|s| - 1];
      assert s == init + [s[|s| - 1]];
      Elements(init) + {s[|s| - 1]}
  }
}
