// What a process sees of its image: sys_execve in any booted state, the starting state among them, with
// conditions on the image, the layout and the free memory alone.
module FirstRun {
  import opened Words
  import opened Pmm
  import opened PageTables
  import opened LowPages
  import opened AddressSpaces
  import opened Placing
  import opened Loader
  import opened Lifecycle
  import opened Survival
  import opened Boot
  import opened Residue

  // One page for the root, four for the stack page and its tables, four for each image page and its tables.
  function Needs(segs: seq<Segment>): nat { 4 * TotalPages(segs) + 5 }

  lemma CloneTakesOne(k: Kernel)
    requires KernelOk(k) && Avail(k.vm.pm) > 1
    ensures var (vm1, c) := Clone(k.vm, k.cr3); c != 0 && Avail(vm1.pm) == Avail(k.vm.pm) - 1
  {
    CloneCorrect(k.vm, k.cr3);
  }

  lemma LoadThenStackDone(k: Kernel, c: nat, image: Image, segs: seq<Segment>)
    requires KernelOk(k) && IsRoot(k.vm, c) && Loadable(k.vm, c, image, segs) && Clear(k.vm.pm.mem, c, STACK_VPN)
    requires Avail(k.vm.pm) > 4 * TotalPages(segs) + 4
    ensures var (k2, ok) := LoadSegments(k, c, image, segs);
            var (k3, ok3) := Place(k2, c, StackPage());
            && LoadDone(k, c, image, segs) && PlaceDone(k2, c, StackPage()) && ok && ok3
            && Avail(k3.vm.pm) >= Avail(k.vm.pm) - 4 * TotalPages(segs) - 4
  {
    hide LoadSegments, LoadDone, PlaceDone, Place, TablesOk, Walk, Kept, AllLoaded, Loadable;
    LoadableParts(k.vm, c, image, segs);
    LoadSegmentsResult(k, c, image, segs);
    LoadSegmentsKept(k, c, image, segs);
    var k2 := LoadSegments(k, c, image, segs).0;
    KeptClear(k, c, k2, STACK_VPN);
    PlaceCorrect(k2, c, StackPage());
  }

  // With that many pages free memory lasts.
  lemma ExecLasts(k: Kernel, image: Image, segs: seq<Segment>)
    requires KernelOk(k) && ExecLegal(k, image, segs) && Loadable(k.vm, k.cr3, image, segs)
    requires Avail(k.vm.pm) > Needs(segs)
    ensures ExecDone(k, image, segs)
  {
    hide Loadable, KernelOk;
    var k0 := k.(proc := k.proc.(brkStart := 0, brkCurr := 0));
    FreshKernel(k);
    CloneTakesOne(k0);
    CloneIsRoot(k0, image, segs);
    var (vm1, c) := Clone(k0.vm, k0.cr3);
    LoadThenStackDone(k0.(vm := vm1), c, image, segs);
  }

  // Then sys_execve succeeds and leaves the rest.
  lemma ExecSucceeds(k: Kernel, image: Image, segs: seq<Segment>)
    requires KernelOk(k) && ExecLegal(k, image, segs) && Loadable(k.vm, k.cr3, image, segs)
    requires Avail(k.vm.pm) > Needs(segs)
    ensures ExecDone(k, image, segs) && Exec(k, image, segs).1
    ensures Avail(Exec(k, image, segs).0.vm.pm) >= Avail(k.vm.pm) - Needs(segs)
  {
    hide Loadable, KernelOk, LoadSegments, LoadDone, Place, PlaceDone, Clone;
    ExecLasts(k, image, segs);
    var k0 := k.(proc := k.proc.(brkStart := 0, brkCurr := 0));
    FreshKernel(k);
    CloneTakesOne(k0);
    CloneIsRoot(k0, image, segs);
    var (vm1, c) := Clone(k0.vm, k0.cr3);
    LoadThenStackDone(k0.(vm := vm1), c, image, segs);
  }

  // ---- Images ----

  // An image that keeps off the stack page and its own other pages and whose pages the layout frees; low
  // pages are pages of the kernel image.
  ghost predicate Startable(start: Bump, pml4: Frame, pdpt: Frame, image: Image, segs: seq<Segment>) {
    && (forall i :: 0 <= i < |segs| ==> SegStartable(start, pml4, pdpt, image, segs[i]))
    && (forall i, j :: 0 <= i < j < |segs| ==> SegApart(segs[i], segs[j]))
  }

  ghost predicate SegStartable(start: Bump, pml4: Frame, pdpt: Frame, image: Image, seg: Segment) {
    && SegOk(image, seg) && StackApart(seg)
    && forall v: nat :: InSeg(seg, v) ==> PageFree(start, pml4, pdpt, v) && (v < BOOT_LIMIT ==> v < start)
  }

  lemma StartableFree(start: Bump, pml4: Frame, pdpt: Frame, image: Image, segs: seq<Segment>)
    requires Startable(start, pml4, pdpt, image, segs)
    ensures SegsFree(start, pml4, pdpt, image, segs) && forall i :: 0 <= i < |segs| ==> StackApart(segs[i])
  {
    hide PageFree, SegOk, StackApart;
    forall seg | seg in segs
      ensures SegOk(image, seg) && forall v: nat :: InSeg(seg, v) ==> PageFree(start, pml4, pdpt, v)
    {
      var i :| 0 <= i < |segs| && segs[i] == seg;
      assert SegStartable(start, pml4, pdpt, image, segs[i]);
    }
    forall i | 0 <= i < |segs|
      ensures StackApart(segs[i])
    {
      assert SegStartable(start, pml4, pdpt, image, segs[i]);
    }
  }

  lemma StartableLoads(k: Kernel, start: Bump, pml4: Frame, pdpt: Frame, image: Image, segs: seq<Segment>)
    requires Booted(k, start, pml4, pdpt) && Startable(start, pml4, pdpt, image, segs)
    ensures ExecLegal(k, image, segs) && Loadable(k.vm, k.cr3, image, segs)
    ensures forall i :: 0 <= i < |segs| ==> StackApart(segs[i])
  {
    hide PageFree, SegOk, StackApart, Booted, Mappable;
    StartableFree(start, pml4, pdpt, image, segs);
    ExecLegalExactly(k, start, pml4, pdpt, image, segs);
    forall i | 0 <= i < |segs|
      ensures SegOk(image, segs[i]) && SegMappable(k.vm, k.cr3, segs[i])
    {
      assert segs[i] in segs;
    }
  }

  // A segment above the boot page directory's reach is one no entry stops the walk to.
  lemma HighClear(k: Kernel, start: Bump, pml4: Frame, pdpt: Frame, image: Image, seg: Segment)
    requires Booted(k, start, pml4, pdpt) && SegOk(image, seg) && FirstPage(seg) >= BOOT_LIMIT
    ensures SegClear(k.vm.pm.mem, k.cr3, seg)
  {
    hide Walk, KernelOk;
    KernelTables(k);
    PagesInRange(image, seg);
    assert RootBooted(k.vm, k.cr3);
    forall v: nat | InSeg(seg, v)
      ensures Clear(k.vm.pm.mem, k.cr3, v)
    {
      assert StopsBelow(k.vm.pm.mem, k.cr3, v);
    }
  }

  lemma SegStartableAt(start: Bump, pml4: Frame, pdpt: Frame, image: Image, segs: seq<Segment>, i: nat)
    requires Startable(start, pml4, pdpt, image, segs) && i < |segs|
    ensures SegStartable(start, pml4, pdpt, image, segs[i]) && SegOk(image, segs[i])
  {
  }

  // What sys_execve does in a booted state with an image the layout allows and memory suffices for.
  lemma StartedExec(k: Kernel, start: Bump, pml4: Frame, pdpt: Frame, image: Image, segs: seq<Segment>)
    requires Booted(k, start, pml4, pdpt) && Startable(start, pml4, pdpt, image, segs) && Avail(k.vm.pm) > Needs(segs)
    ensures KernelOk(k) && ExecLegal(k, image, segs) && Loadable(k.vm, k.cr3, image, segs) && ExecDone(k, image, segs)
    ensures forall i :: 0 <= i < |segs| ==> StackApart(segs[i])
    ensures Booted(Exec(k, image, segs).0, start, pml4, pdpt)
  {
    hide *;
    BootedKernel(k, start, pml4, pdpt);
    StartableLoads(k, start, pml4, pdpt, image, segs);
    ExecLasts(k, image, segs);
    BootedExec(k, start, pml4, pdpt, image, segs);
  }

  lemma BootedKernel(k: Kernel, start: Bump, pml4: Frame, pdpt: Frame)
    requires Booted(k, start, pml4, pdpt)
    ensures KernelOk(k)
  {
  }

  // There, sys_execve succeeds and every byte of every segment above 1 GiB reads back through the process's
  // root as the file says.
  lemma ImageReads(
    k: Kernel, start: Bump, pml4: Frame, pdpt: Frame, image: Image, segs: seq<Segment>, i: nat, b: nat)
    requires Booted(k, start, pml4, pdpt) && Startable(start, pml4, pdpt, image, segs) && Avail(k.vm.pm) > Needs(segs)
    requires i < |segs| && b < segs[i].memsz && FirstPage(segs[i]) >= BOOT_LIMIT
    ensures var (k1, ok) := Exec(k, image, segs);
            var a := GetPhys(k1.vm.pm.mem, k1.proc.pml4, segs[i].vaddr + b);
            && ok && a != 0
            && ByteAt(k1.vm.pm.mem, a) == if b < segs[i].filesz then image[segs[i].offset + b] else 0
  {
    hide *;
    StartedExec(k, start, pml4, pdpt, image, segs);
    SegStartableAt(start, pml4, pdpt, image, segs, i);
    HighClear(k, start, pml4, pdpt, image, segs[i]);
    ExecHolds(k, image, segs);
    ExecOk(k, image, segs);
    var k1 := Exec(k, image, segs).0;
    HeldSegment(k, k1, image, segs, i);
    LoadedByte(k1.vm, k1.proc.pml4, image, segs[i], b);
  }

  lemma HeldSegment(k0: Kernel, k: Kernel, image: Image, segs: seq<Segment>, i: nat)
    requires ImageHeld(k0, k, k.proc.pml4, image, segs) && i < |segs| && SegClear(k0.vm.pm.mem, k0.cr3, segs[i])
    requires KernelOk(k) && k.proc.pml4 != 0
    ensures SegOk(image, segs[i]) && Loaded(k.vm, k.proc.pml4, image, segs[i]) && TablesOk(k.vm)
    ensures k.proc.pml4 < NO_TABLE
  {
    assert SegHeld(k0, k, k.proc.pml4, image, segs[i]);
    assert k.proc.pml4 in k.vm.roles;
  }

  // ---- What the processor sees ----

  // The processor, using the process's root, finds byte b of the segment in a page that was handed out.
  ghost predicate Sees(k: Kernel, image: Image, seg: Segment, b: nat)
    requires seg.offset + seg.filesz <= |image|
  {
    var a := Translate(k.vm.pm.mem, k.proc.pml4, 4, seg.vaddr + b);
    a >= 0 && Live(k.vm.pm, a / 4096) && ByteAt(k.vm.pm.mem, a) == if b < seg.filesz then image[seg.offset + b] else 0
  }

  lemma HighSees(k: Kernel, image: Image, seg: Segment, b: nat)
    requires TablesOk(k.vm) && SegOk(image, seg) && b < seg.memsz && Loaded(k.vm, k.proc.pml4, image, seg)
    requires k.proc.pml4 < NO_TABLE
    ensures Sees(k, image, seg, b)
  {
    hide *;
    var mem, root, virt := k.vm.pm.mem, k.proc.pml4, seg.vaddr + b;
    SeenPage(k, image, seg, b);
    LoadedByte(k.vm, root, image, seg, b);
    GetPhysWalk(mem, root, virt);
    TranslateWalk(mem, root, 4, virt);
    FrameAddress(FrameOf(Walk(mem, root, 4, virt / 4096).entry), virt % 4096);
    SeesAt(k, image, seg, b, GetPhys(mem, root, virt));
  }

  lemma FrameAddress(f: nat, o: nat)
    requires o < 4096
    ensures (f * 4096 + o) / 4096 == f
  {
  }

  lemma SeesAt(k: Kernel, image: Image, seg: Segment, b: nat, a: nat)
    requires seg.offset + seg.filesz <= |image| && Translate(k.vm.pm.mem, k.proc.pml4, 4, seg.vaddr + b) == a
    requires Live(k.vm.pm, a / 4096) && ByteAt(k.vm.pm.mem, a) == if b < seg.filesz then image[seg.offset + b] else 0
    ensures Sees(k, image, seg, b)
  {
  }

  lemma SeenPage(k: Kernel, image: Image, seg: Segment, b: nat)
    requires SegOk(image, seg) && b < seg.memsz && Loaded(k.vm, k.proc.pml4, image, seg)
    ensures seg.offset + seg.filesz <= |image|
    ensures var x := Walk(k.vm.pm.mem, k.proc.pml4, 4, (seg.vaddr + b) / 4096);
            x.Page? && Live(k.vm.pm, FrameOf(x.entry))
  {
    var q := Delta(seg) + b;
    assert (seg.vaddr + b) / 4096 == FirstPage(seg) + q / 4096;
    assert Holds(k.vm, k.proc.pml4, SegPage(image, seg, q / 4096));
  }

  // A low page of the kernel image is translated to itself.
  lemma LowUnseen(k: Kernel, start: Bump, pml4: Frame, pdpt: Frame, image: Image, seg: Segment, b: nat)
    requires Booted(k, start, pml4, pdpt) && k.proc.pml4 != 0 && SegOk(image, seg)
    requires var v := (seg.vaddr + b) / 4096; v < LOW_LIMIT && v < start
    ensures Translate(k.vm.pm.mem, k.proc.pml4, 4, seg.vaddr + b) == seg.vaddr + b && !Sees(k, image, seg, b)
  {
    hide Walk, KernelOk, IdentityRoot;
    KernelTables(k);
    assert RootBooted(k.vm, k.proc.pml4);
    LowTranslate(k.vm.pm.mem, k.proc.pml4, seg.vaddr + b);
  }

  lemma BytePage(seg: Segment, b: nat)
    requires b < seg.memsz
    ensures InSeg(seg, (seg.vaddr + b) / 4096) && NumPages(seg) > 0
  {
    var q := Delta(seg) + b;
    assert (seg.vaddr + b) / 4096 == FirstPage(seg) + q / 4096;
  }

  // Exactly: the process sees a byte of its image if and only if the byte's page lies above the boot page
  // directory's reach. Below, the address is its own translation: a byte of the kernel image.
  lemma ByteSeenExactly(
    k: Kernel, start: Bump, pml4: Frame, pdpt: Frame, image: Image, segs: seq<Segment>, i: nat, b: nat)
    requires Booted(k, start, pml4, pdpt) && Startable(start, pml4, pdpt, image, segs) && Avail(k.vm.pm) > Needs(segs)
    requires i < |segs| && b < segs[i].memsz
    ensures var (k1, ok) := Exec(k, image, segs);
            var virt := segs[i].vaddr + b;
            && ok && SegOk(image, segs[i])
            && (Sees(k1, image, segs[i], b) <==> virt / 4096 >= BOOT_LIMIT)
            && (virt / 4096 < BOOT_LIMIT ==> Translate(k1.vm.pm.mem, k1.proc.pml4, 4, virt) == virt)
  {
    hide *;
    StartedExec(k, start, pml4, pdpt, image, segs);
    ExecHolds(k, image, segs);
    ExecOk(k, image, segs);
    var k1 := Exec(k, image, segs).0;
    SegStartableAt(start, pml4, pdpt, image, segs, i);
    BytePage(segs[i], b);
    SegmentSide(start, pml4, pdpt, image, segs[i], (segs[i].vaddr + b) / 4096);
    if (segs[i].vaddr + b) / 4096 >= BOOT_LIMIT {
      HighClear(k, start, pml4, pdpt, image, segs[i]);
      HeldSegment(k, k1, image, segs, i);
      HighSees(k1, image, segs[i], b);
    } else {
      LowUnseen(k1, start, pml4, pdpt, image, segs[i], b);
    }
  }

  // A startable segment lies entirely above the boot page directory's reach, or entirely low.
  lemma SegmentSide(start: Bump, pml4: Frame, pdpt: Frame, image: Image, seg: Segment, v: nat)
    requires SegStartable(start, pml4, pdpt, image, seg) && InSeg(seg, v)
    ensures if v >= BOOT_LIMIT then FirstPage(seg) >= BOOT_LIMIT else v < LOW_LIMIT && v < start
    ensures SegOk(image, seg) && seg.offset + seg.filesz <= |image|
  {
    assert PageFree(start, pml4, pdpt, v);
    assert InSeg(seg, LOW_LIMIT) ==> PageFree(start, pml4, pdpt, LOW_LIMIT);
    assert InSeg(seg, FirstPage(seg));
    assert PageFree(start, pml4, pdpt, FirstPage(seg));
  }

  // Exactly: the whole image is seen if and only if every segment lies above 1 GiB.
  lemma ImageSeenExactly(k: Kernel, start: Bump, pml4: Frame, pdpt: Frame, image: Image, segs: seq<Segment>)
    requires Booted(k, start, pml4, pdpt) && Startable(start, pml4, pdpt, image, segs) && Avail(k.vm.pm) > Needs(segs)
    ensures SeesImage(Exec(k, image, segs).0, image, segs) <==>
            forall i :: 0 <= i < |segs| && segs[i].memsz > 0 ==> FirstPage(segs[i]) >= BOOT_LIMIT
  {
    hide *;
    var k1 := Exec(k, image, segs).0;
    forall i, b: nat | 0 <= i < |segs| && b < segs[i].memsz
      ensures SeesByte(k1, image, segs[i], b) <==> FirstPage(segs[i]) >= BOOT_LIMIT
    {
      ByteSeenExactly(k, start, pml4, pdpt, image, segs, i, b);
      SeesIs(k1, image, segs[i], b);
      SegStartableAt(start, pml4, pdpt, image, segs, i);
      BytePage(segs[i], b);
      SegmentSide(start, pml4, pdpt, image, segs[i], (segs[i].vaddr + b) / 4096);
      FirstPageBelow(segs[i], b);
    }
    SeesImageIs(k1, image, segs);
    forall i | 0 <= i < |segs| && segs[i].memsz > 0 && FirstPage(segs[i]) < BOOT_LIMIT
      ensures !SeesByte(k1, image, segs[i], 0)
    {
    }
  }

  // The process sees its image whole.
  ghost predicate SeesImage(k: Kernel, image: Image, segs: seq<Segment>) {
    forall i, b: nat :: 0 <= i < |segs| && b < segs[i].memsz ==> SeesByte(k, image, segs[i], b)
  }

  lemma SeesImageIs(k: Kernel, image: Image, segs: seq<Segment>)
    ensures SeesImage(k, image, segs) <==>
            forall i, b: nat :: 0 <= i < |segs| && b < segs[i].memsz ==> SeesByte(k, image, segs[i], b)
  {
  }

  ghost predicate SeesByte(k: Kernel, image: Image, seg: Segment, b: nat) {
    seg.offset + seg.filesz <= |image| && Sees(k, image, seg, b)
  }

  lemma SeesIs(k: Kernel, image: Image, seg: Segment, b: nat)
    requires SegOk(image, seg)
    ensures SeesByte(k, image, seg, b) <==> Sees(k, image, seg, b)
  {
  }

  lemma FirstPageBelow(seg: Segment, b: nat)
    ensures FirstPage(seg) <= (seg.vaddr + b) / 4096
  {
  }

  // The repository's own user programs are linked at 4 MiB (linker_user.ld:4). When the kernel image reaches past
  // such a program, with no table or variable where its blocks start, exec succeeds in every booted state and the
  // processor does not see one byte of it.
  lemma UserProgramUnseen(
    k: Kernel, start: Bump, pml4: Frame, pdpt: Frame, image: Image, segs: seq<Segment>, i: nat, b: nat)
    requires Booted(k, start, pml4, pdpt) && Avail(k.vm.pm) > Needs(segs)
    requires forall j :: 0 <= j < |segs| ==> SegOk(image, segs[j]) && InUserRange(start, segs[j])
    requires forall j, l :: 0 <= j < l < |segs| ==> SegApart(segs[j], segs[l])
    requires forall j, v: nat :: 0 <= j < |segs| && InSeg(segs[j], v) ==>
               Block(v) !in {pml4, pdpt, BOOT_PD} && Block(v) !in VARIABLES
    requires i < |segs| && b < segs[i].memsz
    ensures var (k1, ok) := Exec(k, image, segs);
            var virt := segs[i].vaddr + b;
            && ok && SegOk(image, segs[i]) && !Sees(k1, image, segs[i], b)
            && Translate(k1.vm.pm.mem, k1.proc.pml4, 4, virt) == virt
  {
    hide Walk, Translate, Exec, Booted, SegOk;
    forall j | 0 <= j < |segs|
      ensures SegStartable(start, pml4, pdpt, image, segs[j])
    {
      UserStartable(start, pml4, pdpt, image, segs[j]);
    }
    ByteSeenExactly(k, start, pml4, pdpt, image, segs, i, b);
  }

  // Between 4 MiB and the end of the kernel image.
  predicate InUserRange(start: Bump, seg: Segment) {
    0x40_0000 <= seg.vaddr && seg.vaddr + seg.memsz <= 4096 * start
  }

  lemma UserStartable(start: Bump, pml4: Frame, pdpt: Frame, image: Image, seg: Segment)
    requires SegOk(image, seg) && InUserRange(start, seg)
    requires forall v: nat :: InSeg(seg, v) ==> Block(v) !in {pml4, pdpt, BOOT_PD} && Block(v) !in VARIABLES
    ensures SegStartable(start, pml4, pdpt, image, seg)
  {
    forall v: nat | InSeg(seg, v)
      ensures PageFree(start, pml4, pdpt, v) && v < start
    {
      assert 0x400 <= v < start;
      assert Block(v) <= v;
    }
  }

  // ---- After exit ----

  // Run such an image from the kernel's own root and exit. Of the image's high pages the kernel's root still
  // translates exactly those whose slot was present before, and to pages no longer live.
  lemma ImageExitForgetsExactly(
    k: Kernel, start: Bump, pml4: Frame, pdpt: Frame, image: Image, segs: seq<Segment>, i: nat, v: nat)
    requires Booted(k, start, pml4, pdpt) && Startable(start, pml4, pdpt, image, segs) && Avail(k.vm.pm) > Needs(segs)
    requires k.cr3 == pml4 && |k.proc.ledger| + TotalPages(segs) + 1 <= LEDGER_MAX
    requires i < |segs| && InSeg(segs[i], v) && FirstPage(segs[i]) >= BOOT_LIMIT
    ensures var k3 := Exit(EnterUser(Exec(k, image, segs).0));
            var x := Walk(k3.vm.pm.mem, k3.cr3, 4, v);
            && (x == Absent <==> !Present(Cell(k.vm.pm.mem, pml4, Idx(v, 4))))
            && (x != Absent ==> x.Page? && !Live(k3.vm.pm, FrameOf(x.entry)))
  {
    hide *;
    StartedExec(k, start, pml4, pdpt, image, segs);
    SegStartableAt(start, pml4, pdpt, image, segs, i);
    HighClear(k, start, pml4, pdpt, image, segs[i]);
    KernelRoot(k, start, pml4, pdpt);
    ExitForgetsExactly(k, image, segs, i, v);
  }

  lemma KernelRoot(k: Kernel, start: Bump, pml4: Frame, pdpt: Frame)
    requires Booted(k, start, pml4, pdpt)
    ensures k.kernelRoot == pml4
  {
  }

  // While such a program exits, its root, if the ledger had room for it, loses every low page it translated.
  lemma ImageExitRoot(k: Kernel, start: Bump, pml4: Frame, pdpt: Frame, image: Image, segs: seq<Segment>, v: nat)
    requires Booted(k, start, pml4, pdpt) && Startable(start, pml4, pdpt, image, segs) && Avail(k.vm.pm) > Needs(segs)
    requires |k.proc.ledger| + TotalPages(segs) + 1 < 256 && v < LOW_LIMIT
    ensures var k1 := EnterUser(Exec(k, image, segs).0);
            && k1.cr3 in k1.proc.ledger
            && Walk(k1.vm.pm.mem, k1.cr3, 4, v).Opaque?
            && Walk(ReleaseAll(k1.vm, k1.proc.ledger).pm.mem, k1.cr3, 4, v) == Absent
  {
    hide *;
    StartedExec(k, start, pml4, pdpt, image, segs);
    ExecHolds(k, image, segs);
    ExecOk(k, image, segs);
    RootRecordedExactly(k, image, segs);
    var k1 := Exec(k, image, segs).0;
    EnterKeeps(k1);
    LowIndices(v) by { LowIs(); }
    LowOpaque(k1, start, pml4, pdpt, v);
    ReleasedRootLosesSlotZero(EnterUser(k1), v);
  }

  lemma LowIs()
    ensures LOW_LIMIT == 0x8000
  {
  }

  lemma LowOpaque(k: Kernel, start: Bump, pml4: Frame, pdpt: Frame, v: nat)
    requires Booted(k, start, pml4, pdpt) && k.proc.pml4 != 0 && v < LOW_LIMIT
    ensures Walk(k.vm.pm.mem, k.proc.pml4, 4, v).Opaque?
  {
    KernelTables(k);
    assert RootBooted(k.vm, k.proc.pml4);
    assert StopsBelow(k.vm.pm.mem, k.proc.pml4, v);
  }

  // ---- From the starting state ----

  // After any legal run from the starting state, none at all included: whatever ran before, a process started
  // next sees its image whole if and only if it lies above 1 GiB.
  lemma ReachableSeenExactly(
    mem: Memory, start: Bump, pml4: Frame, pdpt: Frame, ops: seq<ProcOp>, image: Image, segs: seq<Segment>)
    requires BootLayout(mem, start, pml4, pdpt) && IdentityMap(mem, pml4, pdpt)
    requires BootLegalRun(BootKernel(mem, start, pml4, pdpt), start, pml4, pdpt, ops)
    requires var k := ProcRun(BootKernel(mem, start, pml4, pdpt), ops); Avail(k.vm.pm) > Needs(segs)
    requires Startable(start, pml4, pdpt, image, segs)
    ensures var k := ProcRun(BootKernel(mem, start, pml4, pdpt), ops);
            SeesImage(Exec(k, image, segs).0, image, segs) <==>
            forall i :: 0 <= i < |segs| && segs[i].memsz > 0 ==> FirstPage(segs[i]) >= BOOT_LIMIT
  {
    hide *;
    BootOk(mem, start, pml4, pdpt);
    BootRun(BootKernel(mem, start, pml4, pdpt), start, pml4, pdpt, ops);
    ImageSeenExactly(ProcRun(BootKernel(mem, start, pml4, pdpt), ops), start, pml4, pdpt, image, segs);
  }

  lemma BootMemory(mem: Memory, start: Bump, pml4: Frame, pdpt: Frame)
    ensures var k := BootKernel(mem, start, pml4, pdpt);
            && Avail(k.vm.pm) == FRAMES - start && k.cr3 == k.kernelRoot == pml4 && k.proc.ledger == []
            && k.vm.pm.mem == mem
  {
  }

  // The first process: every byte of every segment above 1 GiB reads back.
  lemma FirstImageReads(
    mem: Memory, start: Bump, pml4: Frame, pdpt: Frame, image: Image, segs: seq<Segment>, i: nat, b: nat)
    requires BootLayout(mem, start, pml4, pdpt) && IdentityMap(mem, pml4, pdpt)
    requires Startable(start, pml4, pdpt, image, segs) && FRAMES - start > Needs(segs)
    requires i < |segs| && b < segs[i].memsz && FirstPage(segs[i]) >= BOOT_LIMIT
    ensures var (k, ok) := Exec(BootKernel(mem, start, pml4, pdpt), image, segs);
            var a := GetPhys(k.vm.pm.mem, k.proc.pml4, segs[i].vaddr + b);
            && ok && a != 0
            && ByteAt(k.vm.pm.mem, a) == if b < segs[i].filesz then image[segs[i].offset + b] else 0
  {
    hide *;
    BootOk(mem, start, pml4, pdpt);
    BootMemory(mem, start, pml4, pdpt);
    ImageReads(BootKernel(mem, start, pml4, pdpt), start, pml4, pdpt, image, segs, i, b);
  }

  // After the first process exits, the kernel's root still translates its high pages in slot 0, and no others.
  lemma FirstExitForgetsExactly(
    mem: Memory, start: Bump, pml4: Frame, pdpt: Frame, image: Image, segs: seq<Segment>, i: nat, v: nat)
    requires BootLayout(mem, start, pml4, pdpt) && IdentityMap(mem, pml4, pdpt)
    requires Startable(start, pml4, pdpt, image, segs) && FRAMES - start > Needs(segs)
    requires TotalPages(segs) + 1 <= LEDGER_MAX
    requires i < |segs| && InSeg(segs[i], v) && FirstPage(segs[i]) >= BOOT_LIMIT
    ensures var k := Exit(EnterUser(Exec(BootKernel(mem, start, pml4, pdpt), image, segs).0));
            var x := Walk(k.vm.pm.mem, k.cr3, 4, v);
            && (x == Absent <==> Idx(v, 4) != 0)
            && (x != Absent ==> x.Page? && !Live(k.vm.pm, FrameOf(x.entry)))
  {
    hide *;
    BootOk(mem, start, pml4, pdpt);
    BootMemory(mem, start, pml4, pdpt);
    BootRoot(mem, pml4, pdpt, v);
    ImageExitForgetsExactly(BootKernel(mem, start, pml4, pdpt), start, pml4, pdpt, image, segs, i, v);
  }

  lemma BootRoot(mem: Memory, pml4: Frame, pdpt: Frame, v: nat)
    requires IdentityMap(mem, pml4, pdpt)
    ensures Present(Cell(mem, pml4, Idx(v, 4))) <==> Idx(v, 4) == 0
  {
  }
}
