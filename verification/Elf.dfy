// elf_inspect: collecting the PT_LOAD headers of an image (System V gABI, chapters 4 and 5).
module Elf {
  import opened Words
  import opened Loader
  import opened CStrings

  const EHDR_SIZE := 64
  const PHDR_SIZE := 56
  const ELF_MAGIC := 0x464C457F
  const PT_LOAD := 1

  // n bytes at a, lowest first.
  function Le(image: Image, a: nat, n: nat): nat
    decreases n
  {
    if n == 0 then 0 else ImageByte(image, a) + 256 * Le(image, a + 1, n - 1)
  }

  lemma LeFits(image: Image, a: nat, n: nat)
    ensures Le(image, a, n) < Scale(n)
    decreases n
  {
    if n > 0 { LeFits(image, a + 1, n - 1); }
  }

  function Le64(image: Image, a: nat): Word {
    LeFits(image, a, 8);
    WordScale();
    Le(image, a, 8)
  }

  function Entry(image: Image): Word { Le64(image, 24) }
  function Phoff(image: Image): Word { Le64(image, 32) }
  function Phentsize(image: Image): nat { Le(image, 54, 2) }
  function Phnum(image: Image): nat { Le(image, 56, 2) }

  // off + i * s, as a walk of i rows.
  function Row(off: nat, i: nat, s: nat): nat {
    if i == 0 then off else Row(off, i - 1, s) + s
  }

  // Where the header table ends.
  function TableEnd(image: Image): nat { Row(Phoff(image), Phnum(image), Phentsize(image)) }

  function PhdrAt(image: Image, i: nat): nat { Row(Phoff(image), i, Phentsize(image)) }

  // The size, magic and table checks; the table sum wraps at 64 bits.
  predicate HeaderOk(image: Image) {
    && |image| >= EHDR_SIZE
    && Le(image, 0, 4) == ELF_MAGIC
    && TableEnd(image) % 0x1_0000_0000_0000_0000 <= |image|
  }

  predicate IsLoad(image: Image, i: nat) { Le(image, PhdrAt(image, i), 4) == PT_LOAD }

  function SegmentAt(image: Image, i: nat): Segment {
    var a := PhdrAt(image, i);
    Segment(Le64(image, a + 16), Le64(image, a + 40), Le64(image, a + 32), Le64(image, a + 8), Le(image, a + 4, 4))
  }

  // The range check of one header; this sum wraps too.
  predicate InRange(image: Image, seg: Segment) {
    (seg.offset + seg.filesz) % 0x1_0000_0000_0000_0000 <= |image|
  }

  // The PT_LOAD segments among the first n headers, in table order.
  function Loads(image: Image, n: nat): seq<Segment> {
    if n == 0 then []
    else if IsLoad(image, n - 1) then Loads(image, n - 1) + [SegmentAt(image, n - 1)]
    else Loads(image, n - 1)
  }

  // Accepted images: a good header and every load segment in range.
  predicate Accepts(image: Image) {
    HeaderOk(image) && forall seg :: seg in Loads(image, Phnum(image)) ==> InRange(image, seg)
  }

  // The reads elf_inspect makes stay inside the image.
  predicate HeadersInside(image: Image) {
    forall i :: 0 <= i < Phnum(image) ==> PhdrAt(image, i) + PHDR_SIZE <= |image|
  }

  // For full-size header entries the table check keeps every read inside exactly when its sum does not
  // wrap.
  lemma HeadersInsideExactly(image: Image)
    requires HeaderOk(image) && |image| <= 0xFFFF_FFFF_0000_0000 && Phentsize(image) >= PHDR_SIZE
    ensures HeadersInside(image) <==> Phnum(image) == 0 || TableEnd(image) < 0x1_0000_0000_0000_0000
  {
    hide Le, Le64;
    var n, s, off := Phnum(image), Phentsize(image), Phoff(image);
    LeFits(image, 54, 2);
    LeFits(image, 56, 2);
    assert Scale(2) == 0x1_0000;
    RowBound(off, n, s);
    if n > 0 && TableEnd(image) < 0x1_0000_0000_0000_0000 {
      forall i | 0 <= i < n
        ensures PhdrAt(image, i) + PHDR_SIZE <= |image|
      {
        RowBelow(off, i, n, s);
      }
    } else if n > 0 {
      assert PhdrAt(image, 0) == off;
    }
  }

  lemma {:induction false} RowBound(off: nat, n: nat, s: nat)
    requires s < 0x1_0000
    ensures off <= Row(off, n, s) <= off + 0xFFFF * n
  {
    if n > 0 { RowBound(off, n - 1, s); }
  }

  lemma {:induction false} RowBelow(off: nat, i: nat, n: nat, s: nat)
    requires i < n
    ensures Row(off, i, s) + s <= Row(off, n, s)
  {
    if i + 1 < n { RowBelow(off, i, n - 1, s); }
  }

  lemma {:induction false} RowIs(off: nat, i: nat, s: nat)
    ensures Row(off, i, s) == off + i * s
  {
    if i > 0 { RowIs(off, i - 1, s); }
  }

  // An accepted segment lies inside the image exactly when its range does not wrap.
  lemma AcceptedInside(image: Image, seg: Segment)
    requires Accepts(image) && seg in Loads(image, Phnum(image))
    requires |image| < 0x1_0000_0000_0000_0000
    ensures seg.offset + seg.filesz <= |image| <==> seg.offset + seg.filesz < 0x1_0000_0000_0000_0000
  {
    hide Le, Le64, HeaderOk, Loads;
    assert InRange(image, seg);
  }

  // An accepted image with full-size header entries is read, and its segments lie, inside its bytes if and only
  // if neither the table's end nor any segment's wraps.
  lemma AcceptedImageExactly(image: Image)
    requires Accepts(image) && |image| <= 0xFFFF_FFFF_0000_0000 && Phentsize(image) >= PHDR_SIZE
    ensures HeadersInside(image) && SegmentsInside(image) <==>
            && (Phnum(image) == 0 || TableEnd(image) < 0x1_0000_0000_0000_0000)
            && forall seg :: seg in Loads(image, Phnum(image)) ==> seg.offset + seg.filesz < 0x1_0000_0000_0000_0000
  {
    hide HeadersInside, Le, Loads, Phnum, TableEnd, Accepts;
    AcceptsHeader(image);
    HeadersInsideExactly(image);
    forall seg | seg in Loads(image, Phnum(image))
      ensures seg.offset + seg.filesz <= |image| <==> seg.offset + seg.filesz < 0x1_0000_0000_0000_0000
    {
      AcceptedInside(image, seg);
    }
  }

  predicate SegmentsInside(image: Image) {
    forall seg :: seg in Loads(image, Phnum(image)) ==> seg.offset + seg.filesz <= |image|
  }

  lemma AcceptsHeader(image: Image)
    requires Accepts(image)
    ensures HeaderOk(image)
  {
  }

  lemma {:induction false} LoadsPrefix(image: Image, n: nat, m: nat)
    requires n <= m
    ensures Loads(image, n) <= Loads(image, m)
    decreases m - n
  {
    if n < m {
      LoadsPrefix(image, n, m - 1);
      assert Loads(image, m - 1) <= Loads(image, m);
    }
  }

  // A header is collected exactly when it is a PT_LOAD header.
  lemma {:induction false} LoadsComplete(image: Image, n: nat, seg: Segment)
    ensures seg in Loads(image, n) <==> exists i :: 0 <= i < n && IsLoad(image, i) && seg == SegmentAt(image, i)
  {
    hide Le, Le64, SegmentAt;
    if n == 0 {
    } else {
      LoadsComplete(image, n - 1, seg);
      if seg in Loads(image, n) && seg !in Loads(image, n - 1) {
        assert IsLoad(image, n - 1) && seg == SegmentAt(image, n - 1);
      }
    }
  }

  // The number of load segments, or -1; as many as fit are stored.
  method Inspect(image: Image, segs: array<Segment>) returns (count: int, entry: Word)
    requires |image| < 0x1_0000_0000_0000_0000 && (HeaderOk(image) ==> HeadersInside(image))
    modifies segs
    ensures count == if Accepts(image) then |Loads(image, Phnum(image))| else -1
    ensures Accepts(image) ==> entry == Entry(image)
    ensures Accepts(image) ==>
              var n := Min(count, segs.Length);
              segs[..n] == Loads(image, Phnum(image))[..n] && segs[n..] == old(segs[n..])
  {
    hide Le, Le64, Loads, IsLoad, SegmentAt, HeadersInside;
    entry := 0;
    if |image| < EHDR_SIZE { return -1, 0; }
    if Le(image, 0, 4) != ELF_MAGIC { return -1, 0; }
    RowIs(Phoff(image), Phnum(image), Phentsize(image));
    if (Phoff(image) + Phnum(image) * Phentsize(image)) % 0x1_0000_0000_0000_0000 > |image| { return -1, 0; }
    count := 0;
    var i := 0;
    LoadsNone(image);
    while i < Phnum(image)
      invariant 0 <= i <= Phnum(image)
      invariant count == |Loads(image, i)|
      invariant forall seg :: seg in Loads(image, i) ==> InRange(image, seg)
      invariant forall j :: 0 <= j < Min(count, segs.Length) ==> segs[j] == Loads(image, i)[j]
      invariant forall j :: Min(count, segs.Length) <= j < segs.Length ==> segs[j] == old(segs[j])
    {
      LoadsNext(image, i);
      if IsLoad(image, i) {
        var seg := SegmentAt(image, i);
        if (seg.offset + seg.filesz) % 0x1_0000_0000_0000_0000 > |image| {
          LoadsPrefix(image, i + 1, Phnum(image));
          assert Loads(image, Phnum(image))[|Loads(image, i)|] == seg;
          assert seg in Loads(image, Phnum(image)) && !InRange(image, seg);
          return -1, 0;
        }
        if count < segs.Length {
          segs[count] := seg;
        }
        count := count + 1;
      }
      i := i + 1;
    }
    entry := Entry(image);
  }

  lemma LoadsNone(image: Image)
    ensures Loads(image, 0) == []
  {
  }

  lemma LoadsNext(image: Image, n: nat)
    ensures Loads(image, n + 1) == if IsLoad(image, n) then Loads(image, n) + [SegmentAt(image, n)] else Loads(image, n)
  {
  }

  // ---- Images whose sums wrap ----

  lemma LeTwo(image: Image, a: nat)
    ensures Le(image, a, 2) == ImageByte(image, a) + 256 * ImageByte(image, a + 1)
  {
    assert Le(image, a + 2, 0) == 0;
    assert Le(image, a + 1, 1) == ImageByte(image, a + 1) + 256 * Le(image, a + 2, 0);
    assert Le(image, a, 2) == ImageByte(image, a) + 256 * Le(image, a + 1, 1);
  }

  lemma LeFour(image: Image, a: nat)
    ensures Le(image, a, 4) ==
            ImageByte(image, a)
            + 256 * (ImageByte(image, a + 1) + 256 * (ImageByte(image, a + 2) + 256 * ImageByte(image, a + 3)))
  {
    LeTwo(image, a + 2);
    assert Le(image, a + 1, 3) == ImageByte(image, a + 1) + 256 * Le(image, a + 2, 2);
    assert Le(image, a, 4) == ImageByte(image, a) + 256 * Le(image, a + 1, 3);
  }

  lemma LeEight(image: Image, a: nat)
    ensures Le(image, a, 8) == Le(image, a, 4) + 0x1_0000_0000 * Le(image, a + 4, 4)
  {
    LeFour(image, a);
    assert Le(image, a + 3, 5) == ImageByte(image, a + 3) + 256 * Le(image, a + 4, 4);
    assert Le(image, a + 2, 6) == ImageByte(image, a + 2) + 256 * Le(image, a + 3, 5);
    assert Le(image, a + 1, 7) == ImageByte(image, a + 1) + 256 * Le(image, a + 2, 6);
    assert Le(image, a, 8) == ImageByte(image, a) + 256 * Le(image, a + 1, 7);
  }

  // Eight bytes, the lowest b and the others c.
  lemma LeSame(image: Image, a: nat, b: Byte, c: Byte)
    requires ImageByte(image, a) == b && forall i: nat :: a < i < a + 8 ==> ImageByte(image, i) == c
    ensures Le(image, a, 8) == b + 256 * (c * 0x1_0101_0101_0101)
  {
    LeFour(image, a);
    LeFour(image, a + 4);
    LeEight(image, a);
    hide Le, ImageByte;
  }

  // A header with one table entry: the magic, the table's offset in bytes 32 to 39, sizes and count.
  function HeaderByte(phoff: Byte, high: Byte, i: nat): Byte {
    if i == 0 then 0x7F else if i == 1 then 0x45 else if i == 2 then 0x4C else if i == 3 then 0x46
    else if i == 32 then phoff else if 32 < i < 40 then high
    else if i == 54 then 56 else if i == 56 then 1 else 0
  }

  lemma HeaderFields(image: Image, phoff: Byte, high: Byte)
    requires |image| >= EHDR_SIZE && forall i: nat :: i < EHDR_SIZE ==>
               ImageByte(image, i) == HeaderByte(phoff, high, i)
    ensures Le(image, 0, 4) == ELF_MAGIC && Phentsize(image) == 56 && Phnum(image) == 1
    ensures Phoff(image) == phoff + 256 * (high * 0x1_0101_0101_0101)
  {
    hide Le, ImageByte;
    LeFour(image, 0);
    LeTwo(image, 54);
    LeTwo(image, 56);
    LeSame(image, 32, phoff, high);
  }

  // A table at 2^64 - 56: its end wraps to 0, so it passes the check.
  function WrappingTable(): Image { seq<Byte>(64, i requires 0 <= i < 64 => HeaderByte(0xC8, 0xFF, i)) }

  // The image is accepted although the source's first read is outside it.
  lemma WrappingTableAccepted()
    ensures Accepts(WrappingTable()) && !HeadersInside(WrappingTable())
  {
    hide Le;
    var image := WrappingTable();
    HeaderFields(image, 0xC8, 0xFF);
    RowIs(Phoff(image), 1, 56);
    RowIs(Phoff(image), 0, 56);
    LeFour(image, PhdrAt(image, 0));
    assert !IsLoad(image, 0);
    LoadsNone(image);
    LoadsNext(image, 0);
  }

  // One PT_LOAD header whose offset is 2^64 - 1 and whose file size is 1.
  function WrappingByte(i: nat): Byte {
    if i < 64 then HeaderByte(64, 0, i)
    else if i == 64 then 1 else if 72 <= i < 80 then 0xFF else if i == 96 then 1 else 0
  }

  function WrappingSegment(): Image { seq<Byte>(120, i requires 0 <= i < 120 => WrappingByte(i)) }

  // The image is accepted although its segment lies outside it.
  lemma WrappingSegmentAccepted()
    ensures var image := WrappingSegment();
            && Accepts(image) && HeadersInside(image)
            && var seg := SegmentAt(image, 0);
               Loads(image, Phnum(image)) == [seg] && seg.offset + seg.filesz == 0x1_0000_0000_0000_0000 > |image|
  {
    hide Le;
    var image := WrappingSegment();
    SegmentBytes();
    HeaderFields(image, 64, 0);
    RowIs(Phoff(image), 1, 56);
    RowIs(Phoff(image), 0, 56);
    LeFour(image, 64);
    LeSame(image, 72, 0xFF, 0xFF);
    LeSame(image, 96, 1, 0);
    hide ImageByte, WrappingSegment;
    assert PhdrAt(image, 0) == 64 && IsLoad(image, 0);
    LoadsNone(image);
    LoadsNext(image, 0);
  }

  lemma SegmentBytes()
    ensures var image := WrappingSegment();
            && |image| == 120
            && (forall i: nat :: i < 64 ==> ImageByte(image, i) == HeaderByte(64, 0, i))
            && ImageByte(image, 64) == 1 && (forall i: nat :: 64 < i < 68 ==> ImageByte(image, i) == 0)
            && (forall i: nat :: 72 <= i < 80 ==> ImageByte(image, i) == 0xFF)
            && ImageByte(image, 96) == 1 && (forall i: nat :: 96 < i < 104 ==> ImageByte(image, i) == 0)
  {
  }
}
