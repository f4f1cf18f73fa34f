// ELF images as their format lays them out, and what elf_inspect makes of every one of them (System V gABI,
// chapter 4, "ELF Header", and chapter 5, "Program Header"; little-endian, 64-bit).
module ElfImages {
  import opened Words
  import opened Loader
  import opened Elf

  type Half = h: nat | h < 0x1_0000
  type Quad = q: nat | q < 0x1_0000_0000

  // The n bytes of a number, lowest first.
  function Bytes(v: nat, n: nat): (bs: seq<Byte>)
    ensures |bs| == n
    decreases n
  {
    if n == 0 then [] else [v % 256] + Bytes(v / 256, n - 1)
  }

  datatype FileHeader = FileHeader(
    ident: seq<Byte>, kind: Half, machine: Half, version: Quad, entry: Word, phoff: Word, shoff: Word, flags: Quad,
    ehsize: Half, phentsize: Half, phnum: Half, shentsize: Half, shnum: Half, shstrndx: Half)

  datatype ProgramHeader = ProgramHeader(
    kind: Quad, flags: Quad, offset: Word, vaddr: Word, paddr: Word, filesz: Word, memsz: Word, align: Word)

  // The fields of a file header in order: 64 bytes.
  function FileHeaderBytes(h: FileHeader): (bs: seq<Byte>)
    requires |h.ident| == 16
  {
    h.ident + (Bytes(h.kind, 2) + (Bytes(h.machine, 2) + (Bytes(h.version, 4) + (Bytes(h.entry, 8)
      + (Bytes(h.phoff, 8) + (Bytes(h.shoff, 8) + (Bytes(h.flags, 4) + (Bytes(h.ehsize, 2) + (Bytes(h.phentsize, 2)
      + (Bytes(h.phnum, 2) + (Bytes(h.shentsize, 2) + (Bytes(h.shnum, 2) + Bytes(h.shstrndx, 2)))))))))))))
  }

  // The fields of a program header in order: 56 bytes.
  function ProgramHeaderBytes(p: ProgramHeader): (bs: seq<Byte>) {
    Bytes(p.kind, 4) + (Bytes(p.flags, 4) + (Bytes(p.offset, 8) + (Bytes(p.vaddr, 8) + (Bytes(p.paddr, 8)
      + (Bytes(p.filesz, 8) + (Bytes(p.memsz, 8) + Bytes(p.align, 8)))))))
  }

  // The image holds these bytes at a.
  ghost predicate HasAt(image: Image, a: nat, bs: seq<Byte>) {
    forall i :: 0 <= i < |bs| ==> ImageByte(image, a + i) == bs[i]
  }

  // A number's bytes read back as the number.
  lemma {:induction false} ReadBack(image: Image, a: nat, v: nat, n: nat)
    requires HasAt(image, a, Bytes(v, n)) && v < Scale(n)
    ensures Le(image, a, n) == v
    decreases n
  {
    if n > 0 {
      var bs := Bytes(v, n);
      var rest := Bytes(v / 256, n - 1);
      forall i | 0 <= i < |rest|
        ensures ImageByte(image, a + 1 + i) == rest[i]
      {
        assert ImageByte(image, a + (i + 1)) == bs[i + 1];
      }
      ReadBack(image, a + 1, v / 256, n - 1);
      assert ImageByte(image, a + 0) == bs[0];
    }
  }

  // What an image holds at a it holds in parts.
  lemma HasParts(image: Image, a: nat, b: seq<Byte>, c: seq<Byte>)
    requires HasAt(image, a, b + c)
    ensures HasAt(image, a, b) && HasAt(image, a + |b|, c)
  {
    forall i | 0 <= i < |b|
      ensures ImageByte(image, a + i) == b[i]
    {
      assert (b + c)[i] == b[i];
    }
    forall i | 0 <= i < |c|
      ensures ImageByte(image, a + |b| + i) == c[i]
    {
      assert (b + c)[|b| + i] == c[i];
      assert ImageByte(image, a + (|b| + i)) == c[i];
    }
  }

  // One field in front of the rest.
  lemma Field(image: Image, a: nat, v: nat, n: nat, rest: seq<Byte>)
    requires HasAt(image, a, Bytes(v, n) + rest) && v < Scale(n)
    ensures Le(image, a, n) == v && HasAt(image, a + n, rest)
  {
    HasParts(image, a, Bytes(v, n), rest);
    ReadBack(image, a, v, n);
  }

  lemma Scales()
    ensures Scale(2) == 0x1_0000 && Scale(4) == 0x1_0000_0000 && Scale(8) == 0x1_0000_0000_0000_0000
  {
    WordScale();
  }

  lemma HeaderFields(image: Image, a: nat, p: ProgramHeader)
    requires HasAt(image, a, ProgramHeaderBytes(p))
    ensures Le(image, a, 4) == p.kind && Le(image, a + 4, 4) == p.flags && Le(image, a + 8, 8) == p.offset
    ensures Le(image, a + 16, 8) == p.vaddr && Le(image, a + 32, 8) == p.filesz && Le(image, a + 40, 8) == p.memsz
  {
    hide Le, Bytes, Scale, HasAt;
    Scales();
    var r7 := Bytes(p.align, 8);
    var r6 := Bytes(p.memsz, 8) + r7;
    var r5 := Bytes(p.filesz, 8) + r6;
    var r4 := Bytes(p.paddr, 8) + r5;
    var r3 := Bytes(p.vaddr, 8) + r4;
    var r2 := Bytes(p.offset, 8) + r3;
    var r1 := Bytes(p.flags, 4) + r2;
    Field(image, a, p.kind, 4, r1);
    Field(image, a + 4, p.flags, 4, r2);
    Field(image, a + 8, p.offset, 8, r3);
    Field(image, a + 16, p.vaddr, 8, r4);
    Field(image, a + 24, p.paddr, 8, r5);
    Field(image, a + 32, p.filesz, 8, r6);
    Field(image, a + 40, p.memsz, 8, r7);
  }

  // Round trip of a program header, for all values of its fields: at row i of the table it is read as exactly its
  // segment, and as loadable if and only if its type is 1.
  lemma HeaderRead(image: Image, i: nat, a: nat, p: ProgramHeader)
    requires a == Phoff(image) + i * Phentsize(image) && HasAt(image, a, ProgramHeaderBytes(p))
    ensures SegmentAt(image, i) == Segment(p.vaddr, p.memsz, p.filesz, p.offset, p.flags)
    ensures IsLoad(image, i) <==> p.kind == 1
  {
    hide *;
    RowAt(image, i);
    RowRead(image, i, a, p);
  }

  lemma RowRead(image: Image, i: nat, a: nat, p: ProgramHeader)
    requires a == PhdrAt(image, i) && HasAt(image, a, ProgramHeaderBytes(p))
    ensures SegmentAt(image, i) == Segment(p.vaddr, p.memsz, p.filesz, p.offset, p.flags)
    ensures IsLoad(image, i) <==> p.kind == 1
  {
    hide Le, Bytes, Scale, HasAt, ProgramHeaderBytes, PhdrAt;
    HeaderFields(image, a, p);
  }

  lemma RowAt(image: Image, i: nat)
    ensures PhdrAt(image, i) == Phoff(image) + i * Phentsize(image)
  {
    hide Phoff, Phentsize;
    RowIs(Phoff(image), i, Phentsize(image));
  }

  // Round trip of the file header, for all values of its fields.
  lemma FileHeaderRead(image: Image, h: FileHeader)
    requires |h.ident| == 16 && HasAt(image, 0, FileHeaderBytes(h))
    ensures Entry(image) == h.entry && Phoff(image) == h.phoff
    ensures Phentsize(image) == h.phentsize && Phnum(image) == h.phnum
    ensures Le(image, 0, 4) == 0x464C457F <==> h.ident[..4] == [0x7F, 0x45, 0x4C, 0x46]
  {
    hide Le, Bytes, Scale, HasAt;
    MagicRead(image, h);
    Scales();
    var r12 := Bytes(h.shnum, 2) + Bytes(h.shstrndx, 2);
    var r11 := Bytes(h.shentsize, 2) + r12;
    var r10 := Bytes(h.phnum, 2) + r11;
    var r9 := Bytes(h.phentsize, 2) + r10;
    var r8 := Bytes(h.ehsize, 2) + r9;
    var r7 := Bytes(h.flags, 4) + r8;
    var r6 := Bytes(h.shoff, 8) + r7;
    var r5 := Bytes(h.phoff, 8) + r6;
    var r4 := Bytes(h.entry, 8) + r5;
    var r3 := Bytes(h.version, 4) + r4;
    var r2 := Bytes(h.machine, 2) + r3;
    var r1 := Bytes(h.kind, 2) + r2;
    HasParts(image, 0, h.ident, r1);
    Field(image, 16, h.kind, 2, r2);
    Field(image, 18, h.machine, 2, r3);
    Field(image, 20, h.version, 4, r4);
    Field(image, 24, h.entry, 8, r5);
    Field(image, 32, h.phoff, 8, r6);
    Field(image, 40, h.shoff, 8, r7);
    Field(image, 48, h.flags, 4, r8);
    Field(image, 52, h.ehsize, 2, r9);
    Field(image, 54, h.phentsize, 2, r10);
    Field(image, 56, h.phnum, 2, r11);
  }

  // The magic number is the bytes 7F 'E' 'L' 'F'.
  lemma MagicRead(image: Image, h: FileHeader)
    requires |h.ident| == 16 && HasAt(image, 0, FileHeaderBytes(h))
    ensures Le(image, 0, 4) == 0x464C457F <==> h.ident[..4] == [0x7F, 0x45, 0x4C, 0x46]
  {
    hide Le, Bytes;
    LeFour(image, 0);
    var bs := FileHeaderBytes(h);
    forall i | 0 <= i < 4
      ensures ImageByte(image, i) == h.ident[i]
    {
      assert ImageByte(image, 0 + i) == bs[i] == h.ident[i];
    }
    hide ImageByte, FileHeaderBytes, HasAt;
    FourBytes(h.ident[0], h.ident[1], h.ident[2], h.ident[3]);
    assert h.ident[..4] == [h.ident[0], h.ident[1], h.ident[2], h.ident[3]];
  }

  lemma FourBytes(a: Byte, b: Byte, c: Byte, d: Byte)
    ensures a + 256 * (b + 256 * (c + 256 * d)) == 0x464C457F <==> a == 0x7F && b == 0x45 && c == 0x4C && d == 0x46
  {
  }

  // ---- Whole images ----

  // Where row i of the table is.
  function RowAddress(h: FileHeader, i: nat): nat { h.phoff + i * h.phentsize }

  // The image consists of this file header, this table where the header says it is, and anything else.
  ghost predicate LaidOut(image: Image, h: FileHeader, ps: seq<ProgramHeader>) {
    && |h.ident| == 16 && h.phnum == |ps| && HasAt(image, 0, FileHeaderBytes(h))
    && forall i :: 0 <= i < |ps| ==> HasAt(image, RowAddress(h, i), ProgramHeaderBytes(ps[i]))
  }

  // The segments of the loadable headers, in table order.
  function LoadSegs(ps: seq<ProgramHeader>): seq<Segment> {
    if ps == [] then []
    else
      var p := ps[|ps| - 1];
      LoadSegs(ps[..|ps| - 1])
      + if p.kind == 1 then [Segment(p.vaddr, p.memsz, p.filesz, p.offset, p.flags)] else []
  }

  lemma TableRow(image: Image, h: FileHeader, i: nat)
    requires |h.ident| == 16 && HasAt(image, 0, FileHeaderBytes(h))
    ensures RowAddress(h, i) == Phoff(image) + i * Phentsize(image)
  {
    hide FileHeaderBytes, HasAt, Phoff, Phentsize, Phnum;
    FileHeaderRead(image, h);
  }

  lemma {:induction false} LoadsLaidOut(image: Image, h: FileHeader, ps: seq<ProgramHeader>, n: nat)
    requires LaidOut(image, h, ps) && n <= |ps|
    ensures Loads(image, n) == LoadSegs(ps[..n])
  {
    hide FileHeaderBytes, ProgramHeaderBytes, SegmentAt, IsLoad, HasAt, RowAddress, Phoff, Phentsize, Phnum;
    if n == 0 {
      LoadsNone(image);
    } else {
      LoadsLaidOut(image, h, ps, n - 1);
      TableRow(image, h, n - 1);
      HeaderRead(image, n - 1, RowAddress(h, n - 1), ps[n - 1]);
      LoadsNext(image, n - 1);
      assert ps[..n][..n - 1] == ps[..n - 1];
    }
  }

  // A loadable header's range check, on its fields.
  predicate Fits(p: ProgramHeader, size: nat) {
    p.kind == 1 ==> (p.offset + p.filesz) % 0x1_0000_0000_0000_0000 <= size
  }

  lemma {:induction false} RangesExactly(image: Image, ps: seq<ProgramHeader>)
    ensures (forall seg :: seg in LoadSegs(ps) ==> InRange(image, seg)) <==>
            forall i :: 0 <= i < |ps| ==> Fits(ps[i], |image|)
  {
    if ps != [] {
      var init, p := ps[..|ps| - 1], ps[|ps| - 1];
      RangesExactly(image, init);
      assert forall i :: 0 <= i < |init| ==> init[i] == ps[i];
      var last := Segment(p.vaddr, p.memsz, p.filesz, p.offset, p.flags);
      assert p.kind == 1 ==> last in LoadSegs(ps);
      assert InRange(image, last) <==> (p.offset + p.filesz) % 0x1_0000_0000_0000_0000 <= |image|;
      hide InRange;
      assert forall seg :: seg in LoadSegs(ps) <==> seg in LoadSegs(init) || (p.kind == 1 && seg == last);
    }
  }

  // What elf_inspect makes of any image, told from the image's headers. It accepts the image if and only if that
  // has 64 bytes and the magic, and neither the table's end nor the file range of a loadable header exceeds the
  // size, both sums taken modulo 2^64. It then returns the entry point and collects the loadable headers in
  // table order, each field from where the format has it.
  lemma InspectsExactly(image: Image, h: FileHeader, ps: seq<ProgramHeader>)
    requires LaidOut(image, h, ps)
    ensures Loads(image, Phnum(image)) == LoadSegs(ps) && Entry(image) == h.entry
    ensures Accepts(image) <==>
            && |image| >= 64 && h.ident[..4] == [0x7F, 0x45, 0x4C, 0x46]
            && (h.phoff + h.phnum * h.phentsize) % 0x1_0000_0000_0000_0000 <= |image|
            && forall i :: 0 <= i < |ps| ==> Fits(ps[i], |image|)
  {
    hide FileHeaderBytes, ProgramHeaderBytes, Le, HasAt, Loads, Row, LoadSegs, InRange, Fits, Phoff, Phentsize, Phnum;
    FileHeaderRead(image, h);
    LoadsLaidOut(image, h, ps, |ps|);
    assert ps[..|ps|] == ps;
    RowIs(h.phoff, h.phnum, h.phentsize);
    RangesExactly(image, ps);
  }
}
