// 64-bit words and the bytes inside them.
//
// Physical memory is a sequence of words. Page-table entries and free-list links are whole words;
// the loader and the zeroing loops of the allocator work byte by byte, little-endian.
module Words {
  type Word = w: int | 0 <= w < 0x1_0000_0000_0000_0000
  type Byte = b: int | 0 <= b < 256

  function Scale(n: nat): (s: nat)
    ensures s > 0
  {
    if n == 0 then 1 else 256 * Scale(n - 1)
  }

  function GetByte(w: nat, k: nat): (b: Byte) {
    if k == 0 then w % 256 else GetByte(w / 256, k - 1)
  }

  function SetByte(w: nat, k: nat, b: Byte): (r: nat)
    ensures forall j: nat :: GetByte(r, j) == if j == k then b else GetByte(w, j)
  {
    if k == 0 then w - w % 256 + b else SetByte(w / 256, k - 1, b) * 256 + w % 256
  }

  // Replacing one of the low n bytes of an n-byte number gives an n-byte number.
  lemma SetByteFits(w: nat, k: nat, b: Byte, n: nat)
    requires w < Scale(n) && k < n
    ensures SetByte(w, k, b) < Scale(n)
  {
    if k > 0 {
      SetByteFits(w / 256, k - 1, b, n - 1);
    }
  }

  lemma ZeroBytesZeroNumber(w: nat, n: nat)
    requires w < Scale(n)
    requires forall k :: 0 <= k < n ==> GetByte(w, k) == 0
    ensures w == 0
  {
    if n > 0 {
      assert GetByte(w, 0) == 0;
      forall k | 0 <= k < n - 1
        ensures GetByte(w / 256, k) == 0
      {
        assert GetByte(w, k + 1) == 0;
      }
      ZeroBytesZeroNumber(w / 256, n - 1);
    }
  }

  lemma WordScale()
    ensures Scale(8) == 0x1_0000_0000_0000_0000
  {
    assert Scale(4) == 0x1_0000_0000;
  }

  function SetWordByte(w: Word, k: nat, b: Byte): (r: Word)
    requires k < 8
    ensures forall j: nat :: GetByte(r, j) == if j == k then b else GetByte(w, j)
  {
    WordScale();
    SetByteFits(w, k, b, 8);
    SetByte(w, k, b)
  }

  // A word whose eight bytes are zero is zero.
  lemma ZeroWord(w: Word)
    requires forall k :: 0 <= k < 8 ==> GetByte(w, k) == 0
    ensures w == 0
  {
    WordScale();
    ZeroBytesZeroNumber(w, 8);
  }

  lemma ZeroHasZeroBytes(k: nat)
    ensures GetByte(0, k) == 0
  {
  }

  type Memory = seq<Word>

  // The byte at byte address a; addresses beyond the memory read as zero.
  function ByteAt(mem: Memory, a: nat): (b: Byte) {
    if a / 8 < |mem| then GetByte(mem[a / 8], a % 8) else 0
  }

  function PutByte(mem: Memory, a: nat, b: Byte): (r: Memory)
    ensures |r| == |mem|
    ensures forall c: nat :: c != a ==> ByteAt(r, c) == ByteAt(mem, c)
    ensures a / 8 < |mem| ==> ByteAt(r, a) == b
    ensures forall j :: 0 <= j < |mem| && j != a / 8 ==> r[j] == mem[j]
  {
    if a / 8 < |mem| then mem[a / 8 := SetWordByte(mem[a / 8], a % 8, b)] else mem
  }

  // Stores bs at byte address a, lowest byte first.
  function PutBytes(mem: Memory, a: nat, bs: seq<Byte>): (r: Memory)
    ensures |r| == |mem|
  {
    if bs == [] then mem
    else PutByte(PutBytes(mem, a, bs[..|bs| - 1]), a + |bs| - 1, bs[|bs| - 1])
  }

  // The stored bytes read back, and nothing else changes: bytes outside the range keep their values,
  // and so do whole words that do not meet it.
  lemma {:induction false} PutBytesReadBack(mem: Memory, a: nat, bs: seq<Byte>)
    requires a + |bs| <= 8 * |mem|
    ensures forall k :: 0 <= k < |bs| ==> ByteAt(PutBytes(mem, a, bs), a + k) == bs[k]
    ensures forall c: nat :: !(a <= c < a + |bs|) ==> ByteAt(PutBytes(mem, a, bs), c) == ByteAt(mem, c)
    ensures forall j :: 0 <= j < |mem| && (8 * j + 8 <= a || a + |bs| <= 8 * j) ==> PutBytes(mem, a, bs)[j] == mem[j]
  {
    if bs == [] {
    } else {
      PutBytesReadBack(mem, a, bs[..|bs| - 1]);
    }
  }
}
