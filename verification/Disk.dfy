/** The image file as a growable byte array with a position, and the block writer of tools/blocks.c. */
module Disk {
  import opened Arith
  import opened Bytes

  /** d after x is written at off; a gap beyond the end reads as zeros. */
  function Put(d: seq<byte>, off: nat, x: seq<byte>): (r: seq<byte>)
    ensures |r| == if off + |x| < |d| then |d| else off + |x|
  {
    (if |d| < off then d + Zeros(off - |d|) else d[..off]) + x +
    (if off + |x| < |d| then d[off + |x|..] else [])
  }

  lemma PutReads(d: seq<byte>, off: nat, x: seq<byte>)
    ensures var r := Put(d, off, x);
            && r[off..off + |x|] == x
            && (forall i :: 0 <= i < off && i < |d| ==> r[i] == d[i])
            && (forall i :: off + |x| <= i < |d| ==> r[i] == d[i])
            && (forall i :: |d| <= i < off ==> r[i] == 0)
  {}

  lemma PutTwice(d: seq<byte>, off: nat, x: seq<byte>, y: seq<byte>)
    ensures Put(Put(d, off, x), off + |x|, y) == Put(d, off, x + y)
  {
    assert Put(d, off, x)[..off + |x|] == Put(d, off, x + y)[..off + |x|];
  }

  /** The number of zeros blocks_write appends to len bytes. */
  function Padding(len: nat, bs: nat): nat
    requires bs > 0
  {
    if len < bs then bs - len else Rem(len, bs)
  }

  /** The bytes blocks_write sends to the file. */
  function WithPadding(x: seq<byte>, bs: nat): (r: seq<byte>)
    requires bs > 0
    ensures |r| == |x| + Padding(|x|, bs)
  {
    x + Zeros(Padding(|x|, bs))
  }

  /** The padding completes the last block exactly when the data stops short of a full block, fills its blocks, or fills
      half of the last one. */
  lemma PaddingCompletesExactly(len: nat, bs: nat)
    requires 0 < len && 0 < bs
    ensures Rem(len + Padding(len, bs), bs) == 0 <==> len < bs || Rem(len, bs) == 0 || 2 * Rem(len, bs) == bs
  {
    var q, r := Quot(len, bs), Rem(len, bs);
    QuotRem(len, bs);
    if len < bs {
      QuotRemUnique(bs, bs, 1, 0);
    } else if 2 * r < bs {
      QuotRemUnique(len + r, bs, q, 2 * r);
    } else {
      QuotRemUnique(len + r, bs, q + 1, 2 * r - bs);
    }
  }

  /** Otherwise it stops short of the end of the last block or runs into the next one, as the data fills less or more
      than half of it. */
  lemma PaddingMisses(len: nat, bs: nat)
    requires 0 < bs < len && Rem(len, bs) != 0
    ensures var end, blockEnd := len + Padding(len, bs), Times(Quot(len, bs) + 1, bs);
            && (end < blockEnd <==> 2 * Rem(len, bs) < bs)
            && (blockEnd < end < blockEnd + bs <==> bs < 2 * Rem(len, bs))
  {
    QuotRem(len, bs);
  }

  /** In blocks of 512 bytes the bitmap of 4104 bits, 513 bytes, is padded with one byte, and the bitmap of 8000 bits,
      1000 bytes, runs 464 bytes into the block behind its own. */
  lemma PaddedBitmaps()
    ensures 513 + Padding(513, 512) == 514 < Times(2, 512)
    ensures 1000 + Padding(1000, 512) == Times(2, 512) + 464
  {
    TimesIsProduct(1, 512);
    TimesIsProduct(2, 512);
    QuotRemUnique(513, 512, 1, 1);
    QuotRemUnique(1000, 512, 1, 488);
  }

  /** Writing the data and then the padding, if there is any, writes the padded data. */
  lemma PutPadded(d: seq<byte>, off: nat, x: seq<byte>, bs: nat)
    requires bs > 0
    ensures Put(Put(d, off, x), off + |x|, Zeros(Padding(|x|, bs))) == Put(d, off, WithPadding(x, bs))
    ensures Padding(|x|, bs) == 0 ==> Put(d, off, x) == Put(d, off, WithPadding(x, bs))
  {
    PutTwice(d, off, x, Zeros(Padding(|x|, bs)));
    assert x + Zeros(0) == x;
  }

  /** d' is d with x at place at and the given number of zeros behind it; whatever else it has beyond d is zero. */
  ghost predicate Written(d: seq<byte>, d': seq<byte>, at: nat, x: seq<byte>, zeros: nat) {
    && |d'| == (if at + |x| + zeros < |d| then |d| else at + |x| + zeros)
    && forall i :: 0 <= i < |d'| ==>
         d'[i] == if at <= i < at + |x| then x[i - at]
                  else if i < |d| && !(at + |x| <= i < at + |x| + zeros) then d[i]
                  else 0
  }

  lemma PaddingIs(len: nat, bs: nat)
    requires bs > 0
    ensures Padding(len, bs) == if len < bs then bs - len else len % bs
  {
    QuotRemAreDivision(len, bs);
  }

  lemma PutWrites(d: seq<byte>, off: nat, x: seq<byte>, bs: nat)
    requires bs > 0
    ensures Written(d, Put(d, off, WithPadding(x, bs)), off, x, Padding(|x|, bs))
  {
    PutReads(d, off, WithPadding(x, bs));
  }

  /** Where the file position is after fseek of a 32-bit unsigned offset that a 32-bit long has to hold. */
  function SeekTo(offset: nat, pos: nat): nat {
    if offset < 0x8000_0000 then offset else pos
  }

  /** block * bs in the 32-bit unsigned arithmetic of the readers and writers. */
  function ByteOffset(block: nat, bs: nat): nat {
    Rem(Times(block, bs), 0x1_0000_0000)
  }

  lemma ByteOffsetIsProduct(block: nat, bs: nat)
    ensures ByteOffset(block, bs) == (bs * block) % 0x1_0000_0000 == (block * bs) % 0x1_0000_0000
  {
    TimesIsProduct(block, bs);
    QuotRemAreDivision(block * bs, 0x1_0000_0000);
  }

  /** Block b of the image, counted from its start; nothing where it does not lie inside. */
  function ImageBlock(d: seq<byte>, bs: nat, b: nat): seq<byte> {
    var off := ByteOffset(b, bs);
    if off < 0x8000_0000 && off + bs <= |d| then d[off..off + bs] else []
  }

  class File {
    var data: seq<byte>
    var pos: nat

    constructor (d: seq<byte>)
      ensures data == d && pos == 0
    {
      data := d;
      pos := 0;
    }

    method Seek(offset: nat)
      requires offset < 0x1_0000_0000
      modifies this`pos
      ensures pos == SeekTo(offset, old(pos))
    {
      if offset < 0x8000_0000 {
        pos := offset;
      }
    }

    method Write(x: seq<byte>)
      modifies this
      ensures data == Put(old(data), old(pos), x)
      ensures pos == old(pos) + |x|
    {
      data := Put(data, pos, x);
      pos := pos + |x|;
    }

    /** Fills the first n bytes of dest as far as the file goes. */
    method Read(dest: array<byte>, n: nat)
      requires n <= dest.Length
      modifies this`pos, dest
      ensures pos == old(pos) + Min(n, if old(pos) < |data| then |data| - old(pos) else 0)
      ensures forall i :: 0 <= i < n && old(pos) + i < |data| ==> dest[i] == data[old(pos) + i]
      ensures forall i :: 0 <= i < dest.Length && (n <= i || |data| <= old(pos) + i) ==> dest[i] == old(dest[i])
    {
      var start := pos;
      var k := 0;
      while k < n && start + k < |data|
        invariant 0 <= k <= n && pos == start + k && (k > 0 ==> start + k <= |data|)
        invariant forall i :: 0 <= i < k ==> dest[i] == data[start + i]
        invariant forall i :: k <= i < dest.Length ==> dest[i] == old(dest[i])
      {
        dest[k] := data[start + k];
        k := k + 1;
        pos := pos + 1;
      }
    }
  }

  /** What n zeroed bytes hold after a read at position pos. */
  function Window(d: seq<byte>, pos: nat, n: nat): (s: seq<byte>)
    ensures |s| == n
    ensures pos + n <= |d| ==> s == d[pos..pos + n]
  {
    seq(n, i requires 0 <= i => if pos + i < |d| then d[pos + i] else 0)
  }

  /** The two fwrite calls of blocks_write. */
  method WritePadded(bs: nat, x: seq<byte>, fs: File)
    requires 0 < bs && 0 < |x|
    modifies fs
    ensures fs.data == Put(old(fs.data), old(fs.pos), WithPadding(x, bs))
  {
    PutPadded(fs.data, fs.pos, x, bs);
    PaddingIs(|x|, bs);
    fs.Write(x);
    var paddingLen := if |x| < bs then bs - |x| else |x| % bs;
    if paddingLen > 0 {
      fs.Write(Zeros(paddingLen));
    }
  }

  /** Writes x at block first, followed by the padding. */
  method BlocksWrite(bs: nat, first: nat, x: seq<byte>, fs: File)
    requires 0 < bs && 0 < |x|
    modifies fs
    ensures fs.data == Put(old(fs.data), SeekTo(ByteOffset(first, bs), old(fs.pos)), WithPadding(x, bs))
    ensures bs * first % 0x1_0000_0000 < 0x8000_0000 ==>
              Written(old(fs.data), fs.data, bs * first % 0x1_0000_0000, x, if |x| < bs then bs - |x| else |x| % bs)
  {
    ByteOffsetIsProduct(first, bs);
    var offset := bs * first % 0x1_0000_0000;
    PutWrites(fs.data, SeekTo(offset, fs.pos), x, bs);
    PaddingIs(|x|, bs);
    fs.Seek(offset);
    WritePadded(bs, x, fs);
  }

  /** Reads one block into dest; where the file ends inside it the rest of dest stays. */
  method BlockRead(bs: nat, block: nat, dest: array<byte>, fs: File)
    requires 0 < bs <= dest.Length && 0 < block
    modifies fs`pos, dest
    ensures var at := SeekTo(ByteOffset(block, bs), old(fs.pos));
            forall i :: 0 <= i < dest.Length ==>
              dest[i] == if i < bs && at + i < |fs.data| then fs.data[at + i] else old(dest[i])
    ensures var off := ByteOffset(block, bs);
            off < 0x8000_0000 && off + bs <= |fs.data| ==> dest[..bs] == fs.data[off..off + bs]
  {
    ByteOffsetIsProduct(block, bs);
    fs.Seek((bs * block) % 0x1_0000_0000);
    fs.Read(dest, bs);
  }
}
