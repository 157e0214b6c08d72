/** What the bytes of an image mean, byte by byte and in the machine's own arithmetic. */
module Format {
  import opened Arith
  import opened Bytes
  import opened Disk
  import opened Bitmaps
  import opened Layout
  import opened Inodes
  import opened Chains
  import opened Volumes
  import opened Images
  import opened Mounts
  import opened Reading

  // ----- the metadata -----

  /** Bit i of a packed bitmap is bit i % 8, counted from the lowest, of byte i / 8. */
  lemma PackedBit(s: seq<byte>, count: nat, i: nat)
    requires count <= 8 * |s| && i < count
    ensures Unpack(s, count)[i] <==> s[i / 8] as int / [1, 2, 4, 8, 16, 32, 64, 128][i % 8] % 2 == 1
  {
    BitValues(s[i / 8], i % 8);
  }

  lemma MarkAt(d: seq<byte>, off: nat, count: nat, i: nat)
    requires off + BytesFor(count) <= |d| && i < count
    ensures off + i / 8 < |d|
    ensures Unpack(d[off..off + BytesFor(count)], count)[i] <==>
            d[off + i / 8] as int / [1, 2, 4, 8, 16, 32, 64, 128][i % 8] % 2 == 1
  {
    PackedBit(d[off..off + BytesFor(count)], count, i);
  }

  /** The mark of inode i. */
  lemma InodeMarkOnDisk(sb: Superblock, d: seq<byte>, i: nat)
    requires Laid(sb, d) && i < sb.inodeCount
    ensures var at := ByteOffset(sb.inodeBitmapStart, sb.blockSize) + i / 8;
            && at < |d|
            && (ViewOf(sb, d).inodeMap[i] <==> d[at] as int / [1, 2, 4, 8, 16, 32, 64, 128][i % 8] % 2 == 1)
  {
    RegionsInside(sb, d);
    MarkAt(d, OffsetsOf(sb).inodeBitmap, sb.inodeCount, i);
  }

  /** The mark of data block b. */
  lemma BlockMarkOnDisk(sb: Superblock, d: seq<byte>, b: nat)
    requires Laid(sb, d) && b < sb.datablockCount
    ensures var at := ByteOffset(sb.datablockBitmapStart, sb.blockSize) + b / 8;
            && at < |d|
            && (ViewOf(sb, d).blockMap[b] <==> d[at] as int / [1, 2, 4, 8, 16, 32, 64, 128][b % 8] % 2 == 1)
  {
    RegionsInside(sb, d);
    MarkAt(d, OffsetsOf(sb).blockBitmap, sb.datablockCount, b);
  }

  lemma PartOfPart(d: seq<byte>, off: nat, m: nat, i: nat, n: nat)
    requires off + m <= |d| && i + n <= m
    ensures d[off..off + m][i..i + n] == d[off + i..off + i + n]
  {
    var s, t := d[off..off + m][i..i + n], d[off + i..off + i + n];
    forall k | 0 <= k < n ensures s[k] == t[k] {
      assert d[off..off + m][i + k] == d[off + i + k];
    }
  }

  lemma EntryAt(d: seq<byte>, off: nat, count: nat, i: nat)
    requires off + 64 * count <= |d| && i < count
    ensures DecodeTable(d[off..off + 64 * count], count)[i] == DecodeInode(d[off + 64 * i..off + 64 * i + 64])
  {
    PartOfPart(d, off, 64 * count, 64 * i, 64);
  }

  /** Inode i of the table. */
  lemma InodeOnDisk(sb: Superblock, d: seq<byte>, i: nat)
    requires Laid(sb, d) && i < sb.inodeCount
    ensures var at := ByteOffset(sb.inodeStart, sb.blockSize) + 64 * i;
            at + 64 <= |d| && ViewOf(sb, d).table[i] == DecodeInode(d[at..at + 64])
  {
    RegionsInside(sb, d);
    EntryAt(d, OffsetsOf(sb).table, sb.inodeCount, i);
  }

  // ----- the files -----

  /** Inode i of the image is in use under the file name. */
  ghost predicate InodeOf(sb: Superblock, d: seq<byte>, filename: seq<byte>, i: nat)
    requires Laid(sb, d)
  {
    && i < sb.inodeCount && ViewOf(sb, d).table[i].number > 0 && AnswersTo(ViewOf(sb, d).table[i], filename)
  }

  /** The file names are those that used inodes answer to, and the sizes are theirs. */
  lemma NamesOnDisk(sb: Superblock, d: seq<byte>, filename: seq<byte>)
    requires Mounted(sb, d) && 0 !in filename
    ensures KeyOf(filename) in FilesOf(sb, d) <==> exists i: nat :: InodeOf(sb, d, filename, i)
    ensures forall i: nat :: InodeOf(sb, d, filename, i) ==>
              && i == Lookup(ViewOf(sb, d).table, KeyOf(filename))
              && KeyOf(filename) in FilesOf(sb, d)
              && |FilesOf(sb, d)[KeyOf(filename)]| == ViewOf(sb, d).table[i].size
  {
    var g, v, key := GeometryOf(sb), ViewOf(sb, d), KeyOf(filename);
    ConsistentTableFits(g, v);
    FilesByLookup(g, v, key);
    forall i: nat | InodeOf(sb, d, filename, i) ensures i == Lookup(v.table, key) {
      NameMatches(v.table[i], filename);
      NamesAreUnique(g, v, i, i);
    }
    var r := Lookup(v.table, key);
    if r < |v.table| {
      NameMatches(v.table[r], filename);
      assert InodeOf(sb, d, filename, r);
    }
  }

  /** Byte k of data block b, as block_read finds it, is x. */
  ghost predicate ByteAtBlock(sb: Superblock, d: seq<byte>, b: nat, k: nat, x: byte) {
    var at := ByteOffset(sb.datablocksStart + b, sb.blockSize) + k;
    at < |d| && d[at] == x
  }

  /** The r-th 16-bit number in data block b is y. */
  ghost predicate NumberAtBlock(sb: Superblock, d: seq<byte>, b: nat, r: nat, y: nat) {
    var at := ByteOffset(sb.datablocksStart + b, sb.blockSize) + 2 * r;
    at + 2 <= |d| && d[at] as int + 256 * d[at + 1] as int == y
  }

  lemma BlockByte(sb: Superblock, d: seq<byte>, b: nat, k: nat)
    requires Laid(sb, d) && 0 < b < sb.datablockCount && k < sb.blockSize
    ensures |DataOf(sb, d)[b]| == sb.blockSize && ByteAtBlock(sb, d, b, k, DataOf(sb, d)[b][k])
  {
    DataBlockBytes(sb, d, b);
  }

  lemma BlockNumber(sb: Superblock, d: seq<byte>, b: nat, r: nat)
    requires Laid(sb, d) && 0 < b < sb.datablockCount && 2 * r + 2 <= sb.blockSize
    ensures |DataOf(sb, d)[b]| == sb.blockSize && NumberAtBlock(sb, d, b, r, PointerAt(DataOf(sb, d)[b], r))
  {
    DataBlockBytes(sb, d, b);
    LowByteFirst(DataOf(sb, d)[b][2 * r..2 * r + 2]);
  }

  /** The pointer for offset o of file n is b, found in C's arithmetic: a direct one or one in a pointer block. */
  ghost predicate PointerForOffset(sb: Superblock, d: seq<byte>, n: Inode, o: nat, b: nat)
    requires sb.blockSize > 1 && |n.direct| == 4 && |n.indirect| == 9
  {
    var l, p := o / sb.blockSize, sb.blockSize / 2;
    if l < 4 then b == n.direct[l]
    else (l - 4) / p < 9 && NumberAtBlock(sb, d, n.indirect[(l - 4) / p], (l - 4) % p, b)
  }

  /** Byte o of file n is x: it lies in the block with that number. */
  ghost predicate ByteOnDisk(sb: Superblock, d: seq<byte>, n: Inode, o: nat, x: byte)
    requires sb.blockSize > 1 && |n.direct| == 4 && |n.indirect| == 9
  {
    exists b: nat :: PointerForOffset(sb, d, n, o, b) && ByteAtBlock(sb, d, b, o % sb.blockSize, x)
  }

  /** The block that the tree of file n names for an in-file offset. */
  lemma OffsetStands(g: Geometry, blocks: seq<seq<byte>>, n: Inode, o: nat, b: nat)
    requires GeometryOk(g) && FileOk(g, blocks, n) && o < n.size && |blocks| == g.blockCount
    requires b == PointerIn(blocks, n, DataSlot(Quot(o, g.bs), g.P()))
    ensures 0 < b < g.blockCount
    ensures |blocks[b]| == g.bs ==> Contents(g, blocks, n)[o] == blocks[b][Rem(o, g.bs)]
  {
    DataBlockInChain(g, blocks, n, o);
    ContentsAt(g, blocks, n, o);
  }

  lemma LeafStands(g: Geometry, blocks: seq<seq<byte>>, n: Inode, o: nat, q: nat, r: nat)
    requires GeometryOk(g) && FileOk(g, blocks, n) && o < n.size && |blocks| == g.blockCount
    requires DataSlot(Quot(o, g.bs), g.P()) == Leaf(q, r)
    ensures q < 9 && 0 < n.indirect[q] < g.blockCount && 2 * r + 2 <= g.bs
    ensures |blocks[n.indirect[q]]| == g.bs ==> PointerIn(blocks, n, Leaf(q, r)) == PointerAt(blocks[n.indirect[q]], r)
  {
    IndirectBlockStands(g, blocks, n, o, q, r);
  }

  lemma DirectOnDisk(sb: Superblock, d: seq<byte>, n: Inode, o: nat, l: nat)
    requires Laid(sb, d) && FileOk(GeometryOf(sb), DataOf(sb, d), n) && o < n.size && l == Quot(o, sb.blockSize) < 4
    ensures ByteAtBlock(sb, d, n.direct[l], Rem(o, sb.blockSize), Contents(GeometryOf(sb), DataOf(sb, d), n)[o])
  {
    OffsetStands(GeometryOf(sb), DataOf(sb, d), n, o, n.direct[l]);
    BlockByte(sb, d, n.direct[l], Rem(o, sb.blockSize));
  }

  lemma LeafOnDisk(sb: Superblock, d: seq<byte>, n: Inode, o: nat, q: nat, r: nat, y: nat)
    requires Laid(sb, d) && FileOk(GeometryOf(sb), DataOf(sb, d), n) && o < n.size
    requires DataSlot(Quot(o, sb.blockSize), GeometryOf(sb).P()) == Leaf(q, r)
    requires y == PointerIn(DataOf(sb, d), n, Leaf(q, r))
    ensures q < 9 && NumberAtBlock(sb, d, n.indirect[q], r, y)
    ensures ByteAtBlock(sb, d, y, Rem(o, sb.blockSize), Contents(GeometryOf(sb), DataOf(sb, d), n)[o])
  {
    LeafStands(GeometryOf(sb), DataOf(sb, d), n, o, q, r);
    BlockNumber(sb, d, n.indirect[q], r);
    OffsetStands(GeometryOf(sb), DataOf(sb, d), n, o, y);
    BlockByte(sb, d, y, Rem(o, sb.blockSize));
  }

  lemma Divisions(o: nat, bs: nat)
    requires bs > 1
    ensures o / bs == Quot(o, bs) && o % bs == Rem(o, bs) && bs / 2 == Quot(bs, 2)
    ensures o / bs >= 4 ==>
              && (o / bs - 4) / (bs / 2) == Quot(Quot(o, bs) - 4, Quot(bs, 2))
              && (o / bs - 4) % (bs / 2) == Rem(Quot(o, bs) - 4, Quot(bs, 2))
  {
    QuotRemAreDivision(o, bs);
    QuotRemAreDivision(bs, 2);
    if o / bs >= 4 {
      QuotRemAreDivision(o / bs - 4, bs / 2);
    }
  }

  lemma ContentsOnDisk(sb: Superblock, d: seq<byte>, n: Inode, o: nat)
    requires Laid(sb, d) && FileOk(GeometryOf(sb), DataOf(sb, d), n) && o < n.size
    ensures ByteOnDisk(sb, d, n, o, Contents(GeometryOf(sb), DataOf(sb, d), n)[o])
  {
    Divisions(o, sb.blockSize);
    var l, p := Quot(o, sb.blockSize), GeometryOf(sb).P();
    if l < 4 {
      DirectOnDisk(sb, d, n, o, l);
      assert PointerForOffset(sb, d, n, o, n.direct[l]);
    } else {
      var q, r := Quot(l - 4, p), Rem(l - 4, p);
      var y := PointerIn(DataOf(sb, d), n, Leaf(q, r));
      LeafOnDisk(sb, d, n, o, q, r, y);
      assert PointerForOffset(sb, d, n, o, y);
    }
  }

  /** Every byte of a stored file is where the bytes of its inode and of its pointer blocks say. */
  lemma FileByteOnDisk(sb: Superblock, d: seq<byte>, filename: seq<byte>, i: nat, o: nat)
    requires Mounted(sb, d) && 0 !in filename && InodeOf(sb, d, filename, i) && o < ViewOf(sb, d).table[i].size
    ensures KeyOf(filename) in FilesOf(sb, d) && |FilesOf(sb, d)[KeyOf(filename)]| == ViewOf(sb, d).table[i].size
    ensures ByteOnDisk(sb, d, ViewOf(sb, d).table[i], o, FilesOf(sb, d)[KeyOf(filename)][o])
  {
    NamesOnDisk(sb, d, filename);
    FilesByLookup(GeometryOf(sb), ViewOf(sb, d), KeyOf(filename));
    ContentsOnDisk(sb, d, ViewOf(sb, d).table[i], o);
  }

  lemma NumberInImageBlock(d: seq<byte>, bs: nat, first: nat, r: nat)
    requires |ImageBlock(d, bs, first)| == bs && 2 * r + 2 <= bs
    ensures var at := ByteOffset(first, bs) + 2 * r;
            at + 2 <= |d| && PointerAt(ImageBlock(d, bs, first), r) == d[at] as int + 256 * d[at + 1] as int
  {
    LowByteFirst(ImageBlock(d, bs, first)[2 * r..2 * r + 2]);
  }

  /** Data block b can be read whole. */
  ghost predicate CanReadBlock(sb: Superblock, d: seq<byte>, b: nat) {
    |ImageBlock(d, sb.blockSize, sb.datablocksStart + b)| == sb.blockSize
  }

  ghost predicate CanReadBlocks(sb: Superblock, d: seq<byte>) {
    && sb.blockSize == 2 * Quot(sb.blockSize, 2) && 512 <= sb.blockSize
    && forall b: nat :: b < sb.datablockCount ==> CanReadBlock(sb, d, b)
  }

  lemma LaidInside(sb: Superblock, d: seq<byte>)
    requires Laid(sb, d)
    ensures CanReadBlocks(sb, d)
  {
    forall b: nat | b < sb.datablockCount ensures CanReadBlock(sb, d, b) {
      RawBlock(sb, d, b);
    }
  }

  lemma LeafNumber(sb: Superblock, d: seq<byte>, n: Inode, q: nat, r: nat)
    requires CanReadBlocks(sb, d) && |n.indirect| == 9 && q < 9 && n.indirect[q] < sb.datablockCount
    requires 2 * r + 2 <= sb.blockSize
    ensures NumberAtBlock(sb, d, n.indirect[q], r, PointedTo(sb, d, n, Leaf(q, r)))
  {
    assert CanReadBlock(sb, d, n.indirect[q]);
    NumberInImageBlock(d, sb.blockSize, sb.datablocksStart + n.indirect[q], r);
  }

  lemma OffsetNumber(sb: Superblock, d: seq<byte>, n: Inode, o: nat)
    requires CanReadBlocks(sb, d) && WellFormedInode(n) && o < MaxFileSize(sb.blockSize)
    requires forall q :: 0 <= q < INDIRECT ==> n.indirect[q] < sb.datablockCount
    ensures PointerForOffset(sb, d, n, o, PointedTo(sb, d, n, DataSlot(Quot(o, sb.blockSize), Quot(sb.blockSize, 2))))
  {
    var l, p := Quot(o, sb.blockSize), Quot(sb.blockSize, 2);
    SlotInBounds(o, sb.blockSize, p);
    if l >= 4 {
      LeafNumber(sb, d, n, Quot(l - 4, p), Rem(l - 4, p));
    }
    Divisions(o, sb.blockSize);
  }

  /** The pointer that the reader finds for an offset, inside the file or not. */
  lemma PointerOnDisk(sb: Superblock, d: seq<byte>, n: Inode, o: nat)
    requires Laid(sb, d) && WellFormedInode(n) && o < MaxFileSize(sb.blockSize)
    requires forall q :: 0 <= q < INDIRECT ==> n.indirect[q] < sb.datablockCount
    ensures PointerForOffset(sb, d, n, o, PointedTo(sb, d, n, DataSlot(Quot(o, sb.blockSize), GeometryOf(sb).P())))
  {
    LaidInside(sb, d);
    OffsetNumber(sb, d, n, o);
  }
}
