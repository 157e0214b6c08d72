/** Reading a byte range of a stored file: tools/fs.c. */
module Reading {
  import opened Bytes
  import opened Arith
  import opened CStrings
  import opened Disk
  import opened Layout
  import opened Inodes
  import opened Chains
  import opened Volumes
  import opened Images
  import opened Mounts

  /** The size of the largest file: fs_offset_to_block compares offsets with it. */
  function MaxFileSize(bs: nat): nat {
    Times(MaxBlocks(Quot(bs, 2)), bs)
  }

  lemma MaxFileSizeIs(bs: nat)
    ensures MaxFileSize(bs) == 4 * bs + 9 * ((bs / 2) * bs) == 4 * bs + 9 * (bs / 2) * bs
  {
    QuotRemAreDivision(bs, 2);
    TimesIsProduct(MaxBlocks(bs / 2), bs);
  }

  /** No product of fs_offset_to_block exceeds 31 bits: superblock_read lets no block size beyond 8192 through. */
  lemma MaxFileSizeFits(bs: nat)
    requires bs <= 8192
    ensures MaxFileSize(bs) < 0x8000_0000 && (bs / 2) * bs <= MaxFileSize(bs)
  {
    MaxFileSizeIs(bs);
    MulMonotonic(bs / 2, 4096, bs);
  }

  /** An offset behind the direct blocks, split into pointer block, leaf and byte. */
  lemma TreeArithmetic(offset: nat, bs: nat, p: nat)
    requires bs > 0 && p > 0 && Times(DIRECT, bs) <= offset
    ensures var l, unit, rest := Quot(offset, bs), Times(p, bs), offset - Times(DIRECT, bs);
            && l >= DIRECT && unit > 0
            && Quot(rest, unit) == Quot(l - DIRECT, p)
            && Times(Quot(rest, unit), unit) <= rest
            && Quot(rest - Times(Quot(rest, unit), unit), bs) == Rem(l - DIRECT, p)
  {
    var l, m := Quot(offset, bs), Rem(offset, bs);
    QuotRem(offset, bs);
    if l < DIRECT {
      TimesMonotonic(l, DIRECT, bs);
    }
    var q, r, unit := Quot(l - DIRECT, p), Rem(l - DIRECT, p), Times(p, bs);
    QuotRem(l - DIRECT, p);
    TimesAdd(DIRECT, l - DIRECT, bs);
    TimesAdd(Times(q, p), r, bs);
    TimesTimes(q, p, bs);
    TimesMonotonic(r, p, bs);
    QuotRemUnique(offset - Times(DIRECT, bs), unit, q, Times(r, bs) + m);
    QuotRemUnique(Times(r, bs) + m, bs, r, m);
  }

  /** The divisions of fs_offset_to_block find the leaf of the pointer tree. */
  lemma IndirectArithmetic(offset: nat, bs: nat, p: nat)
    requires bs > 0 && p > 0 && 4 * bs <= offset
    ensures var rest := offset - 4 * bs;
            var l := Quot(offset, bs);
            && p * bs > 0
            && l >= DIRECT
            && rest / (p * bs) == Quot(l - DIRECT, p)
            && rest / (p * bs) * (p * bs) <= rest
            && (rest - rest / (p * bs) * (p * bs)) / bs == Rem(l - DIRECT, p)
  {
    TimesIsProduct(DIRECT, bs);
    TimesIsProduct(p, bs);
    TreeArithmetic(offset, bs, p);
    var unit, rest := p * bs, offset - 4 * bs;
    QuotRemAreDivision(rest, unit);
    TimesIsProduct(Quot(rest, unit), unit);
    QuotRemAreDivision(rest - Quot(rest, unit) * unit, bs);
  }

  /** The C comparisons and divisions of fs_offset_to_block against the pointer tree. */
  lemma DirectArithmetic(offset: nat, bs: nat)
    requires 0 < bs
    ensures offset < 4 * bs <==> Quot(offset, bs) < DIRECT
    ensures Quot(offset, bs) == offset / bs
  {
    QuotRemAreDivision(offset, bs);
    Split(offset, bs);
    if offset / bs < DIRECT {
      MulMonotonic(offset / bs, DIRECT, bs);
    } else {
      MulMonotonic(DIRECT, offset / bs, bs);
    }
  }

  /** Of the offsets that the range check lets through, the largest file size is the one that indexes past the
      nine indirect pointers: the check uses > where >= is needed. */
  lemma RangeCheckExact(offset: nat, bs: nat)
    requires 512 <= bs && 4 * bs <= offset <= MaxFileSize(bs)
    ensures (offset - 4 * bs) / ((bs / 2) * bs) < INDIRECT <==> offset != MaxFileSize(bs)
    ensures offset == MaxFileSize(bs) ==> (offset - 4 * bs) / ((bs / 2) * bs) == INDIRECT
  {
    var unit := (bs / 2) * bs;
    assert unit > 0;
    var rest := offset - 4 * bs;
    MaxFileSizeIs(bs);
    var q := rest / unit;
    Split(rest, unit);
    if offset == MaxFileSize(bs) {
      DivMod(rest, unit, INDIRECT, 0);
    } else if INDIRECT <= q {
      MulMonotonic(INDIRECT, q, unit);
    }
  }

  datatype Location = At(slot: Slot) | OutOfRange

  /** The divisions behind the direct blocks. */
  method LocateLeaf(offset: nat, bs: nat, pointersPerBlock: nat) returns (slot: Slot)
    requires bs > 0 && pointersPerBlock > 0 && 4 * bs <= offset
    ensures slot == DataSlot(Quot(offset, bs), pointersPerBlock)
  {
    IndirectArithmetic(offset, bs, pointersPerBlock);
    var rest := offset - 4 * bs;
    var indirectIndex := rest / (pointersPerBlock * bs);
    rest := rest - indirectIndex * (pointersPerBlock * bs);
    slot := Leaf(indirectIndex, rest / bs);
  }

  /** The range check. */
  method BeyondRange(offset: nat, bs: nat, pointersPerBlock: nat) returns (beyond: bool)
    requires pointersPerBlock == bs / 2
    ensures beyond <==> offset > MaxFileSize(bs)
  {
    MaxFileSizeIs(bs);
    beyond := offset > 4 * bs + 9 * pointersPerBlock * bs;
  }

  /** The direct blocks. */
  method LocateDirect(offset: nat, bs: nat) returns (slot: Slot)
    requires 0 < bs && offset < 4 * bs
    ensures forall p: nat :: p > 0 ==> slot == DataSlot(Quot(offset, bs), p)
    ensures offset <= MaxFileSize(bs)
  {
    DirectArithmetic(offset, bs);
    MaxFileSizeIs(bs);
    slot := Direct(offset / bs);
  }

  /** The address arithmetic of fs_offset_to_block: which pointer leads to an offset. */
  method Locate(offset: nat, bs: nat) returns (loc: Location)
    requires 512 <= bs
    ensures loc == if offset <= MaxFileSize(bs) then At(DataSlot(Quot(offset, bs), Quot(bs, 2))) else OutOfRange
  {
    QuotRemAreDivision(bs, 2);
    var slot;
    if offset < 4 * bs {
      slot := LocateDirect(offset, bs);
      return At(slot);
    }
    var pointersPerBlock := bs / 2;
    var beyond := BeyondRange(offset, bs, pointersPerBlock);
    if beyond {
      return OutOfRange;
    }
    slot := LocateLeaf(offset, bs, pointersPerBlock);
    return At(slot);
  }

  lemma InFileBelowMax(size: nat, offset: nat, bs: nat)
    requires bs > 1 && offset < size && BlockCount(size, bs) <= MaxBlocks(Quot(bs, 2))
    ensures offset < MaxFileSize(bs)
  {
    BlockOfOffset(offset, size, bs);
    QuotRem(offset, bs);
    TimesMonotonic(Quot(offset, bs), MaxBlocks(Quot(bs, 2)), bs);
  }

  /** The pointer block that an in-file offset beyond the direct blocks leads to. */
  lemma IndirectBlockStands(g: Geometry, blocks: seq<seq<byte>>, n: Inode, offset: nat, q: nat, j: nat)
    requires GeometryOk(g) && FileOk(g, blocks, n) && offset < n.size
    requires DataSlot(Quot(offset, g.bs), g.P()) == Leaf(q, j)
    ensures q < INDIRECT && 0 < n.indirect[q] < g.blockCount && j < g.P()
  {
    var l := Quot(offset, g.bs);
    BlockOfOffset(offset, n.size, g.bs);
    QuotRem(l - DIRECT, g.P());
    GroupInUse(q, DataBlocksOf(g, n), g.P());
    PointerBlockInChain(g, blocks, n, q);
  }

  /** Below the largest file size the divisions stay inside both pointer arrays. */
  lemma SlotInBounds(offset: nat, bs: nat, p: nat)
    requires bs > 1 && p == Quot(bs, 2) && offset < MaxFileSize(bs)
    ensures match DataSlot(Quot(offset, bs), p)
            case Direct(j) => j < DIRECT
            case Leaf(q, r) => q < INDIRECT && r < p
            case Indirect(_) => false
  {
    var l := Quot(offset, bs);
    QuotRem(offset, bs);
    if MaxBlocks(p) <= l {
      TimesMonotonic(MaxBlocks(p), l, bs);
    }
    if l >= DIRECT {
      QuotRem(l - DIRECT, p);
      GroupInUse(Quot(l - DIRECT, p), l + 1, p);
      GroupsOfMax(l + 1, p);
    }
  }

  /** The j-th pointer of the pointer block that data block b holds, be it the reserved block 0. */
  method ReadPointer(b: nat, j: nat, sb: Superblock, fs: File) returns (pointer: nat)
    requires Laid(sb, fs.data) && b < sb.datablockCount && j < GeometryOf(sb).P()
    modifies fs`pos
    ensures |ImageBlock(fs.data, sb.blockSize, sb.datablocksStart + b)| == sb.blockSize
    ensures pointer == PointerAt(ImageBlock(fs.data, sb.blockSize, sb.datablocksStart + b), j)
  {
    var bs := sb.blockSize;
    RawBlock(sb, fs.data, b);
    var buf := new byte[bs](_ => 0);
    BlockRead(bs, sb.datablocksStart + b, buf, fs);
    assert buf[..] == buf[..bs];
    pointer := PointerAt(buf[..], j);
  }

  /** What the tree of inode n has in a slot, pointer blocks read from the image. */
  function PointedTo(sb: Superblock, d: seq<byte>, n: Inode, s: Slot): nat {
    match s
    case Leaf(q, r) =>
      if q < |n.indirect| && 2 * r + 2 <= |ImageBlock(d, sb.blockSize, sb.datablocksStart + n.indirect[q])|
      then PointerAt(ImageBlock(d, sb.blockSize, sb.datablocksStart + n.indirect[q]), r) else 0
    case Direct(j) => if j < |n.direct| then n.direct[j] else 0
    case Indirect(q) => if q < |n.indirect| then n.indirect[q] else 0
  }

  lemma PointedLeaf(sb: Superblock, d: seq<byte>, n: Inode, q: nat, r: nat)
    requires Laid(sb, d) && q < |n.indirect| && 0 < n.indirect[q] < sb.datablockCount
    ensures PointedTo(sb, d, n, Leaf(q, r)) == PointerIn(DataOf(sb, d), n, Leaf(q, r))
  {
    RawBlock(sb, d, n.indirect[q]);
  }

  /** Inside the file it is the pointer of the volume. */
  lemma PointedInFile(sb: Superblock, d: seq<byte>, n: Inode, offset: nat)
    requires Laid(sb, d) && FileOk(GeometryOf(sb), DataOf(sb, d), n) && offset < n.size
    ensures var s := DataSlot(Quot(offset, sb.blockSize), GeometryOf(sb).P());
            PointedTo(sb, d, n, s) == PointerIn(DataOf(sb, d), n, s)
  {
    match DataSlot(Quot(offset, sb.blockSize), GeometryOf(sb).P())
    case Leaf(q, r) =>
      IndirectBlockStands(GeometryOf(sb), DataOf(sb, d), n, offset, q, r);
      PointedLeaf(sb, d, n, q, r);
    case _ =>
  }

  /** The block that the pointer tree names for an offset, inside the file or not; -1 beyond the largest file size. */
  method FsOffsetToBlock(offset: nat, n: Inode, sb: Superblock, fs: File) returns (block: int)
    requires Laid(sb, fs.data) && WellFormedInode(n)
    requires forall q :: 0 <= q < INDIRECT ==> n.indirect[q] < sb.datablockCount
    requires offset != MaxFileSize(sb.blockSize)
    modifies fs`pos
    ensures offset > MaxFileSize(sb.blockSize) ==> block == -1
    ensures offset < MaxFileSize(sb.blockSize) ==>
              block == PointedTo(sb, fs.data, n, DataSlot(Quot(offset, sb.blockSize), GeometryOf(sb).P()))
  {
    var loc := Locate(offset, sb.blockSize);
    if loc == OutOfRange {
      return -1;
    }
    SlotInBounds(offset, sb.blockSize, GeometryOf(sb).P());
    if loc.slot.Direct? {
      return n.direct[loc.slot.j];
    }
    block := ReadPointer(n.indirect[loc.slot.q], loc.slot.r, sb, fs);
  }

  /** Bytes start..start + k of one block are consecutive bytes of the file. */
  lemma WithinBlock(offset: nat, k: nat, bs: nat)
    requires bs > 0 && Rem(offset, bs) + k < bs
    ensures Quot(offset + k, bs) == Quot(offset, bs)
    ensures Rem(offset + k, bs) == Rem(offset, bs) + k
  {
    QuotRem(offset, bs);
    QuotRemUnique(offset + k, bs, Quot(offset, bs), Rem(offset, bs) + k);
  }

  /** The byte of file n at offset o, found through the pointer tree. */
  ghost function ByteAt(g: Geometry, blocks: seq<seq<byte>>, n: Inode, o: nat): byte
    requires GeometryOk(g)
  {
    ByteOf(blocks, PointerIn(blocks, n, DataSlot(Quot(o, g.bs), g.P())), Rem(o, g.bs))
  }

  /** c is what file n holds. */
  ghost predicate Holds(g: Geometry, blocks: seq<seq<byte>>, n: Inode, c: seq<byte>)
    requires GeometryOk(g)
  {
    |c| == n.size && forall o: nat {:trigger ByteAt(g, blocks, n, o)} :: o < n.size ==> c[o] == ByteAt(g, blocks, n, o)
  }

  lemma ContentsHeld(g: Geometry, blocks: seq<seq<byte>>, n: Inode)
    requires GeometryOk(g)
    ensures Holds(g, blocks, n, Contents(g, blocks, n))
  {}

  lemma BytePart(g: Geometry, blocks: seq<seq<byte>>, n: Inode, c: seq<byte>, offset: nat, at: nat, k: nat)
    requires GeometryOk(g) && Holds(g, blocks, n, c)
    requires at == Rem(offset, g.bs) && at <= k < g.bs && k - at + offset < n.size
    ensures c[k - at + offset] == ByteOf(blocks, PointerIn(blocks, n, DataSlot(Quot(offset, g.bs), g.P())), k)
  {
    WithinBlock(offset, k - at, g.bs);
    assert c[k - at + offset] == ByteAt(g, blocks, n, k - at + offset);
  }

  /** An in-file offset is backed by a data block other than block 0. */
  lemma DataBlockStands(g: Geometry, blocks: seq<seq<byte>>, n: Inode, offset: nat)
    requires GeometryOk(g) && FileOk(g, blocks, n) && offset < n.size
    ensures 0 < PointerIn(blocks, n, DataSlot(Quot(offset, g.bs), g.P())) < g.blockCount
  {
    DataBlockInChain(g, blocks, n, offset);
  }

  /** The m bytes of s at i are the m bytes of t at j. */
  ghost predicate SamePart(s: seq<byte>, i: nat, t: seq<byte>, j: nat, m: nat) {
    i + m <= |s| && j + m <= |t| && forall k: nat {:trigger s[k]} :: i <= k < i + m ==> s[k] == t[k - i + j]
  }

  /** One block of the file, cut to the part that the loop copies. */
  lemma BlockPart(g: Geometry, blocks: seq<seq<byte>>, n: Inode, c: seq<byte>, offset: nat, at: nat, m: nat, b: nat)
    requires GeometryOk(g) && Holds(g, blocks, n, c)
    requires at == Rem(offset, g.bs) && at + m <= g.bs && offset + m <= n.size
    requires b == PointerIn(blocks, n, DataSlot(Quot(offset, g.bs), g.P()))
    requires b < |blocks| && |blocks[b]| == g.bs
    ensures SamePart(blocks[b], at, c, offset, m)
  {
    forall k: nat | at <= k < at + m ensures blocks[b][k] == c[k - at + offset] {
      BytePart(g, blocks, n, c, offset, at, k);
    }
  }

  /** Reads the block behind an in-file offset; from place at on it holds the file's bytes. */
  method FetchBlock(n: Inode, offset: nat, buf: array<byte>, sb: Superblock, fs: File, ghost c: seq<byte>,
                    ghost at: nat, ghost m: nat)
    requires Laid(sb, fs.data) && FileOk(GeometryOf(sb), DataOf(sb, fs.data), n)
    requires Holds(GeometryOf(sb), DataOf(sb, fs.data), n, c)
    requires 0 < m && offset + m <= n.size && buf.Length == sb.blockSize
    requires at == Rem(offset, sb.blockSize) && at + m <= sb.blockSize
    modifies fs`pos, buf
    ensures SamePart(buf[..], at, c, offset, m)
  {
    ghost var g, blocks := GeometryOf(sb), DataOf(sb, fs.data);
    InFileBelowMax(n.size, offset, sb.blockSize);
    PointersInRange(g, blocks, n);
    PointedInFile(sb, fs.data, n, offset);
    var block := FsOffsetToBlock(offset, n, sb, fs);
    DataBlockStands(g, blocks, n, offset);
    ReadDataBlock(block, buf, sb, fs);
    BlockPart(g, blocks, n, c, offset, at, m, block);
  }

  /** Reads data block b into buf. */
  method ReadDataBlock(b: nat, buf: array<byte>, sb: Superblock, fs: File)
    requires Laid(sb, fs.data) && 0 < b < sb.datablockCount && buf.Length == sb.blockSize
    modifies fs`pos, buf
    ensures buf[..] == DataOf(sb, fs.data)[b]
  {
    DataBlockBytes(sb, fs.data, b);
    BlockRead(sb.blockSize, sb.datablocksStart + b, buf, fs);
    assert buf[..] == buf[..sb.blockSize];
  }

  /** From position k on nothing has changed. */
  ghost predicate Untouched(before: seq<byte>, after: seq<byte>, k: nat) {
    |before| == |after| && forall i: nat {:trigger after[i]} :: k <= i < |after| ==> after[i] == before[i]
  }

  /** The memcpy of one pass, behind the destOffset bytes that earlier passes delivered. */
  method Deliver(dest: array<byte>, destOffset: nat, buf: array<byte>, at: nat, m: nat, ghost c: seq<byte>,
                 ghost start: nat)
    requires buf != dest && destOffset + m <= dest.Length && at + m <= buf.Length
    requires SamePart(dest[..], 0, c, start, destOffset) && start + destOffset + m <= |c|
    requires SamePart(buf[..], at, c, start + destOffset, m)
    modifies dest
    ensures SamePart(dest[..], 0, c, start, destOffset + m)
    ensures Untouched(old(dest[..]), dest[..], destOffset + m)
  {
    ghost var before := dest[..];
    Memcpy(dest, destOffset, buf, at, m);
    assert dest[..destOffset] == before[..destOffset];
    forall i: nat | i < destOffset + m ensures dest[i] == c[start + i] {
      if i < destOffset {
        assert dest[i] == dest[..destOffset][i] == before[i];
      } else {
        assert dest[i] == dest[destOffset..destOffset + m][i - destOffset];
        assert dest[i] == buf[at..at + m][i - destOffset] == buf[..][at + i - destOffset];
      }
    }
    assert dest[destOffset + m..] == before[destOffset + m..];
    forall i: nat | destOffset + m <= i < dest.Length ensures dest[i] == before[i] {
      assert dest[i] == dest[destOffset + m..][i - destOffset - m];
    }
  }

  /** Where in its block the next chunk starts, and how long it is. */
  method ChunkAt(offset: nat, bytesLeft: nat, bs: nat) returns (startOffset: nat, m: nat)
    requires bs > 0 && bytesLeft > 0
    ensures startOffset == Rem(offset, bs)
    ensures 0 < m <= bytesLeft && startOffset + m <= bs
    ensures m == bytesLeft || startOffset + m == bs
  {
    QuotRemAreDivision(offset, bs);
    startOffset := offset % bs;
    var partialCount := bs - startOffset;
    m := if partialCount < bytesLeft then partialCount else bytesLeft;
  }

  /** count bytes of c from start on. */
  function Range(c: seq<byte>, start: nat, count: nat): (r: seq<byte>)
    requires start + count <= |c|
    ensures |r| == count
  {
    c[start..start + count]
  }

  /** The chunked copy loop of fs_read: the destination is filled from left to right without gap or overlap. */
  method CopyRange(n: Inode, start: nat, count: nat, sb: Superblock, dest: array<byte>, fs: File, ghost c: seq<byte>)
    requires Laid(sb, fs.data) && FileOk(GeometryOf(sb), DataOf(sb, fs.data), n)
    requires Holds(GeometryOf(sb), DataOf(sb, fs.data), n, c)
    requires start + count <= n.size && count <= dest.Length
    modifies fs`pos, dest
    ensures dest[..count] == Range(c, start, count)
    ensures dest[count..] == old(dest[count..])
  {
    var buf := new byte[sb.blockSize](_ => 0);
    var bytesLeft: nat, destOffset: nat, offset: nat := count, 0, start;
    ghost var before := dest[..];
    while bytesLeft > 0
      invariant 0 <= bytesLeft <= count
      invariant destOffset + bytesLeft == count && offset == start + destOffset
      invariant SamePart(dest[..], 0, c, start, destOffset)
      invariant Untouched(before, dest[..], count)
      decreases bytesLeft
    {
      var startOffset, m := ChunkAt(offset, bytesLeft, sb.blockSize);
      FetchBlock(n, offset, buf, sb, fs, c, startOffset, m);
      Deliver(dest, destOffset, buf, startOffset, m, c, start);
      bytesLeft, destOffset, offset := bytesLeft - m, destOffset + m, offset + m;
    }
  }

  /** What a lookup in the table of a consistent image finds. */
  lemma LookupInImage(sb: Superblock, d: seq<byte>, filename: seq<byte>)
    requires Laid(sb, d) && VolumeOk(GeometryOf(sb), ViewOf(sb, d))
    ensures var v := ViewOf(sb, d);
            var i := Lookup(v.table, KeyOf(filename));
            && |v.table| == sb.inodeCount
            && (i < |v.table| <==> KeyOf(filename) in FilesOf(sb, d))
            && (i < |v.table| ==>
                  && Used(v, i)
                  && v.table[i].number == i
                  && FileOk(GeometryOf(sb), DataOf(sb, d), v.table[i])
                  && FilesOf(sb, d)[KeyOf(filename)] == Contents(GeometryOf(sb), DataOf(sb, d), v.table[i])
                  && Holds(GeometryOf(sb), DataOf(sb, d), v.table[i], FilesOf(sb, d)[KeyOf(filename)]))
  {
    var v := ViewOf(sb, d);
    var i := Lookup(v.table, KeyOf(filename));
    if i < |v.table| {
      ContentsHeld(GeometryOf(sb), DataOf(sb, d), v.table[i]);
    }
    FilesByLookup(GeometryOf(sb), ViewOf(sb, d), KeyOf(filename));
  }

  /** Bytes start to start + count of the named file. */
  ghost function RangeIn(d: seq<byte>, filename: seq<byte>, start: nat, count: nat): (r: seq<byte>)
    requires Mounted(HeaderOf(d), d) && KeyOf(filename) in FilesIn(d)
    requires start + count <= |FilesIn(d)[KeyOf(filename)]|
    ensures |r| == count
  {
    Range(FilesIn(d)[KeyOf(filename)], start, count)
  }

  lemma SplitRange(c: seq<byte>, start: nat, a: nat, mid: nat, b: nat, total: nat)
    requires mid == start + a && total == a + b && start + total <= |c|
    ensures Range(c, start, a) + Range(c, mid, b) == Range(c, start, total)
  {}

  datatype ReadReply = Found | NotFound | BadSuperblock

  /** Loads the metadata and looks the name up: i is where the inode table has it. */
  method FindFile(filename: seq<byte>, sb: Superblock, fs: File, ghost i: nat) returns (found: bool, n: Inode)
    requires 0 !in filename && Laid(sb, fs.data)
    requires i == Lookup(TableOf(GeometryOf(sb), OffsetsOf(sb), fs.data), KeyOf(filename))
    modifies fs`pos
    ensures found <==> i < |TableOf(GeometryOf(sb), OffsetsOf(sb), fs.data)|
    ensures found ==> n == TableOf(GeometryOf(sb), OffsetsOf(sb), fs.data)[i]
  {
    var inodeBitmap, blockBitmap, itab := Load(sb, fs);
    var at := FsGetFileInode(filename, itab);
    if at < 0 {
      return false, ZeroInode();
    }
    return true, itab.inodes[at];
  }

  /** fs_read once the superblock is read: i is where the inode table has the name, c what is stored there. */
  method ReadFile(filename: seq<byte>, start: nat, count: nat, dest: array<byte>, sb: Superblock, fs: File,
                  ghost i: nat, ghost c: seq<byte>)
    returns (found: bool)
    requires 0 !in filename && Laid(sb, fs.data) && count <= dest.Length
    requires i == Lookup(TableOf(GeometryOf(sb), OffsetsOf(sb), fs.data), KeyOf(filename))
    requires i < |TableOf(GeometryOf(sb), OffsetsOf(sb), fs.data)| ==>
               && FileOk(GeometryOf(sb), DataOf(sb, fs.data), TableOf(GeometryOf(sb), OffsetsOf(sb), fs.data)[i])
               && Holds(GeometryOf(sb), DataOf(sb, fs.data), TableOf(GeometryOf(sb), OffsetsOf(sb), fs.data)[i], c)
               && start + count <= |c|
    modifies fs`pos, dest
    ensures found <==> i < |TableOf(GeometryOf(sb), OffsetsOf(sb), fs.data)|
    ensures found ==> dest[..count] == Range(c, start, count) && dest[count..] == old(dest[count..])
    ensures !found ==> dest[..] == old(dest[..])
  {
    var n;
    found, n := FindFile(filename, sb, fs, i);
    if !found {
      return;
    }
    CopyRange(n, start, count, sb, dest, fs, c);
  }

  /** Copies count bytes of the named file from offset start on to the beginning of dest. */
  method FsRead(filename: seq<byte>, start: nat, count: nat, dest: array<byte>, fs: File) returns (r: ReadReply)
    requires 0 !in filename && Openable(fs.data) && count <= dest.Length
    requires Accepted(HeaderOf(fs.data)) && KeyOf(filename) in FilesIn(fs.data) ==>
               start + count <= |FilesIn(fs.data)[KeyOf(filename)]|
    modifies fs`pos, dest
    ensures r == BadSuperblock <==> !Accepted(HeaderOf(fs.data))
    ensures r == Found <==> Accepted(HeaderOf(fs.data)) && KeyOf(filename) in FilesIn(fs.data)
    ensures r == Found ==> dest[..count] == RangeIn(fs.data, filename, start, count)
    ensures r == Found ==> dest[count..] == old(dest[count..])
    ensures r != Found ==> dest[..] == old(dest[..])
  {
    var ok, sb := SuperblockRead(fs);
    if !ok {
      return BadSuperblock;
    }
    LookupInImage(sb, fs.data, filename);
    ghost var i, files := Lookup(ViewOf(sb, fs.data).table, KeyOf(filename)), FilesIn(fs.data);
    var found := ReadFile(filename, start, count, dest, sb, fs, i,
                          if KeyOf(filename) in files then files[KeyOf(filename)] else []);
    return if found then Found else NotFound;
  }

  /** The image holds contents c under a name. */
  ghost predicate Stored(d: seq<byte>, filename: seq<byte>, c: seq<byte>) {
    0 !in filename && Mounted(HeaderOf(d), d) && KeyOf(filename) in FilesIn(d) && FilesIn(d)[KeyOf(filename)] == c
  }

  lemma StoredRange(d: seq<byte>, filename: seq<byte>, start: nat, count: nat, c: seq<byte>)
    requires Stored(d, filename, c) && start + count <= |c|
    ensures Openable(d) && Accepted(HeaderOf(d)) && KeyOf(filename) in FilesIn(d)
    ensures start + count <= |FilesIn(d)[KeyOf(filename)]|
    ensures RangeIn(d, filename, start, count) == Range(c, start, count)
  {
    assert FilesIn(d)[KeyOf(filename)] == c;
  }

  /** fs_read of a stored file. */
  method ReadStored(filename: seq<byte>, start: nat, count: nat, dest: array<byte>, fs: File, ghost c: seq<byte>)
    requires Stored(fs.data, filename, c) && start + count <= |c| && count <= dest.Length
    modifies fs`pos, dest
    ensures dest[..count] == Range(c, start, count)
  {
    StoredRange(fs.data, filename, start, count, c);
    ghost var s := RangeIn(fs.data, filename, start, count);
    var r := FsRead(filename, start, count, dest, fs);
    assert r == Found;
    assert dest[..count] == s;
  }

  method ReadPair(filename: seq<byte>, start: nat, a: nat, mid: nat, b: nat, first: array<byte>, second: array<byte>,
                  fs: File, ghost c: seq<byte>, ghost whole: seq<byte>)
    requires Stored(fs.data, filename, c)
    requires start + a == mid && mid + b <= |c| && a <= first.Length && b <= second.Length && first != second
    requires Range(c, start, a) + Range(c, mid, b) == whole
    modifies fs`pos, first, second
    ensures first[..a] + second[..b] == whole
  {
    ReadStored(filename, start, a, first, fs, c);
    ghost var s := first[..a];
    ReadStored(filename, mid, b, second, fs, c);
    assert first[..a] == s;
  }

  /** Two reads of adjoining ranges, into buffers of their own, give what one read of both gives. */
  method ReadsAddUp(filename: seq<byte>, start: nat, a: nat, mid: nat, b: nat, total: nat,
                    first: array<byte>, second: array<byte>, whole: array<byte>, fs: File, ghost c: seq<byte>)
    requires Stored(fs.data, filename, c)
    requires mid == start + a && total == a + b && start + total <= |c|
    requires a <= first.Length && b <= second.Length && total <= whole.Length
    requires first != second && first != whole && second != whole
    modifies fs`pos, first, second, whole
    ensures first[..a] + second[..b] == whole[..total]
  {
    SplitRange(c, start, a, mid, b, total);
    ReadStored(filename, start, total, whole, fs, c);
    ghost var u := whole[..total];
    ReadPair(filename, start, a, mid, b, first, second, fs, c, u);
    assert whole[..total] == u;
  }
}
