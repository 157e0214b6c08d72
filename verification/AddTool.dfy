/** Adding a file to an image: tools/fs_add.c. */
module AddTool {
  import opened Bytes
  import opened Bits
  import opened Arith
  import opened CStrings
  import opened Disk
  import opened Bitmaps
  import opened Layout
  import opened Inodes
  import opened Chains
  import opened Volumes
  import opened Adding
  import opened Steps
  import opened Runs
  import opened Filling
  import opened Images
  import opened Mounts

  /** Writes at most one block of data to data block b. */
  method WriteData(b: nat, x: seq<byte>, sb: Superblock, fs: File)
    requires Laid(sb, fs.data) && 0 < b < sb.datablockCount && 0 < |x| <= sb.blockSize
    modifies fs
    ensures Laid(sb, fs.data) && SameMetadata(OffsetsOf(sb), old(fs.data), fs.data)
    ensures DataOf(sb, fs.data) == DataOf(sb, old(fs.data))[b := x + Zeros(sb.blockSize - |x|)]
  {
    ghost var g, o := GeometryOf(sb), OffsetsOf(sb);
    ghost var y := x + Zeros(sb.blockSize - |x|);
    QuotRemUnique(sb.blockSize, sb.blockSize, 1, 0);
    assert WithPadding(x, sb.blockSize) == y;
    BlockInside(g, o, b);
    WriteDataBlock(g, o, fs.data, b, y);
    BlocksWrite(sb.blockSize, sb.datablocksStart + b, x, fs);
  }

  /** Takes the least free block and stores the next block of c there; l counts the blocks stored before. */
  method AllocBlockAndCopy(sb: Superblock, bitmap: Bitmap, dataLeft: nat, freeDatablocks: nat, c: seq<byte>, fs: File,
                           ghost l: nat, ghost l': nat)
    returns (blk: nat, left: nat, free: nat)
    requires Laid(sb, fs.data) && l' == l + 1
    requires bitmap.Valid() && bitmap.count == sb.datablockCount && bitmap.Bits()[0]
    requires freeDatablocks == |FreeList(bitmap.Bits())| > 0
    requires dataLeft == DataLeft(|c|, l, sb.blockSize) > 0
    modifies bitmap.bits, fs
    ensures blk == FreeList(old(bitmap.Bits()))[0] && 0 < blk < sb.datablockCount
    ensures bitmap.Bits() == old(bitmap.Bits())[blk := true]
    ensures free == freeDatablocks - 1 == |FreeList(bitmap.Bits())|
    ensures left == DataLeft(|c|, l', sb.blockSize)
    ensures Laid(sb, fs.data) && SameMetadata(OffsetsOf(sb), old(fs.data), fs.data)
    ensures Times(l, sb.blockSize) <= |c|
    ensures DataOf(sb, fs.data) == DataOf(sb, old(fs.data))[blk := Chunk(c, l, sb.blockSize)]
  {
    var bs := sb.blockSize;
    DataLeftMeans(|c|, l, bs);
    ReserveFirst(bitmap.Bits());
    var r := bitmap.ReserveFirstAvailableBit();
    blk := r;
    free := freeDatablocks - 1;
    var len := if dataLeft >= bs then bs else dataLeft;
    var position := |c| - dataLeft;
    var buf := c[position..position + len];
    assert Chunk(c, l, bs) == buf + Zeros(bs - len);
    WriteData(blk, buf, sb, fs);
    left := dataLeft - len;
  }

  /** The free list that the loops draw from, and the volume it belongs to. */
  ghost predicate Start(sb: Superblock, before: Volume, f: seq<nat>) {
    && f == FreeList(before.blockMap)
    && Ascending(f) && Pointers16(f)
    && |before.blockMap| == |before.blocks| == sb.datablockCount
    && before.blockMap != [] && before.blockMap[0]
    && (forall k :: 0 <= k < |f| ==> f[k] < sb.datablockCount)
  }

  /** The image and the bitmap as the loops leave them. */
  ghost predicate Working(sb: Superblock, d0: seq<byte>, d: seq<byte>) {
    Laid(sb, d) && SameMetadata(OffsetsOf(sb), d0, d)
  }

  lemma NextBlock(sb: Superblock, before: Volume, f: seq<nat>, k: nat, bits: seq<bool>, blocks: seq<seq<byte>>)
    requires Start(sb, before, f) && Taken(before, f, k, bits, blocks)
    ensures |bits| == |blocks| == sb.datablockCount > 0 && bits[0]
    ensures k < |f| ==> f[k] < sb.datablockCount && FreeList(bits) == f[k..] && FreeList(bits)[0] == f[k]
  {}

  /** AllocBlockAndCopy as a step of the loops: block l of the contents goes to block k of the free list. */
  method StoreNext(sb: Superblock, bitmap: Bitmap, dataLeft: nat, freeDatablocks: nat, c: seq<byte>, fs: File,
                   ghost before: Volume, ghost f: seq<nat>, ghost l: nat, ghost k: nat)
    returns (blk: nat, left: nat, free: nat, ghost l': nat, ghost k': nat)
    requires Laid(sb, fs.data) && Start(sb, before, f)
    requires bitmap.Valid() && bitmap.count == sb.datablockCount
    requires Progress(before, f, c, l, k, dataLeft, freeDatablocks, bitmap.Bits(), DataOf(sb, fs.data), sb.blockSize,
                      GeometryOf(sb).P())
    requires dataLeft > 0 && freeDatablocks > 0 && k == DataPos(l, GeometryOf(sb).P())
    modifies bitmap.bits, fs
    ensures Laid(sb, fs.data) && SameMetadata(OffsetsOf(sb), old(fs.data), fs.data)
    ensures k < |f| && blk == f[k] < 0x1_0000
    ensures Times(l, sb.blockSize) <= |c| && blk < sb.datablockCount
    ensures DataOf(sb, fs.data) == DataOf(sb, old(fs.data))[blk := Chunk(c, l, sb.blockSize)]
    ensures l' == l + 1 && k' == k + 1
    ensures Progress(before, f, c, l', k', left, free, bitmap.Bits(), DataOf(sb, fs.data), sb.blockSize,
                     GeometryOf(sb).P())
  {
    l', k' := l + 1, k + 1;
    ghost var bits, blocks := bitmap.Bits(), DataOf(sb, fs.data);
    NextBlock(sb, before, f, k, bits, blocks);
    ProgressByOne(before, f, c, l, k, dataLeft, freeDatablocks, bits, blocks, sb.blockSize, GeometryOf(sb).P(), l');
    blk, left, free := AllocBlockAndCopy(sb, bitmap, dataLeft, freeDatablocks, c, fs, l, l');
  }

  /** The inode with its direct pointer i set. */
  function SetDirect(n: Inode, i: nat, blk: nat): Inode
    requires i < |n.direct|
  {
    n.(direct := n.direct[i := blk])
  }

  lemma DirectPointersGrow(f: seq<nat>, i: nat)
    requires i < DIRECT && i < |f|
    ensures DirectPointers(f, i)[i := f[i]] == DirectPointers(f, i + 1)
  {}

  /** The loop over the four direct pointers. */
  method FillDirect(sb: Superblock, n: Inode, bitmap: Bitmap, dataLeft: nat, freeDatablocks: nat, c: seq<byte>,
                    fs: File, ghost before: Volume, ghost f: seq<nat>)
    returns (n': Inode, left: nat, free: nat, ghost l: nat)
    requires Laid(sb, fs.data) && Start(sb, before, f)
    requires bitmap.Valid() && bitmap.count == sb.datablockCount
    requires n.direct == DirectPointers(f, 0)
    requires Progress(before, f, c, 0, 0, dataLeft, freeDatablocks, bitmap.Bits(), DataOf(sb, fs.data), sb.blockSize,
                      GeometryOf(sb).P())
    modifies bitmap.bits, fs
    ensures Working(sb, old(fs.data), fs.data)
    ensures l <= DIRECT && (l == DIRECT || free == 0 || left == 0)
    ensures Progress(before, f, c, l, l, left, free, bitmap.Bits(), DataOf(sb, fs.data), sb.blockSize,
                     GeometryOf(sb).P())
    ensures n' == n.(direct := DirectPointers(f, l))
  {
    n', left, free, l := n, dataLeft, freeDatablocks, 0;
    var i := 0;
    while i < DIRECT && free > 0 && left > 0
      invariant 0 <= i <= DIRECT && l == i
      invariant Working(sb, old(fs.data), fs.data)
      invariant Progress(before, f, c, l, l, left, free, bitmap.Bits(), DataOf(sb, fs.data), sb.blockSize,
                         GeometryOf(sb).P())
      invariant n' == n.(direct := DirectPointers(f, l))
      decreases DIRECT - i
    {
      var blk;
      ghost var k;
      blk, left, free, l, k := StoreNext(sb, bitmap, left, free, c, fs, before, f, l, l);
      DirectPointersGrow(f, i);
      assert Rem(blk, 0x1_0000) == f[i];
      n' := SetDirect(n', i, Rem(blk, 0x1_0000));
      i := i + 1;
    }
  }

  /** The loop over one pointer block's leaves: the pointers gather in memory. */
  method FillLeaves(sb: Superblock, ghost q: nat, bitmap: Bitmap, dataLeft: nat, freeDatablocks: nat, c: seq<byte>,
                    fs: File, ghost before: Volume, ghost f: seq<nat>, ghost l0: nat, ghost k0: nat)
    returns (indirectPtr: array<nat>, left: nat, free: nat, ghost j: nat, ghost l: nat, ghost k: nat)
    requires Laid(sb, fs.data) && Start(sb, before, f)
    requires bitmap.Valid() && bitmap.count == sb.datablockCount
    requires l0 == LeafIndex(q, 0, GeometryOf(sb).P()) && k0 == IndirectPos(q, GeometryOf(sb).P()) + 1
    requires Progress(before, f, c, l0, k0, dataLeft, freeDatablocks, bitmap.Bits(), DataOf(sb, fs.data), sb.blockSize,
                      GeometryOf(sb).P())
    requires PointersHold(f, q, l0, DataOf(sb, fs.data), GeometryOf(sb).P())
    modifies bitmap.bits, fs
    ensures fresh(indirectPtr)
    ensures Working(sb, old(fs.data), fs.data)
    ensures l == LeafIndex(q, j, GeometryOf(sb).P()) && k == k0 + j
    ensures Progress(before, f, c, l, k, left, free, bitmap.Bits(), DataOf(sb, fs.data), sb.blockSize,
                     GeometryOf(sb).P())
    ensures PointersHold(f, q, l0, DataOf(sb, fs.data), GeometryOf(sb).P())
    ensures GroupInMemory(f, q, j, indirectPtr[..], GeometryOf(sb).P())
    ensures j == GeometryOf(sb).P() || free == 0 || left == 0
    ensures j == 0 ==> free == freeDatablocks && left == dataLeft
  {
    QuotRemAreDivision(sb.blockSize, 2);
    var p := sb.blockSize / 2;
    left, free, j, l, k := dataLeft, freeDatablocks, 0, l0, k0;
    indirectPtr := new nat[p](_ => 0);
    var i := 0;
    while i < p && free > 0 && left > 0
      invariant 0 <= i <= p && j == i && l == LeafIndex(q, i, p) && k == k0 + i
      invariant Working(sb, old(fs.data), fs.data)
      invariant Progress(before, f, c, l, k, left, free, bitmap.Bits(), DataOf(sb, fs.data), sb.blockSize, p)
      invariant PointersHold(f, q, l0, DataOf(sb, fs.data), p)
      invariant GroupInMemory(f, q, i, indirectPtr[..], p)
      invariant j == 0 ==> free == freeDatablocks && left == dataLeft
      decreases p - i
    {
      ghost var ptrs := indirectPtr[..];
      var blk;
      blk, left, free, l, k := StoreLeaf(sb, q, i, ptrs, bitmap, left, free, c, fs, before, f, l, k, l0);
      ghost var bits := bitmap.Bits();
      indirectPtr[i] := Rem(blk, 0x1_0000);
      assert bitmap.Bits() == bits;
      assert indirectPtr[..] == ptrs[i := blk];
      i, j := i + 1, j + 1;
    }
  }

  /** StoreNext under pointer block q. */
  method StoreLeaf(sb: Superblock, ghost q: nat, ghost i: nat, ghost ptrs: seq<nat>, bitmap: Bitmap, dataLeft: nat,
                   freeDatablocks: nat, c: seq<byte>, fs: File,
                   ghost before: Volume, ghost f: seq<nat>, ghost l: nat, ghost k: nat, ghost l0: nat)
    returns (blk: nat, left: nat, free: nat, ghost l': nat, ghost k': nat)
    requires Laid(sb, fs.data) && Start(sb, before, f)
    requires bitmap.Valid() && bitmap.count == sb.datablockCount
    requires Progress(before, f, c, l, k, dataLeft, freeDatablocks, bitmap.Bits(), DataOf(sb, fs.data), sb.blockSize,
                      GeometryOf(sb).P())
    requires dataLeft > 0 && freeDatablocks > 0 && i < GeometryOf(sb).P()
    requires l == LeafIndex(q, i, GeometryOf(sb).P()) && k == IndirectPos(q, GeometryOf(sb).P()) + 1 + i
    requires PointersHold(f, q, l0, DataOf(sb, fs.data), GeometryOf(sb).P())
    requires GroupInMemory(f, q, i, ptrs, GeometryOf(sb).P())
    modifies bitmap.bits, fs
    ensures Working(sb, old(fs.data), fs.data)
    ensures l' == l + 1 && k' == k + 1 && blk < 0x1_0000
    ensures Progress(before, f, c, l', k', left, free, bitmap.Bits(), DataOf(sb, fs.data), sb.blockSize,
                     GeometryOf(sb).P())
    ensures PointersHold(f, q, l0, DataOf(sb, fs.data), GeometryOf(sb).P())
    ensures GroupInMemory(f, q, i + 1, ptrs[i := blk], GeometryOf(sb).P())
  {
    ghost var blocks := DataOf(sb, fs.data);
    LeafOfIndex(q, i, GeometryOf(sb).P());
    blk, left, free, l', k' := StoreNext(sb, bitmap, dataLeft, freeDatablocks, c, fs, before, f, l, k);
    LeafByOne(f, q, i, ptrs, l0, c, blocks, GeometryOf(sb).P(), Chunk(c, l, sb.blockSize));
  }

  /** One pass of the loop over the indirect pointers: a pointer block and the data blocks it names. */
  method FillGroup(sb: Superblock, ghost q: nat, bitmap: Bitmap, dataLeft: nat, freeDatablocks: nat, c: seq<byte>,
                   fs: File, ghost before: Volume, ghost f: seq<nat>)
    returns (datablock: nat, left: nat, free: nat, ghost j: nat, ghost l: nat, ghost k: nat)
    requires Laid(sb, fs.data) && Start(sb, before, f)
    requires bitmap.Valid() && bitmap.count == sb.datablockCount
    requires 0 < dataLeft && 0 < freeDatablocks
    requires var p := GeometryOf(sb).P(); var l := LeafIndex(q, 0, p);
             && Progress(before, f, c, l, IndirectPos(q, p), dataLeft, freeDatablocks,
                         bitmap.Bits(), DataOf(sb, fs.data), sb.blockSize, p)
             && PointersHold(f, q, l, DataOf(sb, fs.data), p)
    modifies bitmap.bits, fs
    ensures Working(sb, old(fs.data), fs.data)
    ensures var p := GeometryOf(sb).P();
            && l == LeafIndex(q, j, p) && k == IndirectPos(q, p) + 1 + j && j <= p
            && IndirectPos(q, p) < |f| && datablock == f[IndirectPos(q, p)]
            && Progress(before, f, c, l, k, left, free, bitmap.Bits(), DataOf(sb, fs.data), sb.blockSize, p)
            && (j == p || free == 0 || left == 0)
            && (j > 0 ==> Settled(f, l, k, DataOf(sb, fs.data), p) && Groups(l, p) == q + 1)
            && (j == 0 ==> Stuck(l, k, left, free, p))
  {
    ghost var p := GeometryOf(sb).P();
    ghost var k0 := IndirectPos(q, p);
    ghost var bits, blocks := bitmap.Bits(), DataOf(sb, fs.data);
    NextBlock(sb, before, f, k0, bits, blocks);
    TakePointerBlock(before, f, c, LeafIndex(q, 0, p), k0, dataLeft, freeDatablocks, bits, blocks, sb.blockSize, p);
    var r := bitmap.ReserveFirstAvailableBit();
    datablock := r;
    var indirectPtr;
    ghost var l0 := LeafIndex(q, 0, p);
    indirectPtr, left, free, j, l, k := FillLeaves(sb, q, bitmap, dataLeft, freeDatablocks - 1, c, fs, before, f, l0,
                                                   k0 + 1);
    SettleGroup(before, f, q, j, indirectPtr[..], c, left, free, bitmap.Bits(), DataOf(sb, fs.data), sb.blockSize, p);
    WritePointers(datablock, indirectPtr[..], sb, fs);
  }

  /** Writes one pointer block. */
  method WritePointers(b: nat, ptrs: seq<nat>, sb: Superblock, fs: File)
    requires Laid(sb, fs.data) && 0 < b < sb.datablockCount
    requires |ptrs| == GeometryOf(sb).P() && forall r :: 0 <= r < |ptrs| ==> ptrs[r] < 0x1_0000
    modifies fs
    ensures Working(sb, old(fs.data), fs.data)
    ensures DataOf(sb, fs.data) == DataOf(sb, old(fs.data))[b := EncodePointers(ptrs)]
  {
    var x := EncodePointers(ptrs);
    assert x + Zeros(0) == x;
    WriteData(b, x, sb, fs);
  }

  /** The inode with its indirect pointer i set. */
  function SetIndirect(n: Inode, i: nat, datablock: nat): Inode
    requires i < |n.indirect|
  {
    n.(indirect := n.indirect[i := datablock])
  }

  /** Pass x of the loop over the indirect pointers, with the pointer to its block entered in the inode. */
  method StoreGroup(sb: Superblock, x: nat, n: Inode, bitmap: Bitmap, dataLeft: nat, freeDatablocks: nat, c: seq<byte>,
                    fs: File, ghost before: Volume, ghost f: seq<nat>, ghost l0: nat, ghost k0: nat)
    returns (n': Inode, left: nat, free: nat, ghost i: nat, ghost l: nat, ghost k: nat)
    requires Laid(sb, fs.data) && Start(sb, before, f)
    requires bitmap.Valid() && bitmap.count == sb.datablockCount
    requires 0 < dataLeft && 0 < freeDatablocks && x < INDIRECT
    requires Progress(before, f, c, l0, k0, dataLeft, freeDatablocks, bitmap.Bits(), DataOf(sb, fs.data), sb.blockSize,
                      GeometryOf(sb).P())
    requires BeforeGroup(f, x, l0, k0, dataLeft, freeDatablocks, DataOf(sb, fs.data), n.indirect, GeometryOf(sb).P())
    modifies bitmap.bits, fs
    ensures Working(sb, old(fs.data), fs.data)
    ensures i == x + 1 && l0 <= l && n'.(indirect := n.indirect) == n
    ensures Progress(before, f, c, l, k, left, free, bitmap.Bits(), DataOf(sb, fs.data), sb.blockSize,
                     GeometryOf(sb).P())
    ensures BeforeGroup(f, i, l, k, left, free, DataOf(sb, fs.data), n'.indirect, GeometryOf(sb).P())
  {
    var datablock;
    ghost var j;
    datablock, left, free, j, l, k := FillGroup(sb, x, bitmap, dataLeft, freeDatablocks, c, fs, before, f);
    AfterGroup(f, x, j, l, k, left, free, DataOf(sb, fs.data), n.indirect, GeometryOf(sb).P());
    n' := SetIndirect(n, x, Rem(datablock, 0x1_0000));
    i := x + 1;
  }

  /** The loop over the nine indirect pointers. */
  method FillIndirect(sb: Superblock, n: Inode, bitmap: Bitmap, dataLeft: nat, freeDatablocks: nat, c: seq<byte>,
                      fs: File, ghost before: Volume, ghost f: seq<nat>, ghost l0: nat)
    returns (n': Inode, left: nat, free: nat, ghost i: nat, ghost l: nat, ghost k: nat)
    requires Laid(sb, fs.data) && Start(sb, before, f)
    requires bitmap.Valid() && bitmap.count == sb.datablockCount
    requires Progress(before, f, c, l0, l0, dataLeft, freeDatablocks, bitmap.Bits(), DataOf(sb, fs.data), sb.blockSize,
                      GeometryOf(sb).P())
    requires BeforeGroup(f, 0, l0, l0, dataLeft, freeDatablocks, DataOf(sb, fs.data), n.indirect, GeometryOf(sb).P())
    modifies bitmap.bits, fs
    ensures Working(sb, old(fs.data), fs.data)
    ensures i <= INDIRECT && (left == 0 || free == 0 || i == INDIRECT)
    ensures l0 <= l && (dataLeft == 0 || freeDatablocks == 0 ==> l == l0)
    ensures Progress(before, f, c, l, k, left, free, bitmap.Bits(), DataOf(sb, fs.data), sb.blockSize,
                     GeometryOf(sb).P())
    ensures BeforeGroup(f, i, l, k, left, free, DataOf(sb, fs.data), n'.indirect, GeometryOf(sb).P())
    ensures n'.(indirect := n.indirect) == n
  {
    n', left, free, i, l, k := n, dataLeft, freeDatablocks, 0, l0, l0;
    var x := 0;
    while x < INDIRECT && free > 0 && left > 0
      invariant 0 <= x <= INDIRECT && i == x
      invariant l0 <= l
      invariant dataLeft == 0 || freeDatablocks == 0 ==> l == l0 && left == dataLeft && free == freeDatablocks
      invariant Working(sb, old(fs.data), fs.data)
      invariant Progress(before, f, c, l, k, left, free, bitmap.Bits(), DataOf(sb, fs.data), sb.blockSize,
                         GeometryOf(sb).P())
      invariant BeforeGroup(f, i, l, k, left, free, DataOf(sb, fs.data), n'.indirect, GeometryOf(sb).P())
      invariant n'.(indirect := n.indirect) == n
      decreases INDIRECT - x
    {
      n', left, free, i, l, k := StoreGroup(sb, x, n', bitmap, left, free, c, fs, before, f, l, k);
      x := x + 1;
    }
  }

  lemma StartOf(sb: Superblock, v: Volume)
    requires VolumeOk(GeometryOf(sb), v)
    ensures Start(sb, v, FreeList(v.blockMap))
  {
    FreeFromMeans(v.blockMap, 0);
    var f := FreeList(v.blockMap);
    assert forall k :: 0 <= k < |f| ==> f[k] in f;
  }

  lemma ProgressAtStart(g: Geometry, v: Volume, c: seq<byte>)
    requires GeometryOk(g) && Shaped(g, v) && Pointers16(FreeList(v.blockMap))
    ensures var f := FreeList(v.blockMap);
            Progress(v, f, c, 0, 0, |c|, |f|, v.blockMap, v.blocks, g.bs, g.P())
  {
    var f := FreeList(v.blockMap);
    assert f[..0] == [] && f[0..] == f;
    assert Mark(v.blockMap, f[..0]) == v.blockMap;
  }

  lemma DirectPointersDone(f: seq<nat>, l: nat, m: nat)
    requires l == m || (DIRECT <= l && DIRECT <= m)
    ensures DirectPointers(f, l) == DirectPointers(f, m)
  {}

  /** Both allocation loops: on success the file stands in the least free blocks, its pointers in the inode. */
  method FillFile(sb: Superblock, n: Inode, bitmap: Bitmap, c: seq<byte>, fs: File, ghost v: Volume)
    returns (n': Inode, ok: bool)
    requires Laid(sb, fs.data) && VolumeOk(GeometryOf(sb), v)
    requires bitmap.Valid() && bitmap.count == sb.datablockCount
    requires bitmap.Bits() == v.blockMap && DataOf(sb, fs.data) == v.blocks
    requires n.direct == ZeroInode().direct && n.indirect == ZeroInode().indirect
    modifies bitmap.bits, fs
    ensures Working(sb, old(fs.data), fs.data)
    ensures var g := GeometryOf(sb);
            && (ok <==> SizeFits(g, |c|) && BlocksNeeded(g, |c|) <= |FreeList(v.blockMap)|)
            && (ok ==>
                  var d, f := BlockCount(|c|, g.bs), TakenBlocks(g, v, |c|);
                  && Pointers16(f)
                  && bitmap.Bits() == Mark(v.blockMap, f)
                  && BlocksHold(f, d, c, DataOf(sb, fs.data), g.bs, g.P())
                  && (forall b :: 0 <= b < g.blockCount && b !in f ==> DataOf(sb, fs.data)[b] == v.blocks[b])
                  && n' == n.(direct := DirectPointers(f, d), indirect := IndirectPointers(f, d, g.P())))
            && (forall b :: 0 <= b < g.blockCount && v.blockMap[b] ==> DataOf(sb, fs.data)[b] == v.blocks[b])
            && DataReached(FreeList(v.blockMap), c, DataOf(sb, fs.data), g.bs, g.P())
  {
    ghost var g := GeometryOf(sb);
    ghost var f := FreeList(v.blockMap);
    StartOf(sb, v);
    ProgressAtStart(g, v, c);
    var dataLeft := |c|;
    var freeDatablocks := bitmap.GetFreeBits();
    assert n.direct == DirectPointers(f, 0) && n.indirect == IndirectPointers(f, 0, g.P());
    ghost var l, i, k;
    n', dataLeft, freeDatablocks, l := FillDirect(sb, n, bitmap, dataLeft, freeDatablocks, c, fs, v, f);
    BeforeFirstGroup(f, l, dataLeft, freeDatablocks, DataOf(sb, fs.data), n'.indirect, g.P());
    ghost var direct := l;
    n', dataLeft, freeDatablocks, i, l, k := FillIndirect(sb, n', bitmap, dataLeft, freeDatablocks, c, fs, v, f, l);
    AfterLoops(v, f, c, i, l, k, dataLeft, freeDatablocks, bitmap.Bits(), DataOf(sb, fs.data), n'.indirect, g.bs,
               g.P());
    ok := dataLeft == 0;
    FreeFromMeans(v.blockMap, 0);
    if ok {
      PointersOfTaken(f, l, g.P());
      DirectPointersDone(f, direct, l);
    }
  }

  datatype AddReply = Added | FileExists | NoFreeInode | NotEnoughBlocks | InvalidImage

  /** A name field after strncpy of 31 characters; its last byte stays. */
  method NameOver(before: seq<byte>, filename: seq<byte>) returns (name: seq<byte>)
    requires |before| == NAME_LENGTH && 0 !in filename
    ensures name == Padded(filename, NAME_LENGTH - 1) + before[NAME_LENGTH - 1..]
    ensures |name| == 32 && name[31] == before[31]
    ensures forall k :: 0 <= k < 31 ==> name[k] == if k < |filename| then filename[k] else 0
  {
    var field := new byte[NAME_LENGTH](i requires 0 <= i < NAME_LENGTH => before[i]);
    assert field[..] == before;
    Strncpy(field, filename + [0], NAME_LENGTH - 1);
    UpToNulSplit(filename + [0], |filename|);
    assert (filename + [0])[..|filename|] == filename;
    assert UpToNul(filename + [0]) == filename;
    name := field[..];
    assert name == field[..NAME_LENGTH - 1] + field[NAME_LENGTH - 1..];
  }

  lemma TableStaysWellFormed(t: seq<Inode>, i: nat, n: Inode)
    requires WellFormedTable(t) && i < |t| && WellFormedInode(n)
    ensures WellFormedTable(t[i := n])
  {}

  lemma WorkingKeepsHeader(sb: Superblock, d: seq<byte>, d': seq<byte>)
    requires Laid(sb, d) && Working(sb, d, d')
    ensures HeaderBytes(d') == HeaderBytes(d)
  {
    SameMetadataSameMaps(GeometryOf(sb), OffsetsOf(sb), d, d');
    SameHeader(d, d');
  }

  /** An add that runs out of blocks: the metadata on disk is untouched and only free blocks are written. */
  lemma RefusedOnDisk(sb: Superblock, d: seq<byte>, d': seq<byte>)
    requires Laid(sb, d) && Working(sb, d, d')
    requires forall b ::
               0 <= b < sb.datablockCount && ViewOf(sb, d).blockMap[b] ==> DataOf(sb, d')[b] == DataOf(sb, d)[b]
    ensures Laid(sb, d') && IsRefused(GeometryOf(sb), ViewOf(sb, d), ViewOf(sb, d'))
    ensures HeaderBytes(d') == HeaderBytes(d)
  {
    SameMetadataSameMaps(GeometryOf(sb), OffsetsOf(sb), d, d');
    WorkingKeepsHeader(sb, d, d');
  }

  /** The inode, bitmaps and blocks that a successful add commits are the ones the closed form asks for. */
  lemma AddedOnDisk(g: Geometry, v: Volume, filename: seq<byte>, c: seq<byte>, v': Volume, blocks: seq<seq<byte>>)
    requires VolumeOk(g, v) && CanAdd(g, v, filename, |c|) && Pointers16(TakenBlocks(g, v, |c|))
    requires |blocks| == g.blockCount && Shaped(g, v')
    requires var i, d, f := FreeList(v.inodeMap)[0], BlockCount(|c|, g.bs), TakenBlocks(g, v, |c|);
             && i < g.inodeCount
             && BlocksHold(f, d, c, blocks, g.bs, g.P())
             && (forall b :: 0 <= b < g.blockCount && b !in f ==> blocks[b] == v.blocks[b])
             && v' == Volume(v.inodeMap[i := true], Mark(v.blockMap, f),
                             v.table[i := NewInode(i, filename, |c|, f, d, g.P())], blocks)
    ensures IsAdded(g, v, filename, c, v')
  {}

  lemma NewInodeFits(i: nat, filename: seq<byte>, size: nat, f: seq<nat>, d: nat, p: nat)
    requires p > 0 && i < 0x1_0000 && size < 0x1_0000_0000 && Pointers16(f)
    ensures WellFormedInode(NewInode(i, filename, size, f, d, p))
  {}

  /** The end of a successful add: the inode goes into the table, bitmaps and table are committed. */
  method CommitFile(i: nat, n: Inode, filename: seq<byte>, inodeBitmap: Bitmap, blockBitmap: Bitmap, itab: InodeTable,
                    sb: Superblock, fs: File, ghost c: seq<byte>, ghost v: Volume, ghost f: seq<nat>, ghost n0: Inode)
    requires Laid(sb, fs.data) && WellFormedTable(v.table)
    requires i < |v.table| == sb.inodeCount == |v.inodeMap|
    requires VolumeOk(GeometryOf(sb), v) && CanAdd(GeometryOf(sb), v, filename, |c|) && |c| < 0x8000_0000
    requires f == TakenBlocks(GeometryOf(sb), v, |c|) && Pointers16(f) && i == FreeList(v.inodeMap)[0]
    requires n == NewInode(i, filename, |c|, f, BlockCount(|c|, sb.blockSize), GeometryOf(sb).P())
    requires inodeBitmap.Valid() && inodeBitmap.count == sb.inodeCount && inodeBitmap.Bits() == v.inodeMap[i := true]
    requires blockBitmap.Valid() && blockBitmap.count == sb.datablockCount && blockBitmap.Bits() == Mark(v.blockMap, f)
    requires itab.inodes[..] == v.table[i := n0]
    requires BlocksHold(f, BlockCount(|c|, sb.blockSize), c, DataOf(sb, fs.data), sb.blockSize, GeometryOf(sb).P())
    requires forall b :: 0 <= b < sb.datablockCount && b !in f ==> DataOf(sb, fs.data)[b] == v.blocks[b]
    modifies itab.inodes, fs
    ensures Laid(sb, fs.data) && HeaderBytes(fs.data) == HeaderBytes(old(fs.data))
    ensures IsAdded(GeometryOf(sb), v, filename, c, ViewOf(sb, fs.data))
  {
    ghost var blocks := DataOf(sb, fs.data);
    itab.inodes[i] := n;
    assert itab.inodes[..] == v.table[i := n];
    NewInodeFits(i, filename, |c|, f, BlockCount(|c|, sb.blockSize), GeometryOf(sb).P());
    TableStaysWellFormed(v.table, i, n);
    CommitVolume(inodeBitmap, blockBitmap, itab, sb, fs);
    AddedOnDisk(GeometryOf(sb), v, filename, c, ViewOf(sb, fs.data), blocks);
  }

  /** An add of c to volume v ran out of blocks: no metadata byte has changed, and the data blocks of c for which there
      were pointers and free blocks are written. */
  ghost predicate GaveUp(sb: Superblock, v: Volume, c: seq<byte>, d0: seq<byte>, d: seq<byte>) {
    && Laid(sb, d) && SameMetadata(OffsetsOf(sb), d0, d)
    && DataReached(FreeList(v.blockMap), c, DataOf(sb, d), sb.blockSize, GeometryOf(sb).P())
  }

  /** fs_add from the reserved inode on: name, size, allocation loops, commit. */
  method StoreFile(i: nat, filename: seq<byte>, c: seq<byte>, inodeBitmap: Bitmap, blockBitmap: Bitmap,
                   itab: InodeTable, sb: Superblock, fs: File, ghost v: Volume)
    returns (ok: bool)
    requires Laid(sb, fs.data) && VolumeOk(GeometryOf(sb), v) && v == ViewOf(sb, fs.data) && WellFormedTable(v.table)
    requires 0 !in filename && |c| < 0x8000_0000
    requires Lookup(v.table, KeyOf(filename)) == |v.table|
    requires FreeList(v.inodeMap) != [] && i == FreeList(v.inodeMap)[0] < sb.inodeCount
    requires inodeBitmap.Valid() && inodeBitmap.count == sb.inodeCount && inodeBitmap.Bits() == v.inodeMap[i := true]
    requires blockBitmap.Valid() && blockBitmap.count == sb.datablockCount && blockBitmap.Bits() == v.blockMap
    requires inodeBitmap.bits != blockBitmap.bits
    requires itab.inodes[..] == v.table[i := v.table[i].(number := i)]
    modifies blockBitmap.bits, itab.inodes, fs
    ensures Laid(sb, fs.data) && HeaderBytes(fs.data) == HeaderBytes(old(fs.data))
    ensures !ok ==> GaveUp(sb, v, c, old(fs.data), fs.data)
    ensures VolumeStep(GeometryOf(sb), v, Add(filename, c), ViewOf(sb, fs.data), ok)
  {
    ghost var g := GeometryOf(sb);
    ghost var d0 := fs.data;
    ReservedInode(g, v);
    var n := itab.inodes[i];
    assert n == v.table[i].(number := i);
    var name := NameOver(n.name, filename);
    assert n.name[NAME_LENGTH - 1..] == [0];
    n := n.(name := name, size := |c|);
    itab.inodes[i] := n;
    ghost var n0 := n;
    n, ok := FillFile(sb, n, blockBitmap, c, fs, v);
    WorkingKeepsHeader(sb, d0, fs.data);
    if !ok {
      RefusedOnDisk(sb, d0, fs.data);
      return;
    }
    assert itab.inodes[..] == v.table[i := n0];
    CommitFile(i, n, filename, inodeBitmap, blockBitmap, itab, sb, fs, c, v, TakenBlocks(g, v, |c|), n0);
  }

  /** file_exists */
  method FileExistsIn(filename: seq<byte>, itab: InodeTable) returns (r: bool)
    requires 0 !in filename && WellFormedTable(itab.inodes[..])
    ensures r <==> Lookup(itab.inodes[..], KeyOf(filename)) < itab.inodes.Length
  {
    assert forall i :: 0 <= i < itab.inodes.Length ==> itab.inodes[i] == itab.inodes[..][i];
    var x := FsGetFileInode(filename, itab);
    r := x >= 0;
  }

  /** fs_add once the superblock is read. */
  method AddToVolume(filename: seq<byte>, c: seq<byte>, sb: Superblock, fs: File) returns (r: AddReply)
    requires Laid(sb, fs.data) && VolumeOk(GeometryOf(sb), ViewOf(sb, fs.data)) && 0 !in filename && |c| < 0x8000_0000
    modifies fs
    ensures Laid(sb, fs.data) && HeaderBytes(fs.data) == HeaderBytes(old(fs.data))
    ensures VolumeStep(GeometryOf(sb), ViewOf(sb, old(fs.data)), Add(filename, c), ViewOf(sb, fs.data), r == Added)
    ensures r == FileExists <==> Lookup(ViewOf(sb, old(fs.data)).table, KeyOf(filename)) < sb.inodeCount
    ensures r == NoFreeInode <==> r != FileExists && FreeList(ViewOf(sb, old(fs.data)).inodeMap) == []
    ensures r != InvalidImage
    ensures r == FileExists || r == NoFreeInode ==> fs.data == old(fs.data)
    ensures r == NotEnoughBlocks ==> GaveUp(sb, ViewOf(sb, old(fs.data)), c, old(fs.data), fs.data)
  {
    ghost var v := ViewOf(sb, fs.data);
    var inodeBitmap, blockBitmap, itab := Load(sb, fs);
    var found := FileExistsIn(filename, itab);
    if found {
      return FileExists;
    }
    if FreeList(v.inodeMap) != [] {
      ReservedInode(GeometryOf(sb), v);
    }
    var i := InodeReserveFirstAvailable(itab, inodeBitmap);
    if i < 0 {
      return NoFreeInode;
    }
    var ok := StoreFile(i, filename, c, inodeBitmap, blockBitmap, itab, sb, fs, v);
    return if ok then Added else NotEnoughBlocks;
  }

  lemma FilesAfterAdd(g: Geometry, a: Store, filename: seq<byte>, c: seq<byte>)
    requires g.bs > 1
    ensures var (b, ok) := StoreStep(g, a, Add(filename, c));
            b.files == if ok then a.files[KeyOf(filename) := c] else a.files
  {}

  /** What a step of the volume means for the stored files. */
  lemma AddOutcome(sb: Superblock, d: seq<byte>, d': seq<byte>, filename: seq<byte>, c: seq<byte>, ok: bool)
    requires Mounted(sb, d) && ValidOp(Add(filename, c)) && ToolStep(d, Add(filename, c), d', ok)
    ensures Mounted(sb, d')
    ensures (StoreIn(d'), ok) == StoreStep(GeometryOf(sb), StoreIn(d), Add(filename, c))
    ensures FilesIn(d') == if ok then FilesIn(d)[KeyOf(filename) := c] else FilesIn(d)
  {
    ToolStepRefines(sb, d, Add(filename, c), d', ok);
    FilesAfterAdd(GeometryOf(sb), StoreIn(d), filename, c);
  }

  /** fs_add: the file is stored exactly when the name is new and inodes, pointers and blocks suffice; otherwise the
      stored files stay as they are. */
  method AddFile(filename: seq<byte>, c: seq<byte>, fs: File) returns (r: AddReply)
    requires Openable(fs.data) && 0 !in filename && |c| < 0x8000_0000
    modifies fs
    ensures r == InvalidImage <==> !Accepted(HeaderOf(old(fs.data)))
    ensures r == InvalidImage || r == FileExists || r == NoFreeInode ==> fs.data == old(fs.data)
    ensures r == FileExists <==> r != InvalidImage && KeyOf(filename) in FilesIn(old(fs.data))
    ensures r == NoFreeInode <==>
              && r != InvalidImage && KeyOf(filename) !in FilesIn(old(fs.data))
              && StoreIn(old(fs.data)).freeInodes == 0
    ensures r == NotEnoughBlocks ==>
              var sb := HeaderOf(old(fs.data));
              GaveUp(sb, ViewOf(sb, old(fs.data)), c, old(fs.data), fs.data)
    ensures r != InvalidImage ==> ToolStep(old(fs.data), Add(filename, c), fs.data, r == Added)
    ensures r != InvalidImage ==> HeaderOf(fs.data) == HeaderOf(old(fs.data)) && Mounted(HeaderOf(fs.data), fs.data)
    ensures r != InvalidImage ==>
              (StoreIn(fs.data), r == Added) ==
              StoreStep(GeometryOf(HeaderOf(fs.data)), StoreIn(old(fs.data)), Add(filename, c))
    ensures r == Added ==> FilesIn(fs.data) == FilesIn(old(fs.data))[KeyOf(filename) := c]
    ensures r != Added && r != InvalidImage ==> FilesIn(fs.data) == FilesIn(old(fs.data))
  {
    var ok, sb := SuperblockRead(fs);
    if !ok {
      return InvalidImage;
    }
    ghost var d := fs.data;
    FilesByLookup(GeometryOf(sb), ViewOf(sb, d), KeyOf(filename));
    r := AddToVolume(filename, c, sb, fs);
    AddOutcome(sb, d, fs.data, filename, c, r == Added);
  }
}
