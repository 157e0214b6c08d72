/** The volume that the bytes of an image stand for, and what writes to the image do to it. */
module Images {
  import opened Bytes
  import opened Arith
  import opened Disk
  import opened Bitmaps
  import opened Layout
  import opened Inodes
  import opened Volumes

  /** Byte offsets of the four regions behind the superblock. */
  datatype Offsets = Offsets(inodeBitmap: nat, blockBitmap: nat, table: nat, data: nat)

  function OffsetsOf(sb: Superblock): Offsets {
    Offsets(Offset32(sb, sb.inodeBitmapStart), Offset32(sb, sb.datablockBitmapStart),
            Offset32(sb, sb.inodeStart), Offset32(sb, sb.datablocksStart))
  }

  function GeometryOf(sb: Superblock): Geometry {
    Geometry(sb.blockSize, sb.inodeCount, sb.datablockCount)
  }

  /** The regions are in order, do not overlap and end below 2 GB. */
  ghost predicate Ordered(g: Geometry, o: Offsets) {
    && GeometryOk(g)
    && g.bs <= 8192
    && SUPERBLOCK_SIZE <= o.inodeBitmap
    && o.inodeBitmap + BytesFor(g.inodeCount) <= o.blockBitmap
    && o.blockBitmap + BytesFor(g.blockCount) <= o.table
    && o.table + 64 * g.inodeCount <= o.data
    && o.data + Times(g.blockCount, g.bs) < 0x8000_0000
  }

  function BlockAt(g: Geometry, o: Offsets, b: nat): nat {
    o.data + Times(b, g.bs)
  }

  ghost predicate RightSize(g: Geometry, o: Offsets, d: seq<byte>) {
    Ordered(g, o) && |d| == BlockAt(g, o, g.blockCount)
  }

  lemma BlockInside(g: Geometry, o: Offsets, b: nat)
    requires b < g.blockCount
    ensures BlockAt(g, o, b) + g.bs <= BlockAt(g, o, g.blockCount)
    ensures b > 0 ==> BlockAt(g, o, 0) + g.bs <= BlockAt(g, o, b)
  {
    TimesMonotonic(b, g.blockCount, g.bs);
    if b > 0 {
      TimesMonotonic(0, b, g.bs);
    }
  }

  ghost function InodeMapOf(g: Geometry, o: Offsets, d: seq<byte>): seq<bool>
    requires RightSize(g, o, d)
  {
    Unpack(d[o.inodeBitmap..o.inodeBitmap + BytesFor(g.inodeCount)], g.inodeCount)
  }

  ghost function BlockMapOf(g: Geometry, o: Offsets, d: seq<byte>): seq<bool>
    requires RightSize(g, o, d)
  {
    Unpack(d[o.blockBitmap..o.blockBitmap + BytesFor(g.blockCount)], g.blockCount)
  }

  ghost function TableOf(g: Geometry, o: Offsets, d: seq<byte>): seq<Inode>
    requires RightSize(g, o, d)
  {
    DecodeTable(d[o.table..o.table + 64 * g.inodeCount], g.inodeCount)
  }

  ghost function BlocksOf(g: Geometry, o: Offsets, d: seq<byte>): (bs: seq<seq<byte>>)
    requires RightSize(g, o, d)
    ensures |bs| == g.blockCount
    ensures forall b :: 0 < b < g.blockCount ==> |bs[b]| == g.bs
  {
    assert forall b: nat :: b < g.blockCount ==> BlockAt(g, o, b) + g.bs <= |d| by {
      forall b: nat | b < g.blockCount ensures BlockAt(g, o, b) + g.bs <= |d| {
        BlockInside(g, o, b);
      }
    }
    seq(g.blockCount, b requires 0 <= b < g.blockCount =>
      if b == 0 then [] else d[BlockAt(g, o, b)..BlockAt(g, o, b) + g.bs])
  }

  ghost function View(g: Geometry, o: Offsets, d: seq<byte>): (v: Volume)
    requires RightSize(g, o, d)
    ensures Shaped(g, v) && WellFormedTable(v.table)
  {
    Volume(InodeMapOf(g, o, d), BlockMapOf(g, o, d), TableOf(g, o, d), BlocksOf(g, o, d))
  }

  /** Nothing before the data region differs. */
  ghost predicate SameMetadata(o: Offsets, d: seq<byte>, d': seq<byte>) {
    |d| == |d'| && o.data <= |d| && d[..o.data] == d'[..o.data]
  }

  /** Images that agree up to e agree on every part before e. */
  lemma SameRegion(d: seq<byte>, d': seq<byte>, e: nat, i: nat, j: nat)
    requires i <= j <= e <= |d| && e <= |d'| && d'[..e] == d[..e]
    ensures d'[i..j] == d[i..j]
  {
    assert d[i..j] == d[..e][i..j];
    assert d'[i..j] == d'[..e][i..j];
  }

  lemma SameRegionsSameMaps(g: Geometry, o: Offsets, d: seq<byte>, d': seq<byte>)
    requires RightSize(g, o, d) && RightSize(g, o, d')
    requires d'[o.inodeBitmap..o.inodeBitmap + BytesFor(g.inodeCount)] ==
             d[o.inodeBitmap..o.inodeBitmap + BytesFor(g.inodeCount)]
    requires d'[o.blockBitmap..o.blockBitmap + BytesFor(g.blockCount)] ==
             d[o.blockBitmap..o.blockBitmap + BytesFor(g.blockCount)]
    requires d'[o.table..o.table + 64 * g.inodeCount] == d[o.table..o.table + 64 * g.inodeCount]
    ensures View(g, o, d') == View(g, o, d).(blocks := BlocksOf(g, o, d'))
  {}

  lemma SameMetadataSameMaps(g: Geometry, o: Offsets, d: seq<byte>, d': seq<byte>)
    requires RightSize(g, o, d) && SameMetadata(o, d, d')
    ensures RightSize(g, o, d')
    ensures View(g, o, d') == View(g, o, d).(blocks := BlocksOf(g, o, d'))
    ensures d'[..SUPERBLOCK_SIZE] == d[..SUPERBLOCK_SIZE]
  {
    SameRegion(d, d', o.data, 0, SUPERBLOCK_SIZE);
    SameRegion(d, d', o.data, o.inodeBitmap, o.inodeBitmap + BytesFor(g.inodeCount));
    SameRegion(d, d', o.data, o.blockBitmap, o.blockBitmap + BytesFor(g.blockCount));
    SameRegion(d, d', o.data, o.table, o.table + 64 * g.inodeCount);
    SameRegionsSameMaps(g, o, d, d');
  }

  /** Writing one whole data block changes that block of the view and nothing else. */
  lemma WriteDataBlock(g: Geometry, o: Offsets, d: seq<byte>, b: nat, x: seq<byte>)
    requires RightSize(g, o, d) && 0 < b < g.blockCount && |x| == g.bs
    ensures var d' := Put(d, BlockAt(g, o, b), x);
            && RightSize(g, o, d')
            && SameMetadata(o, d, d')
            && BlocksOf(g, o, d') == BlocksOf(g, o, d)[b := x]
  {
    var d' := Put(d, BlockAt(g, o, b), x);
    PutReads(d, BlockAt(g, o, b), x);
    BlockInside(g, o, b);
    forall k | 0 < k < g.blockCount
      ensures BlocksOf(g, o, d')[k] == if k == b then x else BlocksOf(g, o, d)[k]
    {
      BlockInside(g, o, k);
      if k < b {
        TimesMonotonic(k, b, g.bs);
      } else if b < k {
        TimesMonotonic(b, k, g.bs);
      }
    }
  }

  // ----- the ordered commit -----

  /** The image after bytes x, y and z are written, with padding, at the starts of the three metadata regions. */
  function Committed(bs: nat, o: Offsets, d: seq<byte>, x: seq<byte>, y: seq<byte>, z: seq<byte>): seq<byte>
    requires bs > 0
  {
    var d1 := Put(d, o.inodeBitmap, WithPadding(x, bs));
    var d2 := Put(d1, o.blockBitmap, WithPadding(y, bs));
    Put(d2, o.table, WithPadding(z, bs))
  }

  /** r is d, possibly longer, with changes only from lo up to hi. */
  ghost predicate ChangedWithin(d: seq<byte>, r: seq<byte>, lo: nat, hi: nat) {
    && |d| <= |r|
    && (hi <= |d| ==> |r| == |d|)
    && (|r| <= |d| || |r| <= hi)
    && (forall i: nat {:trigger r[i]} :: i < lo && i < |d| ==> r[i] == d[i])
    && (forall i: nat {:trigger r[i]} :: hi <= i < |d| ==> r[i] == d[i])
  }

  lemma ChangesAddUp(d: seq<byte>, d1: seq<byte>, d2: seq<byte>, lo: nat, hi: nat, lo2: nat, hi2: nat)
    requires ChangedWithin(d, d1, lo, hi) && ChangedWithin(d1, d2, lo2, hi2) && lo <= lo2 && hi <= hi2
    ensures ChangedWithin(d, d2, lo, hi2)
  {
    forall i: nat | (i < lo || hi2 <= i) && i < |d| ensures d2[i] == d[i] {
      assert d2[i] == d1[i];
    }
  }

  /** r is d after x went to off; at most a block behind it changed too. */
  ghost predicate Wrote(d: seq<byte>, r: seq<byte>, off: nat, x: seq<byte>, bs: nat) {
    off + |x| <= |r| && r[off..off + |x|] == x && ChangedWithin(d, r, off, off + |x| + bs)
  }

  /** A padded write keeps its own bytes, everything before it, and everything a block or more behind it. */
  lemma PaddedWrite(d: seq<byte>, off: nat, x: seq<byte>, bs: nat)
    requires bs > 0
    ensures Wrote(d, Put(d, off, WithPadding(x, bs)), off, x, bs)
  {
    var w := WithPadding(x, bs);
    PutReads(d, off, w);
    var r := Put(d, off, w);
    assert r[off..off + |x|] == r[off..off + |w|][..|x|];
  }

  /** Bytes x, y and z stand at the starts of the three metadata regions. */
  ghost predicate RegionsHold(o: Offsets, d: seq<byte>, x: seq<byte>, y: seq<byte>, z: seq<byte>) {
    && o.inodeBitmap + |x| <= |d| && d[o.inodeBitmap..o.inodeBitmap + |x|] == x
    && o.blockBitmap + |y| <= |d| && d[o.blockBitmap..o.blockBitmap + |y|] == y
    && o.table + |z| <= |d| && d[o.table..o.table + |z|] == z
  }

  /** A change further back leaves the bytes at start alone. */
  lemma LaterChangeKeeps(d: seq<byte>, r: seq<byte>, start: nat, x: seq<byte>, lo: nat, hi: nat)
    requires start + |x| <= lo && start + |x| <= |d| && d[start..start + |x|] == x && ChangedWithin(d, r, lo, hi)
    ensures start + |x| <= |r| && r[start..start + |x|] == x
  {
    assert r[start..start + |x|] == d[start..start + |x|];
  }

  lemma WritesInOrder(bs: nat, o: Offsets, d: seq<byte>, d1: seq<byte>, d2: seq<byte>, d3: seq<byte>,
                      x: seq<byte>, y: seq<byte>, z: seq<byte>)
    requires Wrote(d, d1, o.inodeBitmap, x, bs) && Wrote(d1, d2, o.blockBitmap, y, bs) && Wrote(d2, d3, o.table, z, bs)
    requires o.inodeBitmap + |x| <= o.blockBitmap && o.blockBitmap + |y| <= o.table
    ensures RegionsHold(o, d3, x, y, z) && ChangedWithin(d, d3, o.inodeBitmap, o.table + |z| + bs)
  {
    LaterChangeKeeps(d1, d2, o.inodeBitmap, x, o.blockBitmap, o.blockBitmap + |y| + bs);
    LaterChangeKeeps(d2, d3, o.inodeBitmap, x, o.table, o.table + |z| + bs);
    LaterChangeKeeps(d2, d3, o.blockBitmap, y, o.table, o.table + |z| + bs);
    ChangesAddUp(d, d1, d2, o.inodeBitmap, o.inodeBitmap + |x| + bs, o.blockBitmap, o.blockBitmap + |y| + bs);
    ChangesAddUp(d, d2, d3, o.inodeBitmap, o.blockBitmap + |y| + bs, o.table, o.table + |z| + bs);
  }

  /** Three padded writes at increasing, non-overlapping places read back exactly although each may overrun its
      block: the next write repairs the overrun of the one before. Nothing before the first place changes, and
      nothing a block or more behind the end of the third. */
  lemma PaddedWritesInOrder(bs: nat, o: Offsets, d: seq<byte>, x: seq<byte>, y: seq<byte>, z: seq<byte>)
    requires bs > 0
    requires o.inodeBitmap + |x| <= o.blockBitmap && o.blockBitmap + |y| <= o.table
    ensures RegionsHold(o, Committed(bs, o, d, x, y, z), x, y, z)
    ensures ChangedWithin(d, Committed(bs, o, d, x, y, z), o.inodeBitmap, o.table + |z| + bs)
  {
    var d1 := Put(d, o.inodeBitmap, WithPadding(x, bs));
    var d2 := Put(d1, o.blockBitmap, WithPadding(y, bs));
    PaddedWrite(d, o.inodeBitmap, x, bs);
    PaddedWrite(d1, o.blockBitmap, y, bs);
    PaddedWrite(d2, o.table, z, bs);
    WritesInOrder(bs, o, d, d1, d2, Committed(bs, o, d, x, y, z), x, y, z);
  }

  /** On an image the commit's last overrun ends in data block 0: data blocks 1 and up stay as they are. */
  lemma CommitKeepsBlocks(g: Geometry, o: Offsets, d: seq<byte>, r: seq<byte>)
    requires RightSize(g, o, d) && |r| == |d|
    requires forall i :: o.data + g.bs <= i < |d| ==> r[i] == d[i]
    ensures BlocksOf(g, o, r) == BlocksOf(g, o, d)
  {
    forall b | 0 < b < g.blockCount ensures BlocksOf(g, o, r)[b] == BlocksOf(g, o, d)[b] {
      BlockInside(g, o, b);
    }
  }

  /** The view of an image by what its metadata regions hold. */
  lemma ViewByRegions(g: Geometry, o: Offsets, d: seq<byte>, x: seq<byte>, y: seq<byte>, t: seq<Inode>)
    requires RightSize(g, o, d)
    requires |x| == BytesFor(g.inodeCount) && |y| == BytesFor(g.blockCount)
    requires |t| == g.inodeCount && WellFormedTable(t)
    requires RegionsHold(o, d, x, y, EncodeTable(t))
    ensures View(g, o, d) == Volume(Unpack(x, g.inodeCount), Unpack(y, g.blockCount), t, BlocksOf(g, o, d))
  {
    TableRoundTrip(t);
    assert TableOf(g, o, d) == DecodeTable(EncodeTable(t), |t|);
  }

  /** The commit of fs_add and fs_del, seen on the volume: bitmaps and table are the ones written, and data blocks
      1 and up and the superblock are untouched. */
  lemma CommitView(g: Geometry, o: Offsets, d: seq<byte>, x: seq<byte>, y: seq<byte>, t: seq<Inode>)
    requires RightSize(g, o, d)
    requires |x| == BytesFor(g.inodeCount) && |y| == BytesFor(g.blockCount)
    requires |t| == g.inodeCount && WellFormedTable(t)
    ensures var r := Committed(g.bs, o, d, x, y, EncodeTable(t));
            && RightSize(g, o, r)
            && View(g, o, r) == Volume(Unpack(x, g.inodeCount), Unpack(y, g.blockCount), t, BlocksOf(g, o, d))
            && r[..SUPERBLOCK_SIZE] == d[..SUPERBLOCK_SIZE]
  {
    var r := Committed(g.bs, o, d, x, y, EncodeTable(t));
    CommitBytes(g, o, d, x, y, EncodeTable(t), r);
    CommitKeepsBlocks(g, o, d, r);
    ViewByRegions(g, o, r, x, y, t);
  }

  lemma CommitBytes(g: Geometry, o: Offsets, d: seq<byte>, x: seq<byte>, y: seq<byte>, z: seq<byte>, r: seq<byte>)
    requires RightSize(g, o, d)
    requires |x| == BytesFor(g.inodeCount) && |y| == BytesFor(g.blockCount) && |z| == 64 * g.inodeCount
    requires r == Committed(g.bs, o, d, x, y, z)
    ensures RightSize(g, o, r) && RegionsHold(o, r, x, y, z)
    ensures forall i :: o.data + g.bs <= i < |d| ==> r[i] == d[i]
    ensures r[..SUPERBLOCK_SIZE] == d[..SUPERBLOCK_SIZE]
  {
    BlockInside(g, o, 0);
    PaddedWritesInOrder(g.bs, o, d, x, y, z);
  }
}
