/** Creating an image: tools/fs_create.c. */
module CreateTool {
  import opened Bytes
  import opened Arith
  import opened CStrings
  import opened Disk
  import opened Bitmaps
  import opened Layout
  import opened Inodes
  import opened Volumes
  import opened Runs
  import opened Images
  import opened Mounts

  /** Writes one empty data block. */
  method ClearBlock(sb: Superblock, i: nat, fs: File)
    requires 0 < sb.blockSize && i < sb.datablockCount
    modifies fs
    ensures Offset32(sb, sb.datablocksStart + i) < 0x8000_0000 ==>
              fs.data == Put(old(fs.data), Offset32(sb, sb.datablocksStart + i), Zeros(sb.blockSize))
  {
    var emptyBlock := Zeros(sb.blockSize);
    QuotRemUnique(sb.blockSize, sb.blockSize, 1, 0);
    assert WithPadding(emptyBlock, sb.blockSize) == emptyBlock;
    BlocksWrite(sb.blockSize, sb.datablocksStart + i, emptyBlock, fs);
  }

  /** The metadata is written: at least kept bytes, and no more than the padding into data block 0. */
  ghost predicate MetadataWritten(sb: Superblock, d0: seq<byte>, kept: nat) {
    Navigable(sb) && kept <= |d0| <= BlockAt(GeometryOf(sb), OffsetsOf(sb), 1) && kept <= OffsetsOf(sb).data
  }

  /** Every data block but the reserved one is zero. */
  ghost predicate DataZero(sb: Superblock, d: seq<byte>)
    requires RightSize(GeometryOf(sb), OffsetsOf(sb), d)
  {
    forall b :: 0 < b < sb.datablockCount ==> DataOf(sb, d)[b] == Zeros(sb.blockSize)
  }

  /** All data blocks have 32-bit offsets below 2 GB, one after the other. */
  ghost predicate InReach(sb: Superblock) {
    OffsetsOf(sb).data + Times(sb.datablockCount, sb.blockSize) < 0x8000_0000
  }

  lemma BlockInReach(sb: Superblock, i: nat)
    requires InReach(sb) && i < sb.datablockCount
    ensures Offset32(sb, sb.datablocksStart + i) == OffsetsOf(sb).data + Times(i, sb.blockSize) < 0x8000_0000
  {
    TimesMonotonic(i, sb.datablockCount, sb.blockSize);
    DataBlocksInOrder(sb, i);
  }

  /** i blocks of zeros are written from place at on. */
  ghost predicate ZerosSoFar(d0: seq<byte>, d: seq<byte>, at: nat, bs: nat, i: nat) {
    if i == 0 then d == d0 else Written(d0, d, at, [], Times(i, bs))
  }

  lemma OneMoreBlock(d0: seq<byte>, d: seq<byte>, at: nat, bs: nat, i: nat)
    requires ZerosSoFar(d0, d, at, bs, i)
    ensures ZerosSoFar(d0, Put(d, at + Times(i, bs), Zeros(bs)), at, bs, i + 1)
  {
    PutReads(d, at + Times(i, bs), Zeros(bs));
  }

  /** The loop that clears the data blocks; it gives the image its final length. */
  method ClearDatablocks(sb: Superblock, fs: File)
    requires 0 < sb.blockSize
    modifies fs
    ensures InReach(sb) ==>
              ZerosSoFar(old(fs.data), fs.data, OffsetsOf(sb).data, sb.blockSize, sb.datablockCount)
  {
    ghost var d0, at := fs.data, OffsetsOf(sb).data;
    var i := 0;
    while i < sb.datablockCount
      invariant 0 <= i <= sb.datablockCount
      invariant InReach(sb) ==> ZerosSoFar(d0, fs.data, at, sb.blockSize, i)
    {
      if InReach(sb) {
        BlockInReach(sb, i);
        OneMoreBlock(d0, fs.data, at, sb.blockSize, i);
      }
      ClearBlock(sb, i, fs);
      i := i + 1;
    }
  }

  /** Behind complete metadata that is what the image lacks. */
  lemma AllCleared(sb: Superblock, d0: seq<byte>, d: seq<byte>, kept: nat)
    requires MetadataWritten(sb, d0, kept)
    requires ZerosSoFar(d0, d, OffsetsOf(sb).data, sb.blockSize, sb.datablockCount)
    ensures RightSize(GeometryOf(sb), OffsetsOf(sb), d)
    ensures kept <= |d| && d[..kept] == d0[..kept]
    ensures DataZero(sb, d)
  {
    var g, o := GeometryOf(sb), OffsetsOf(sb);
    TimesMonotonic(1, sb.datablockCount, sb.blockSize);
    forall b: nat | 0 < b < sb.datablockCount ensures DataOf(sb, d)[b] == Zeros(sb.blockSize) {
      BlockInside(g, o, b);
    }
  }

  // ----- the image as created -----

  /** The bitmap fs_create writes: bit 0 set, the others clear. */
  lemma FreshBitmap(b: seq<bool>, count: nat)
    requires 0 < count && b == Unpack(Zeros(BytesFor(count)), count)[0 := true]
    ensures forall i :: 0 <= i < count ==> b[i] == (i == 0)
  {
    forall i | 0 <= i < count ensures !Unpack(Zeros(BytesFor(count)), count)[i] {
      NoBits(i % 8);
    }
  }

  /** The image after superblock, both bitmaps and the table are written. */
  ghost predicate HasMetadata(sb: Superblock, d: seq<byte>, x: seq<byte>, y: seq<byte>, z: seq<byte>) {
    var o := OffsetsOf(sb);
    && |x| == BytesFor(sb.inodeCount) && |y| == BytesFor(sb.datablockCount) && |z| == 64 * sb.inodeCount
    && SUPERBLOCK_SIZE <= o.inodeBitmap && o.inodeBitmap + |x| <= o.blockBitmap && o.blockBitmap + |y| <= o.table
    && HeaderOf(d) == sb
    && RegionsHold(o, d, x, y, z)
  }

  lemma RegionsKept(o: Offsets, d: seq<byte>, d': seq<byte>, x: seq<byte>, y: seq<byte>, z: seq<byte>)
    requires RegionsHold(o, d, x, y, z)
    requires o.inodeBitmap + |x| <= o.blockBitmap && o.blockBitmap + |y| <= o.table
    requires o.table + |z| <= |d'| && d'[..o.table + |z|] == d[..o.table + |z|]
    ensures RegionsHold(o, d', x, y, z)
  {
    var e := o.table + |z|;
    SameRegion(d, d', e, o.inodeBitmap, o.inodeBitmap + |x|);
    SameRegion(d, d', e, o.blockBitmap, o.blockBitmap + |y|);
    SameRegion(d, d', e, o.table, e);
  }

  lemma MetadataKept(sb: Superblock, d: seq<byte>, d': seq<byte>, x: seq<byte>, y: seq<byte>, z: seq<byte>)
    requires HasMetadata(sb, d, x, y, z)
    requires OffsetsOf(sb).table + |z| <= |d'| && d'[..OffsetsOf(sb).table + |z|] == d[..OffsetsOf(sb).table + |z|]
    ensures HasMetadata(sb, d', x, y, z)
  {
    RegionsKept(OffsetsOf(sb), d, d', x, y, z);
    SameRegion(d, d', OffsetsOf(sb).table + |z|, 0, SUPERBLOCK_SIZE);
    SameHeader(d, d');
  }

  lemma MetadataByCommit(sb: Superblock, d: seq<byte>, x: seq<byte>, y: seq<byte>, z: seq<byte>)
    requires Navigable(sb) && HeaderOf(d) == sb && |d| == sb.blockSize == OffsetsOf(sb).inodeBitmap
    requires |x| == BytesFor(sb.inodeCount) && |y| == BytesFor(sb.datablockCount) && |z| == 64 * sb.inodeCount
    ensures var r := Committed(sb.blockSize, OffsetsOf(sb), d, x, y, z);
            HasMetadata(sb, r, x, y, z) && |r| <= BlockAt(GeometryOf(sb), OffsetsOf(sb), 1)
  {
    var o := OffsetsOf(sb);
    var r := Committed(sb.blockSize, o, d, x, y, z);
    PaddedWritesInOrder(sb.blockSize, o, d, x, y, z);
    assert r[..SUPERBLOCK_SIZE] == d[..SUPERBLOCK_SIZE];
    SameHeader(d, r);
    assert Times(1, sb.blockSize) == sb.blockSize;
  }

  function EmptyTable(count: nat): (t: seq<Inode>)
    ensures |t| == count && WellFormedTable(t)
  {
    seq(count, _ => ZeroInode())
  }

  /** An image with this metadata and the right length is a consistent image without files. */
  lemma FreshImage(sb: Superblock, d: seq<byte>, x: seq<byte>, y: seq<byte>)
    requires SoundSuperblock(sb) && RightSize(GeometryOf(sb), OffsetsOf(sb), d)
    requires |x| == BytesFor(sb.inodeCount) && |y| == BytesFor(sb.datablockCount)
    requires HasMetadata(sb, d, x, y, EncodeTable(EmptyTable(sb.inodeCount)))
    requires forall i :: 0 <= i < sb.inodeCount ==> Unpack(x, sb.inodeCount)[i] == (i == 0)
    requires forall i :: 0 <= i < sb.datablockCount ==> Unpack(y, sb.datablockCount)[i] == (i == 0)
    ensures Mounted(sb, d)
    ensures StoreIn(d) == EmptyStore(GeometryOf(sb))
  {
    SoundIsNavigable(sb);
    ViewByRegions(GeometryOf(sb), OffsetsOf(sb), d, x, y, EmptyTable(sb.inodeCount));
    FreshVolume(GeometryOf(sb), ViewOf(sb, d));
  }

  // ----- fs_create -----

  /** superblock_write into an empty file: block 0 holds the superblock and zeros. */
  method SuperblockWrite(sb: Superblock, fs: File)
    requires WellFormed(sb) && 512 <= sb.blockSize
    requires fs.data == [] && fs.pos == 0
    modifies fs
    ensures |fs.data| == sb.blockSize && HeaderOf(fs.data) == sb
    ensures Specked(EncodeSuperblock(sb), fs.data, {})
  {
    var x := EncodeSuperblock(sb) + Zeros(sb.blockSize - SUPERBLOCK_SIZE);
    QuotRemUnique(sb.blockSize, sb.blockSize, 1, 0);
    assert WithPadding(x, sb.blockSize) == x;
    BlocksWrite(sb.blockSize, 0, x, fs);
    assert fs.data == x;
    SuperblockRoundTrip(sb);
    assert HeaderBytes(x) == EncodeSuperblock(sb);
  }

  /** A bitmap with only bit 0 set: inode 0 and data block 0 are reserved. */
  method ReservedBitmap(count: nat) returns (bitmap: Bitmap)
    requires 0 < count
    ensures fresh(bitmap) && fresh(bitmap.bits) && bitmap.Valid() && bitmap.count == count
    ensures forall i :: 0 <= i < count ==> bitmap.Bits()[i] == (i == 0)
    ensures bitmap.bits[..] == [1] + Zeros(BytesFor(count) - 1)
  {
    bitmap := new Bitmap(count);
    bitmap.Set(0, true);
    assert OrBit(0, 0) == 1;
    FreshBitmap(bitmap.Bits(), count);
  }

  /** Both bitmaps and the empty table. */
  method WriteMetadata(sb: Superblock, fs: File) returns (ghost x: seq<byte>, ghost y: seq<byte>)
    requires 0 < sb.blockSize && 0 < sb.inodeCount && 0 < sb.datablockCount
    modifies fs
    ensures |x| == BytesFor(sb.inodeCount) && |y| == BytesFor(sb.datablockCount)
    ensures forall i :: 0 <= i < sb.inodeCount ==> Unpack(x, sb.inodeCount)[i] == (i == 0)
    ensures forall i :: 0 <= i < sb.datablockCount ==> Unpack(y, sb.datablockCount)[i] == (i == 0)
    ensures x == [1] + Zeros(BytesFor(sb.inodeCount) - 1) && y == [1] + Zeros(BytesFor(sb.datablockCount) - 1)
    ensures MetadataInReach(OffsetsOf(sb)) ==>
              fs.data == Committed(sb.blockSize, OffsetsOf(sb), old(fs.data), x, y,
                                   EncodeTable(EmptyTable(sb.inodeCount)))
  {
    var inodeBitmap := ReservedBitmap(sb.inodeCount);
    x := inodeBitmap.bits[..];
    assert Unpack(x, sb.inodeCount) == inodeBitmap.Bits();
    BitmapWrite(inodeBitmap, sb.inodeBitmapStart, sb.blockSize, fs);
    var datablockBitmap := ReservedBitmap(sb.datablockCount);
    y := datablockBitmap.bits[..];
    assert Unpack(y, sb.datablockCount) == datablockBitmap.Bits();
    BitmapWrite(datablockBitmap, sb.datablockBitmapStart, sb.blockSize, fs);
    var itab := new InodeTable(sb.inodeCount);
    assert itab.inodes[..] == EmptyTable(sb.inodeCount);
    InodeTableWrite(itab, sb.inodeStart, sb.blockSize, fs);
  }

  /** The three regions start below 2 GB. */
  ghost predicate MetadataInReach(o: Offsets) {
    o.inodeBitmap < 0x8000_0000 && o.blockBitmap < 0x8000_0000 && o.table < 0x8000_0000
  }

  lemma MetadataOnDisk(sb: Superblock, d0: seq<byte>, d1: seq<byte>, x: seq<byte>, y: seq<byte>)
    requires SoundSuperblock(sb) && |d0| == sb.blockSize && HeaderOf(d0) == sb
    requires |x| == BytesFor(sb.inodeCount) && |y| == BytesFor(sb.datablockCount)
    requires Navigable(sb) ==>
               d1 == Committed(sb.blockSize, OffsetsOf(sb), d0, x, y, EncodeTable(EmptyTable(sb.inodeCount)))
    ensures MetadataWritten(sb, d1, OffsetsOf(sb).table + 64 * sb.inodeCount)
    ensures HasMetadata(sb, d1, x, y, EncodeTable(EmptyTable(sb.inodeCount)))
  {
    SoundIsNavigable(sb);
    SoundIsConsecutive(sb);
    ExactOffsets(sb);
    MetadataByCommit(sb, d0, x, y, EncodeTable(EmptyTable(sb.inodeCount)));
  }

  /** The bytes of the reserved bitmaps and the empty table. */
  ghost predicate FreshMetadata(sb: Superblock, d: seq<byte>, x: seq<byte>, y: seq<byte>) {
    && |x| == BytesFor(sb.inodeCount) && |y| == BytesFor(sb.datablockCount)
    && HasMetadata(sb, d, x, y, EncodeTable(EmptyTable(sb.inodeCount)))
    && (forall i :: 0 <= i < sb.inodeCount ==> Unpack(x, sb.inodeCount)[i] == (i == 0))
    && (forall i :: 0 <= i < sb.datablockCount ==> Unpack(y, sb.datablockCount)[i] == (i == 0))
  }

  /** A consistent image without files, its data blocks empty. */
  ghost predicate EmptyImage(sb: Superblock, d: seq<byte>) {
    && Mounted(sb, d)
    && StoreIn(d) == EmptyStore(GeometryOf(sb))
    && DataZero(sb, d)
  }

  ghost predicate ReadyToClear(sb: Superblock, d: seq<byte>, x: seq<byte>, y: seq<byte>) {
    && SoundSuperblock(sb)
    && FreshMetadata(sb, d, x, y)
    && MetadataWritten(sb, d, OffsetsOf(sb).table + 64 * sb.inodeCount)
  }

  lemma ImageComplete(sb: Superblock, d1: seq<byte>, d: seq<byte>, x: seq<byte>, y: seq<byte>)
    requires ReadyToClear(sb, d1, x, y) && RightSize(GeometryOf(sb), OffsetsOf(sb), d)
    requires var kept := OffsetsOf(sb).table + 64 * sb.inodeCount;
             kept <= |d| && d[..kept] == d1[..kept]
    requires DataZero(sb, d)
    ensures EmptyImage(sb, d)
  {
    MetadataKept(sb, d1, d, x, y, EncodeTable(EmptyTable(sb.inodeCount)));
    FreshImage(sb, d, x, y);
  }

  // ----- every byte that is written, sound counts or not -----

  /** The header, then zeros but for a 1 at each of the given places. */
  ghost predicate Specked(header: seq<byte>, d: seq<byte>, ones: set<nat>) {
    && |header| <= |d| && (forall o :: o in ones ==> o < |d|)
    && forall i :: 0 <= i < |d| ==> d[i] == if i < |header| then header[i] else if i in ones then 1 else 0
  }

  lemma SpeckAdded(header: seq<byte>, d: seq<byte>, ones: set<nat>, off: nat, n: nat, bs: nat)
    requires Specked(header, d, ones) && |header| <= off && 0 < n && 0 < bs && forall o :: o in ones ==> o <= off
    ensures Specked(header, Put(d, off, WithPadding([1] + Zeros(n - 1), bs)), ones + {off})
  {
    var x := [1] + Zeros(n - 1);
    PutWrites(d, off, x, bs);
    var r := Put(d, off, WithPadding(x, bs));
    forall i | 0 <= i < |r| ensures r[i] == if i < |header| then header[i] else if i in ones + {off} then 1 else 0 {
      assert i == off ==> x[i - off] == 1;
      assert off < i < off + n ==> x[i - off] == 0;
    }
  }

  lemma SpecksCleared(header: seq<byte>, d: seq<byte>, ones: set<nat>, off: nat, n: nat, bs: nat)
    requires Specked(header, d, ones) && |header| <= off && 0 < n && 0 < bs && forall o :: o in ones ==> o <= off
    ensures Specked(header, Put(d, off, WithPadding(Zeros(n), bs)), ones - {off})
  {
    PutWrites(d, off, Zeros(n), bs);
    var r := Put(d, off, WithPadding(Zeros(n), bs));
    forall i | 0 <= i < |r| ensures r[i] == if i < |header| then header[i] else if i in ones - {off} then 1 else 0 {
      assert off <= i < off + n ==> Zeros(n)[i - off] == 0;
    }
  }

  lemma SpecksKept(header: seq<byte>, d: seq<byte>, d': seq<byte>, ones: set<nat>, at: nat, n: nat)
    requires Specked(header, d, ones) && |header| <= at && Written(d, d', at, [], n) && forall o :: o in ones ==> o < at
    ensures Specked(header, d', ones)
  {
    forall i | 0 <= i < |d'| ensures d'[i] == if i < |header| then header[i] else if i in ones then 1 else 0 {
      if i < |d| {
        assert d[i] == if i < |header| then header[i] else if i in ones then 1 else 0;
      }
    }
  }

  /** The places of the ones that remain: bit 0 of each bitmap whose region is not empty. */
  ghost function Ones(o: Offsets): set<nat> {
    {o.inodeBitmap, o.blockBitmap} - {o.table}
  }

  lemma PaddedLength(n: nat, bs: nat)
    requires 0 < n && 0 < bs
    ensures n < bs ==> n + Padding(n, bs) == bs
    ensures bs <= n ==> n + Padding(n, bs) < n + bs
  {}

  /** The three writes of the metadata: none of them reaches beyond the first data block. */
  lemma MetadataBytes(bs: nat, o: Offsets, header: seq<byte>, d: seq<byte>, x: nat, y: nat, z: nat)
    requires 0 < bs && 0 < x && 0 < y && 0 < z && |header| <= bs <= |d| <= o.data + bs && Specked(header, d, {})
    requires o.inodeBitmap == bs && o.inodeBitmap + x <= o.blockBitmap + 1 && o.blockBitmap + y <= o.table + 1
    requires o.inodeBitmap <= o.blockBitmap <= o.table && o.table + z <= o.data && o.table + bs <= o.data
    ensures var r := Committed(bs, o, d, [1] + Zeros(x - 1), [1] + Zeros(y - 1), Zeros(z));
            Specked(header, r, Ones(o)) && |r| <= o.data + bs
  {
    SpeckAdded(header, d, {}, o.inodeBitmap, x, bs);
    var d1 := Put(d, o.inodeBitmap, WithPadding([1] + Zeros(x - 1), bs));
    SpeckAdded(header, d1, {} + {o.inodeBitmap}, o.blockBitmap, y, bs);
    var d2 := Put(d1, o.blockBitmap, WithPadding([1] + Zeros(y - 1), bs));
    SpecksCleared(header, d2, {o.inodeBitmap, o.blockBitmap}, o.table, z, bs);
    assert {} + {o.inodeBitmap} + {o.blockBitmap} == {o.inodeBitmap, o.blockBitmap};
    PaddedLength(x, bs);
    PaddedLength(y, bs);
    PaddedLength(z, bs);
  }

  /** Every byte of a created image: the superblock, a 1 at the start of each bitmap that has a region of its own, and
      zeros, up to the end of the last data block. */
  ghost predicate CreatedBytes(sb: Superblock, d: seq<byte>)
    requires WellFormed(sb)
  {
    var o, header := OffsetsOf(sb), EncodeSuperblock(sb);
    && |d| == o.data + sb.datablockCount * sb.blockSize
    && forall i :: 0 <= i < |d| ==>
         d[i] == if i < 78 then header[i]
                 else if (i == o.inodeBitmap || i == o.blockBitmap) && i < o.table then 1 else 0
  }

  lemma AllBytes(sb: Superblock, d1: seq<byte>, d: seq<byte>)
    requires WellFormed(sb) && 0 < sb.datablockCount
    requires var o := OffsetsOf(sb);
             && SUPERBLOCK_SIZE <= o.data && o.inodeBitmap <= o.blockBitmap <= o.table < o.data
             && |d1| <= o.data + sb.blockSize && Specked(EncodeSuperblock(sb), d1, Ones(o))
    requires ZerosSoFar(d1, d, OffsetsOf(sb).data, sb.blockSize, sb.datablockCount)
    ensures CreatedBytes(sb, d)
  {
    var o := OffsetsOf(sb);
    SpecksKept(EncodeSuperblock(sb), d1, d, Ones(o), o.data, Times(sb.datablockCount, sb.blockSize));
    TimesMonotonic(1, sb.datablockCount, sb.blockSize);
    TimesIsProduct(sb.datablockCount, sb.blockSize);
  }

  /** A superblock of fs_create. */
  ghost predicate FromCreate(sb: Superblock) {
    && WellFormed(sb) && LegalBlockSize(sb.blockSize) && 1 <= sb.inodeCount <= 65535
    && 1 <= sb.datablockCount < 0x8000_0000
    && sb == LayoutOf(sb.volumeLabel, sb.blockSize, sb.inodeCount, sb.datablockCount)
  }

  lemma OffsetsFromCreate(sb: Superblock)
    requires FromCreate(sb)
    ensures var o := OffsetsOf(sb);
            && o.inodeBitmap == sb.blockSize && o.inodeBitmap <= o.blockBitmap <= o.table
            && o.inodeBitmap + BytesFor(sb.inodeCount) <= o.blockBitmap + 1
            && o.blockBitmap + BytesFor(sb.datablockCount) <= o.table + 1
            && o.table + 64 * sb.inodeCount <= o.data && o.table + sb.blockSize <= o.data
            && MetadataInReach(o)
  {
    BitmapsInOrder(sb.volumeLabel, sb.blockSize, sb.inodeCount, sb.datablockCount);
    GapTaken(sb.inodeCount, sb.blockSize);
    GapTaken(sb.datablockCount, sb.blockSize);
    if sb.inodeBlockCount > 0 {
      TimesMonotonic(1, sb.inodeBlockCount, sb.blockSize);
    }
  }

  lemma CreatedMetadata(sb: Superblock, d0: seq<byte>, d1: seq<byte>)
    requires FromCreate(sb) && |d0| == sb.blockSize && Specked(EncodeSuperblock(sb), d0, {})
    requires MetadataInReach(OffsetsOf(sb)) ==>
               d1 == Committed(sb.blockSize, OffsetsOf(sb), d0, [1] + Zeros(BytesFor(sb.inodeCount) - 1),
                               [1] + Zeros(BytesFor(sb.datablockCount) - 1), EncodeTable(EmptyTable(sb.inodeCount)))
    ensures var o := OffsetsOf(sb);
            && SUPERBLOCK_SIZE <= o.data && o.inodeBitmap <= o.blockBitmap <= o.table < o.data
            && |d1| <= o.data + sb.blockSize && Specked(EncodeSuperblock(sb), d1, Ones(o))
  {
    OffsetsFromCreate(sb);
    ZeroTableBytes(EmptyTable(sb.inodeCount));
    MetadataBytes(sb.blockSize, OffsetsOf(sb), EncodeSuperblock(sb), d0,
                  BytesFor(sb.inodeCount), BytesFor(sb.datablockCount), 64 * sb.inodeCount);
  }

  /** The clearing loop completes the image. */
  method FinishImage(sb: Superblock, fs: File, ghost x: seq<byte>, ghost y: seq<byte>)
    requires 0 < sb.blockSize
    modifies fs
    ensures ReadyToClear(sb, old(fs.data), x, y) ==> EmptyImage(sb, fs.data)
    ensures InReach(sb) ==>
              ZerosSoFar(old(fs.data), fs.data, OffsetsOf(sb).data, sb.blockSize, sb.datablockCount)
  {
    ghost var d1 := fs.data;
    ghost var ready := ReadyToClear(sb, d1, x, y);
    ClearDatablocks(sb, fs);
    if ready {
      AllCleared(sb, d1, fs.data, OffsetsOf(sb).table + 64 * sb.inodeCount);
      ImageComplete(sb, d1, fs.data, x, y);
    }
  }

  /** Everything fs_create writes, in its order. */
  method WriteImage(sb: Superblock, fs: File)
    requires WellFormed(sb) && 512 <= sb.blockSize && 0 < sb.inodeCount && 0 < sb.datablockCount
    requires fs.data == [] && fs.pos == 0
    modifies fs
    ensures SoundSuperblock(sb) ==> EmptyImage(sb, fs.data)
    ensures FromCreate(sb) && InReach(sb) ==> CreatedBytes(sb, fs.data)
  {
    SuperblockWrite(sb, fs);
    ghost var d0 := fs.data;
    ghost var x, y := WriteMetadata(sb, fs);
    ghost var sound, d1 := SoundSuperblock(sb), fs.data;
    if sound {
      MetadataOnDisk(sb, d0, d1, x, y);
    }
    if FromCreate(sb) {
      CreatedMetadata(sb, d0, d1);
    }
    assert sound ==> ReadyToClear(sb, d1, x, y);
    FinishImage(sb, fs, x, y);
    assert sound ==> EmptyImage(sb, fs.data);
    if FromCreate(sb) && InReach(sb) {
      AllBytes(sb, d1, fs.data);
    }
  }

  /** Every image that adds and deletes reach from the one fs_create writes is consistent and holds what the abstract
      store holds; its blocks other than block 0 are free or needed by a stored file, its inodes other than inode 0
      free or naming one. */
  lemma ToolRunsFromCreation(sb: Superblock, ds: seq<seq<byte>>, ops: seq<Op>, oks: seq<bool>)
    requires IsToolRun(ds, ops, oks) && EmptyImage(sb, ds[0])
    ensures Mounted(sb, ds[|ops|]) && GeometryOk(GeometryOf(sb))
    ensures var g := GeometryOf(sb);
            && (StoreIn(ds[|ops|]), oks) == StoreRun(g, EmptyStore(g), ops)
            && Balanced(g, StoreIn(ds[|ops|]))
  {
    ToolRunRefines(sb, ds, ops, oks);
    RunFromEmpty(GeometryOf(sb), StoreIn(ds[0]), ops, oks, StoreIn(ds[|ops|]));
  }

  /** Only a sound layout leaves room for a consistent image. */
  lemma EmptyImageIsSound(sb: Superblock, d: seq<byte>)
    requires EmptyImage(sb, d) && 512 <= sb.blockSize && 0 < sb.inodeCount && 0 < sb.datablockCount
    requires sb == LayoutOf(sb.volumeLabel, sb.blockSize, sb.inodeCount, sb.datablockCount)
    ensures Sound(sb.blockSize, sb.inodeCount, sb.datablockCount)
  {
    assert Addressable(sb.blockSize, sb.inodeCount, sb.datablockCount);
    FirstBlockOffset(sb);
    LayoutSoundness(sb.volumeLabel, sb.blockSize, sb.inodeCount, sb.datablockCount);
  }

  lemma FirstBlockOffset(sb: Superblock)
    requires sb.blockSize <= 8192 && sb.inodeBitmapStart == 1
    ensures Offset32(sb, sb.inodeBitmapStart) == sb.blockSize
  {
    assert Times(1, sb.blockSize) == sb.blockSize;
  }

  /** WriteImage for the superblock of accepted counts: every byte is known as long as the image ends below 2 GB. */
  method WriteAccepted(sb: Superblock, fs: File)
    requires FromCreate(sb) && fs.data == [] && fs.pos == 0
    modifies fs
    ensures EmptyImage(sb, fs.data) <==> Sound(sb.blockSize, sb.inodeCount, sb.datablockCount)
    ensures OffsetsOf(sb).data + sb.datablockCount * sb.blockSize < 0x8000_0000 ==> CreatedBytes(sb, fs.data)
  {
    WriteImage(sb, fs);
    TimesIsProduct(sb.datablockCount, sb.blockSize);
    if EmptyImage(sb, fs.data) {
      EmptyImageIsSound(sb, fs.data);
    }
  }

  /** The superblock for the arguments of fs_create. */
  ghost function Prescribed(volumeLabel: seq<byte>, bs: nat, inodeCount: nat, blockCount: nat): Superblock
    requires 64 <= bs
  {
    LayoutOf(Padded(volumeLabel, LABEL_LENGTH - 1) + [0], bs, inodeCount, blockCount)
  }

  datatype CreateReply = Created | Usage | BlockSizeNotMultiple | TooManyInodes | Aborted

  /** fs_create: the image is consistent, empty and all free but for the reserved inode and block if and only if the
      choice of counts is sound. */
  method CreateImage(volumeLabel: seq<byte>, blockSize: int, inodeCount: int, datablockCount: int, fs: File)
    returns (r: CreateReply)
    requires 0 !in volumeLabel
    requires blockSize < 0x8000_0000 && inodeCount < 0x8000_0000 && datablockCount < 0x8000_0000
    modifies fs
    ensures r == Created <==>
              volumeLabel != [] && LegalBlockSize(blockSize) && 0 < inodeCount <= 65535 && 0 < datablockCount
    ensures r == Aborted <==>
              && volumeLabel != [] && 0 < blockSize && blockSize % 512 == 0 && !LegalBlockSize(blockSize)
              && 0 < inodeCount <= 65535 && 0 < datablockCount
    ensures r == Aborted ==>
              var sb := Prescribed(volumeLabel, blockSize, inodeCount, datablockCount);
              && |fs.data| == blockSize && !Accepted(HeaderOf(fs.data))
              && WellFormed(sb) && Specked(EncodeSuperblock(sb), fs.data, {})
    ensures r == Created ==>
              var sb := Prescribed(volumeLabel, blockSize, inodeCount, datablockCount);
              && WellFormed(sb)
              && (EmptyImage(sb, fs.data) <==> Sound(blockSize, inodeCount, datablockCount))
              && (OffsetsOf(sb).data + datablockCount * blockSize < 0x8000_0000 ==> CreatedBytes(sb, fs.data))
    ensures r != Created && r != Aborted ==> fs.data == old(fs.data)
  {
    if |volumeLabel| < 1 || blockSize <= 0 || inodeCount <= 0 || datablockCount <= 0 {
      return Usage;
    }
    if blockSize % 512 != 0 {
      return BlockSizeNotMultiple;
    }
    if inodeCount > 65535 {
      return TooManyInodes;
    }
    fs.data, fs.pos := [], 0;
    var sb := SuperblockCreate(volumeLabel, blockSize, inodeCount, datablockCount);
    if !LegalBlockSize(blockSize) {
      // bitmap_write asserts a legal block size right after the superblock is written
      SuperblockWrite(sb, fs);
      return Aborted;
    }
    WriteAccepted(sb, fs);
    return Created;
  }
}
