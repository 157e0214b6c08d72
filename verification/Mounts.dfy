/** Images that a superblock describes, and the exact condition under which its layout works. */
module Mounts {
  import opened Bytes
  import opened Arith
  import opened CStrings
  import opened Disk
  import opened Bitmaps
  import opened Layout
  import opened Inodes
  import opened Volumes
  import opened Images

  // ----- sound superblocks -----

  /** A superblock that superblock_create makes for a sound choice of counts. */
  ghost predicate SoundSuperblock(sb: Superblock) {
    && |sb.volumeLabel| == LABEL_LENGTH
    && Sound(sb.blockSize, sb.inodeCount, sb.datablockCount)
    && sb == LayoutOf(sb.volumeLabel, sb.blockSize, sb.inodeCount, sb.datablockCount)
  }

  lemma SoundIsConsecutive(sb: Superblock)
    requires SoundSuperblock(sb)
    ensures Consecutive(sb) && RegionsDisjoint(sb) && WellFormed(sb) && LegalBlockSize(sb.blockSize)
  {
    var bs := sb.blockSize;
    LegalSizes(bs);
    if sb.inodeCount < 8 {
      TinyCount(sb.inodeCount, bs);
    }
    if sb.datablockCount < 8 {
      TinyCount(sb.datablockCount, bs);
    }
    CountsGiveConsecutive(sb.volumeLabel, bs, sb.inodeCount, sb.datablockCount);
    LayoutSoundness(sb.volumeLabel, bs, sb.inodeCount, sb.datablockCount);
  }

  lemma SoundOffsets(sb: Superblock)
    requires SoundSuperblock(sb)
    ensures Ordered(GeometryOf(sb), OffsetsOf(sb))
    ensures LegalBlockSize(sb.blockSize)
  {
    SoundIsConsecutive(sb);
    ExactOffsets(sb);
    HalfOf(sb.blockSize, sb.blockSize / 2);
  }

  /** No truncation: the 32-bit offset of every data block is the exact product and stays below 2 GB. */
  lemma DataBlockOffset(sb: Superblock, b: nat)
    requires Consecutive(sb) && b <= sb.datablockCount
    ensures var off := BlockAt(GeometryOf(sb), OffsetsOf(sb), b);
            off == Offset32(sb, sb.datablocksStart + b) == Times(sb.datablocksStart + b, sb.blockSize) < 0x8000_0000
  {
    ExactOffsets(sb);
    TimesAdd(sb.datablocksStart, b, sb.blockSize);
    TimesMonotonic(b, sb.datablockCount, sb.blockSize);
  }

  // ----- images -----

  /** The first bytes of the file; a buffer that the file does not fill stays zero. */
  function HeaderBytes(d: seq<byte>): (s: seq<byte>)
    ensures |s| == 78 == SUPERBLOCK_SIZE
    ensures forall k :: 0 <= k < 78 ==> s[k] == if k < |d| then d[k] else 0
  {
    (d + Zeros(SUPERBLOCK_SIZE))[..SUPERBLOCK_SIZE]
  }

  /** What superblock_read finds at the start of the file. */
  function HeaderOf(d: seq<byte>): Superblock {
    DecodeSuperblock(HeaderBytes(d))
  }

  lemma SameHeader(d: seq<byte>, d': seq<byte>)
    requires SUPERBLOCK_SIZE <= |d| && SUPERBLOCK_SIZE <= |d'| && d[..SUPERBLOCK_SIZE] == d'[..SUPERBLOCK_SIZE]
    ensures HeaderBytes(d) == HeaderBytes(d')
  {
    assert HeaderBytes(d) == d[..SUPERBLOCK_SIZE];
    assert HeaderBytes(d') == d'[..SUPERBLOCK_SIZE];
  }

  /** The checks of superblock_read: signature, major version and block size. */
  predicate Accepted(sb: Superblock) {
    && Truncated(sb.signature, SIGNATURE_LENGTH - 1) == FS_SIGNATURE[..SIGNATURE_LENGTH - 1]
    && sb.versionMajor == VERSION_MAJOR
    && LegalBlockSize(sb.blockSize)
  }

  /** The regions are in order and the 32-bit offset of every data block is the exact one. */
  ghost predicate Navigable(sb: Superblock) {
    && Ordered(GeometryOf(sb), OffsetsOf(sb))
    && (forall b: nat :: b <= sb.datablockCount ==>
          Offset32(sb, sb.datablocksStart + b) == BlockAt(GeometryOf(sb), OffsetsOf(sb), b))
  }

  lemma SoundIsNavigable(sb: Superblock)
    requires SoundSuperblock(sb)
    ensures Navigable(sb) && Accepted(sb)
  {
    SoundOffsets(sb);
    SoundIsConsecutive(sb);
    TruncatedAt(FS_SIGNATURE, SIGNATURE_LENGTH - 1, SIGNATURE_LENGTH - 1);
    forall b: nat | b <= sb.datablockCount
      ensures Offset32(sb, sb.datablocksStart + b) == BlockAt(GeometryOf(sb), OffsetsOf(sb), b)
    {
      DataBlockOffset(sb, b);
    }
  }

  /** Bytes that the offsets in sb find their way about in. */
  ghost predicate Laid(sb: Superblock, d: seq<byte>) {
    && Navigable(sb)
    && RightSize(GeometryOf(sb), OffsetsOf(sb), d)
  }

  ghost function ViewOf(sb: Superblock, d: seq<byte>): (v: Volume)
    requires RightSize(GeometryOf(sb), OffsetsOf(sb), d)
    ensures Shaped(GeometryOf(sb), v)
  {
    View(GeometryOf(sb), OffsetsOf(sb), d)
  }

  ghost function DataOf(sb: Superblock, d: seq<byte>): (blocks: seq<seq<byte>>)
    requires RightSize(GeometryOf(sb), OffsetsOf(sb), d)
    ensures |blocks| == sb.datablockCount
  {
    BlocksOf(GeometryOf(sb), OffsetsOf(sb), d)
  }

  /** A consistent image with superblock sb. */
  ghost predicate Mounted(sb: Superblock, d: seq<byte>) {
    HeaderOf(d) == sb && Accepted(sb) && Laid(sb, d) && VolumeOk(GeometryOf(sb), ViewOf(sb, d))
  }

  /** A file that the tools either refuse or find to be a consistent image. */
  ghost predicate Openable(d: seq<byte>) {
    Accepted(HeaderOf(d)) ==> Mounted(HeaderOf(d), d)
  }

  /** The files stored in an image with superblock sb. */
  ghost function FilesOf(sb: Superblock, d: seq<byte>): map<seq<byte>, seq<byte>>
    requires RightSize(GeometryOf(sb), OffsetsOf(sb), d)
  {
    Files(GeometryOf(sb), ViewOf(sb, d))
  }

  /** The files stored in a consistent image. */
  ghost function FilesIn(d: seq<byte>): map<seq<byte>, seq<byte>>
    requires Mounted(HeaderOf(d), d)
  {
    FilesOf(HeaderOf(d), d)
  }

  method ReadHeader(fs: File) returns (s: seq<byte>)
    modifies fs`pos
    ensures s == HeaderBytes(fs.data)
  {
    fs.Seek(0);
    var buf := new byte[SUPERBLOCK_SIZE](_ => 0);
    fs.Read(buf, SUPERBLOCK_SIZE);
    s := buf[..];
    assert s == HeaderBytes(fs.data);
  }

  method SignatureMatches(signature: seq<byte>) returns (same: bool)
    requires |signature| == SIGNATURE_LENGTH
    ensures same <==> Truncated(signature, SIGNATURE_LENGTH - 1) == FS_SIGNATURE[..SIGNATURE_LENGTH - 1]
  {
    var c := Strncmp(signature, FS_SIGNATURE, SIGNATURE_LENGTH - 1);
    TruncatedAt(FS_SIGNATURE, SIGNATURE_LENGTH - 1, SIGNATURE_LENGTH - 1);
    same := c == 0;
  }

  /** The first three bytes are the signature's, the fifth is the version, and the four from 38 on hold a legal size. */
  lemma AcceptedBytes(d: seq<byte>)
    ensures var s := d + Zeros(78);
            var bs := s[38] as int + 256 * s[39] as int + 65536 * s[40] as int + 16777216 * s[41] as int;
            Accepted(HeaderOf(d)) <==>
            && s[0] == 66 && s[1] == 70 && s[2] == 83 && s[4] == 1
            && (bs == 512 || bs == 1024 || bs == 2048 || bs == 4096 || bs == 8192)
  {
    var s := HeaderBytes(d);
    SuperblockFields(s);
    assert forall k :: 0 <= k < 78 ==> s[k] == (d + Zeros(78))[k];
    var signature := HeaderOf(d).signature;
    UpToNulStops(signature[..3]);
    if signature[..3] == [66, 70, 83] {
      TruncatedAt(signature, 3, 3);
    }
  }

  method SuperblockRead(fs: File) returns (ok: bool, sb: Superblock)
    modifies fs`pos
    ensures sb == HeaderOf(fs.data) && ok == Accepted(sb)
    ensures var s := fs.data + Zeros(78);
            var bs := s[38] as int + 256 * s[39] as int + 65536 * s[40] as int + 16777216 * s[41] as int;
            && sb.blockSize == bs
            && (ok <==>
                && s[0] == 66 && s[1] == 70 && s[2] == 83 && s[4] == 1
                && (bs == 512 || bs == 1024 || bs == 2048 || bs == 4096 || bs == 8192))
  {
    AcceptedBytes(fs.data);
    SuperblockFields(HeaderBytes(fs.data));
    var s := ReadHeader(fs);
    sb := DecodeSuperblock(s);
    var same := SignatureMatches(sb.signature);
    ok := same && sb.versionMajor == VERSION_MAJOR && LegalBlockSize(sb.blockSize);
  }

  /** Data block b of the view is what lies at the 32-bit offset that block_read and blocks_write compute for it. */
  lemma DataBlockBytes(sb: Superblock, d: seq<byte>, b: nat)
    requires Laid(sb, d) && 0 < b < sb.datablockCount
    ensures var off := ByteOffset(sb.datablocksStart + b, sb.blockSize);
            && off < 0x8000_0000
            && off == BlockAt(GeometryOf(sb), OffsetsOf(sb), b)
            && off + sb.blockSize <= |d|
            && d[off..off + sb.blockSize] == DataOf(sb, d)[b]
  {
    BlockInside(GeometryOf(sb), OffsetsOf(sb), b);
  }

  /** A data block, the reserved one included, as block_read finds it at the data blocks. */
  lemma RawBlock(sb: Superblock, d: seq<byte>, b: nat)
    requires Laid(sb, d) && b < sb.datablockCount
    ensures 0 < sb.datablocksStart
    ensures |ImageBlock(d, sb.blockSize, sb.datablocksStart + b)| == sb.blockSize
    ensures 0 < b ==> ImageBlock(d, sb.blockSize, sb.datablocksStart + b) == DataOf(sb, d)[b]
  {
    var at := BlockAt(GeometryOf(sb), OffsetsOf(sb), b);
    assert at == ByteOffset(sb.datablocksStart + b, sb.blockSize);
    BlockInside(GeometryOf(sb), OffsetsOf(sb), b);
  }

  /** The metadata regions lie inside the image and below 2 GB. */
  lemma RegionsInside(sb: Superblock, d: seq<byte>)
    requires Laid(sb, d)
    ensures var o := OffsetsOf(sb);
            && o.inodeBitmap + BytesFor(sb.inodeCount) <= |d| < 0x8000_0000
            && o.blockBitmap + BytesFor(sb.datablockCount) <= |d|
            && o.table + 64 * sb.inodeCount <= |d|
            && 0 < sb.inodeCount && 0 < sb.datablockCount
  {}

  /** The inode table of an image, as the tools read it. */
  method LoadTable(sb: Superblock, fs: File) returns (itab: InodeTable)
    requires Laid(sb, fs.data)
    modifies fs`pos
    ensures fresh(itab) && fresh(itab.inodes)
    ensures itab.inodes[..] == TableOf(GeometryOf(sb), OffsetsOf(sb), fs.data)
  {
    RegionsInside(sb, fs.data);
    itab := InodeTableRead(sb.inodeCount, sb.inodeStart, sb.blockSize, fs);
  }

  /** The reads that every tool starts with: both bitmaps and the inode table. */
  method Load(sb: Superblock, fs: File) returns (inodeBitmap: Bitmap, blockBitmap: Bitmap, itab: InodeTable)
    requires Laid(sb, fs.data)
    modifies fs`pos
    ensures fresh(inodeBitmap) && fresh(inodeBitmap.bits) && fresh(blockBitmap) && fresh(blockBitmap.bits)
    ensures fresh(itab) && fresh(itab.inodes)
    ensures inodeBitmap.bits != blockBitmap.bits
    ensures inodeBitmap.Valid() && inodeBitmap.count == sb.inodeCount
    ensures blockBitmap.Valid() && blockBitmap.count == sb.datablockCount
    ensures inodeBitmap.Bits() == InodeMapOf(GeometryOf(sb), OffsetsOf(sb), fs.data)
    ensures blockBitmap.Bits() == BlockMapOf(GeometryOf(sb), OffsetsOf(sb), fs.data)
    ensures itab.inodes[..] == TableOf(GeometryOf(sb), OffsetsOf(sb), fs.data)
  {
    RegionsInside(sb, fs.data);
    inodeBitmap := BitmapRead(sb.inodeBitmapStart, sb.inodeCount, sb.blockSize, fs);
    blockBitmap := BitmapRead(sb.datablockBitmapStart, sb.datablockCount, sb.blockSize, fs);
    itab := LoadTable(sb, fs);
  }

  /** The three writes that end fs_add and fs_del, in their order. */
  method Commit(inodeBitmap: Bitmap, blockBitmap: Bitmap, itab: InodeTable, sb: Superblock, fs: File)
    requires Navigable(sb)
    requires inodeBitmap.Valid() && inodeBitmap.count == sb.inodeCount
    requires blockBitmap.Valid() && blockBitmap.count == sb.datablockCount
    requires itab.inodes.Length == sb.inodeCount && WellFormedTable(itab.inodes[..])
    modifies fs
    ensures fs.data == Committed(sb.blockSize, OffsetsOf(sb), old(fs.data),
                                 inodeBitmap.bits[..], blockBitmap.bits[..], EncodeTable(itab.inodes[..]))
  {
    BitmapWrite(inodeBitmap, sb.inodeBitmapStart, sb.blockSize, fs);
    BitmapWrite(blockBitmap, sb.datablockBitmapStart, sb.blockSize, fs);
    InodeTableWrite(itab, sb.inodeStart, sb.blockSize, fs);
  }

  /** Commit, seen on the volume: the new bitmaps and table, the data blocks as they were, the superblock untouched. */
  method CommitVolume(inodeBitmap: Bitmap, blockBitmap: Bitmap, itab: InodeTable, sb: Superblock, fs: File)
    requires Navigable(sb) && RightSize(GeometryOf(sb), OffsetsOf(sb), fs.data)
    requires inodeBitmap.Valid() && inodeBitmap.count == sb.inodeCount
    requires blockBitmap.Valid() && blockBitmap.count == sb.datablockCount
    requires itab.inodes.Length == sb.inodeCount && WellFormedTable(itab.inodes[..])
    modifies fs
    ensures RightSize(GeometryOf(sb), OffsetsOf(sb), fs.data)
    ensures ViewOf(sb, fs.data) == Volume(inodeBitmap.Bits(), blockBitmap.Bits(), itab.inodes[..],
                                          DataOf(sb, old(fs.data)))
    ensures HeaderBytes(fs.data) == HeaderBytes(old(fs.data))
  {
    ghost var d := fs.data;
    CommitView(GeometryOf(sb), OffsetsOf(sb), d, inodeBitmap.bits[..], blockBitmap.bits[..], itab.inodes[..]);
    Commit(inodeBitmap, blockBitmap, itab, sb, fs);
    SameHeader(d, fs.data);
  }
}
