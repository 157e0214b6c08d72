/** The superblock of tools/superblock.c and the arithmetic of the on-disk regions. */
module Layout {
  import opened Arith
  import opened Bytes
  import opened CStrings
  import opened Disk
  import opened Bitmaps

  const SUPERBLOCK_SIZE := 78
  const VERSION_MAJOR: byte := 1
  const VERSION_MINOR: byte := 0
  /** "BFS" with its terminating zero. */
  const FS_SIGNATURE: seq<byte> := [66, 70, 83, 0]
  const SIGNATURE_LENGTH := 4
  const LABEL_LENGTH := 32

  datatype Superblock = Superblock(
    signature: seq<byte>,
    versionMajor: byte,
    versionMinor: byte,
    volumeLabel: seq<byte>,
    blockSize: nat,
    inodeBitmapStart: nat,
    inodeBitmapBlockCount: nat,
    datablockBitmapStart: nat,
    datablockBitmapBlockCount: nat,
    inodeStart: nat,
    inodeCount: nat,
    inodeBlockCount: nat,
    datablocksStart: nat,
    datablockCount: nat)

  ghost predicate WellFormed(sb: Superblock) {
    && |sb.signature| == SIGNATURE_LENGTH
    && |sb.volumeLabel| == LABEL_LENGTH
    && sb.blockSize < 0x1_0000_0000
    && sb.inodeBitmapStart < 0x1_0000_0000
    && sb.inodeBitmapBlockCount < 0x1_0000_0000
    && sb.datablockBitmapStart < 0x1_0000_0000
    && sb.datablockBitmapBlockCount < 0x1_0000_0000
    && sb.inodeStart < 0x1_0000_0000
    && sb.inodeCount < 0x1_0000_0000
    && sb.inodeBlockCount < 0x1_0000_0000
    && sb.datablocksStart < 0x1_0000_0000
    && sb.datablockCount < 0x1_0000_0000
  }

  /** The packed structure as it lies in block 0. */
  function EncodeSuperblock(sb: Superblock): (s: seq<byte>)
    requires WellFormed(sb)
    ensures |s| == SUPERBLOCK_SIZE
  {
    sb.signature + [sb.versionMajor, sb.versionMinor] + sb.volumeLabel +
    Encode32(sb.blockSize) +
    Encode32(sb.inodeBitmapStart) + Encode32(sb.inodeBitmapBlockCount) +
    Encode32(sb.datablockBitmapStart) + Encode32(sb.datablockBitmapBlockCount) +
    Encode32(sb.inodeStart) + Encode32(sb.inodeCount) + Encode32(sb.inodeBlockCount) +
    Encode32(sb.datablocksStart) + Encode32(sb.datablockCount)
  }

  function DecodeSuperblock(s: seq<byte>): Superblock
    requires |s| == SUPERBLOCK_SIZE
  {
    Superblock(
      s[..4], s[4], s[5], s[6..38],
      Decode32(s[38..42]),
      Decode32(s[42..46]), Decode32(s[46..50]),
      Decode32(s[50..54]), Decode32(s[54..58]),
      Decode32(s[58..62]), Decode32(s[62..66]), Decode32(s[66..70]),
      Decode32(s[70..74]), Decode32(s[74..78]))
  }

  /** Every field at its own place, low byte first. */
  lemma SuperblockFields(s: seq<byte>)
    requires |s| == 78
    ensures var sb := DecodeSuperblock(s);
            && sb.signature == [s[0], s[1], s[2], s[3]] && sb.versionMajor == s[4] && sb.versionMinor == s[5]
            && |sb.volumeLabel| == 32 && (forall k :: 0 <= k < 32 ==> sb.volumeLabel[k] == s[6 + k])
            && sb.blockSize
               == s[38] as int + 256 * s[39] as int + 65536 * s[40] as int + 16777216 * s[41] as int
            && sb.inodeBitmapStart
               == s[42] as int + 256 * s[43] as int + 65536 * s[44] as int + 16777216 * s[45] as int
            && sb.inodeBitmapBlockCount
               == s[46] as int + 256 * s[47] as int + 65536 * s[48] as int + 16777216 * s[49] as int
            && sb.datablockBitmapStart
               == s[50] as int + 256 * s[51] as int + 65536 * s[52] as int + 16777216 * s[53] as int
            && sb.datablockBitmapBlockCount
               == s[54] as int + 256 * s[55] as int + 65536 * s[56] as int + 16777216 * s[57] as int
            && sb.inodeStart
               == s[58] as int + 256 * s[59] as int + 65536 * s[60] as int + 16777216 * s[61] as int
            && sb.inodeCount
               == s[62] as int + 256 * s[63] as int + 65536 * s[64] as int + 16777216 * s[65] as int
            && sb.inodeBlockCount
               == s[66] as int + 256 * s[67] as int + 65536 * s[68] as int + 16777216 * s[69] as int
            && sb.datablocksStart
               == s[70] as int + 256 * s[71] as int + 65536 * s[72] as int + 16777216 * s[73] as int
            && sb.datablockCount
               == s[74] as int + 256 * s[75] as int + 65536 * s[76] as int + 16777216 * s[77] as int
  {
    LowByteFirst(s[38..42]);
    LowByteFirst(s[42..46]);
    LowByteFirst(s[46..50]);
    LowByteFirst(s[50..54]);
    LowByteFirst(s[54..58]);
    LowByteFirst(s[58..62]);
    LowByteFirst(s[62..66]);
    LowByteFirst(s[66..70]);
    LowByteFirst(s[70..74]);
    LowByteFirst(s[74..78]);
  }

  lemma SuperblockRoundTrip(sb: Superblock)
    requires WellFormed(sb)
    ensures DecodeSuperblock(EncodeSuperblock(sb)) == sb
  {
    var s := EncodeSuperblock(sb);
    assert s[..4] == sb.signature && s[4] == sb.versionMajor && s[5] == sb.versionMinor;
    assert s[6..38] == sb.volumeLabel;
    assert s[38..42] == Encode32(sb.blockSize);
    assert s[42..46] == Encode32(sb.inodeBitmapStart);
    assert s[46..50] == Encode32(sb.inodeBitmapBlockCount);
    assert s[50..54] == Encode32(sb.datablockBitmapStart);
    assert s[54..58] == Encode32(sb.datablockBitmapBlockCount);
    assert s[58..62] == Encode32(sb.inodeStart);
    assert s[62..66] == Encode32(sb.inodeCount);
    assert s[66..70] == Encode32(sb.inodeBlockCount);
    assert s[70..74] == Encode32(sb.datablocksStart);
    assert s[74..78] == Encode32(sb.datablockCount);
    RoundTrip32(sb.blockSize);
    RoundTrip32(sb.inodeBitmapStart);
    RoundTrip32(sb.inodeBitmapBlockCount);
    RoundTrip32(sb.datablockBitmapStart);
    RoundTrip32(sb.datablockBitmapBlockCount);
    RoundTrip32(sb.inodeStart);
    RoundTrip32(sb.inodeCount);
    RoundTrip32(sb.inodeBlockCount);
    RoundTrip32(sb.datablocksStart);
    RoundTrip32(sb.datablockCount);
  }

  predicate LegalBlockSize(bs: int) {
    bs == 512 || bs == 1024 || bs == 2048 || bs == 4096 || bs == 8192
  }

  /** ROUND_UP in the 32-bit unsigned arithmetic that dividing by an unsigned block size brings about. */
  function RoundUp(size: nat, bs: nat): nat
    requires bs > 0
  {
    Rem(1 + Quot(if size == 0 then 0xFFFF_FFFF else size - 1, bs), 0x1_0000_0000)
  }

  function Add32(a: nat, b: nat): nat {
    Rem(a + b, 0x1_0000_0000)
  }

  /** The superblock superblock_create makes from a truncated label and the three counts. */
  function LayoutOf(volumeLabel: seq<byte>, bs: nat, inodeCount: nat, blockCount: nat): Superblock
    requires 64 <= bs
  {
    var inodeBitmapBlocks := RoundUp(inodeCount / 8, bs);
    var blockBitmapBlocks := RoundUp(blockCount / 8, bs);
    var blockBitmapStart := Add32(1, inodeBitmapBlocks);
    var inodeStart := Add32(blockBitmapStart, blockBitmapBlocks);
    Superblock(
      FS_SIGNATURE, VERSION_MAJOR, VERSION_MINOR, volumeLabel, bs,
      1, inodeBitmapBlocks,
      blockBitmapStart, blockBitmapBlocks,
      inodeStart, inodeCount, RoundUp(Rem(inodeCount * 64, 0x1_0000_0000), bs),
      Add32(inodeStart, RoundUp(inodeCount, bs / 64)), blockCount)
  }

  /** Advances current_block over the regions in the order they are laid out. */
  method SuperblockCreate(volumeLabel: seq<byte>, bs: nat, inodeCount: nat, blockCount: nat) returns (sb: Superblock)
    requires 0 !in volumeLabel
    requires 512 <= bs < 0x1_0000_0000 && 0 < inodeCount < 0x1_0000_0000 && 0 < blockCount < 0x1_0000_0000
    ensures sb == LayoutOf(Padded(volumeLabel, LABEL_LENGTH - 1) + [0], bs, inodeCount, blockCount)
    ensures WellFormed(sb)
    ensures forall k :: 0 <= k < 32 ==>
              sb.volumeLabel[k] == if k < 31 && k < |volumeLabel| then volumeLabel[k] else 0
  {
    var name := new byte[LABEL_LENGTH](_ => 0);
    Strncpy(name, volumeLabel + [0], LABEL_LENGTH - 1);
    UpToNulSplit(volumeLabel + [0], |volumeLabel|);
    assert (volumeLabel + [0])[..|volumeLabel|] == volumeLabel;
    assert UpToNul(volumeLabel + [0]) == volumeLabel;
    assert name[LABEL_LENGTH - 1..] == [0];
    assert name[..] == name[..LABEL_LENGTH - 1] + name[LABEL_LENGTH - 1..];
    sb := Superblock(FS_SIGNATURE, VERSION_MAJOR, VERSION_MINOR, name[..], bs, 0, 0, 0, 0, 0, 0, 0, 0, 0);
    var currentBlock := 1;
    sb := sb.(inodeCount := inodeCount);
    sb := sb.(inodeBlockCount := RoundUp(Rem(inodeCount * 64, 0x1_0000_0000), bs));
    sb := sb.(inodeBitmapStart := currentBlock);
    sb := sb.(inodeBitmapBlockCount := RoundUp(inodeCount / 8, bs));
    currentBlock := Add32(currentBlock, sb.inodeBitmapBlockCount);
    sb := sb.(datablockCount := blockCount);
    sb := sb.(datablockBitmapStart := currentBlock);
    sb := sb.(datablockBitmapBlockCount := RoundUp(blockCount / 8, bs));
    currentBlock := Add32(currentBlock, sb.datablockBitmapBlockCount);
    sb := sb.(inodeStart := currentBlock);
    var inodesPerBlock := bs / 64;
    var inodesBlockCount := RoundUp(inodeCount, inodesPerBlock);
    currentBlock := Add32(currentBlock, inodesBlockCount);
    sb := sb.(datablocksStart := currentBlock);
  }

  // ----- byte positions of the regions -----

  /** The byte offset of a block in the 32-bit arithmetic of blocks_write and the readers. */
  function Offset32(sb: Superblock, block: nat): nat {
    ByteOffset(block, sb.blockSize)
  }

  /** No partial last bitmap byte is dropped by the count / 8 in superblock_create. */
  predicate RegionFits(count: nat, bs: nat)
    requires bs > 0
  {
    count % 8 == 0 || Rem(count / 8, bs) != 0
  }

  /** Counts that fs_create accepts and that 16-bit block pointers can address. */
  predicate Addressable(bs: int, inodeCount: int, blockCount: int) {
    LegalBlockSize(bs) && 1 <= inodeCount <= 65535 && 1 <= blockCount <= 65536
  }

  /** A block number survives the cast to the 16 bits of a pointer for every block exactly when there are at most
      65536 of them; fs_create accepts more. */
  lemma PointersFitExactly(blockCount: nat)
    ensures (forall b: nat :: b < blockCount ==> Rem(b, 0x1_0000) == b) <==> blockCount <= 0x1_0000
  {
    if blockCount <= 0x1_0000 {
      forall b: nat | b < blockCount ensures Rem(b, 0x1_0000) == b {
        QuotRemUnique(b, 0x1_0000, 0, b);
      }
    } else {
      QuotRemUnique(0x1_0000, 0x1_0000, 1, 0);
      assert Rem(0x1_0000, 0x1_0000) != 0x1_0000;
    }
  }

  /** The layouts on which the five regions are disjoint (see LayoutSoundness). */
  predicate Sound(bs: int, inodeCount: int, blockCount: int) {
    Addressable(bs, inodeCount, blockCount) && RegionFits(inodeCount, bs) && RegionFits(blockCount, bs)
  }

  /** The regions that the tools write to lie one after the other without overlap, behind block 0 and below 2 GB. */
  predicate RegionsDisjoint(sb: Superblock) {
    var inodeBitmap := Offset32(sb, sb.inodeBitmapStart);
    var blockBitmap := Offset32(sb, sb.datablockBitmapStart);
    var table := Offset32(sb, sb.inodeStart);
    var dataStart := Offset32(sb, sb.datablocksStart);
    && SUPERBLOCK_SIZE <= sb.blockSize <= inodeBitmap
    && inodeBitmap + BytesFor(sb.inodeCount) <= blockBitmap
    && blockBitmap + BytesFor(sb.datablockCount) <= table
    && table + 64 * sb.inodeCount <= dataStart
    && dataStart + Times(sb.datablockCount, sb.blockSize) < 0x8000_0000
  }

  /** ROUND_UP is the ceiling of the quotient for a positive size. */
  lemma RoundUpCeiling(size: nat, bs: nat)
    requires 1 <= size < 0x8000_0000 && 0 < bs
    ensures var blocks := RoundUp(size, bs);
            && blocks == 1 + Quot(size - 1, bs)
            && 1 <= blocks <= size
            && size <= Times(blocks, bs) < size + bs
  {
    QuotRem(size - 1, bs);
    QuotBound(size - 1, bs);
  }

  /** ... and underflows for a size of zero: the region is then 4 GB, which is no distance at all in 32 bits. */
  lemma RoundUpUnderflow(bs: nat)
    requires LegalBlockSize(bs)
    ensures Times(RoundUp(0, bs), bs) == 0x1_0000_0000
    ensures RoundUp(0, bs) <= 8388608
  {
    QuotRemAreDivision(0xFFFF_FFFF, bs);
    TimesIsProduct(RoundUp(0, bs), bs);
  }

  /** What ROUND_UP gives a bitmap of count bits, and when the bitmap fits in it. */
  lemma BitmapRegion(count: nat, bs: nat)
    requires 512 <= bs && 8 <= count <= 65536
    ensures var blocks := RoundUp(count / 8, bs);
            && (BytesFor(count) <= Times(blocks, bs) <==> RegionFits(count, bs))
            && Times(blocks, bs) < 8192 + bs
            && 1 <= blocks <= 8192
  {
    var n := count / 8;
    RoundUpCeiling(n, bs);
    var k := RoundUp(n, bs) - 1;
    if n == Times(1 + k, bs) {
      QuotRemUnique(n, bs, 1 + k, 0);
    } else {
      QuotRemUnique(n, bs, k, n - Times(k, bs));
    }
  }

  lemma TinyCount(count: nat, bs: nat)
    requires 1 <= count < 8 && 0 < bs
    ensures count / 8 == 0 && !RegionFits(count, bs)
  {}

  /** Counting whole inodes per block and counting bytes give the table the same number of blocks. */
  lemma TableRegion(count: nat, per: nat)
    requires 8 <= per && 1 <= count <= 65535
    ensures RoundUp(count, per) == RoundUp(count * 64, per * 64)
  {
    RoundUpCeiling(count, per);
    var k := RoundUp(count, per) - 1;
    QuotRem(count - 1, per);
    TimesScale(k, per);
    QuotRemUnique(count * 64 - 1, 64 * per, k, Rem(count - 1, per) * 64 + 63);
    RoundUpCeiling(count * 64, per * 64);
  }

  lemma LegalSizes(bs: nat)
    requires LegalBlockSize(bs)
    ensures 512 <= bs <= 8192 && 8 <= bs / 64 && (bs / 64) * 64 == bs
  {}

  lemma LegalHalf(bs: nat)
    requires LegalBlockSize(bs)
    ensures 256 <= Quot(bs, 2) <= 4096 && bs == 2 * Quot(bs, 2)
  {
    HalfOf(bs, bs / 2);
  }

  /** The blocks and bytes of the inode table, counted both ways the source counts them. */
  lemma TableSize(bs: nat, per: nat, inodeCount: nat)
    requires 8 <= per && per * 64 == bs && 1 <= inodeCount <= 65535
    ensures var t := RoundUp(inodeCount, per);
            && 1 <= t <= 65535
            && 64 * inodeCount <= Times(t, bs) < 64 * inodeCount + bs
            && RoundUp(Rem(inodeCount * 64, 0x1_0000_0000), bs) == t
  {
    TableRegion(inodeCount, per);
    RoundUpCeiling(inodeCount, per);
    RoundUpCeiling(inodeCount * 64, bs);
  }

  /** The regions follow one another and their sizes are exact; no region is large enough to wrap around. */
  ghost predicate Consecutive(sb: Superblock) {
    && 512 <= sb.blockSize <= 8192
    && sb.inodeBitmapStart == 1
    && sb.datablockBitmapStart == 1 + sb.inodeBitmapBlockCount
    && sb.inodeStart == sb.datablockBitmapStart + sb.datablockBitmapBlockCount
    && sb.datablocksStart == sb.inodeStart + sb.inodeBlockCount
    && Times(sb.inodeBitmapBlockCount, sb.blockSize) < 8192 + sb.blockSize
    && Times(sb.datablockBitmapBlockCount, sb.blockSize) < 8192 + sb.blockSize
    && 64 * sb.inodeCount <= Times(sb.inodeBlockCount, sb.blockSize) < 65536 * 64 + sb.blockSize
    && sb.datablockCount <= 65536
  }

  lemma AssembleConsecutive(sb: Superblock, i: nat, b: nat, t: nat)
    requires 512 <= sb.blockSize <= 8192 && sb.inodeBitmapStart == 1 && sb.datablockCount <= 65536
    requires sb.inodeBitmapBlockCount == i <= 8192 && Times(i, sb.blockSize) < 8192 + sb.blockSize
    requires sb.datablockBitmapBlockCount == b <= 8192 && Times(b, sb.blockSize) < 8192 + sb.blockSize
    requires sb.inodeBlockCount == t <= 65535
    requires 64 * sb.inodeCount <= Times(t, sb.blockSize) < 65536 * 64 + sb.blockSize
    requires sb.datablockBitmapStart == Add32(1, i)
    requires sb.inodeStart == Add32(sb.datablockBitmapStart, b)
    requires sb.datablocksStart == Add32(sb.inodeStart, t)
    ensures Consecutive(sb)
  {}

  lemma CountsGiveConsecutive(volumeLabel: seq<byte>, bs: nat, inodeCount: nat, blockCount: nat)
    requires Addressable(bs, inodeCount, blockCount) && 8 <= inodeCount && 8 <= blockCount
    ensures Consecutive(LayoutOf(volumeLabel, bs, inodeCount, blockCount))
  {
    LegalSizes(bs);
    BitmapRegion(inodeCount, bs);
    BitmapRegion(blockCount, bs);
    TableSize(bs, bs / 64, inodeCount);
    AssembleConsecutive(LayoutOf(volumeLabel, bs, inodeCount, blockCount),
      RoundUp(inodeCount / 8, bs), RoundUp(blockCount / 8, bs), RoundUp(inodeCount, bs / 64));
  }

  lemma DataSpace(count: nat, bs: nat)
    requires count <= 65536 && bs <= 8192
    ensures Times(count, bs) <= 65536 * 8192
  {
    TimesMonotonic(count, 65536, bs);
    TimesIsProduct(65536, bs);
  }

  /** Byte offsets of consecutive regions in exact arithmetic: the 32-bit products do not wrap around. */
  lemma ExactOffsets(sb: Superblock)
    requires Consecutive(sb)
    ensures var bs := sb.blockSize;
            && Offset32(sb, 1) == bs
            && Offset32(sb, sb.datablockBitmapStart) == Times(sb.datablockBitmapStart, bs) ==
              bs + Times(sb.inodeBitmapBlockCount, bs)
            && Offset32(sb, sb.inodeStart) == Times(sb.inodeStart, bs)
            && Times(sb.inodeStart, bs) == Times(sb.datablockBitmapStart, bs) + Times(sb.datablockBitmapBlockCount, bs)
            && Offset32(sb, sb.datablocksStart) == Times(sb.datablocksStart, bs)
            && Times(sb.datablocksStart, bs) == Times(sb.inodeStart, bs) + Times(sb.inodeBlockCount, bs)
            && Times(sb.datablocksStart, bs) + Times(sb.datablockCount, bs) < 0x8000_0000
  {
    var bs := sb.blockSize;
    assert Times(1, bs) == bs;
    TimesAdd(1, sb.inodeBitmapBlockCount, bs);
    TimesAdd(sb.datablockBitmapStart, sb.datablockBitmapBlockCount, bs);
    TimesAdd(sb.inodeStart, sb.inodeBlockCount, bs);
    assert Times(sb.datablockCount, bs) <= 65536 * 8192 by {
      DataSpace(sb.datablockCount, bs);
    }
  }

  /** A positive size gets the fewest blocks that hold it. */
  lemma FewestBlocks(size: nat, bs: nat)
    requires 1 <= size < 0x8000_0000 && 0 < bs
    ensures var blocks := RoundUp(size, bs);
            1 <= blocks <= size && (blocks - 1) * bs < size <= blocks * bs
  {
    RoundUpCeiling(size, bs);
    TimesIsProduct(RoundUp(size, bs), bs);
    TimesIsProduct(RoundUp(size, bs) - 1, bs);
  }

  /** A bitmap's blocks: the fewest for the whole bytes of its bits, or 4 GB when there is no whole byte. */
  lemma BitmapBlocks(count: nat, bs: nat)
    requires LegalBlockSize(bs) && 1 <= count < 0x8000_0000
    ensures var blocks := RoundUp(count / 8, bs);
            && blocks <= 0x1000_0000
            && if count < 8 then blocks * bs == 0x1_0000_0000 else (blocks - 1) * bs < count / 8 <= blocks * bs
  {
    if count < 8 {
      assert count / 8 == 0;
      RoundUpUnderflow(bs);
      TimesIsProduct(RoundUp(0, bs), bs);
    } else {
      FewestBlocks(count / 8, bs);
    }
  }

  lemma StartsAreSums(i: nat, b: nat, t: nat)
    requires i <= 0x1000_0000 && b <= 0x1000_0000 && t <= 65535
    ensures Add32(1, i) == 1 + i && Add32(1 + i, b) == 1 + i + b && Add32(1 + i + b, t) == 1 + i + b + t
  {}

  /** What superblock_create puts into the superblock, for all counts that fs_create accepts: the regions follow one
      another in their order, and each has the fewest blocks that hold what is counted. */
  lemma LayoutRegions(volumeLabel: seq<byte>, bs: nat, inodeCount: nat, blockCount: nat)
    requires LegalBlockSize(bs) && 1 <= inodeCount <= 65535 && 1 <= blockCount < 0x8000_0000
    ensures var sb := LayoutOf(volumeLabel, bs, inodeCount, blockCount);
            && sb.signature == [66, 70, 83, 0] && sb.versionMajor == 1 && sb.versionMinor == 0
            && sb.volumeLabel == volumeLabel && sb.blockSize == bs
            && sb.inodeCount == inodeCount && sb.datablockCount == blockCount
            && sb.inodeBitmapStart == 1
            && sb.datablockBitmapStart == 1 + sb.inodeBitmapBlockCount
            && sb.inodeStart == sb.datablockBitmapStart + sb.datablockBitmapBlockCount
            && sb.datablocksStart == sb.inodeStart + sb.inodeBlockCount
            && (sb.inodeBlockCount - 1) * bs < 64 * inodeCount <= sb.inodeBlockCount * bs
            && (if inodeCount < 8 then sb.inodeBitmapBlockCount * bs == 0x1_0000_0000
                else (sb.inodeBitmapBlockCount - 1) * bs < inodeCount / 8 <= sb.inodeBitmapBlockCount * bs)
            && (if blockCount < 8 then sb.datablockBitmapBlockCount * bs == 0x1_0000_0000
                else (sb.datablockBitmapBlockCount - 1) * bs < blockCount / 8 <= sb.datablockBitmapBlockCount * bs)
  {
    LegalSizes(bs);
    BitmapBlocks(inodeCount, bs);
    BitmapBlocks(blockCount, bs);
    TableSize(bs, bs / 64, inodeCount);
    FewestBlocks(64 * inodeCount, bs);
    StartsAreSums(RoundUp(inodeCount / 8, bs), RoundUp(blockCount / 8, bs), RoundUp(inodeCount, bs / 64));
  }

  /** The bytes of a bitmap region: 4 GB below eight bits, otherwise less than a block more than its whole bytes. */
  lemma RegionBytes(count: nat, bs: nat)
    requires LegalBlockSize(bs) && 1 <= count < 0x8000_0000
    ensures var blocks := RoundUp(count / 8, bs);
            && blocks <= 0x1000_0000
            && if count < 8 then Times(blocks, bs) == 0x1_0000_0000
               else count / 8 <= Times(blocks, bs) < count / 8 + bs
  {
    LegalSizes(bs);
    if count < 8 {
      assert count / 8 == 0;
      RoundUpUnderflow(bs);
    } else {
      RoundUpCeiling(count / 8, bs);
    }
  }

  lemma WrapAdd(a: nat, b: nat)
    requires Rem(a, 0x1_0000_0000) < 0x2000_0000
    requires b == 0x1_0000_0000 || b < 0x2000_0000
    ensures Rem(a + b, 0x1_0000_0000) == Rem(a, 0x1_0000_0000) + (if b == 0x1_0000_0000 then 0 else b)
  {
    QuotRem(a, 0x1_0000_0000);
    if b < 0x2000_0000 {
      QuotRemUnique(a + b, 0x1_0000_0000, Quot(a, 0x1_0000_0000), Rem(a, 0x1_0000_0000) + b);
    }
  }

  /** Where the region behind one of the given size starts: a region of 4 GB has no length in 32-bit offsets. */
  lemma NextRegion(sb: Superblock, start: nat, blocks: nat)
    requires Offset32(sb, start) < 0x2000_0000
    requires Times(blocks, sb.blockSize) == 0x1_0000_0000 || Times(blocks, sb.blockSize) < 0x2000_0000
    ensures Offset32(sb, start + blocks) ==
            Offset32(sb, start) +
            (if Times(blocks, sb.blockSize) == 0x1_0000_0000 then 0 else Times(blocks, sb.blockSize))
  {
    var a := Times(start, sb.blockSize);
    TimesAdd(start, blocks, sb.blockSize);
    WrapAdd(a, Times(blocks, sb.blockSize));
  }

  /** How far behind a bitmap of count bits the next region starts. */
  function Gap(count: nat, bs: nat): nat
    requires bs > 0
  {
    if count < 8 then 0 else Times(RoundUp(count / 8, bs), bs)
  }

  /** A bitmap whose last byte has no room lacks exactly that byte. */
  lemma GapFits(count: nat, bs: nat)
    requires LegalBlockSize(bs) && 1 <= count <= 65536
    ensures if RegionFits(count, bs) then BytesFor(count) <= Gap(count, bs)
            else Gap(count, bs) == count / 8 && BytesFor(count) == count / 8 + 1
  {
    LegalSizes(bs);
    if count < 8 {
      TinyCount(count, bs);
    } else {
      BitmapRegion(count, bs);
      RoundUpCeiling(count / 8, bs);
    }
  }

  /** A region of so many blocks takes so many bytes of 32-bit offsets. */
  ghost predicate Takes(blocks: nat, bs: nat, gap: nat) {
    gap <= 0x1001_0000 && (Times(blocks, bs) == gap || (Times(blocks, bs) == 0x1_0000_0000 && gap == 0))
  }

  lemma OffsetsInOrder(sb: Superblock, i: nat, b: nat, t: nat, x: nat, y: nat, z: nat)
    requires sb.blockSize <= 8192 && sb.inodeBitmapStart == 1 && sb.datablockBitmapStart == 1 + i
    requires sb.inodeStart == 1 + i + b && sb.datablocksStart == 1 + i + b + t
    requires Takes(i, sb.blockSize, x) && x <= 0x2_0000
    requires Takes(b, sb.blockSize, y) && Takes(t, sb.blockSize, z) && z <= 0x41_0000
    ensures Offset32(sb, sb.inodeBitmapStart) == sb.blockSize
    ensures Offset32(sb, sb.datablockBitmapStart) == sb.blockSize + x
    ensures Offset32(sb, sb.inodeStart) == sb.blockSize + x + y
    ensures Offset32(sb, sb.datablocksStart) == sb.blockSize + x + y + z < 0x2000_0000
  {
    assert Times(1, sb.blockSize) == sb.blockSize;
    NextRegion(sb, 1, i);
    NextRegion(sb, 1 + i, b);
    NextRegion(sb, 1 + i + b, t);
  }

  lemma GapTaken(count: nat, bs: nat)
    requires LegalBlockSize(bs) && 1 <= count < 0x8000_0000
    ensures Takes(RoundUp(count / 8, bs), bs, Gap(count, bs)) && RoundUp(count / 8, bs) <= 0x1000_0000
    ensures count / 8 <= Gap(count, bs) <= count / 8 + bs
  {
    LegalSizes(bs);
    RegionBytes(count, bs);
  }

  /** Each region ends, in 32-bit offsets, where the next region starts, for all counts that fs_create accepts. */
  lemma BitmapsInOrder(volumeLabel: seq<byte>, bs: nat, inodeCount: nat, blockCount: nat)
    requires LegalBlockSize(bs) && 1 <= inodeCount <= 65535 && 1 <= blockCount < 0x8000_0000
    ensures var sb := LayoutOf(volumeLabel, bs, inodeCount, blockCount);
            && Offset32(sb, sb.inodeBitmapStart) == bs
            && Offset32(sb, sb.datablockBitmapStart) == bs + Gap(inodeCount, bs)
            && Offset32(sb, sb.inodeStart) == Offset32(sb, sb.datablockBitmapStart) + Gap(blockCount, bs)
            && Offset32(sb, sb.datablocksStart) == Offset32(sb, sb.inodeStart) + Times(sb.inodeBlockCount, bs)
            && 64 * inodeCount <= Times(sb.inodeBlockCount, bs)
            && Offset32(sb, sb.datablocksStart) < 0x2000_0000
  {
    var i, b, t := RoundUp(inodeCount / 8, bs), RoundUp(blockCount / 8, bs), RoundUp(inodeCount, bs / 64);
    LegalSizes(bs);
    GapTaken(inodeCount, bs);
    GapTaken(blockCount, bs);
    TableSize(bs, bs / 64, inodeCount);
    StartsAreSums(i, b, t);
    OffsetsInOrder(LayoutOf(volumeLabel, bs, inodeCount, blockCount), i, b, t,
                   Gap(inodeCount, bs), Gap(blockCount, bs), Times(t, bs));
  }

  /** Data blocks behind it lie one after the other as long as they stay below 2 GB. */
  lemma DataBlocksInOrder(sb: Superblock, b: nat)
    requires Offset32(sb, sb.datablocksStart) + Times(b, sb.blockSize) < 0x8000_0000
    ensures Offset32(sb, sb.datablocksStart + b) == Offset32(sb, sb.datablocksStart) + Times(b, sb.blockSize)
  {
    var a := Times(sb.datablocksStart, sb.blockSize);
    TimesAdd(sb.datablocksStart, b, sb.blockSize);
    QuotRem(a, 0x1_0000_0000);
    QuotRemUnique(a + Times(b, sb.blockSize), 0x1_0000_0000, Quot(a, 0x1_0000_0000),
                  Rem(a, 0x1_0000_0000) + Times(b, sb.blockSize));
  }

  /** When bitmaps and table are consecutive they are disjoint exactly when each bitmap fits its region. */
  lemma FitDecides(sb: Superblock)
    requires Consecutive(sb)
    ensures RegionsDisjoint(sb) <==>
            && BytesFor(sb.inodeCount) <= Times(sb.inodeBitmapBlockCount, sb.blockSize)
            && BytesFor(sb.datablockCount) <= Times(sb.datablockBitmapBlockCount, sb.blockSize)
  {
    ExactOffsets(sb);
  }

  /** The layout is sound exactly when neither bitmap has a partial last byte at a region's end, which covers
      the counts below 8 for which ROUND_UP underflows. */
  lemma LayoutSoundness(volumeLabel: seq<byte>, bs: nat, inodeCount: nat, blockCount: nat)
    requires Addressable(bs, inodeCount, blockCount)
    ensures RegionsDisjoint(LayoutOf(volumeLabel, bs, inodeCount, blockCount)) <==> Sound(bs, inodeCount, blockCount)
  {
    LegalSizes(bs);
    if inodeCount < 8 || blockCount < 8 {
      if inodeCount < 8 {
        TinyCount(inodeCount, bs);
      } else {
        TinyCount(blockCount, bs);
      }
      BitmapsInOrder(volumeLabel, bs, inodeCount, blockCount);
    } else {
      CountsGiveConsecutive(volumeLabel, bs, inodeCount, blockCount);
      FitDecides(LayoutOf(volumeLabel, bs, inodeCount, blockCount));
      BitmapRegion(inodeCount, bs);
      BitmapRegion(blockCount, bs);
    }
  }
}
