/** Where fs_del as written goes wrong: exactly on the files that have indirect pointers. */
module Misreading {
  import opened Bytes
  import opened Bits
  import opened Arith
  import opened CStrings
  import opened Layout
  import opened Inodes
  import opened Chains
  import opened Volumes
  import opened Adding
  import opened Steps
  import opened Runs
  import opened Freeing
  import opened Images
  import opened Mounts
  import opened DelTool
  import opened Realizing
  import opened Samples

  /** Deleting inode i as written follows no pointer out of the bitmap and leaves a consistent volume. */
  ghost predicate DeletesRightly(sb: Superblock, d: seq<byte>, i: nat)
    requires Laid(sb, d) && i < sb.inodeCount
  {
    var v := ViewOf(sb, d);
    && !PointsOutside(sb, d, 0, v.table[i])
    && VolumeOk(GeometryOf(sb), Removed(v, i, NamedOnDisk(sb, d, 0, v.table[i])))
  }

  /** For a single image: nothing leads outside and the marks cleared are those of the file's blocks. */
  lemma DeletesRightlyExactly(sb: Superblock, d: seq<byte>, i: nat)
    requires Mounted(sb, d) && Used(ViewOf(sb, d), i)
    ensures var v := ViewOf(sb, d);
            DeletesRightly(sb, d, i) <==>
            && !PointsOutside(sb, d, 0, v.table[i])
            && Clear(v.blockMap, NamedOnDisk(sb, d, 0, v.table[i])) ==
               Clear(v.blockMap, Elements(Chain(GeometryOf(sb), v.blocks, v.table[i])))
  {
    var v := ViewOf(sb, d);
    forall x | x in NamedOnDisk(sb, d, 0, v.table[i]) ensures 0 < x {
      NamedArePositive(sb, d, 0, v.table[i], x);
    }
    RemovalConsistentExactly(GeometryOf(sb), v, i, NamedOnDisk(sb, d, 0, v.table[i]));
  }

  /** Inode i of image d is a stored file of the given size, in blocks of bs bytes. */
  ghost predicate StoredFileOf(sb: Superblock, d: seq<byte>, i: nat, bs: nat, size: nat) {
    && sb.blockSize == bs && Mounted(sb, d)
    && Used(ViewOf(sb, d), i) && ViewOf(sb, d).table[i].size == size
  }

  // ----- the bait: a file whose blocks read as pointer blocks name its first block -----

  /** Where the second file begins; the first takes the blocks from 1 on. */
  const FIRST := 40

  const ADDED_NAME: seq<byte> := [103]

  /** 38 blocks, each beginning with the pointer 1. */
  function Bait(bs: nat): (c: seq<byte>)
    requires bs > 0
    ensures |c| == Times(38, bs)
  {
    seq(Times(38, bs), i requires 0 <= i => if Rem(i, bs) == 0 then 1 else 0)
  }

  /** The shape of the sample images. */
  ghost predicate Roomy(g: Geometry) {
    GeometryOk(g) && g.bs <= 8192 && 256 <= g.P() && g.blockCount == 0x1_0000 && g.inodeCount == 136
  }

  lemma BaitFits(g: Geometry)
    requires Roomy(g)
    ensures RoomFor(g, 1, |Bait(g.bs)|)
    ensures BlockCount(|Bait(g.bs)|, g.bs) == 38 && ChainLength(38, g.P()) == 39
  {
    QuotRemUnique(Times(38, g.bs) - 1, g.bs, 37, g.bs - 1);
    TimesMonotonic(1, 38, g.bs);
    TimesIsProduct(38, g.bs);
    assert Quot(33, g.P()) == 0;
  }

  lemma BaitChunk(bs: nat, l: nat)
    requires 2 <= bs && l < 38
    ensures PointerOr0(ChunkOf(Bait(bs), l, bs), 0) == 1
  {
    TimesMonotonic(l, 38, bs);
    QuotRemUnique(Times(l, bs), bs, l, 0);
    QuotRemUnique(Times(l, bs) + 1, bs, l, 1);
    var s := ChunkOf(Bait(bs), l, bs);
    assert s[0] == 1 && s[1] == 0;
    assert s[0..2] == [1, 0];
  }

  /** Behind its pointer block, block 5, the first file has data blocks only. */
  lemma BaitBlock(g: Geometry, b: nat)
    requires Roomy(g) && RoomFor(g, 1, |Bait(g.bs)|) && 6 <= b < FIRST
    ensures PointerOr0(FileBlock(g, 1, Bait(g.bs), b), 0) == 1
  {
    BaitFits(g);
    var u, p := b - 1 - DIRECT, g.P();
    QuotRemUnique(u, p + 1, 0, u);
    assert SlotOf(b - 1, p) == Leaf(0, u - 1) && LeafIndex(0, u - 1, p) == b - 2;
    BaitChunk(g.bs, b - 2);
  }

  // ----- a second file, added behind it -----

  lemma UsedPrefix(b: seq<bool>, k: nat)
    requires k <= |b| && forall j :: 0 <= j < |b| ==> b[j] == (j < k)
    ensures FreeList(b) == Run(k, |b| - k)
  {
    FreeFromMeans(b, 0);
    var r := Run(k, |b| - k);
    forall x ensures x in FreeList(b) <==> x in r {
      if k <= x < |b| {
        assert r[x - k] == x;
      }
    }
    AscendingUnique(FreeList(b), r);
  }

  ghost function BaitVolume(g: Geometry): (v: Volume)
    requires Roomy(g)
    ensures Shaped(g, v)
  {
    BaitFits(g);
    SampleVolume(g, 1, Bait(g.bs))
  }

  lemma BaitSpace(g: Geometry)
    requires Roomy(g)
    ensures var v := BaitVolume(g);
            && FreeList(v.inodeMap) == Run(2, 134) && FreeList(v.blockMap) == Run(FIRST, 0x1_0000 - FIRST)
            && VolumeOk(g, v) && WellFormedTable(v.table) && Owns(g, v, 1, 1)
  {
    BaitFits(g);
    SampleConsistent(g, 1, Bait(g.bs));
    var v := BaitVolume(g);
    UsedPrefix(v.inodeMap, 2);
    UsedPrefix(v.blockMap, FIRST);
    assert Chain(g, v.blocks, v.table[1])[0] == 1;
  }

  /** What block b holds after the second file, of zeros only, is stored in the blocks from FIRST on. */
  ghost function AddedBlock(g: Geometry, size: nat, b: nat): (s: seq<byte>)
    requires Roomy(g) && RoomFor(g, FIRST, size) && b < g.blockCount
    ensures b > 0 ==> |s| == g.bs
  {
    if b < FIRST then BaitVolume(g).blocks[b] else FileBlock(g, FIRST, Zeros(size), b)
  }

  ghost function AddedBlocks(g: Geometry, size: nat): (blocks: seq<seq<byte>>)
    requires Roomy(g) && RoomFor(g, FIRST, size)
    ensures |blocks| == g.blockCount
    ensures forall b :: 0 < b < g.blockCount ==> |blocks[b]| == g.bs
  {
    seq(g.blockCount, b requires 0 <= b < g.blockCount => AddedBlock(g, size, b))
  }

  ghost function AddedVolume(g: Geometry, size: nat): (v: Volume)
    requires Roomy(g) && RoomFor(g, FIRST, size)
    ensures Shaped(g, v)
  {
    var v := BaitVolume(g);
    Volume(v.inodeMap[2 := true], Mark(v.blockMap, ChainFrom(g, FIRST, size)),
           v.table[2 := SampleInode(g, 2, ADDED_NAME, FIRST, size)], AddedBlocks(g, size))
  }

  lemma AddedNameIsNew(g: Geometry)
    requires Roomy(g)
    ensures Lookup(BaitVolume(g).table, KeyOf(ADDED_NAME)) == g.inodeCount
  {
    BaitFits(g);
    var v := BaitVolume(g);
    KeyOfNewInode(1, SAMPLE_NAME, |Bait(g.bs)|, ChainFrom(g, 1, |Bait(g.bs)|), BlockCount(|Bait(g.bs)|, g.bs), g.P());
    assert KeyOf(SAMPLE_NAME)[0] != KeyOf(ADDED_NAME)[0];
    assert forall i: nat :: i < |v.table| ==> !Matches(v.table, i, KeyOf(ADDED_NAME));
  }

  lemma AddedBlocksHold(g: Geometry, size: nat)
    requires Roomy(g) && RoomFor(g, FIRST, size)
    ensures var f, v := ChainFrom(g, FIRST, size), BaitVolume(g);
            && Pointers16(f)
            && BlocksHold(f, BlockCount(size, g.bs), Zeros(size), AddedBlocks(g, size), g.bs, g.P())
            && (forall b :: 0 <= b < g.blockCount && b !in f ==> AddedBlocks(g, size)[b] == v.blocks[b])
  {
    BaitFits(g);
    StandingHolds(g, FIRST, Zeros(size), AddedBlocks(g, size));
    var f, v := ChainFrom(g, FIRST, size), BaitVolume(g);
    forall b | FIRST <= b < FIRST + |f| ensures b in f {
      assert f[b - FIRST] == b;
    }
    assert forall b :: 0 <= b < g.blockCount && b !in f ==> AddedBlocks(g, size)[b] == v.blocks[b];
  }

  /** fs_add of the second file is the step between the two volumes. */
  lemma AddedStep(g: Geometry, size: nat)
    requires Roomy(g) && RoomFor(g, FIRST, size)
    ensures CanAdd(g, BaitVolume(g), ADDED_NAME, size)
    ensures IsAdded(g, BaitVolume(g), ADDED_NAME, Zeros(size), AddedVolume(g, size))
  {
    BaitSpace(g);
    AddedNameIsNew(g);
    AddedBlocksHold(g, size);
    assert FreeList(BaitVolume(g).blockMap)[..BlocksNeeded(g, size)] == ChainFrom(g, FIRST, size);
  }

  /** d is an image with the bait, d1 the image after the second file is added. */
  ghost predicate IsSample(sb: Superblock, d: seq<byte>, d1: seq<byte>, size: nat) {
    var g := GeometryOf(sb);
    && Roomy(g) && RoomFor(g, FIRST, size) && DIRECT < BlockCount(size, g.bs) && 5 <= sb.datablocksStart <= 35
    && Mounted(sb, d) && ViewOf(sb, d) == BaitVolume(g)
    && Mounted(sb, d1) && ViewOf(sb, d1) == AddedVolume(g, size)
    && ToolStep(d, Add(ADDED_NAME, Zeros(size)), d1, true)
  }

  /** Every consistent volume whose block 0 is empty has a mounted image. */
  lemma MountedImage(sb: Superblock, v: Volume) returns (d: seq<byte>)
    requires SoundSuperblock(sb) && Accepted(sb) && VolumeOk(GeometryOf(sb), v) && v.blocks[0] == []
    ensures Mounted(sb, d) && ViewOf(sb, d) == v && HeaderBytes(d) == ImageHeader(sb)
  {
    ConsistentTableFits(GeometryOf(sb), v);
    ImageOfVolume(sb, v);
    d := ImageOf(sb, v);
  }

  /** The bytes of a superblock on disk. */
  ghost function ImageHeader(sb: Superblock): seq<byte> {
    if WellFormed(sb) then EncodeSuperblock(sb) else []
  }

  lemma SampleImages(sb: Superblock, size: nat) returns (d: seq<byte>, d1: seq<byte>)
    requires SoundSuperblock(sb) && Accepted(sb) && Roomy(GeometryOf(sb)) && RoomFor(GeometryOf(sb), FIRST, size)
    requires DIRECT < BlockCount(size, sb.blockSize) && 5 <= sb.datablocksStart <= 35
    ensures IsSample(sb, d, d1, size)
  {
    SampleVolumes(GeometryOf(sb), size);
    d := MountedImage(sb, BaitVolume(GeometryOf(sb)));
    d1 := MountedImage(sb, AddedVolume(GeometryOf(sb), size));
    assert ToolStep(d, Add(ADDED_NAME, Zeros(size)), d1, true);
  }

  lemma SampleVolumes(g: Geometry, size: nat)
    requires Roomy(g) && RoomFor(g, FIRST, size)
    ensures VolumeOk(g, BaitVolume(g)) && BaitVolume(g).blocks[0] == []
    ensures VolumeOk(g, AddedVolume(g, size)) && AddedVolume(g, size).blocks[0] == []
    ensures VolumeStep(g, BaitVolume(g), Add(ADDED_NAME, Zeros(size)), AddedVolume(g, size), true)
  {
    BaitSpace(g);
    BaitFits(g);
    AddedStep(g, size);
    AddKeepsVolume(g, BaitVolume(g), ADDED_NAME, Zeros(size), AddedVolume(g, size));
  }

  /** With 136 inodes and 65536 data blocks the data blocks start between block 5 and block 35. */
  lemma SampleStart(volumeLabel: seq<byte>, bs: nat)
    requires LegalBlockSize(bs)
    ensures Sound(bs, 136, 65536)
    ensures 5 <= LayoutOf(volumeLabel, bs, 136, 65536).datablocksStart <= 35
  {
    LegalSizes(bs);
    RoundUpCeiling(17, bs);
    RoundUpCeiling(8192, bs);
    RoundUpCeiling(136, bs / 64);
    var b, t := RoundUp(8192, bs), RoundUp(136, bs / 64);
    if 17 <= b {
      TimesMonotonic(17, b, bs);
      TimesIsProduct(17, bs);
    }
    if 18 <= t {
      TimesMonotonic(18, t, bs / 64);
      TimesIsProduct(18, bs / 64);
    }
  }

  lemma SampleSuperblock(bs: nat) returns (sb: Superblock)
    requires LegalBlockSize(bs)
    ensures SoundSuperblock(sb) && sb.blockSize == bs && sb.inodeCount == 136 && sb.datablockCount == 0x1_0000
    ensures 5 <= sb.datablocksStart <= 35
  {
    var name := Padded(SAMPLE_NAME, LABEL_LENGTH - 1) + [0];
    SampleStart(name, bs);
    sb := LayoutOf(name, bs, 136, 65536);
  }

  lemma LargeFile(bs: nat, size: nat)
    requires 0 < bs && 4 * bs < size
    ensures DIRECT < BlockCount(size, bs)
  {
    QuotRem(size - 1, bs);
    TimesIsProduct(3, bs);
    if Quot(size - 1, bs) <= 3 {
      TimesMonotonic(Quot(size - 1, bs), 3, bs);
    }
  }

  lemma ChainFits(d: nat, p: nat)
    requires 0 < p <= 4096 && d <= MaxBlocks(p)
    ensures FIRST + ChainLength(d, p) <= 0x1_0000
  {
    GroupsOfMax(d, p);
  }

  lemma SampleFits(bs: nat, size: nat)
    requires LegalBlockSize(bs) && 4 * bs < size && BlockCount(size, bs) <= MaxBlocks(Quot(bs, 2))
    ensures 256 <= Quot(bs, 2) && bs == 2 * Quot(bs, 2)
    ensures DIRECT < BlockCount(size, bs)
    ensures FIRST + ChainLength(BlockCount(size, bs), Quot(bs, 2)) <= 0x1_0000
  {
    LegalHalf(bs);
    LargeFile(bs, size);
    ChainFits(BlockCount(size, bs), Quot(bs, 2));
  }

  /** There is a sample for every size that needs an indirect pointer and that a file can have. */
  lemma SampleExists(bs: nat, size: nat) returns (sb: Superblock, d: seq<byte>, d1: seq<byte>)
    requires LegalBlockSize(bs) && 4 * bs < size < 0x8000_0000 && BlockCount(size, bs) <= MaxBlocks(Quot(bs, 2))
    ensures sb.blockSize == bs && IsSample(sb, d, d1, size)
  {
    sb := SampleSuperblock(bs);
    SoundIsNavigable(sb);
    SampleFits(bs, size);
    d, d1 := SampleImages(sb, size);
  }

  // ----- what the as-written delete does to it -----

  lemma BaitTaken(g: Geometry, size: nat, y: nat)
    requires Roomy(g) && RoomFor(g, FIRST, size) && 6 <= y < FIRST
    ensures PointerOr0(AddedVolume(g, size).blocks[y], 0) == 1
  {
    BaitFits(g);
    BaitBlock(g, y);
  }

  /** The first pointer block of the second file is looked for in a block of the first. */
  lemma MisreadBlock(sb: Superblock, d1: seq<byte>, size: nat)
    requires Laid(sb, d1) && Roomy(GeometryOf(sb)) && RoomFor(GeometryOf(sb), FIRST, size)
    requires 5 <= sb.datablocksStart <= 35 && ViewOf(sb, d1) == AddedVolume(GeometryOf(sb), size)
    ensures PointerOr0(ReaderOf(d1, sb.blockSize, 0)(FIRST + 4), 0) == 1
  {
    var y := FIRST + 4 - sb.datablocksStart;
    BaitTaken(GeometryOf(sb), size, y);
    BlocksReadable(sb, d1, y);
  }

  lemma FirstPointerBlock(g: Geometry, size: nat)
    requires Roomy(g) && RoomFor(g, FIRST, size) && DIRECT < BlockCount(size, g.bs)
    ensures var n := AddedVolume(g, size).table[2]; |n.indirect| == INDIRECT && n.indirect[0] == FIRST + 4
  {
    var d, p := BlockCount(size, g.bs), g.P();
    GroupBounds(d, p);
    IndirectPosInChain(0, d, p);
    assert IndirectPos(0, p) == 4;
  }

  /** So delete clears the mark of block 1, which the first file owns. */
  lemma BlockOneNamed(sb: Superblock, d1: seq<byte>, size: nat)
    requires Laid(sb, d1) && Roomy(GeometryOf(sb)) && RoomFor(GeometryOf(sb), FIRST, size)
    requires DIRECT < BlockCount(size, sb.blockSize)
    requires 5 <= sb.datablocksStart <= 35 && ViewOf(sb, d1) == AddedVolume(GeometryOf(sb), size)
    ensures 1 in NamedOnDisk(sb, d1, 0, ViewOf(sb, d1).table[2])
  {
    MisreadBlock(sb, d1, size);
    FirstPointerBlock(GeometryOf(sb), size);
    NamedByFirst(ReaderOf(d1, sb.blockSize, 0), ViewOf(sb, d1).table[2], GeometryOf(sb).P(), 1);
  }

  lemma NamedByFirst(read: nat -> seq<byte>, n: Inode, p: nat, x: nat)
    requires 0 < p && 0 < x && n.indirect != [] && n.indirect[0] > 0 && PointerOr0(read(n.indirect[0]), 0) == x
    ensures x in Named(read, n, p)
  {
    InNamedIn(read(n.indirect[0]), p, x);
    InNamedThrough(read, n.indirect, |n.indirect|, p, x);
  }

  /** No pointer leads outside: the image has as many blocks as pointers can name. */
  lemma NothingOutside(sb: Superblock, d: seq<byte>, base: nat, n: Inode)
    requires WellFormedInode(n) && sb.datablockCount == 0x1_0000
    ensures !PointsOutside(sb, d, base, n)
  {
    var read, p := ReaderOf(d, sb.blockSize, base), GeometryOf(sb).P();
    forall x | x in NamedOnDisk(sb, d, base, n) ensures x < 0x1_0000 {
      InNamedBy(n.direct, |n.direct|, x);
      InNamedThrough(read, n.indirect, |n.indirect|, p, x);
      if x in NamedThrough(read, n.indirect, |n.indirect|, p) {
        var q: nat :|
          q < |n.indirect| && n.indirect[q] > 0 && (x == n.indirect[q] || x in NamedIn(read(n.indirect[q]), p));
        InNamedIn(read(n.indirect[q]), p, x);
      }
    }
  }

  /** Removing the second file and the mark of block 1 leaves a file one of whose blocks is free. */
  lemma OneUnmarked(g: Geometry, v: Volume, i: nat, named: set<nat>)
    requires GeometryOk(g) && VolumeOk(g, v) && Owns(g, v, 1, 1) && i != 1 && i < |v.table| && 1 in named
    requires 2 <= g.blockCount
    ensures var after := Removed(v, i, named);
            && Used(after, 1) && 1 in Chain(g, after.blocks, after.table[1])
            && !after.blockMap[1] && !VolumeOk(g, after)
  {
    var after := Removed(v, i, named);
    assert Owns(g, after, 1, 1);
  }

  lemma FirstOwned(g: Geometry, size: nat)
    requires Roomy(g) && RoomFor(g, FIRST, size)
    ensures Owns(g, AddedVolume(g, size), 1, 1)
  {
    BaitSpace(g);
    AddedStep(g, size);
    OwnersAfterAdd(g, BaitVolume(g), ADDED_NAME, Zeros(size), AddedVolume(g, size), 1, 1);
  }

  /** A volume in which the next add takes block 1 although file 1 owns it. */
  ghost predicate LostBlock(g: Geometry, v: Volume) {
    && GeometryOk(g) && Shaped(g, v)
    && Used(v, 1) && 1 in Chain(g, v.blocks, v.table[1])
    && FreeList(v.blockMap) != [] && FreeList(v.blockMap)[0] == 1
    && !VolumeOk(g, v)
  }

  lemma OtherUnmarked(g: Geometry, size: nat, named: set<nat>)
    requires Roomy(g) && RoomFor(g, FIRST, size) && 0 !in named && 1 in named && VolumeOk(g, AddedVolume(g, size))
    ensures var after := Removed(AddedVolume(g, size), 2, named);
            LostBlock(g, after) && after.blockMap != BaitVolume(g).blockMap
  {
    var after := Removed(AddedVolume(g, size), 2, named);
    FirstOwned(g, size);
    OneUnmarked(g, AddedVolume(g, size), 2, named);
    assert BaitVolume(g).blockMap[0] && BaitVolume(g).blockMap[1];
    FirstFree(after.blockMap);
  }

  /** The second file is found under its name. */
  lemma AddedFound(g: Geometry, size: nat)
    requires Roomy(g) && RoomFor(g, FIRST, size) && VolumeOk(g, AddedVolume(g, size))
    ensures var v1 := AddedVolume(g, size);
            && Used(v1, 2) && v1.table[2].size == size && WellFormedInode(v1.table[2])
            && Lookup(v1.table, KeyOf(ADDED_NAME)) == 2
  {
    AddedKey(g, size);
    assert Used(AddedVolume(g, size), 2);
    LookupFinds(g, AddedVolume(g, size), 2);
  }

  /** On the sample the as-written delete runs to its end and unmarks a block of another file: the next add takes it. */
  lemma SampleFails(sb: Superblock, d: seq<byte>, d1: seq<byte>, size: nat)
    requires IsSample(sb, d, d1, size)
    ensures var g, v1 := GeometryOf(sb), ViewOf(sb, d1);
            var after := Removed(v1, 2, NamedOnDisk(sb, d1, 0, v1.table[2]));
            && !PointsOutside(sb, d1, 0, v1.table[2])
            && Used(v1, 2) && v1.table[2].size == size && Lookup(v1.table, KeyOf(ADDED_NAME)) == 2
            && LostBlock(g, after) && after.blockMap != ViewOf(sb, d).blockMap
  {
    BlockOneNamed(sb, d1, size);
    if 0 in NamedOnDisk(sb, d1, 0, ViewOf(sb, d1).table[2]) {
      NamedArePositive(sb, d1, 0, ViewOf(sb, d1).table[2], 0);
      assert false;
    }
    AddedFound(GeometryOf(sb), size);
    NothingOutside(sb, d1, 0, ViewOf(sb, d1).table[2]);
    OtherUnmarked(GeometryOf(sb), size, NamedOnDisk(sb, d1, 0, ViewOf(sb, d1).table[2]));
  }

  lemma FirstFree(b: seq<bool>)
    requires 2 <= |b| && b[0] && !b[1]
    ensures FreeList(b) != [] && FreeList(b)[0] == 1
  {
    assert FreeFrom(b, 0) == FreeFrom(b, 1);
  }

  lemma AddedKey(g: Geometry, size: nat)
    requires Roomy(g) && RoomFor(g, FIRST, size)
    ensures KeyOfInode(AddedVolume(g, size).table[2]) == KeyOf(ADDED_NAME)
  {
    KeyOfNewInode(2, ADDED_NAME, size, ChainFrom(g, FIRST, size), BlockCount(size, g.bs), g.P());
  }

  // ----- exactly -----

  lemma SmallFileDeletes(sb: Superblock, d: seq<byte>, i: nat)
    requires Mounted(sb, d) && Used(ViewOf(sb, d), i) && ViewOf(sb, d).table[i].size <= 4 * sb.blockSize
    ensures DeletesRightly(sb, d, i)
  {
    var v := ViewOf(sb, d);
    FreesTheChain(sb, d, 0, v.table[i]);
    DeleteKeepsVolume(GeometryOf(sb), v, i, Removed(v, i, NamedOnDisk(sb, d, 0, v.table[i])));
  }

  lemma SampleStored(sb: Superblock, d: seq<byte>, d1: seq<byte>, size: nat)
    requires IsSample(sb, d, d1, size)
    ensures StoredFileOf(sb, d1, 2, sb.blockSize, size) && !DeletesRightly(sb, d1, 2)
  {
    SampleFails(sb, d, d1, size);
  }

  /** fs_del as written leaves every image that holds a file of a given size consistent if and only if that size is at
      most four blocks, that is, if and only if the file has no indirect pointers. */
  lemma AsWrittenExactly(bs: nat, size: nat)
    requires LegalBlockSize(bs) && size < 0x8000_0000 && BlockCount(size, bs) <= MaxBlocks(Quot(bs, 2))
    ensures (forall sb: Superblock, d: seq<byte>, i: nat ::
               StoredFileOf(sb, d, i, bs, size) ==> DeletesRightly(sb, d, i))
            <==> size <= 4 * bs
  {
    if size <= 4 * bs {
      forall sb: Superblock, d: seq<byte>, i: nat | StoredFileOf(sb, d, i, bs, size) ensures DeletesRightly(sb, d, i) {
        SmallFileDeletes(sb, d, i);
      }
    } else {
      var sb, d, d1 := SampleExists(bs, size);
      SampleStored(sb, d, d1, size);
    }
  }

  /** d1 is d after a file of the given size is added. */
  ghost predicate AddedTo(sb: Superblock, d: seq<byte>, filename: seq<byte>, c: seq<byte>, d1: seq<byte>,
                          bs: nat, size: nat) {
    && sb.blockSize == bs && |c| == size
    && Mounted(sb, d) && ValidOp(Add(filename, c)) && ToolStep(d, Add(filename, c), d1, true)
  }

  /** Deleting the file as written takes the add back: both bitmaps and the inode table are what they were. */
  ghost predicate Undoes(sb: Superblock, d: seq<byte>, filename: seq<byte>, d1: seq<byte>)
  {
    && Laid(sb, d) && Laid(sb, d1)
    && var v, v1 := ViewOf(sb, d), ViewOf(sb, d1);
    var i := Lookup(v1.table, KeyOf(filename));
    && i < |v1.table|
    && !PointsOutside(sb, d1, 0, v1.table[i])
    && var v2 := Removed(v1, i, NamedOnDisk(sb, d1, 0, v1.table[i]));
       v2.inodeMap == v.inodeMap && v2.blockMap == v.blockMap && v2.table == v.table
  }

  lemma SmallUndone(sb: Superblock, d: seq<byte>, filename: seq<byte>, c: seq<byte>, d1: seq<byte>, bs: nat, size: nat)
    requires AddedTo(sb, d, filename, c, d1, bs, size) && size <= 4 * bs
    ensures Undoes(sb, d, filename, d1)
  {
    RemovalUndoesAdd(sb, d, filename, c, d1, 0);
  }

  lemma SecondAddIsValid(size: nat)
    requires size < 0x8000_0000
    ensures ValidOp(Add(ADDED_NAME, Zeros(size)))
  {
  }

  lemma SampleAdded(sb: Superblock, d: seq<byte>, d1: seq<byte>, size: nat)
    requires IsSample(sb, d, d1, size)
    ensures AddedTo(sb, d, ADDED_NAME, Zeros(size), d1, sb.blockSize, size)
  {
    SecondAddIsValid(size);
  }

  lemma NotUndone(sb: Superblock, d: seq<byte>, d1: seq<byte>, size: nat)
    requires IsSample(sb, d, d1, size)
    ensures !Undoes(sb, d, ADDED_NAME, d1)
  {
    SampleFails(sb, d, d1, size);
  }

  /** fs_del as written undoes every add of a file of a given size if and only if that size is at most four blocks. */
  lemma UndoneExactly(bs: nat, size: nat)
    requires LegalBlockSize(bs) && size < 0x8000_0000 && BlockCount(size, bs) <= MaxBlocks(Quot(bs, 2))
    ensures (forall sb: Superblock, d: seq<byte>, filename: seq<byte>, c: seq<byte>, d1: seq<byte> ::
               AddedTo(sb, d, filename, c, d1, bs, size) ==> Undoes(sb, d, filename, d1))
            <==> size <= 4 * bs
  {
    if size <= 4 * bs {
      forall sb: Superblock, d: seq<byte>, filename: seq<byte>, c: seq<byte>, d1: seq<byte> |
        AddedTo(sb, d, filename, c, d1, bs, size) ensures Undoes(sb, d, filename, d1)
      {
        SmallUndone(sb, d, filename, c, d1, bs, size);
      }
    } else {
      var sb, d, d1 := SampleExists(bs, size);
      SampleAdded(sb, d, d1, size);
      NotUndone(sb, d, d1, size);
    }
  }
}
