/** For which layouts the three writes that end fs_add and fs_del store a consistent volume. */
module Commits {
  import opened Bytes
  import opened Arith
  import opened Bitmaps
  import opened Layout
  import opened Inodes
  import opened Chains
  import opened Volumes
  import opened Disk
  import opened Images
  import opened Runs
  import opened Realizing
  import opened Samples

  // ----- regions that overlap -----

  /** An inode table that starts inside the block bitmap overwrites its last bytes. */
  lemma TableSpoilsBitmap(bs: nat, o: Offsets, d: seq<byte>, x: seq<byte>, y: seq<byte>, z: seq<byte>)
    requires bs > 0 && |z| > 0 && o.blockBitmap <= o.table < o.blockBitmap + |y|
    requires y[o.table - o.blockBitmap] != z[0]
    ensures !RegionsHold(o, Committed(bs, o, d, x, y, z), x, y, z)
  {
    var d2 := Put(Put(d, o.inodeBitmap, WithPadding(x, bs)), o.blockBitmap, WithPadding(y, bs));
    PaddedWrite(d2, o.table, z, bs);
    var r := Committed(bs, o, d, x, y, z);
    assert r[o.table..o.table + |z|][0] == r[o.table];
    if o.blockBitmap + |y| <= |r| {
      assert r[o.blockBitmap..o.blockBitmap + |y|][o.table - o.blockBitmap] == r[o.table];
    }
  }

  /** ... and so does a block bitmap that starts inside the inode bitmap. */
  lemma BitmapSpoilsBitmap(bs: nat, o: Offsets, d: seq<byte>, x: seq<byte>, y: seq<byte>, z: seq<byte>)
    requires bs > 0 && |y| > 0 && o.inodeBitmap <= o.blockBitmap < o.inodeBitmap + |x|
    requires x[o.blockBitmap - o.inodeBitmap] != y[0] && o.blockBitmap + |y| <= o.table
    ensures !RegionsHold(o, Committed(bs, o, d, x, y, z), x, y, z)
  {
    var d1 := Put(d, o.inodeBitmap, WithPadding(x, bs));
    PaddedWrite(d1, o.blockBitmap, y, bs);
    var d2 := Put(d1, o.blockBitmap, WithPadding(y, bs));
    PaddedWrite(d2, o.table, z, bs);
    var r := Committed(bs, o, d, x, y, z);
    LaterChangeKeeps(d2, r, o.blockBitmap, y, o.table, o.table + |z| + bs);
    assert r[o.blockBitmap..o.blockBitmap + |y|][0] == r[o.blockBitmap];
    if o.inodeBitmap + |x| <= |r| {
      assert r[o.inodeBitmap..o.inodeBitmap + |x|][o.blockBitmap - o.inodeBitmap] == r[o.blockBitmap];
    }
  }

  // ----- committing a volume -----

  /** Committing the bitmaps and the table of volume v to d leaves each of them where it is read from. */
  ghost predicate StoresVolume(sb: Superblock, d: seq<byte>, v: Volume)
    requires sb.blockSize > 0 && WellFormedTable(v.table)
  {
    var o, z := OffsetsOf(sb), EncodeTable(v.table);
    var x, y := Pack(v.inodeMap, |v.inodeMap|), Pack(v.blockMap, |v.blockMap|);
    RegionsHold(o, Committed(sb.blockSize, o, d, x, y, z), x, y, z)
  }

  ghost predicate CommitsFaithfully(sb: Superblock)
    requires sb.blockSize > 0
  {
    forall d: seq<byte>, v: Volume ::
      VolumeOk(GeometryOf(sb), v) && WellFormedTable(v.table) ==> StoresVolume(sb, d, v)
  }

  /** v is a consistent volume that no commit to any image stores. */
  ghost predicate NeverStored(sb: Superblock, v: Volume)
    requires sb.blockSize > 0
  {
    && VolumeOk(GeometryOf(sb), v) && WellFormedTable(v.table)
    && forall d: seq<byte> :: !StoresVolume(sb, d, v)
  }

  ghost predicate Created(sb: Superblock) {
    && Addressable(sb.blockSize, sb.inodeCount, sb.datablockCount)
    && sb == LayoutOf(sb.volumeLabel, sb.blockSize, sb.inodeCount, sb.datablockCount)
  }

  lemma CreatedRegions(sb: Superblock)
    requires Created(sb)
    ensures var o := OffsetsOf(sb);
            && o.blockBitmap == o.inodeBitmap + Gap(sb.inodeCount, sb.blockSize)
            && o.table == o.blockBitmap + Gap(sb.datablockCount, sb.blockSize)
            && GeometryOk(GeometryOf(sb))
  {
    BitmapsInOrder(sb.volumeLabel, sb.blockSize, sb.inodeCount, sb.datablockCount);
    LegalSizes(sb.blockSize);
    HalfOf(sb.blockSize, sb.blockSize / 2);
  }

  // ----- single bytes of packed bitmaps -----

  lemma PackedBit(b: seq<bool>, i: nat)
    requires i < |b|
    ensures TestBit(Pack(b, |b|)[i / 8] as int, i % 8) == b[i]
    ensures b[i] ==> Pack(b, |b|)[i / 8] != 0
  {
    UnpackPack(b, |b|, i);
    assert Unpack(Pack(b, |b|), |b|)[i] == b[i];
    NoBits(i % 8);
  }

  lemma {:induction false} PackOnlyFirst(b: seq<bool>, i: nat)
    requires 0 < i <= |b| && b[0] && forall j :: 0 < j < |b| ==> !b[j]
    ensures Pack(b, i) == Zeros(BytesFor(|b|))[0 := OrBit(0, 0)]
  {
    if i == 1 {
      assert Pack(b, 0) == Zeros(BytesFor(|b|));
    } else {
      PackOnlyFirst(b, i - 1);
    }
  }

  lemma TableStartsWithZero(t: seq<Inode>)
    requires WellFormedTable(t) && t != [] && t[0] == ZeroInode()
    ensures EncodeTable(t)[0] == 0
  {
    assert EncodeTable(t)[0] == EncodeInode(t[0])[0];
    assert EncodeInode(ZeroInode())[0] == Encode16(0)[0];
  }

  // ----- the layouts that spoil some volume -----

  /** The volume that fs_create writes. */
  ghost function NewVolume(g: Geometry): (v: Volume)
    requires GeometryOk(g)
    ensures Shaped(g, v)
  {
    Volume(seq(g.inodeCount, i requires 0 <= i => i == 0), seq(g.blockCount, b requires 0 <= b => b == 0),
           seq(g.inodeCount, i requires 0 <= i => ZeroInode()),
           seq(g.blockCount, b requires 0 <= b => NewBlock(b, g.bs)))
  }

  function NewBlock(b: nat, bs: nat): (s: seq<byte>)
    ensures b > 0 ==> |s| == bs
  {
    if b == 0 then [] else Zeros(bs)
  }

  lemma NewVolumeOk(g: Geometry)
    requires GeometryOk(g)
    ensures var v := NewVolume(g);
            && VolumeOk(g, v) && v.inodeMap[0] && v.blockMap[0] && (forall i :: 0 < i < g.inodeCount ==> !v.inodeMap[i])
  {
    var v := NewVolume(g);
    assert forall i :: 0 <= i < g.inodeCount ==> v.inodeMap[i] == (i == 0) && v.table[i] == ZeroInode();
    assert forall b :: 0 <= b < g.blockCount ==> v.blockMap[b] == (b == 0);
    FreshVolume(g, v);
  }

  /** The table overwrites the byte of a marked block. */
  lemma TableSpoils(sb: Superblock, v: Volume, b: nat)
    requires Created(sb) && VolumeOk(GeometryOf(sb), v) && b < sb.datablockCount && v.blockMap[b]
    requires OffsetsOf(sb).table == OffsetsOf(sb).blockBitmap + b / 8
    ensures NeverStored(sb, v)
  {
    ConsistentTableFits(GeometryOf(sb), v);
    PackedBit(v.blockMap, b);
    TableStartsWithZero(v.table);
    forall d: seq<byte> ensures !StoresVolume(sb, d, v) {
      TableSpoilsAt(sb, d, v, OffsetsOf(sb), b / 8);
    }
  }

  lemma TableSpoilsAt(sb: Superblock, d: seq<byte>, v: Volume, o: Offsets, k: nat)
    requires sb.blockSize > 0 && WellFormedTable(v.table) && v.table != [] && o == OffsetsOf(sb)
    requires k < BytesFor(|v.blockMap|) && o.table == o.blockBitmap + k
    requires Pack(v.blockMap, |v.blockMap|)[k] != EncodeTable(v.table)[0]
    ensures !StoresVolume(sb, d, v)
  {
    TableSpoilsBitmap(sb.blockSize, o, d, Pack(v.inodeMap, |v.inodeMap|), Pack(v.blockMap, |v.blockMap|),
                      EncodeTable(v.table));
  }

  /** The first byte of the block bitmap overwrites a different byte of the inode bitmap. */
  lemma BitmapSpoils(sb: Superblock, v: Volume)
    requires Created(sb) && VolumeOk(GeometryOf(sb), v) && RegionFits(sb.datablockCount, sb.blockSize)
    requires Gap(sb.inodeCount, sb.blockSize) < BytesFor(sb.inodeCount)
    requires Pack(v.inodeMap, |v.inodeMap|)[Gap(sb.inodeCount, sb.blockSize)] != Pack(v.blockMap, |v.blockMap|)[0]
    ensures NeverStored(sb, v)
  {
    ConsistentTableFits(GeometryOf(sb), v);
    CreatedRegions(sb);
    GapFits(sb.datablockCount, sb.blockSize);
    forall d: seq<byte> ensures !StoresVolume(sb, d, v) {
      BitmapSpoilsAt(sb, d, v, OffsetsOf(sb), Gap(sb.inodeCount, sb.blockSize));
    }
  }

  lemma BitmapSpoilsAt(sb: Superblock, d: seq<byte>, v: Volume, o: Offsets, k: nat)
    requires sb.blockSize > 0 && WellFormedTable(v.table) && v.blockMap != [] && o == OffsetsOf(sb)
    requires k < BytesFor(|v.inodeMap|) && o.blockBitmap == o.inodeBitmap + k
    requires o.blockBitmap + BytesFor(|v.blockMap|) <= o.table
    requires Pack(v.inodeMap, |v.inodeMap|)[k] != Pack(v.blockMap, |v.blockMap|)[0]
    ensures !StoresVolume(sb, d, v)
  {
    BitmapSpoilsBitmap(sb.blockSize, o, d, Pack(v.inodeMap, |v.inodeMap|), Pack(v.blockMap, |v.blockMap|),
                       EncodeTable(v.table));
  }

  /** Fewer than eight blocks: the volume as created is spoiled. */
  lemma FewBlocksSpoil(sb: Superblock) returns (v: Volume)
    requires Created(sb) && sb.datablockCount < 8
    ensures NeverStored(sb, v)
  {
    CreatedRegions(sb);
    v := NewVolume(GeometryOf(sb));
    NewVolumeOk(GeometryOf(sb));
    TableSpoils(sb, v, 0);
  }

  /** A partial last byte of the block bitmap: a file in the last block is spoiled. */
  lemma LastBlockSpoils(sb: Superblock) returns (v: Volume)
    requires Created(sb) && 8 <= sb.datablockCount && !RegionFits(sb.datablockCount, sb.blockSize) && 2 <= sb.inodeCount
    ensures NeverStored(sb, v)
  {
    var g, b := GeometryOf(sb), sb.datablockCount - 1;
    CreatedRegions(sb);
    GapFits(sb.datablockCount, sb.blockSize);
    OneBlock(g.bs, g.P());
    SampleConsistent(g, b, [0]);
    v := SampleVolume(g, b, [0]);
    TableSpoils(sb, v, b);
  }

  lemma OneBlock(bs: nat, p: nat)
    requires bs > 0 && p > 0
    ensures BlockCount(0, bs) == 0 && ChainLength(0, p) == 0
    ensures BlockCount(1, bs) == 1 && ChainLength(1, p) == 1
  {
    assert Quot(0, bs) == 0;
  }

  /** A partial last byte of the inode bitmap: the volume as created is spoiled. */
  lemma LastInodeSpoils(sb: Superblock) returns (v: Volume)
    requires Created(sb) && RegionFits(sb.datablockCount, sb.blockSize)
    requires 8 <= sb.inodeCount && !RegionFits(sb.inodeCount, sb.blockSize)
    ensures NeverStored(sb, v)
  {
    CreatedRegions(sb);
    GapFits(sb.inodeCount, sb.blockSize);
    v := NewVolume(GeometryOf(sb));
    NewVolumeOk(GeometryOf(sb));
    PackOnlyFirst(v.inodeMap, |v.inodeMap|);
    PackedBit(v.blockMap, 0);
    BitmapSpoils(sb, v);
  }

  /** Two to seven inodes: the volume with one empty file is spoiled. */
  lemma FewInodesSpoil(sb: Superblock) returns (v: Volume)
    requires Created(sb) && RegionFits(sb.datablockCount, sb.blockSize) && 2 <= sb.inodeCount < 8 <= sb.datablockCount
    ensures NeverStored(sb, v)
  {
    var g := GeometryOf(sb);
    CreatedRegions(sb);
    OneBlock(g.bs, g.P());
    SampleConsistent(g, 1, []);
    v := SampleVolume(g, 1, []);
    PackedBit(v.inodeMap, 1);
    PackedBit(v.blockMap, 1);
    BitmapSpoils(sb, v);
  }

  // ----- a single inode -----

  lemma MarkedNeedsInode(g: Geometry, v: Volume, b: nat)
    requires VolumeOk(g, v) && 0 < b < g.blockCount && v.blockMap[b]
    ensures 2 <= g.inodeCount
  {
    var i :| Owns(g, v, i, b);
    assert Used(v, i);
  }

  /** Without a usable inode there is only one volume, and the bytes in which its regions overlap are equal. */
  lemma OneInodeStored(sb: Superblock, d: seq<byte>, v: Volume)
    requires Created(sb) && sb.inodeCount == 1 && 8 <= sb.datablockCount
    requires VolumeOk(GeometryOf(sb), v) && WellFormedTable(v.table)
    ensures StoresVolume(sb, d, v)
  {
    CreatedRegions(sb);
    GapFits(sb.datablockCount, sb.blockSize);
    forall b | 0 < b < |v.blockMap| ensures !v.blockMap[b] {
      if v.blockMap[b] {
        MarkedNeedsInode(GeometryOf(sb), v, b);
      }
    }
    PackOnlyFirst(v.inodeMap, 1);
    PackOnlyFirst(v.blockMap, |v.blockMap|);
    TableStartsWithZero(v.table);
    var o, z := OffsetsOf(sb), EncodeTable(v.table);
    var x, y := Pack(v.inodeMap, |v.inodeMap|), Pack(v.blockMap, |v.blockMap|);
    OverlapAgrees(sb.blockSize, o, d, x, y, z);
  }

  /** Regions that share only equal bytes: x lies at the start of y, and z may start at the last byte of y. */
  lemma OverlapAgrees(bs: nat, o: Offsets, d: seq<byte>, x: seq<byte>, y: seq<byte>, z: seq<byte>)
    requires bs > 0 && |x| == 1 && |y| > 0 && |z| > 0 && o.inodeBitmap == o.blockBitmap && x[0] == y[0]
    requires o.blockBitmap < o.table && o.blockBitmap + |y| <= o.table + 1
    requires o.table < o.blockBitmap + |y| ==> y[|y| - 1] == z[0]
    ensures RegionsHold(o, Committed(bs, o, d, x, y, z), x, y, z)
  {
    var d1 := Put(d, o.inodeBitmap, WithPadding(x, bs));
    var d2 := Put(d1, o.blockBitmap, WithPadding(y, bs));
    var r := Committed(bs, o, d, x, y, z);
    PaddedWrite(d1, o.blockBitmap, y, bs);
    PaddedWrite(d2, o.table, z, bs);
    LastByteShared(bs, o, d1, d2, r, y, z);
    assert r[o.inodeBitmap..o.inodeBitmap + 1][0] == r[o.blockBitmap..o.blockBitmap + |y|][0];
  }

  lemma LastByteShared(bs: nat, o: Offsets, d1: seq<byte>, d2: seq<byte>, r: seq<byte>, y: seq<byte>, z: seq<byte>)
    requires Wrote(d1, d2, o.blockBitmap, y, bs) && Wrote(d2, r, o.table, z, bs)
    requires |y| > 0 && |z| > 0 && o.blockBitmap < o.table && o.blockBitmap + |y| <= o.table + 1
    requires o.table < o.blockBitmap + |y| ==> y[|y| - 1] == z[0]
    ensures o.blockBitmap + |y| <= |r| && r[o.blockBitmap..o.blockBitmap + |y|] == y
  {
    var part := r[o.blockBitmap..o.blockBitmap + |y|];
    forall i | 0 <= i < |y| ensures part[i] == y[i] {
      if o.blockBitmap + i < o.table {
        assert d2[o.blockBitmap + i] == d2[o.blockBitmap..o.blockBitmap + |y|][i];
      } else {
        assert r[o.table] == r[o.table..o.table + |z|][0];
      }
    }
  }

  // ----- exactly -----

  lemma SoundStores(sb: Superblock, d: seq<byte>, v: Volume)
    requires Created(sb) && Sound(sb.blockSize, sb.inodeCount, sb.datablockCount)
    requires VolumeOk(GeometryOf(sb), v) && WellFormedTable(v.table)
    ensures StoresVolume(sb, d, v)
  {
    CreatedRegions(sb);
    GapFits(sb.inodeCount, sb.blockSize);
    GapFits(sb.datablockCount, sb.blockSize);
    PaddedWritesInOrder(sb.blockSize, OffsetsOf(sb), d,
                        Pack(v.inodeMap, |v.inodeMap|), Pack(v.blockMap, |v.blockMap|), EncodeTable(v.table));
  }

  /** The layout is sound, or nothing can be stored and the overlap does not show. */
  predicate Storable(bs: int, inodeCount: int, blockCount: int) {
    Sound(bs, inodeCount, blockCount) || (inodeCount == 1 && 8 <= blockCount)
  }

  lemma UnsoundSpoils(sb: Superblock) returns (v: Volume)
    requires Created(sb) && !Storable(sb.blockSize, sb.inodeCount, sb.datablockCount)
    ensures NeverStored(sb, v)
  {
    if sb.datablockCount < 8 {
      v := FewBlocksSpoil(sb);
    } else if !RegionFits(sb.datablockCount, sb.blockSize) {
      v := LastBlockSpoils(sb);
    } else if sb.inodeCount < 8 {
      v := FewInodesSpoil(sb);
    } else {
      v := LastInodeSpoils(sb);
    }
  }

  /** For all legal counts the three-write commit stores every consistent volume faithfully, whatever image it goes to,
      if and only if the layout is sound or has the one reserved inode only and eight blocks or more. On every other
      layout some consistent volume is stored faithfully on no image. */
  lemma CommitExactlyOnSoundLayouts(sb: Superblock)
    requires Addressable(sb.blockSize, sb.inodeCount, sb.datablockCount)
    requires sb == LayoutOf(sb.volumeLabel, sb.blockSize, sb.inodeCount, sb.datablockCount)
    ensures CommitsFaithfully(sb) <==> Storable(sb.blockSize, sb.inodeCount, sb.datablockCount)
    ensures !CommitsFaithfully(sb) ==> exists v :: NeverStored(sb, v)
  {
    if Storable(sb.blockSize, sb.inodeCount, sb.datablockCount) {
      forall d: seq<byte>, v: Volume | VolumeOk(GeometryOf(sb), v) && WellFormedTable(v.table)
        ensures StoresVolume(sb, d, v)
      {
        if Sound(sb.blockSize, sb.inodeCount, sb.datablockCount) {
          SoundStores(sb, d, v);
        } else {
          OneInodeStored(sb, d, v);
        }
      }
    } else {
      var v := UnsoundSpoils(sb);
      assert !StoresVolume(sb, [], v);
    }
  }
}
