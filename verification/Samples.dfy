/** Consistent volumes that hold one file. */
module Samples {
  import opened Bytes
  import opened Bits
  import opened Arith
  import opened Inodes
  import opened Chains
  import opened Volumes
  import opened Adding

  const SAMPLE_NAME: seq<byte> := [102]

  /** A file of the given size can take the blocks from first on. */
  ghost predicate RoomFor(g: Geometry, first: nat, size: nat) {
    && GeometryOk(g) && 2 <= g.inodeCount && 0 < first && size < 0x8000_0000
    && BlockCount(size, g.bs) <= MaxBlocks(g.P())
    && first + ChainLength(BlockCount(size, g.bs), g.P()) <= g.blockCount
  }

  /** The chain of a file that takes t blocks from first on. */
  function Run(first: nat, t: nat): (f: seq<nat>)
    ensures |f| == t && forall k :: 0 <= k < t ==> f[k] == first + k
  {
    seq(t, k => first + k)
  }

  ghost function ChainFrom(g: Geometry, first: nat, size: nat): seq<nat>
    requires GeometryOk(g)
  {
    Run(first, ChainLength(BlockCount(size, g.bs), g.P()))
  }

  function ChunkOf(c: seq<byte>, l: nat, bs: nat): (s: seq<byte>)
    ensures |s| == bs
  {
    if Times(l, bs) <= |c| then Chunk(c, l, bs) else Zeros(bs)
  }

  /** What block b holds of a file with contents c whose blocks start at first. */
  ghost function FileBlock(g: Geometry, first: nat, c: seq<byte>, b: nat): (s: seq<byte>)
    requires RoomFor(g, first, |c|)
    ensures |s| == g.bs
  {
    var d, p := BlockCount(|c|, g.bs), g.P();
    if first <= b < first + ChainLength(d, p) then
      match SlotOf(b - first, p)
      case Direct(j) => ChunkOf(c, j, g.bs)
      case Leaf(q, r) => ChunkOf(c, LeafIndex(q, r, p), g.bs)
      case Indirect(q) => EncodePointers(GroupPointers(ChainFrom(g, first, |c|), q, d, p))
    else Zeros(g.bs)
  }

  /** The blocks of the file stand in the block array. */
  ghost predicate Stands(g: Geometry, first: nat, c: seq<byte>, blocks: seq<seq<byte>>)
    requires RoomFor(g, first, |c|)
  {
    && |blocks| == g.blockCount
    && forall b :: first <= b < first + |ChainFrom(g, first, |c|)| ==> blocks[b] == FileBlock(g, first, c, b)
  }

  lemma SlotIndex(l: nat, p: nat)
    requires p > 0
    ensures match DataSlot(l, p)
            case Direct(j) => j == l
            case Leaf(q, r) => LeafIndex(q, r, p) == l
            case Indirect(_) => false
  {
    if l >= DIRECT {
      QuotRem(l - DIRECT, p);
    }
  }

  lemma StandingChunk(g: Geometry, first: nat, c: seq<byte>, l: nat)
    requires RoomFor(g, first, |c|) && l < BlockCount(|c|, g.bs)
    ensures DataPos(l, g.P()) < ChainLength(BlockCount(|c|, g.bs), g.P()) && Times(l, g.bs) <= |c|
    ensures FileBlock(g, first, c, first + DataPos(l, g.P())) == Chunk(c, l, g.bs)
  {
    DataPosInChain(l, BlockCount(|c|, g.bs), g.P());
    SlotOfDataPos(l, g.P());
    SlotIndex(l, g.P());
    QuotRemUnique(Times(l, g.bs), g.bs, l, 0);
    BlockOfOffset(Times(l, g.bs), |c|, g.bs);
  }

  lemma StandingPointers(g: Geometry, first: nat, c: seq<byte>, q: nat)
    requires RoomFor(g, first, |c|) && q < Groups(BlockCount(|c|, g.bs), g.P())
    ensures IndirectPos(q, g.P()) < ChainLength(BlockCount(|c|, g.bs), g.P())
    ensures FileBlock(g, first, c, first + IndirectPos(q, g.P())) ==
            EncodePointers(GroupPointers(ChainFrom(g, first, |c|), q, BlockCount(|c|, g.bs), g.P()))
  {
    IndirectPosInChain(q, BlockCount(|c|, g.bs), g.P());
    SlotOfIndirectPos(q, g.P());
  }

  lemma StandsAt(g: Geometry, first: nat, c: seq<byte>, blocks: seq<seq<byte>>, k: nat, s: seq<byte>)
    requires RoomFor(g, first, |c|) && Stands(g, first, c, blocks) && k < |ChainFrom(g, first, |c|)|
    requires FileBlock(g, first, c, first + k) == s
    ensures ChainFrom(g, first, |c|)[k] < |blocks| && blocks[ChainFrom(g, first, |c|)[k]] == s
  {
    assert ChainFrom(g, first, |c|)[k] == first + k;
  }

  /** Such a block array holds the file in the sense of the invariant. */
  lemma StandingHolds(g: Geometry, first: nat, c: seq<byte>, blocks: seq<seq<byte>>)
    requires RoomFor(g, first, |c|) && Stands(g, first, c, blocks)
    ensures var f := ChainFrom(g, first, |c|);
            && Ascending(f) && Pointers16(f)
            && BlocksHold(f, BlockCount(|c|, g.bs), c, blocks, g.bs, g.P())
  {
    var f, d, p := ChainFrom(g, first, |c|), BlockCount(|c|, g.bs), g.P();
    forall l | 0 <= l < d
      ensures DataPos(l, p) < |f| && f[DataPos(l, p)] < |blocks| && Times(l, g.bs) <= |c|
      ensures blocks[f[DataPos(l, p)]] == Chunk(c, l, g.bs)
    {
      StandingChunk(g, first, c, l);
      StandsAt(g, first, c, blocks, DataPos(l, p), Chunk(c, l, g.bs));
    }
    forall q | 0 <= q < Groups(d, p)
      ensures IndirectPos(q, p) < |f| && f[IndirectPos(q, p)] < |blocks|
      ensures blocks[f[IndirectPos(q, p)]] == EncodePointers(GroupPointers(f, q, d, p))
    {
      StandingPointers(g, first, c, q);
      StandsAt(g, first, c, blocks, IndirectPos(q, p), EncodePointers(GroupPointers(f, q, d, p)));
    }
  }

  ghost function SampleInode(g: Geometry, number: nat, filename: seq<byte>, first: nat, size: nat): Inode
    requires GeometryOk(g)
  {
    NewInode(number, filename, size, ChainFrom(g, first, size), BlockCount(size, g.bs), g.P())
  }

  /** One file with contents c in the blocks from first on; all other blocks are free and zero. */
  ghost function SampleVolume(g: Geometry, first: nat, c: seq<byte>): (v: Volume)
    requires RoomFor(g, first, |c|)
    ensures Shaped(g, v)
    ensures v.inodeMap[0] && v.inodeMap[1] && v.blockMap[0]
    ensures v.table[0] == ZeroInode() && v.table[1] == SampleInode(g, 1, SAMPLE_NAME, first, |c|)
  {
    Volume(seq(g.inodeCount, i requires 0 <= i => i < 2),
           seq(g.blockCount, b requires 0 <= b => b == 0 || first <= b < first + |ChainFrom(g, first, |c|)|),
           seq(g.inodeCount, i requires 0 <= i =>
             if i == 1 then SampleInode(g, 1, SAMPLE_NAME, first, |c|) else ZeroInode()),
           seq(g.blockCount, b requires 0 <= b => if b == 0 then [] else FileBlock(g, first, c, b)))
  }

  lemma SampleConsistent(g: Geometry, first: nat, c: seq<byte>)
    requires RoomFor(g, first, |c|)
    ensures var v := SampleVolume(g, first, c);
            && VolumeOk(g, v) && Used(v, 1) && v.table[1].size == |c|
            && Chain(g, v.blocks, v.table[1]) == ChainFrom(g, first, |c|)
            && WellFormedTable(v.table)
  {
    var v := SampleVolume(g, first, c);
    var f := ChainFrom(g, first, |c|);
    StandingHolds(g, first, c, v.blocks);
    assert Built(g, f, c, v.blocks, v.table[1]);
    BuiltChain(g, f, c, v.blocks, v.table[1]);
    BuiltFileOk(g, f, c, v.blocks, v.table[1]);
    assert forall i :: Used(v, i) <==> i == 1;
    forall b: nat | 0 < b < g.blockCount && v.blockMap[b] ensures exists i :: Owns(g, v, i, b) {
      assert f[b - first] == b;
      assert Owns(g, v, 1, b);
    }
  }
}
