/** Adding a file, in closed form: the inode and blocks that the allocation loops of fs_add must produce. */
module Adding {
  import opened Bytes
  import opened Bits
  import opened Arith
  import opened CStrings
  import opened Inodes
  import opened Chains
  import opened Volumes

  // ----- what is written -----

  /** Logical block l of the contents, padded with zeros to a full block. */
  function Chunk(c: seq<byte>, l: nat, bs: nat): (s: seq<byte>)
    requires Times(l, bs) <= |c|
    ensures |s| == bs
  {
    var n := Min(bs, |c| - Times(l, bs));
    c[Times(l, bs)..Times(l, bs) + n] + Zeros(bs - n)
  }

  /** The pointers in pointer block q of a file that occupies the blocks f and has d data blocks. */
  ghost function GroupPointers(f: seq<nat>, q: nat, d: nat, p: nat): (ps: seq<nat>)
    requires p > 0
    ensures |ps| == p
  {
    seq(p, r requires 0 <= r < p =>
      if LeafIndex(q, r, p) < d && DataPos(LeafIndex(q, r, p), p) < |f| then f[DataPos(LeafIndex(q, r, p), p)] else 0)
  }

  ghost predicate Pointers16(f: seq<nat>) {
    forall k :: 0 <= k < |f| ==> 0 < f[k] < 0x1_0000
  }

  /** The first d data blocks of c and their pointer blocks lie in the blocks f. */
  ghost predicate BlocksHold(f: seq<nat>, d: nat, c: seq<byte>, blocks: seq<seq<byte>>, bs: nat, p: nat)
    requires p > 0 && Pointers16(f)
  {
    && ChainLength(d, p) <= |f|
    && (forall k :: 0 <= k < |f| ==> f[k] < |blocks|)
    && (forall l {:trigger DataPos(l, p)} :: 0 <= l < d ==>
          DataPos(l, p) < |f| && Times(l, bs) <= |c| && blocks[f[DataPos(l, p)]] == Chunk(c, l, bs))
    && (forall q {:trigger IndirectPos(q, p)} :: 0 <= q < Groups(d, p) ==>
          IndirectPos(q, p) < |f| && blocks[f[IndirectPos(q, p)]] == EncodePointers(GroupPointers(f, q, d, p)))
  }

  ghost function DirectPointers(f: seq<nat>, d: nat): (ps: seq<nat>)
    ensures |ps| == DIRECT
  {
    seq(DIRECT, j requires 0 <= j => if j < d && j < |f| then f[j] else 0)
  }

  ghost function IndirectPointers(f: seq<nat>, d: nat, p: nat): (ps: seq<nat>)
    requires p > 0
    ensures |ps| == INDIRECT
  {
    seq(INDIRECT, q requires 0 <= q => if q < Groups(d, p) && IndirectPos(q, p) < |f| then f[IndirectPos(q, p)] else 0)
  }

  /** The 32 bytes of a name field after strncpy of 31 characters into zeros. */
  function NameField(filename: seq<byte>): (s: seq<byte>)
    ensures |s| == NAME_LENGTH
  {
    Padded(filename, NAME_LENGTH - 1) + [0]
  }

  ghost function NewInode(number: nat, filename: seq<byte>, size: nat, f: seq<nat>, d: nat, p: nat): Inode
    requires p > 0
  {
    Inode(number, NameField(filename), size, DirectPointers(f, d), IndirectPointers(f, d, p))
  }

  lemma KeyOfNewInode(number: nat, filename: seq<byte>, size: nat, f: seq<nat>, d: nat, p: nat)
    requires p > 0 && 0 !in filename
    ensures KeyOfInode(NewInode(number, filename, size, f, d, p)) == KeyOf(filename)
  {
    PaddedReadsBack(filename, [0], NAME_LENGTH - 1);
  }

  // ----- a built file reads as its contents -----

  /** A file of contents c stands in the blocks f of the given block array. */
  ghost predicate Built(g: Geometry, f: seq<nat>, c: seq<byte>, blocks: seq<seq<byte>>, n: Inode) {
    && GeometryOk(g)
    && Pointers16(f)
    && |blocks| == g.blockCount
    && (forall k :: 0 <= k < |f| ==> f[k] < g.blockCount && |blocks[f[k]]| == g.bs)
    && n.number < 0x1_0000 && |n.name| == NAME_LENGTH && n.size == |c| < 0x1_0000_0000
    && var d := BlockCount(|c|, g.bs);
    && d <= MaxBlocks(g.P())
    && |f| == ChainLength(d, g.P())
    && BlocksHold(f, d, c, blocks, g.bs, g.P())
    && n.direct == DirectPointers(f, d)
    && n.indirect == IndirectPointers(f, d, g.P())
  }

  lemma BuiltPointer(g: Geometry, f: seq<nat>, c: seq<byte>, blocks: seq<seq<byte>>, n: Inode, q: nat, r: nat)
    requires Built(g, f, c, blocks, n)
    requires q < Groups(BlockCount(|c|, g.bs), g.P()) && r < g.P()
    ensures PointerIn(blocks, n, Leaf(q, r)) ==
            var l := LeafIndex(q, r, g.P());
            if l < BlockCount(|c|, g.bs) && DataPos(l, g.P()) < |f| then f[DataPos(l, g.P())] else 0
  {
    var d, p := BlockCount(|c|, g.bs), g.P();
    GroupsOfMax(d, p);
    IndirectPosInChain(q, d, p);
    assert n.indirect[q] == f[IndirectPos(q, p)];
    PointerReadsBack(GroupPointers(f, q, d, p), r);
  }

  lemma BuiltChain(g: Geometry, f: seq<nat>, c: seq<byte>, blocks: seq<seq<byte>>, n: Inode)
    requires Built(g, f, c, blocks, n)
    ensures Chain(g, blocks, n) == f
  {
    var d, p := BlockCount(|c|, g.bs), g.P();
    GroupsOfMax(d, p);
    forall k | 0 <= k < |f| ensures Chain(g, blocks, n)[k] == f[k] {
      ChainPosition(k, d, p);
      match SlotOf(k, p)
      case Leaf(q, r) => BuiltPointer(g, f, c, blocks, n, q, r);
      case _ =>
    }
  }

  lemma ByteOfChunk(c: seq<byte>, o: nat, bs: nat)
    requires bs > 0 && o < |c|
    ensures Times(Quot(o, bs), bs) <= |c| && |Chunk(c, Quot(o, bs), bs)| == bs
    ensures Chunk(c, Quot(o, bs), bs)[Rem(o, bs)] == c[o]
  {
    QuotRem(o, bs);
  }

  lemma BuiltByte(g: Geometry, f: seq<nat>, c: seq<byte>, blocks: seq<seq<byte>>, n: Inode, o: nat)
    requires Built(g, f, c, blocks, n) && Chain(g, blocks, n) == f && o < |c|
    ensures Contents(g, blocks, n)[o] == c[o]
  {
    DataBlockInChain(g, blocks, n, o);
    ContentsAt(g, blocks, n, o);
    ByteOfChunk(c, o, g.bs);
    assert blocks[f[DataPos(Quot(o, g.bs), g.P())]] == Chunk(c, Quot(o, g.bs), g.bs);
  }

  lemma BuiltContents(g: Geometry, f: seq<nat>, c: seq<byte>, blocks: seq<seq<byte>>, n: Inode)
    requires Built(g, f, c, blocks, n)
    ensures Contents(g, blocks, n) == c
  {
    BuiltChain(g, f, c, blocks, n);
    forall o | 0 <= o < |c| ensures Contents(g, blocks, n)[o] == c[o] {
      BuiltByte(g, f, c, blocks, n, o);
    }
  }

  lemma BuiltFileOk(g: Geometry, f: seq<nat>, c: seq<byte>, blocks: seq<seq<byte>>, n: Inode)
    requires Built(g, f, c, blocks, n) && Ascending(f)
    ensures FileOk(g, blocks, n)
  {
    BuiltChain(g, f, c, blocks, n);
    var d, p := BlockCount(|c|, g.bs), g.P();
    forall q: nat, r: nat | q < Groups(d, p) && r < p && d <= LeafIndex(q, r, p)
      ensures PointerIn(blocks, n, Leaf(q, r)) == 0
    {
      BuiltPointer(g, f, c, blocks, n, q, r);
    }
  }
}
