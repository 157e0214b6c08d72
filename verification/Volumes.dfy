/** A volume: both allocation bitmaps, the inode table and the data blocks, and what it takes to be consistent. */
module Volumes {
  import opened Bytes
  import opened Bits
  import opened Arith
  import opened Inodes
  import opened Chains

  datatype Geometry = Geometry(bs: nat, inodeCount: nat, blockCount: nat) {
    /** Pointers per block: a pointer takes two bytes. */
    function P(): nat { Quot(bs, 2) }
  }

  ghost predicate GeometryOk(g: Geometry) {
    512 <= g.bs && g.bs == 2 * g.P() && 1 <= g.inodeCount < 0x1_0000 && 1 <= g.blockCount <= 0x1_0000
  }

  /** Data block 0 is reserved and its bytes mean nothing; the view keeps it empty. */
  datatype Volume = Volume(inodeMap: seq<bool>, blockMap: seq<bool>, table: seq<Inode>, blocks: seq<seq<byte>>)

  // ----- files -----

  /** The pointer kept in a slot of inode n; 0 where the tree does not reach. */
  function PointerIn(blocks: seq<seq<byte>>, n: Inode, s: Slot): nat {
    match s
    case Direct(j) => if j < |n.direct| then n.direct[j] else 0
    case Indirect(q) => if q < |n.indirect| then n.indirect[q] else 0
    case Leaf(q, r) =>
      if q < |n.indirect| && n.indirect[q] < |blocks| && 2 * r + 2 <= |blocks[n.indirect[q]]|
      then PointerAt(blocks[n.indirect[q]], r) else 0
  }

  function DataBlocksOf(g: Geometry, n: Inode): nat
    requires g.bs > 0
  {
    BlockCount(n.size, g.bs)
  }

  /** The blocks of file n, pointer blocks included, in chain order. */
  ghost function Chain(g: Geometry, blocks: seq<seq<byte>>, n: Inode): (c: seq<nat>)
    requires GeometryOk(g)
    ensures |c| == ChainLength(DataBlocksOf(g, n), g.P())
  {
    seq(ChainLength(DataBlocksOf(g, n), g.P()), k requires 0 <= k => PointerIn(blocks, n, SlotOf(k, g.P())))
  }

  function ByteOf(blocks: seq<seq<byte>>, b: nat, i: nat): byte {
    if b < |blocks| && i < |blocks[b]| then blocks[b][i] else 0
  }

  /** The bytes of file n, each found through the pointer tree. */
  ghost function Contents(g: Geometry, blocks: seq<seq<byte>>, n: Inode): (c: seq<byte>)
    requires GeometryOk(g)
    ensures |c| == n.size
  {
    seq(n.size, o requires 0 <= o => ByteOf(blocks, PointerIn(blocks, n, DataSlot(Quot(o, g.bs), g.P())), Rem(o, g.bs)))
  }

  lemma ContentsAt(g: Geometry, blocks: seq<seq<byte>>, n: Inode, o: nat)
    requires GeometryOk(g) && o < n.size
    ensures Contents(g, blocks, n)[o] ==
            ByteOf(blocks, PointerIn(blocks, n, DataSlot(Quot(o, g.bs), g.P())), Rem(o, g.bs))
  {}

  /** Pointers that the file's size does not call for are zero. */
  ghost predicate TailsZero(g: Geometry, blocks: seq<seq<byte>>, n: Inode)
    requires GeometryOk(g) && WellFormedInode(n)
  {
    var d, p := DataBlocksOf(g, n), g.P();
    && (forall j :: d <= j < DIRECT ==> n.direct[j] == 0)
    && (forall q :: Groups(d, p) <= q < INDIRECT ==> n.indirect[q] == 0)
    && (forall q: nat, r: nat :: q < Groups(d, p) && r < p && d <= LeafIndex(q, r, p)
          ==> PointerIn(blocks, n, Leaf(q, r)) == 0)
  }

  ghost predicate FileOk(g: Geometry, blocks: seq<seq<byte>>, n: Inode)
    requires GeometryOk(g)
  {
    && WellFormedInode(n)
    && DataBlocksOf(g, n) <= MaxBlocks(g.P())
    && Ascending(Chain(g, blocks, n))
    && (forall x :: x in Chain(g, blocks, n) ==> 0 < x < g.blockCount)
    && TailsZero(g, blocks, n)
  }

  // ----- volumes -----

  ghost predicate Used(v: Volume, i: int) {
    0 < i < |v.inodeMap| && v.inodeMap[i]
  }

  ghost predicate Shaped(g: Geometry, v: Volume) {
    && |v.inodeMap| == |v.table| == g.inodeCount
    && |v.blockMap| == |v.blocks| == g.blockCount
    && (forall b :: 0 < b < g.blockCount ==> |v.blocks[b]| == g.bs)
  }

  ghost predicate Owns(g: Geometry, v: Volume, i: int, b: nat)
    requires GeometryOk(g) && Shaped(g, v)
  {
    Used(v, i) && b in Chain(g, v.blocks, v.table[i])
  }

  /** Inode bits, inode numbers and inode contents agree; names are unique. */
  ghost predicate TableOk(g: Geometry, v: Volume)
    requires GeometryOk(g) && Shaped(g, v)
  {
    && v.inodeMap[0] && v.table[0] == ZeroInode()
    && (forall i :: 0 < i < g.inodeCount && !v.inodeMap[i] ==> v.table[i] == ZeroInode())
    && (forall i :: Used(v, i) ==> v.table[i].number == i && FileOk(g, v.blocks, v.table[i]))
    && (forall i, j :: Used(v, i) && Used(v, j) && KeyOfInode(v.table[i]) == KeyOfInode(v.table[j]) ==> i == j)
  }

  /** A block is marked exactly when it is block 0 or belongs to a file, and no two files share one. */
  ghost predicate OwnershipOk(g: Geometry, v: Volume)
    requires GeometryOk(g) && Shaped(g, v)
  {
    && v.blockMap[0]
    && (forall i, j, b: nat :: Owns(g, v, i, b) && Owns(g, v, j, b) ==> i == j)
    && (forall b: nat :: 0 < b < g.blockCount && v.blockMap[b] ==> exists i :: Owns(g, v, i, b))
    && (forall i, b: nat :: Owns(g, v, i, b) ==> b < g.blockCount && v.blockMap[b])
  }

  ghost predicate VolumeOk(g: Geometry, v: Volume) {
    GeometryOk(g) && Shaped(g, v) && TableOk(g, v) && OwnershipOk(g, v)
  }

  lemma ConsistentTableFits(g: Geometry, v: Volume)
    requires VolumeOk(g, v)
    ensures WellFormedTable(v.table)
  {
    forall i | 0 <= i < |v.table| ensures WellFormedInode(v.table[i]) {
      assert i == 0 || Used(v, i) || v.table[i] == ZeroInode();
    }
  }

  // ----- what the user sees -----

  ghost function Keys(v: Volume): set<seq<byte>> {
    set i | 0 <= i < |v.table| && v.table[i].number > 0 :: KeyOfInode(v.table[i])
  }

  /** The stored files by (truncated) name. */
  ghost function Files(g: Geometry, v: Volume): map<seq<byte>, seq<byte>>
    requires GeometryOk(g)
  {
    map key | key in Keys(v) && Lookup(v.table, key) < |v.table| ::
      Contents(g, v.blocks, v.table[Lookup(v.table, key)])
  }

  lemma LookupFinds(g: Geometry, v: Volume, i: nat)
    requires VolumeOk(g, v) && Used(v, i)
    ensures Lookup(v.table, KeyOfInode(v.table[i])) == i
  {
    var key := KeyOfInode(v.table[i]);
    var r := Lookup(v.table, key);
    assert Matches(v.table, i, key);
    assert r <= i;
    assert Matches(v.table, r, key);
    assert Used(v, r);
  }

  lemma LookupUsed(g: Geometry, v: Volume, key: seq<byte>)
    requires VolumeOk(g, v)
    ensures var r := Lookup(v.table, key);
            r < |v.table| ==> Used(v, r) && KeyOfInode(v.table[r]) == key
  {
    var r := Lookup(v.table, key);
    if r < |v.table| {
      assert Matches(v.table, r, key);
      assert r > 0;
      assert v.inodeMap[r];
    }
  }

  /** A name is stored exactly when the lookup finds it, and the lookup leads to its contents. */
  lemma FilesByLookup(g: Geometry, v: Volume, key: seq<byte>)
    requires VolumeOk(g, v)
    ensures key in Files(g, v) <==> Lookup(v.table, key) < |v.table|
    ensures key in Files(g, v) ==>
              var i := Lookup(v.table, key);
              Used(v, i) && KeyOfInode(v.table[i]) == key && Files(g, v)[key] == Contents(g, v.blocks, v.table[i])
  {
    LookupUsed(g, v, key);
  }

  /** At most one used inode answers to a name, and it is the one the lookup returns. */
  lemma NamesAreUnique(g: Geometry, v: Volume, i: nat, j: nat)
    requires VolumeOk(g, v) && i < |v.table| && j < |v.table|
    requires Matches(v.table, i, KeyOfInode(v.table[j])) && v.table[j].number > 0
    ensures i == j == Lookup(v.table, KeyOfInode(v.table[j]))
  {
    assert i > 0 && j > 0;
    assert v.inodeMap[i] && v.inodeMap[j];
    assert Used(v, i) && Used(v, j);
    LookupFinds(g, v, j);
  }

  /** The two block arrays agree on the blocks of file n. */
  ghost predicate AgreeOn(g: Geometry, before: seq<seq<byte>>, after: seq<seq<byte>>, n: Inode)
    requires GeometryOk(g)
  {
    && |before| == |after| == g.blockCount
    && (forall x :: x in Chain(g, before, n) ==> x < g.blockCount && before[x] == after[x])
  }

  lemma SameLeaf(g: Geometry, before: seq<seq<byte>>, after: seq<seq<byte>>, n: Inode, q: nat, r: nat)
    requires GeometryOk(g) && WellFormedInode(n) && DataBlocksOf(g, n) <= MaxBlocks(g.P())
    requires AgreeOn(g, before, after, n)
    requires q < Groups(DataBlocksOf(g, n), g.P())
    ensures PointerIn(after, n, Leaf(q, r)) == PointerIn(before, n, Leaf(q, r))
  {
    PointerBlockInChain(g, before, n, q);
  }

  lemma SameChain(g: Geometry, before: seq<seq<byte>>, after: seq<seq<byte>>, n: Inode)
    requires GeometryOk(g) && WellFormedInode(n) && DataBlocksOf(g, n) <= MaxBlocks(g.P())
    requires AgreeOn(g, before, after, n)
    ensures Chain(g, after, n) == Chain(g, before, n)
  {
    var c := Chain(g, before, n);
    forall k | 0 <= k < |c| ensures Chain(g, after, n)[k] == c[k] {
      ChainPosition(k, DataBlocksOf(g, n), g.P());
      match SlotOf(k, g.P())
      case Leaf(q, r) => SameLeaf(g, before, after, n, q, r);
      case _ =>
    }
  }

  lemma SameContents(g: Geometry, before: seq<seq<byte>>, after: seq<seq<byte>>, n: Inode)
    requires GeometryOk(g) && WellFormedInode(n) && DataBlocksOf(g, n) <= MaxBlocks(g.P())
    requires AgreeOn(g, before, after, n)
    ensures Contents(g, after, n) == Contents(g, before, n)
  {
    SameChain(g, before, after, n);
    forall o | 0 <= o < n.size ensures Contents(g, after, n)[o] == Contents(g, before, n)[o] {
      DataBlockInChain(g, before, n, o);
      DataBlockInChain(g, after, n, o);
    }
  }

  /** File n is the same file in two block arrays that agree on its chain. */
  lemma SameChainSameFile(g: Geometry, before: seq<seq<byte>>, after: seq<seq<byte>>, n: Inode)
    requires GeometryOk(g) && FileOk(g, before, n)
    requires AgreeOn(g, before, after, n)
    ensures Chain(g, after, n) == Chain(g, before, n)
    ensures Contents(g, after, n) == Contents(g, before, n)
    ensures FileOk(g, after, n)
  {
    SameChain(g, before, after, n);
    SameContents(g, before, after, n);
    var d, p := DataBlocksOf(g, n), g.P();
    forall q: nat, r: nat | q < Groups(d, p) && r < p && d <= LeafIndex(q, r, p)
      ensures PointerIn(after, n, Leaf(q, r)) == 0
    {
      SameLeaf(g, before, after, n, q, r);
    }
  }

  lemma PointerBlockInChain(g: Geometry, blocks: seq<seq<byte>>, n: Inode, q: nat)
    requires GeometryOk(g) && WellFormedInode(n)
    requires DataBlocksOf(g, n) <= MaxBlocks(g.P()) && q < Groups(DataBlocksOf(g, n), g.P())
    ensures q < INDIRECT
    ensures var c := Chain(g, blocks, n);
            IndirectPos(q, g.P()) < |c| && n.indirect[q] == c[IndirectPos(q, g.P())] && n.indirect[q] in c
  {
    var d, p := DataBlocksOf(g, n), g.P();
    GroupsOfMax(d, p);
    IndirectPosInChain(q, d, p);
    SlotOfIndirectPos(q, p);
    var c := Chain(g, blocks, n);
    assert c[IndirectPos(q, p)] == n.indirect[q];
  }

  lemma PointersInRange(g: Geometry, blocks: seq<seq<byte>>, n: Inode)
    requires GeometryOk(g) && FileOk(g, blocks, n)
    ensures forall j :: 0 <= j < DIRECT ==> n.direct[j] < g.blockCount
    ensures forall q :: 0 <= q < INDIRECT ==> n.indirect[q] < g.blockCount
  {
    var d, p, c := DataBlocksOf(g, n), g.P(), Chain(g, blocks, n);
    forall j | 0 <= j < DIRECT && j < d ensures n.direct[j] < g.blockCount {
      assert c[j] == n.direct[j] && c[j] in c;
    }
    forall q | 0 <= q < INDIRECT && q < Groups(d, p) ensures n.indirect[q] < g.blockCount {
      PointerBlockInChain(g, blocks, n, q);
    }
  }

  /** The block that holds in-file offset o is the chain's block at the position of o's logical block. */
  lemma DataBlockInChain(g: Geometry, blocks: seq<seq<byte>>, n: Inode, o: nat)
    requires GeometryOk(g) && o < n.size
    ensures var c := Chain(g, blocks, n);
            var l := Quot(o, g.bs);
            && l < DataBlocksOf(g, n)
            && DataPos(l, g.P()) < |c|
            && PointerIn(blocks, n, DataSlot(l, g.P())) == c[DataPos(l, g.P())]
            && c[DataPos(l, g.P())] in c
  {
    var d, p := DataBlocksOf(g, n), g.P();
    var l := Quot(o, g.bs);
    BlockOfOffset(o, n.size, g.bs);
    DataPosInChain(l, d, p);
    SlotOfDataPos(l, p);
  }

  /** Data blocks of a file ascend with their logical block numbers. */
  lemma DataBlocksAscend(g: Geometry, blocks: seq<seq<byte>>, n: Inode, l: nat, m: nat)
    requires GeometryOk(g) && FileOk(g, blocks, n) && l < m < DataBlocksOf(g, n)
    ensures PointerIn(blocks, n, DataSlot(l, g.P())) < PointerIn(blocks, n, DataSlot(m, g.P()))
  {
    var d, p, c := DataBlocksOf(g, n), g.P(), Chain(g, blocks, n);
    DataPosInChain(m, d, p);
    DataPosOrder(l, m, p);
    SlotOfDataPos(l, p);
    SlotOfDataPos(m, p);
    assert c[DataPos(l, p)] < c[DataPos(m, p)];
  }

  /** A pointer block lies above the data blocks before its group and below those in or behind it. */
  lemma PointerBlockBetween(g: Geometry, blocks: seq<seq<byte>>, n: Inode, q: nat, l: nat)
    requires GeometryOk(g) && FileOk(g, blocks, n) && q < Groups(DataBlocksOf(g, n), g.P()) && l < DataBlocksOf(g, n)
    ensures q < INDIRECT && PointerIn(blocks, n, DataSlot(l, g.P())) != n.indirect[q]
    ensures PointerIn(blocks, n, DataSlot(l, g.P())) < n.indirect[q] <==> l < LeafIndex(q, 0, g.P())
  {
    var d, p, c := DataBlocksOf(g, n), g.P(), Chain(g, blocks, n);
    PointerBlockInChain(g, blocks, n, q);
    DataPosInChain(l, d, p);
    SlotOfDataPos(l, p);
    if l < LeafIndex(q, 0, p) {
      ChainAtGroup(q, p);
      DataPosInChain(l, LeafIndex(q, 0, p), p);
    } else {
      LeafOfIndex(q, 0, p);
      if LeafIndex(q, 0, p) < l {
        DataPosOrder(LeafIndex(q, 0, p), l, p);
      }
    }
    assert c[DataPos(l, p)] == PointerIn(blocks, n, DataSlot(l, p));
  }

  /** In-file offsets in different logical blocks, of one file or of two, lie in different physical blocks. */
  lemma TranslationInjective(g: Geometry, v: Volume, i: nat, o: nat, i': nat, o': nat)
    requires VolumeOk(g, v) && Used(v, i) && Used(v, i')
    requires o < v.table[i].size && o' < v.table[i'].size
    requires i != i' || Quot(o, g.bs) != Quot(o', g.bs)
    ensures var b := PointerIn(v.blocks, v.table[i], DataSlot(Quot(o, g.bs), g.P()));
            var b' := PointerIn(v.blocks, v.table[i'], DataSlot(Quot(o', g.bs), g.P()));
            && 0 < b < g.blockCount && 0 < b' < g.blockCount && v.blockMap[b] && v.blockMap[b'] && b != b'
  {
    DataBlockInChain(g, v.blocks, v.table[i], o);
    DataBlockInChain(g, v.blocks, v.table[i'], o');
    var p := g.P();
    var b := PointerIn(v.blocks, v.table[i], DataSlot(Quot(o, g.bs), p));
    var b' := PointerIn(v.blocks, v.table[i'], DataSlot(Quot(o', g.bs), p));
    assert Owns(g, v, i, b) && Owns(g, v, i', b');
    if i == i' {
      var c := Chain(g, v.blocks, v.table[i]);
      if Quot(o, g.bs) < Quot(o', g.bs) {
        DataPosOrder(Quot(o, g.bs), Quot(o', g.bs), p);
      } else {
        DataPosOrder(Quot(o', g.bs), Quot(o, g.bs), p);
      }
      assert c[DataPos(Quot(o, g.bs), p)] == b && c[DataPos(Quot(o', g.bs), p)] == b';
    }
  }
}
