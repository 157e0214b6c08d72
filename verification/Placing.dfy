/** What a successful add puts where, in C's arithmetic: nb data blocks and ng pointer blocks, the least free ones. */
module Placing {
  import opened Arith
  import opened Bytes
  import opened Bits
  import opened Inodes
  import opened Chains
  import opened Volumes
  import opened Adding
  import opened Steps
  import opened Runs

  /** Blocks that hold size bytes. */
  lemma BlockCountIs(size: nat, bs: nat)
    requires bs > 0
    ensures BlockCount(size, bs) == (size + bs - 1) / bs
  {
    if size == 0 {
      QuotRemAreDivision(bs - 1, bs);
    } else {
      QuotRemAreDivision(size - 1 + bs, bs);
    }
  }

  /** Pointer blocks that nb data blocks need. */
  lemma GroupsAre(nb: nat, p: nat)
    requires p > 0
    ensures Groups(nb, p) == if nb <= 4 then 0 else (nb - 4 + p - 1) / p
  {
    if nb > 4 {
      QuotRemAreDivision(nb - 5 + p, p);
    }
  }

  /** Where the allocation order has data block l and pointer block q, and which data block is leaf r of the latter. */
  lemma PositionsAre(l: nat, q: nat, r: nat, p: nat)
    requires p > 0
    ensures DataPos(l, p) == if l < 4 then l else l + (l - 4) / p + 1
    ensures IndirectPos(q, p) == 4 + q * (p + 1)
    ensures LeafIndex(q, r, p) == 4 + q * p + r
  {
    TimesIsProduct(q, p);
    TimesIsProduct(q, p + 1);
    if l >= 4 {
      QuotRemAreDivision(l - 4, p);
    }
  }

  lemma SizeFitsExactly(size: nat, bs: nat, max: nat)
    requires bs > 0
    ensures BlockCount(size, bs) <= max <==> size <= max * bs
  {
    TimesIsProduct(max, bs);
    if size > 0 {
      QuotRem(size - 1, bs);
      if Quot(size - 1, bs) < max {
        TimesMonotonic(Quot(size - 1, bs), max, bs);
      } else {
        TimesMonotonic(max, Quot(size - 1, bs), bs);
      }
    }
  }

  /** When the store accepts a file: the name is new, an inode is free, the size is at most what four direct and nine
      indirect pointers reach, and there are as many free blocks as data and pointer blocks. */
  lemma AcceptsExactly(g: Geometry, a: Store, filename: seq<byte>, size: nat, nb: nat, ng: nat)
    requires GeometryOk(g)
    requires nb == (size + g.bs - 1) / g.bs && ng == (if nb <= 4 then 0 else (nb - 4 + g.P() - 1) / g.P())
    ensures StoreAccepts(g, a, filename, size) <==>
            && KeyOf(filename) !in a.files && a.freeInodes > 0
            && size <= (4 + 9 * g.P()) * g.bs && nb + ng <= a.freeBlocks
  {
    BlockCountIs(size, g.bs);
    GroupsAre(nb, g.P());
    SizeFitsExactly(size, g.bs, 4 + 9 * g.P());
  }

  /** The inode: the least free one, marked and numbered, with the name, the size and nothing else of the table
      changed. */
  lemma InodePlaced(g: Geometry, v: Volume, filename: seq<byte>, c: seq<byte>, v': Volume, i: nat)
    requires VolumeOk(g, v) && CanAdd(g, v, filename, |c|) && IsAdded(g, v, filename, c, v')
    requires i < g.inodeCount && v'.inodeMap[i] && !v.inodeMap[i]
    ensures forall j :: 0 <= j < i ==> v.inodeMap[j]
    ensures v'.inodeMap == v.inodeMap[i := true] && v'.table == v.table[i := v'.table[i]]
    ensures var n := v'.table[i];
            && n.number == i && n.size == |c| && |n.name| == 32 && n.name[31] == 0
            && forall k :: 0 <= k < 31 ==> n.name[k] == if k < |filename| then filename[k] else 0
  {
    ReserveFirst(v.inodeMap);
  }

  /** The direct pointers, f being the free blocks in ascending order. */
  lemma DirectPlaced(g: Geometry, v: Volume, filename: seq<byte>, c: seq<byte>, v': Volume, i: nat, nb: nat, j: nat)
    requires VolumeOk(g, v) && CanAdd(g, v, filename, |c|) && IsAdded(g, v, filename, c, v')
    requires i < g.inodeCount && v'.inodeMap[i] && !v.inodeMap[i]
    requires nb == BlockCount(|c|, g.bs) && j < 4
    ensures var n, f := v'.table[i], FreeList(v.blockMap);
            && |n.direct| == 4 && nb <= |f|
            && n.direct[j] == if j < nb then f[j] else 0
  {
  }

  /** The indirect pointers. */
  lemma IndirectPlaced(g: Geometry, v: Volume, filename: seq<byte>, c: seq<byte>, v': Volume, i: nat, nb: nat, q: nat,
                       at: nat)
    requires VolumeOk(g, v) && CanAdd(g, v, filename, |c|) && IsAdded(g, v, filename, c, v')
    requires i < g.inodeCount && v'.inodeMap[i] && !v.inodeMap[i]
    requires nb == BlockCount(|c|, g.bs) && q < 9 && at == IndirectPos(q, g.P())
    ensures var n, f := v'.table[i], FreeList(v.blockMap);
            && |n.indirect| == 9 && (q < Groups(nb, g.P()) ==> at < |f|)
            && n.indirect[q] == if q < Groups(nb, g.P()) then f[at] else 0
  {
    if q < Groups(nb, g.P()) {
      IndirectPosInChain(q, nb, g.P());
    }
  }

  /** The marks: those blocks are taken, no others. */
  lemma MarksPlaced(g: Geometry, v: Volume, filename: seq<byte>, c: seq<byte>, v': Volume, b: nat, nb: nat, ng: nat)
    requires VolumeOk(g, v) && CanAdd(g, v, filename, |c|) && IsAdded(g, v, filename, c, v')
    requires b < g.blockCount && nb == BlockCount(|c|, g.bs) && ng == Groups(nb, g.P())
    ensures nb + ng <= |FreeList(v.blockMap)|
    ensures v'.blockMap[b] <==> v.blockMap[b] || b in FreeList(v.blockMap)[..nb + ng]
    ensures b !in FreeList(v.blockMap)[..nb + ng] ==> v'.blocks[b] == v.blocks[b]
  {
  }

  lemma ChunkPlaced(g: Geometry, v: Volume, filename: seq<byte>, c: seq<byte>, v': Volume, l: nat, at: nat)
    requires VolumeOk(g, v) && CanAdd(g, v, filename, |c|) && IsAdded(g, v, filename, c, v')
    requires l < BlockCount(|c|, g.bs) && at == DataPos(l, g.P())
    ensures var f := FreeList(v.blockMap);
            && at < |f| && f[at] < |v'.blocks|
            && Times(l, g.bs) <= |c| && v'.blocks[f[at]] == Chunk(c, l, g.bs)
  {
    DataPosInChain(l, BlockCount(|c|, g.bs), g.P());
  }

  /** Byte k of data block l: the file's, and zero behind its end. */
  lemma DataPlaced(g: Geometry, v: Volume, filename: seq<byte>, c: seq<byte>, v': Volume, l: nat, k: nat, at: nat,
                   start: nat)
    requires VolumeOk(g, v) && CanAdd(g, v, filename, |c|) && IsAdded(g, v, filename, c, v')
    requires l < BlockCount(|c|, g.bs) && k < g.bs && at == DataPos(l, g.P()) && start == Times(l, g.bs)
    ensures var f := FreeList(v.blockMap);
            && at < |f| && f[at] < |v'.blocks| && k < |v'.blocks[f[at]]|
            && v'.blocks[f[at]][k] == if start + k < |c| then c[start + k] else 0
  {
    ChunkPlaced(g, v, filename, c, v', l, at);
  }

  lemma GroupNumber(f: seq<nat>, q: nat, r: nat, nb: nat, p: nat)
    requires p > 0 && r < p && Pointers16(f) && |f| == ChainLength(nb, p) && q < Groups(nb, p)
    ensures var at := IndirectPos(q, p);
            && at < |f| && (LeafIndex(q, r, p) < nb ==> at + 1 + r < |f|)
            && PointerAt(EncodePointers(GroupPointers(f, q, nb, p)), r) ==
               if LeafIndex(q, r, p) < nb then f[at + 1 + r] else 0
  {
    IndirectPosInChain(q, nb, p);
    PointerReadsBack(GroupPointers(f, q, nb, p), r);
    LeafOfIndex(q, r, p);
    if LeafIndex(q, r, p) < nb {
      DataPosInChain(LeafIndex(q, r, p), nb, p);
    }
  }

  /** Number r of pointer block q: the leaf behind it, as far as there are data blocks. */
  lemma LeavesPlaced(g: Geometry, v: Volume, filename: seq<byte>, c: seq<byte>, v': Volume, q: nat, r: nat, nb: nat,
                     at: nat)
    requires VolumeOk(g, v) && CanAdd(g, v, filename, |c|) && IsAdded(g, v, filename, c, v')
    requires nb == BlockCount(|c|, g.bs) && q < Groups(nb, g.P()) && r < g.P() && at == IndirectPos(q, g.P())
    ensures var f := FreeList(v.blockMap);
            && at < |f| && f[at] < |v'.blocks| && |v'.blocks[f[at]]| == g.bs
            && (LeafIndex(q, r, g.P()) < nb ==> at + 1 + r < |f|)
            && PointerAt(v'.blocks[f[at]], r) == if LeafIndex(q, r, g.P()) < nb then f[at + 1 + r] else 0
  {
    GroupNumber(TakenBlocks(g, v, |c|), q, r, nb, g.P());
  }
}
