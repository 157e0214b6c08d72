/** The state of fs_add's allocation loops between two allocations, and what one more allocation does to it. */
module Filling {
  import opened Bytes
  import opened Bits
  import opened Arith
  import opened Inodes
  import opened Chains
  import opened Volumes
  import opened Adding

  /** The bytes still to be stored after l blocks: each takes a block's worth or what is left. */
  function DataLeft(size: nat, l: nat, bs: nat): nat {
    if l == 0 then size else DataLeft(size, l - 1, bs) - Min(bs, DataLeft(size, l - 1, bs))
  }

  lemma {:induction false} DataLeftIs(size: nat, l: nat, bs: nat)
    ensures DataLeft(size, l, bs) == if Times(l, bs) < size then size - Times(l, bs) else 0
  {
    if l > 0 {
      DataLeftIs(size, l - 1, bs);
    }
  }

  lemma DataLeftMeans(size: nat, l: nat, bs: nat)
    requires bs > 0
    ensures DataLeft(size, l, bs) > 0 <==> l < BlockCount(size, bs)
    ensures DataLeft(size, l, bs) > 0 ==> Times(l, bs) + DataLeft(size, l, bs) == size
  {
    DataLeftIs(size, l, bs);
    QuotRemUnique(Times(l, bs), bs, l, 0);
    BlockOfOffset(Times(l, bs), size, bs);
  }

  lemma BlockInFile(size: nat, l: nat, bs: nat)
    requires bs > 0 && l < BlockCount(size, bs)
    ensures Times(l, bs) < size
  {
    QuotRemUnique(Times(l, bs), bs, l, 0);
    BlockOfOffset(Times(l, bs), size, bs);
  }

  /** The first l data blocks hold the first l chunks of c. */
  ghost predicate DataHold(f: seq<nat>, l: nat, c: seq<byte>, blocks: seq<seq<byte>>, bs: nat, p: nat)
    requires p > 0
  {
    forall i {:trigger DataPos(i, p)} :: 0 <= i < l ==>
      && DataPos(i, p) < |f| && f[DataPos(i, p)] < |blocks| && Times(i, bs) <= |c|
      && blocks[f[DataPos(i, p)]] == Chunk(c, i, bs)
  }

  /** The first q pointer blocks name the data blocks below d. */
  ghost predicate PointersHold(f: seq<nat>, q: nat, d: nat, blocks: seq<seq<byte>>, p: nat)
    requires p > 0 && Pointers16(f)
  {
    forall i {:trigger IndirectPos(i, p)} :: 0 <= i < q ==>
      && IndirectPos(i, p) < |f| && f[IndirectPos(i, p)] < |blocks|
      && blocks[f[IndirectPos(i, p)]] == EncodePointers(GroupPointers(f, i, d, p))
  }

  /** The first k blocks of the free list f are taken and nothing outside them is written. */
  ghost predicate Taken(before: Volume, f: seq<nat>, k: nat, bits: seq<bool>, blocks: seq<seq<byte>>) {
    && k <= |f|
    && bits == Mark(before.blockMap, f[..k])
    && FreeList(bits) == f[k..]
    && |blocks| == |before.blocks|
    && (forall b :: 0 <= b < |blocks| && b !in f[..k] ==> blocks[b] == before.blocks[b])
  }

  lemma TakeOne(before: Volume, f: seq<nat>, k: nat, bits: seq<bool>, blocks: seq<seq<byte>>, x: seq<byte>)
    requires Taken(before, f, k, bits, blocks) && k < |f| && f[k] < |blocks| && f[k] < |bits|
    requires f == FreeList(before.blockMap)
    ensures Taken(before, f, k + 1, bits[f[k] := true], blocks[f[k] := x])
    ensures Taken(before, f, k + 1, bits[f[k] := true], blocks)
  {
    assert f[..k + 1] == f[..k] + [f[k]];
    MarkOne(before.blockMap, f[..k], f[k]);
    MarkPrefix(before.blockMap, k + 1);
  }

  /** Writing to a block of the chain that comes later keeps the blocks that are filled. */
  lemma LaterWriteKeepsData(f: seq<nat>, l: nat, c: seq<byte>, blocks: seq<seq<byte>>, bs: nat, p: nat, k: nat,
                            x: seq<byte>)
    requires p > 0 && Ascending(f) && DataHold(f, l, c, blocks, bs, p)
    requires ChainLength(l, p) <= k < |f| && f[k] < |blocks|
    ensures DataHold(f, l, c, blocks[f[k] := x], bs, p)
  {
    forall i | 0 <= i < l ensures f[DataPos(i, p)] != f[k] {
      DataPosInChain(i, l, p);
    }
  }

  lemma LaterWriteKeepsPointers(f: seq<nat>, q: nat, d: nat, blocks: seq<seq<byte>>, p: nat, k: nat, x: seq<byte>)
    requires p > 0 && Pointers16(f) && Ascending(f) && PointersHold(f, q, d, blocks, p)
    requires IndirectPos(q, p) <= k < |f| && f[k] < |blocks|
    ensures PointersHold(f, q, d, blocks[f[k] := x], p)
  {
    forall i | 0 <= i < q ensures f[IndirectPos(i, p)] != f[k] {
      TimesMonotonic(i, q, p + 1);
    }
  }

  lemma AddDataBlock(f: seq<nat>, l: nat, c: seq<byte>, blocks: seq<seq<byte>>, bs: nat, p: nat)
    requires p > 0 && DataHold(f, l, c, blocks, bs, p)
    requires DataPos(l, p) < |f| && f[DataPos(l, p)] < |blocks| && Times(l, bs) <= |c|
    requires blocks[f[DataPos(l, p)]] == Chunk(c, l, bs)
    ensures DataHold(f, l + 1, c, blocks, bs, p)
  {
    forall i | 0 <= i < l + 1
      ensures DataPos(i, p) < |f| && f[DataPos(i, p)] < |blocks| && Times(i, bs) <= |c|
      ensures blocks[f[DataPos(i, p)]] == Chunk(c, i, bs)
    {
      assert i < l || i == l;
    }
  }

  /** One more data block is filled. */
  lemma FillOne(f: seq<nat>, l: nat, c: seq<byte>, blocks: seq<seq<byte>>, bs: nat, p: nat)
    requires p > 0 && bs > 0 && Ascending(f) && DataHold(f, l, c, blocks, bs, p)
    requires l < BlockCount(|c|, bs)
    requires DataPos(l, p) < |f| && f[DataPos(l, p)] < |blocks|
    ensures Times(l, bs) <= |c|
    ensures DataHold(f, l + 1, c, blocks[f[DataPos(l, p)] := Chunk(c, l, bs)], bs, p)
  {
    assert Times(l, bs) < |c| by {
      BlockInFile(|c|, l, bs);
    }
    assert ChainLength(l, p) <= DataPos(l, p) by {
      ChainGrows(l, p);
    }
    var x := Chunk(c, l, bs);
    LaterWriteKeepsData(f, l, c, blocks, bs, p, DataPos(l, p), x);
    AddDataBlock(f, l, c, blocks[f[DataPos(l, p)] := x], bs, p);
  }

  /** The pointers of a full group do not depend on what follows it. */
  lemma FullGroup(f: seq<nat>, i: nat, q: nat, d: nat, d': nat, p: nat)
    requires p > 0 && i < q && LeafIndex(q, 0, p) <= d && LeafIndex(q, 0, p) <= d'
    ensures GroupPointers(f, i, d, p) == GroupPointers(f, i, d', p)
  {
    TimesMonotonic(i, q, p);
    forall r | 0 <= r < p ensures GroupPointers(f, i, d, p)[r] == GroupPointers(f, i, d', p)[r] {
      assert LeafIndex(i, r, p) < LeafIndex(q, 0, p);
    }
  }

  lemma EarlierGroupsHold(f: seq<nat>, q: nat, d: nat, d': nat, blocks: seq<seq<byte>>, p: nat)
    requires p > 0 && Pointers16(f) && LeafIndex(q, 0, p) <= d && LeafIndex(q, 0, p) <= d'
    requires PointersHold(f, q, d, blocks, p)
    ensures PointersHold(f, q, d', blocks, p)
  {
    forall i | 0 <= i < q ensures GroupPointers(f, i, d, p) == GroupPointers(f, i, d', p) {
      FullGroup(f, i, q, d, d', p);
    }
  }

  /** The pointer array in memory after j allocations under pointer block q. */
  ghost predicate GroupInMemory(f: seq<nat>, q: nat, j: nat, ptrs: seq<nat>, p: nat) {
    && |ptrs| == p && j <= p
    && (j > 0 ==> IndirectPos(q, p) + j < |f|)
    && (forall r :: 0 <= r < j ==> ptrs[r] == f[IndirectPos(q, p) + 1 + r])
    && (forall r :: j <= r < p ==> ptrs[r] == 0)
  }

  lemma GroupIsWhole(f: seq<nat>, q: nat, j: nat, ptrs: seq<nat>, p: nat)
    requires p > 0 && GroupInMemory(f, q, j, ptrs, p)
    ensures ptrs == GroupPointers(f, q, LeafIndex(q, j, p), p)
  {
    forall r | 0 <= r < p ensures ptrs[r] == GroupPointers(f, q, LeafIndex(q, j, p), p)[r] {
      LeafOfIndex(q, r, p);
    }
  }

  lemma PointerBlockIsNoDataBlock(i: nat, q: nat, p: nat)
    requires p > 0
    ensures DataPos(i, p) != IndirectPos(q, p)
  {
    SlotOfDataPos(i, p);
    SlotOfIndirectPos(q, p);
  }

  /** Writing a pointer block keeps the data blocks. */
  lemma PointerWriteKeepsData(f: seq<nat>, q: nat, l: nat, c: seq<byte>, blocks: seq<seq<byte>>, bs: nat, p: nat,
                              x: seq<byte>)
    requires p > 0 && Ascending(f) && DataHold(f, l, c, blocks, bs, p)
    requires IndirectPos(q, p) < |f| && f[IndirectPos(q, p)] < |blocks|
    ensures DataHold(f, l, c, blocks[f[IndirectPos(q, p)] := x], bs, p)
  {
    forall i | 0 <= i < l ensures f[DataPos(i, p)] != f[IndirectPos(q, p)] {
      PointerBlockIsNoDataBlock(i, q, p);
    }
  }

  /** The pointer block of a group is written when its leaves are filled. */
  lemma WriteGroup(f: seq<nat>, q: nat, j: nat, ptrs: seq<nat>, c: seq<byte>, blocks: seq<seq<byte>>, bs: nat, p: nat)
    requires p > 0 && Pointers16(f) && Ascending(f) && GroupInMemory(f, q, j, ptrs, p) && 0 < j
    requires DataHold(f, LeafIndex(q, j, p), c, blocks, bs, p)
    requires PointersHold(f, q, LeafIndex(q, 0, p), blocks, p)
    requires f[IndirectPos(q, p)] < |blocks|
    ensures forall r :: 0 <= r < p ==> ptrs[r] < 0x1_0000
    ensures var after := blocks[f[IndirectPos(q, p)] := EncodePointers(ptrs)];
            && DataHold(f, LeafIndex(q, j, p), c, after, bs, p)
            && PointersHold(f, q + 1, LeafIndex(q, j, p), after, p)
  {
    GroupIsWhole(f, q, j, ptrs, p);
    var l, k := LeafIndex(q, j, p), IndirectPos(q, p);
    forall r | 0 <= r < p ensures ptrs[r] < 0x1_0000 {
      assert r < j ==> ptrs[r] == f[k + 1 + r];
    }
    PointerWriteKeepsData(f, q, l, c, blocks, bs, p, EncodePointers(ptrs));
    EarlierGroupsHold(f, q, LeafIndex(q, 0, p), l, blocks, p);
    LaterWriteKeepsPointers(f, q, l, blocks, p, k, EncodePointers(ptrs));
  }

  /** Once all blocks are filled the file stands in the blocks taken. */
  lemma FilledFile(f: seq<nat>, d: nat, c: seq<byte>, blocks: seq<seq<byte>>, bs: nat, p: nat)
    requires p > 0 && Pointers16(f) && ChainLength(d, p) <= |f|
    requires forall k :: 0 <= k < |f| ==> f[k] < |blocks|
    requires DataHold(f, d, c, blocks, bs, p) && PointersHold(f, Groups(d, p), d, blocks, p)
    ensures var t := f[..ChainLength(d, p)];
            && Pointers16(t)
            && BlocksHold(t, d, c, blocks, bs, p)
  {
    var t := f[..ChainLength(d, p)];
    forall l | 0 <= l < d ensures DataPos(l, p) < |t| {
      DataPosInChain(l, d, p);
    }
    forall q | 0 <= q < Groups(d, p)
      ensures IndirectPos(q, p) < |t| && GroupPointers(f, q, d, p) == GroupPointers(t, q, d, p)
    {
      IndirectPosInChain(q, d, p);
    }
  }

  // ----- between two groups -----

  /** l data blocks and the pointer blocks above them are filled; k blocks of f are taken. The loops are stuck when
      the last free block went to a pointer block that has no leaf to name. */
  ghost predicate Progress(before: Volume, f: seq<nat>, c: seq<byte>, l: nat, k: nat, left: nat, free: nat,
                           bits: seq<bool>, blocks: seq<seq<byte>>, bs: nat, p: nat)
    requires p > 0 && bs > 0 && Pointers16(f)
  {
    && Taken(before, f, k, bits, blocks)
    && free == |f| - k
    && l <= BlockCount(|c|, bs)
    && left == DataLeft(|c|, l, bs)
    && DataHold(f, l, c, blocks, bs, p)
  }

  /** The next data block of c goes to the next block of f. */
  lemma ProgressByOne(before: Volume, f: seq<nat>, c: seq<byte>, l: nat, k: nat, left: nat, free: nat,
                      bits: seq<bool>, blocks: seq<seq<byte>>, bs: nat, p: nat, l': nat)
    requires p > 0 && bs > 0 && Pointers16(f) && Ascending(f) && f == FreeList(before.blockMap) && l' == l + 1
    requires Progress(before, f, c, l, k, left, free, bits, blocks, bs, p)
    requires left > 0 && free > 0 && k == DataPos(l, p) && f[k] < |blocks| && f[k] < |bits|
    ensures FreeList(bits) != [] && FreeList(bits)[0] == f[k]
    ensures Times(l, bs) <= |c|
    ensures Progress(before, f, c, l', k + 1, DataLeft(|c|, l', bs), free - 1,
                     bits[f[k] := true], blocks[f[k] := Chunk(c, l, bs)], bs, p)
  {
    DataLeftMeans(|c|, l, bs);
    FillOne(f, l, c, blocks, bs, p);
    TakeOne(before, f, k, bits, blocks, Chunk(c, l, bs));
  }

  ghost predicate Settled(f: seq<nat>, l: nat, k: nat, blocks: seq<seq<byte>>, p: nat)
    requires p > 0 && Pointers16(f)
  {
    k == ChainLength(l, p) && PointersHold(f, Groups(l, p), l, blocks, p)
  }

  ghost predicate Stuck(l: nat, k: nat, left: nat, free: nat, p: nat)
    requires p > 0
  {
    k == ChainLength(l, p) + 1 && free == 0 && left > 0 && l >= DIRECT && Rem(l - DIRECT, p) == 0
  }

  /** When the loops stop, all bytes are stored exactly if the file fits its pointers and the free blocks. */
  lemma StoppedExactly(before: Volume, f: seq<nat>, c: seq<byte>, l: nat, k: nat, left: nat, free: nat,
                       bits: seq<bool>, blocks: seq<seq<byte>>, bs: nat, p: nat)
    requires p > 0 && bs > 0 && Pointers16(f)
    requires Progress(before, f, c, l, k, left, free, bits, blocks, bs, p)
    requires Settled(f, l, k, blocks, p) || Stuck(l, k, left, free, p)
    requires l <= MaxBlocks(p)
    requires left == 0 || free == 0 || l == MaxBlocks(p)
    ensures var d := BlockCount(|c|, bs);
            && (left == 0 <==> d <= MaxBlocks(p) && ChainLength(d, p) <= |f|)
            && (left == 0 ==> l == d && Settled(f, l, k, blocks, p))
  {
    var d := BlockCount(|c|, bs);
    DataLeftMeans(|c|, l, bs);
    if left > 0 {
      ChainGrows(l, p);
      ChainLengthMonotonic(l + 1, d, p);
    }
  }

  /** The block a group's pointers go to is taken before its leaves. */
  lemma TakePointerBlock(before: Volume, f: seq<nat>, c: seq<byte>, l: nat, k: nat, left: nat, free: nat,
                         bits: seq<bool>, blocks: seq<seq<byte>>, bs: nat, p: nat)
    requires p > 0 && bs > 0 && Pointers16(f) && f == FreeList(before.blockMap)
    requires Progress(before, f, c, l, k, left, free, bits, blocks, bs, p)
    requires free > 0 && f[k] < |bits| && f[k] < |blocks|
    ensures Progress(before, f, c, l, k + 1, left, free - 1, bits[f[k] := true], blocks, bs, p)
  {
    TakeOne(before, f, k, bits, blocks, []);
  }

  /** One more leaf under pointer block q. */
  lemma LeafByOne(f: seq<nat>, q: nat, j: nat, ptrs: seq<nat>, l0: nat, c: seq<byte>, blocks: seq<seq<byte>>, p: nat,
                  x: seq<byte>)
    requires p > 0 && Pointers16(f) && Ascending(f) && GroupInMemory(f, q, j, ptrs, p) && j < p
    requires IndirectPos(q, p) + 1 + j < |f| && f[IndirectPos(q, p) + 1 + j] < |blocks|
    requires PointersHold(f, q, l0, blocks, p)
    ensures GroupInMemory(f, q, j + 1, ptrs[j := f[IndirectPos(q, p) + 1 + j]], p)
    ensures PointersHold(f, q, l0, blocks[f[IndirectPos(q, p) + 1 + j] := x], p)
  {
    LaterWriteKeepsPointers(f, q, l0, blocks, p, IndirectPos(q, p) + 1 + j, x);
  }

  /** Writing the pointer block of group q, of which j leaves are filled, settles the state. */
  lemma SettleGroup(before: Volume, f: seq<nat>, q: nat, j: nat, ptrs: seq<nat>, c: seq<byte>, left: nat, free: nat,
                    bits: seq<bool>, blocks: seq<seq<byte>>, bs: nat, p: nat)
    requires p > 0 && bs > 0 && Pointers16(f) && Ascending(f)
    requires GroupInMemory(f, q, j, ptrs, p) && IndirectPos(q, p) < |f| && f[IndirectPos(q, p)] < |blocks|
    requires PointersHold(f, q, LeafIndex(q, 0, p), blocks, p)
    requires var l, k := LeafIndex(q, j, p), IndirectPos(q, p) + 1 + j;
             Progress(before, f, c, l, k, left, free, bits, blocks, bs, p)
    requires j == 0 ==> free == 0 && left > 0
    ensures forall r :: 0 <= r < p ==> ptrs[r] < 0x1_0000
    ensures var l, k := LeafIndex(q, j, p), IndirectPos(q, p) + 1 + j;
            var after := blocks[f[IndirectPos(q, p)] := EncodePointers(ptrs)];
            && Progress(before, f, c, l, k, left, free, bits, after, bs, p)
            && (j > 0 ==> Settled(f, l, k, after, p) && Groups(l, p) == q + 1)
            && (j == 0 ==> Stuck(l, k, left, free, p))
  {
    var k0 := IndirectPos(q, p);
    assert f[k0] in f[..k0 + 1 + j];
    ChainAtGroup(q, p);
    GroupStart(q, p);
    if j > 0 {
      WriteGroup(f, q, j, ptrs, c, blocks, bs, p);
      ChainInGroup(q, j, p);
    } else {
      LaterWriteKeepsData(f, LeafIndex(q, 0, p), c, blocks, bs, p, k0, EncodePointers(ptrs));
    }
  }

  lemma GroupStart(q: nat, p: nat)
    requires p > 0
    ensures LeafIndex(q, 0, p) >= DIRECT && Rem(LeafIndex(q, 0, p) - DIRECT, p) == 0
  {
    QuotRemUnique(Times(q, p), p, q, 0);
  }

  // ----- between two passes over the indirect pointers -----

  /** Before pass i: either everything stored is settled and the inode's pointers say so, or the loops are stuck.
      If the loops go on, exactly the pointer blocks before i are full. */
  ghost predicate BeforeGroup(f: seq<nat>, i: nat, l: nat, k: nat, left: nat, free: nat,
                              blocks: seq<seq<byte>>, indirect: seq<nat>, p: nat)
    requires p > 0 && Pointers16(f)
  {
    && (|| (Settled(f, l, k, blocks, p) && indirect == IndirectPointers(f, l, p))
        || Stuck(l, k, left, free, p))
    && |indirect| == INDIRECT
    && l <= LeafIndex(i, 0, p)
    && (free > 0 && left > 0 ==>
          l == LeafIndex(i, 0, p) && k == IndirectPos(i, p) && Groups(l, p) == i && PointersHold(f, i, l, blocks, p))
  }

  lemma BeforeFirstGroup(f: seq<nat>, l: nat, left: nat, free: nat, blocks: seq<seq<byte>>, indirect: seq<nat>, p: nat)
    requires p > 0 && Pointers16(f) && l <= DIRECT && (l == DIRECT || free == 0 || left == 0)
    requires indirect == IndirectPointers(f, 0, p)
    ensures BeforeGroup(f, 0, l, l, left, free, blocks, indirect, p)
  {}

  lemma IndirectPointersGrow(f: seq<nat>, l: nat, l': nat, i: nat, p: nat)
    requires p > 0 && i < INDIRECT && IndirectPos(i, p) < |f|
    requires Groups(l, p) == i && Groups(l', p) == i + 1
    ensures IndirectPointers(f, l, p)[i := f[IndirectPos(i, p)]] == IndirectPointers(f, l', p)
  {}

  lemma AfterGroup(f: seq<nat>, i: nat, j: nat, l: nat, k: nat, left: nat, free: nat,
                   blocks: seq<seq<byte>>, indirect: seq<nat>, p: nat)
    requires p > 0 && Pointers16(f) && i < INDIRECT && IndirectPos(i, p) < |f|
    requires indirect == IndirectPointers(f, LeafIndex(i, 0, p), p)
    requires l == LeafIndex(i, j, p) && k == IndirectPos(i, p) + 1 + j && j <= p
    requires j == p || free == 0 || left == 0
    requires j > 0 ==> Settled(f, l, k, blocks, p) && Groups(l, p) == i + 1
    requires j == 0 ==> Stuck(l, k, left, free, p)
    ensures BeforeGroup(f, i + 1, l, k, left, free, blocks, indirect[i := f[IndirectPos(i, p)]], p)
  {
    ChainAtGroup(i, p);
    if j > 0 {
      IndirectPointersGrow(f, LeafIndex(i, 0, p), l, i, p);
    }
  }

  /** Every data block of c for which there is a pointer and a free block is written there, the last one filled up with
      zeros. */
  ghost predicate DataReached(f: seq<nat>, c: seq<byte>, blocks: seq<seq<byte>>, bs: nat, p: nat)
    requires p > 0 && bs > 0
  {
    forall i {:trigger DataPos(i, p)} ::
      0 <= i < BlockCount(|c|, bs) && i < MaxBlocks(p) && DataPos(i, p) < |f| ==>
        f[DataPos(i, p)] < |blocks| && Times(i, bs) <= |c| && blocks[f[DataPos(i, p)]] == Chunk(c, i, bs)
  }

  /** The loops do not stop before that. */
  lemma StoppedLate(f: seq<nat>, c: seq<byte>, l: nat, k: nat, left: nat, free: nat, blocks: seq<seq<byte>>, bs: nat,
                    p: nat)
    requires p > 0 && bs > 0 && Pointers16(f)
    requires free == |f| - k && left == DataLeft(|c|, l, bs) && DataHold(f, l, c, blocks, bs, p)
    requires k == ChainLength(l, p) || Stuck(l, k, left, free, p)
    requires left == 0 || free == 0 || l == MaxBlocks(p)
    ensures DataReached(f, c, blocks, bs, p)
  {
    DataLeftMeans(|c|, l, bs);
    ChainGrows(l, p);
    forall i | l <= i && left > 0 && free == 0 ensures |f| <= DataPos(i, p) {
      if l < i {
        DataPosOrder(l, i, p);
      }
    }
  }

  /** What the loops leave behind, for better or worse. */
  lemma AfterLoops(before: Volume, f: seq<nat>, c: seq<byte>, i: nat, l: nat, k: nat, left: nat, free: nat,
                   bits: seq<bool>, blocks: seq<seq<byte>>, indirect: seq<nat>, bs: nat, p: nat)
    requires p > 0 && bs > 0 && Pointers16(f) && |bits| == |before.blockMap|
    requires forall x :: 0 <= x < |f| ==> f[x] < |blocks|
    requires Progress(before, f, c, l, k, left, free, bits, blocks, bs, p)
    requires BeforeGroup(f, i, l, k, left, free, blocks, indirect, p) && i <= INDIRECT
    requires left == 0 || free == 0 || i == INDIRECT
    ensures var d := BlockCount(|c|, bs);
            && (left == 0 <==> d <= MaxBlocks(p) && ChainLength(d, p) <= |f|)
            && (left == 0 ==>
                  var t := f[..ChainLength(d, p)];
                  && l == d
                  && bits == Mark(before.blockMap, t)
                  && indirect == IndirectPointers(f, d, p)
                  && Pointers16(t) && BlocksHold(t, d, c, blocks, bs, p)
                  && (forall b :: 0 <= b < |blocks| && b !in t ==> blocks[b] == before.blocks[b]))
            && (forall b :: 0 <= b < |blocks| && b !in f ==> blocks[b] == before.blocks[b])
    ensures DataReached(f, c, blocks, bs, p)
  {
    TimesMonotonic(i, INDIRECT, p);
    TimesIsProduct(INDIRECT, p);
    StoppedLate(f, c, l, k, left, free, blocks, bs, p);
    StoppedExactly(before, f, c, l, k, left, free, bits, blocks, bs, p);
    assert forall b :: b in f[..k] ==> b in f;
    if left == 0 {
      FilledFile(f, l, c, blocks, bs, p);
    }
  }

  lemma PointersOfTaken(f: seq<nat>, d: nat, p: nat)
    requires p > 0 && ChainLength(d, p) <= |f|
    ensures var t := f[..ChainLength(d, p)];
            DirectPointers(f, d) == DirectPointers(t, d) && IndirectPointers(f, d, p) == IndirectPointers(t, d, p)
  {
    forall q | 0 <= q < INDIRECT && q < Groups(d, p) ensures IndirectPos(q, p) < ChainLength(d, p) {
      IndirectPosInChain(q, d, p);
    }
  }
}
