/** The blocks that fs_del frees: every block that a nonzero pointer of the inode or of its pointer blocks names. */
module Freeing {
  import opened Bytes
  import opened Bits
  import opened Arith
  import opened Inodes
  import opened Chains
  import opened Volumes

  /** The j-th pointer of a block; 0 beyond its end. */
  function PointerOr0(block: seq<byte>, j: nat): nat {
    if 2 * j + 2 <= |block| then PointerAt(block, j) else 0
  }

  /** The blocks named by the first j pointers of a block. */
  ghost function NamedIn(block: seq<byte>, j: nat): set<nat> {
    if j == 0 then {}
    else NamedIn(block, j - 1) + (if PointerOr0(block, j - 1) > 0 then {PointerOr0(block, j - 1)} else {})
  }

  /** The blocks named by the first j of the pointers ps themselves. */
  ghost function NamedBy(ps: seq<nat>, j: nat): set<nat>
    requires j <= |ps|
  {
    if j == 0 then {} else NamedBy(ps, j - 1) + (if ps[j - 1] > 0 then {ps[j - 1]} else {})
  }

  /** The blocks named by the first q indirect pointers and by the blocks that read gives for them. */
  ghost function NamedThrough(read: nat -> seq<byte>, ps: seq<nat>, q: nat, p: nat): set<nat>
    requires q <= |ps|
  {
    if q == 0 then {}
    else NamedThrough(read, ps, q - 1, p) + (if ps[q - 1] > 0 then {ps[q - 1]} + NamedIn(read(ps[q - 1]), p) else {})
  }

  /** All blocks that deleting inode n clears, if read gives the pointer blocks. */
  ghost function Named(read: nat -> seq<byte>, n: Inode, p: nat): set<nat> {
    NamedBy(n.direct, |n.direct|) + NamedThrough(read, n.indirect, |n.indirect|, p)
  }

  lemma {:induction false} InNamedIn(block: seq<byte>, j: nat, x: nat)
    ensures x in NamedIn(block, j) <==> x > 0 && exists r: nat :: r < j && PointerOr0(block, r) == x
  {
    if j > 0 {
      InNamedIn(block, j - 1, x);
      assert x in NamedIn(block, j) ==> x in NamedIn(block, j - 1) || PointerOr0(block, j - 1) == x;
    }
  }

  lemma {:induction false} InNamedBy(ps: seq<nat>, j: nat, x: nat)
    requires j <= |ps|
    ensures x in NamedBy(ps, j) <==> x > 0 && exists r: nat :: r < j && ps[r] == x
  {
    if j > 0 {
      InNamedBy(ps, j - 1, x);
      assert x in NamedBy(ps, j) ==> x in NamedBy(ps, j - 1) || ps[j - 1] == x;
    }
  }

  lemma {:induction false} InNamedThrough(read: nat -> seq<byte>, ps: seq<nat>, q: nat, p: nat, x: nat)
    requires q <= |ps|
    ensures x in NamedThrough(read, ps, q, p) <==>
            exists r: nat :: r < q && ps[r] > 0 && (x == ps[r] || x in NamedIn(read(ps[r]), p))
  {
    if q > 0 {
      InNamedThrough(read, ps, q - 1, p, x);
      var b := ps[q - 1];
      assert x in NamedThrough(read, ps, q, p) <==>
             x in NamedThrough(read, ps, q - 1, p) || (b > 0 && (x == b || x in NamedIn(read(b), p)));
    }
  }

  /** read gives the pointer blocks of n as they are on the volume. */
  ghost predicate ReadsPointerBlocks(g: Geometry, blocks: seq<seq<byte>>, n: Inode, read: nat -> seq<byte>) {
    forall q :: 0 <= q < |n.indirect| && 0 < n.indirect[q] < |blocks| ==> read(n.indirect[q]) == blocks[n.indirect[q]]
  }

  lemma NamedIsOwned(g: Geometry, blocks: seq<seq<byte>>, n: Inode, read: nat -> seq<byte>, x: nat)
    requires GeometryOk(g) && FileOk(g, blocks, n) && |blocks| == g.blockCount
    requires ReadsPointerBlocks(g, blocks, n, read)
    requires x in Named(read, n, g.P())
    ensures x in Chain(g, blocks, n)
  {
    var d, p, c := DataBlocksOf(g, n), g.P(), Chain(g, blocks, n);
    InNamedBy(n.direct, DIRECT, x);
    if x in NamedBy(n.direct, DIRECT) {
      var j: nat :| j < DIRECT && n.direct[j] == x;
      assert c[j] == x;
    } else {
      InNamedThrough(read, n.indirect, INDIRECT, p, x);
      var q: nat :| q < INDIRECT && n.indirect[q] > 0 && (x == n.indirect[q] || x in NamedIn(read(n.indirect[q]), p));
      PointerBlockInChain(g, blocks, n, q);
      if x != n.indirect[q] {
        InNamedIn(blocks[n.indirect[q]], p, x);
        var r: nat :| r < p && PointerOr0(blocks[n.indirect[q]], r) == x;
        assert PointerIn(blocks, n, Leaf(q, r)) == x;
        var l := LeafIndex(q, r, p);
        assert l < d;
        DataPosInChain(l, d, p);
        SlotOfDataPos(l, p);
        LeafOfIndex(q, r, p);
        assert c[DataPos(l, p)] == x;
      }
    }
  }

  lemma OwnedIsNamed(g: Geometry, blocks: seq<seq<byte>>, n: Inode, read: nat -> seq<byte>, k: nat)
    requires GeometryOk(g) && FileOk(g, blocks, n) && |blocks| == g.blockCount
    requires ReadsPointerBlocks(g, blocks, n, read)
    requires k < |Chain(g, blocks, n)|
    ensures Chain(g, blocks, n)[k] in Named(read, n, g.P())
  {
    var d, p, c := DataBlocksOf(g, n), g.P(), Chain(g, blocks, n);
    var x := c[k];
    assert x in c;
    ChainPosition(k, d, p);
    match SlotOf(k, p)
    case Direct(j) =>
      InNamedBy(n.direct, DIRECT, x);
    case Indirect(q) =>
      PointerBlockInChain(g, blocks, n, q);
      InNamedThrough(read, n.indirect, INDIRECT, p, x);
    case Leaf(q, r) =>
      PointerBlockInChain(g, blocks, n, q);
      assert PointerIn(blocks, n, Leaf(q, r)) == x;
      assert PointerOr0(blocks[n.indirect[q]], r) == x;
      InNamedIn(blocks[n.indirect[q]], p, x);
      InNamedThrough(read, n.indirect, INDIRECT, p, x);
  }

  /** Read where the writer put them, the pointer blocks make delete free exactly the file's chain. */
  lemma NamedIsChain(g: Geometry, blocks: seq<seq<byte>>, n: Inode, read: nat -> seq<byte>)
    requires GeometryOk(g) && FileOk(g, blocks, n) && |blocks| == g.blockCount
    requires ReadsPointerBlocks(g, blocks, n, read)
    ensures Named(read, n, g.P()) == Elements(Chain(g, blocks, n))
  {
    var c := Chain(g, blocks, n);
    forall x | x in Named(read, n, g.P()) ensures x in c {
      NamedIsOwned(g, blocks, n, read, x);
    }
    forall x | x in c ensures x in Named(read, n, g.P()) {
      var k :| 0 <= k < |c| && c[k] == x;
      OwnedIsNamed(g, blocks, n, read, k);
    }
  }

  /** A file without indirect pointers is freed right wherever the pointer blocks are read. */
  lemma SmallFileReadsNothing(g: Geometry, blocks: seq<seq<byte>>, n: Inode, read: nat -> seq<byte>)
    requires GeometryOk(g) && FileOk(g, blocks, n) && n.size <= DIRECT * g.bs
    ensures ReadsPointerBlocks(g, blocks, n, read)
  {
    if n.size > 0 {
      QuotRem(n.size - 1, g.bs);
      TimesIsProduct(DIRECT, g.bs);
      if DIRECT <= Quot(n.size - 1, g.bs) {
        TimesMonotonic(DIRECT, Quot(n.size - 1, g.bs), g.bs);
      }
    }
    assert Groups(DataBlocksOf(g, n), g.P()) == 0;
  }
}
