/** The pointer tree of a file as one chain of blocks in the order fs_add allocates them: four direct blocks, then
    per indirect pointer the pointer block followed by the data blocks it names. p is the pointers per block. */
module Chains {
  import opened Arith
  import opened Inodes

  /** Where a pointer of the tree is kept. */
  datatype Slot = Direct(j: nat) | Indirect(q: nat) | Leaf(q: nat, r: nat)

  /** Blocks that hold size bytes. */
  function BlockCount(size: nat, bs: nat): nat
    requires bs > 0
  {
    if size == 0 then 0 else Quot(size - 1, bs) + 1
  }

  /** Pointer blocks that d data blocks need. */
  function Groups(d: nat, p: nat): nat
    requires p > 0
  {
    if d <= DIRECT then 0 else Quot(d - DIRECT - 1, p) + 1
  }

  function ChainLength(d: nat, p: nat): nat
    requires p > 0
  {
    d + Groups(d, p)
  }

  function MaxBlocks(p: nat): nat {
    DIRECT + 9 * p
  }

  /** The logical block under leaf r of pointer block q. */
  function LeafIndex(q: nat, r: nat, p: nat): nat {
    DIRECT + Times(q, p) + r
  }

  /** The chain position of logical block l. */
  function DataPos(l: nat, p: nat): nat
    requires p > 0
  {
    if l < DIRECT then l else l + Quot(l - DIRECT, p) + 1
  }

  /** The chain position of pointer block q. */
  function IndirectPos(q: nat, p: nat): nat {
    DIRECT + Times(q, p + 1)
  }

  /** Where the pointer to logical block l is kept: the address translation of fs_offset_to_block. */
  function DataSlot(l: nat, p: nat): Slot
    requires p > 0
  {
    if l < DIRECT then Direct(l) else Leaf(Quot(l - DIRECT, p), Rem(l - DIRECT, p))
  }

  /** Where the pointer to the k-th block of the chain is kept. */
  function SlotOf(k: nat, p: nat): Slot {
    if k < DIRECT then Direct(k)
    else
      var q, r := Quot(k - DIRECT, p + 1), Rem(k - DIRECT, p + 1);
      if r == 0 then Indirect(q) else Leaf(q, r - 1)
  }

  lemma SlotOfDataPos(l: nat, p: nat)
    requires p > 0
    ensures SlotOf(DataPos(l, p), p) == DataSlot(l, p)
  {
    if l >= DIRECT {
      var q, r := Quot(l - DIRECT, p), Rem(l - DIRECT, p);
      QuotRem(l - DIRECT, p);
      TimesNext(q, p);
      QuotRemUnique(DataPos(l, p) - DIRECT, p + 1, q, r + 1);
    }
  }

  lemma SlotOfIndirectPos(q: nat, p: nat)
    ensures SlotOf(IndirectPos(q, p), p) == Indirect(q)
  {
    QuotRemUnique(Times(q, p + 1), p + 1, q, 0);
  }

  lemma LeafOfIndex(q: nat, r: nat, p: nat)
    requires r < p
    ensures DataSlot(LeafIndex(q, r, p), p) == Leaf(q, r)
    ensures DataPos(LeafIndex(q, r, p), p) == IndirectPos(q, p) + 1 + r
  {
    QuotRemUnique(Times(q, p) + r, p, q, r);
    TimesNext(q, p);
  }

  lemma GroupBounds(d: nat, p: nat)
    requires p > 0 && d > DIRECT
    ensures var g := Groups(d, p);
            && g >= 1
            && Times(g - 1, p) < d - DIRECT <= Times(g, p)
            && Times(g, p) == Times(g - 1, p) + p
  {
    QuotRem(d - DIRECT - 1, p);
  }

  /** Pointer block q is in use as soon as its first leaf is. */
  lemma GroupInUse(q: nat, d: nat, p: nat)
    requires p > 0
    ensures q < Groups(d, p) <==> DIRECT + Times(q, p) < d
  {
    if d > DIRECT {
      GroupBounds(d, p);
      var g := Groups(d, p);
      if q < g {
        TimesMonotonic(q, g - 1, p);
      } else {
        TimesMonotonic(g, q, p);
      }
    }
  }

  lemma BlockOfOffset(o: nat, size: nat, bs: nat)
    requires bs > 0
    ensures o < size ==> Quot(o, bs) < BlockCount(size, bs)
    ensures Quot(o, bs) < BlockCount(size, bs) ==> Times(Quot(o, bs), bs) < size
  {
    QuotRem(o, bs);
    if size > 0 {
      QuotRem(size - 1, bs);
      var d, l := BlockCount(size, bs), Quot(o, bs);
      if d <= l {
        TimesMonotonic(d, l, bs);
      } else {
        TimesMonotonic(l, d - 1, bs);
      }
    }
  }

  lemma DataPosInChain(l: nat, d: nat, p: nat)
    requires p > 0 && l < d
    ensures DataPos(l, p) < ChainLength(d, p)
  {
    if l >= DIRECT {
      var q := Quot(l - DIRECT, p);
      QuotRem(l - DIRECT, p);
      GroupInUse(q, d, p);
    }
  }

  lemma IndirectPosInChain(q: nat, d: nat, p: nat)
    requires p > 0 && q < Groups(d, p)
    ensures IndirectPos(q, p) < ChainLength(d, p)
  {
    GroupInUse(q, d, p);
    TimesNext(q, p);
  }

  /** A position r blocks into group q belongs to the file only with the pointer block and the leaf that r stands
      for. */
  lemma GroupOfPosition(q: nat, r: nat, d: nat, p: nat)
    requires p > 0 && r <= p && IndirectPos(q, p) + r < ChainLength(d, p)
    ensures q < Groups(d, p)
    ensures r > 0 ==> LeafIndex(q, r - 1, p) < d
  {
    TimesNext(q, p);
    GroupBounds(d, p);
    var g := Groups(d, p);
    if g <= q {
      TimesMonotonic(g, q, p);
    } else if q < g - 1 {
      TimesMonotonic(q, g - 1, p);
    }
  }

  /** Every position of the chain is a data block or a pointer block of the file, and only one of them. */
  lemma ChainPosition(k: nat, d: nat, p: nat)
    requires p > 0 && k < ChainLength(d, p)
    ensures match SlotOf(k, p)
            case Direct(j) => j == k < d && j < DIRECT && k == DataPos(j, p)
            case Indirect(q) => q < Groups(d, p) && k == IndirectPos(q, p)
            case Leaf(q, r) =>
              && r < p && q < Groups(d, p)
              && LeafIndex(q, r, p) < d && k == DataPos(LeafIndex(q, r, p), p) && k == IndirectPos(q, p) + 1 + r
  {
    if k >= DIRECT {
      var u := k - DIRECT;
      var q, r := Quot(u, p + 1), Rem(u, p + 1);
      QuotRem(u, p + 1);
      GroupOfPosition(q, r, d, p);
      if r > 0 {
        LeafOfIndex(q, r - 1, p);
      }
    }
  }

  lemma GroupsOfMax(d: nat, p: nat)
    requires p > 0
    ensures d <= MaxBlocks(p) <==> Groups(d, p) <= INDIRECT
  {
    GroupInUse(INDIRECT, d, p);
    TimesIsProduct(INDIRECT, p);
  }

  /** One more data block takes one more block, or two when it opens a pointer block. */
  lemma ChainGrows(l: nat, p: nat)
    requires p > 0
    ensures Groups(l + 1, p) == Groups(l, p) + (if l >= DIRECT && Rem(l - DIRECT, p) == 0 then 1 else 0)
    ensures DataPos(l, p) == ChainLength(l + 1, p) - 1
  {
    if l >= DIRECT {
      var q, r := Quot(l - DIRECT, p), Rem(l - DIRECT, p);
      QuotRem(l - DIRECT, p);
      if l > DIRECT {
        if r == 0 {
          QuotRemUnique(l - DIRECT - 1, p, q - 1, p - 1);
        } else {
          QuotRemUnique(l - DIRECT - 1, p, q, r - 1);
        }
      }
    }
  }

  lemma {:induction false} ChainLengthMonotonic(a: nat, b: nat, p: nat)
    requires p > 0 && a <= b
    ensures ChainLength(a, p) + (b - a) <= ChainLength(b, p)
    decreases b - a
  {
    if a < b {
      ChainGrows(a, p);
      ChainLengthMonotonic(a + 1, b, p);
    }
  }

  lemma DataPosOrder(l: nat, m: nat, p: nat)
    requires p > 0 && l < m
    ensures DataPos(l, p) < DataPos(m, p)
  {
    ChainGrows(l, p);
    ChainGrows(m, p);
    ChainLengthMonotonic(l + 1, m + 1, p);
  }

  /** At the start of pointer block q the chain has run through exactly the q earlier ones. */
  lemma ChainAtGroup(q: nat, p: nat)
    requires p > 0
    ensures Groups(LeafIndex(q, 0, p), p) == q
    ensures ChainLength(LeafIndex(q, 0, p), p) == IndirectPos(q, p)
  {
    GroupInUse(q, LeafIndex(q, 0, p), p);
    if q > 0 {
      TimesMonotonic(q - 1, q, p);
      GroupInUse(q - 1, LeafIndex(q, 0, p), p);
    }
    TimesNext(q, p);
  }

  lemma ChainInGroup(q: nat, j: nat, p: nat)
    requires 0 < j <= p
    ensures Groups(LeafIndex(q, j, p), p) == q + 1
    ensures ChainLength(LeafIndex(q, j, p), p) == IndirectPos(q, p) + 1 + j
  {
    GroupInUse(q, LeafIndex(q, j, p), p);
    GroupInUse(q + 1, LeafIndex(q, j, p), p);
    TimesNext(q, p);
  }
}
