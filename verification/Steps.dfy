/** What one fs_add or fs_del does to a volume, and what it keeps. */
module Steps {
  import opened Bytes
  import opened Bits
  import opened Inodes
  import opened Chains
  import opened Volumes
  import opened Adding

  // ----- adding -----

  /** The blocks, pointer blocks included, that a file of the given size takes. */
  function BlocksNeeded(g: Geometry, size: nat): nat
    requires g.bs > 1
  {
    ChainLength(BlockCount(size, g.bs), g.P())
  }

  predicate SizeFits(g: Geometry, size: nat)
    requires g.bs > 0
  {
    BlockCount(size, g.bs) <= MaxBlocks(g.P())
  }

  predicate CanAdd(g: Geometry, v: Volume, filename: seq<byte>, size: nat)
    requires g.bs > 1
  {
    && Lookup(v.table, KeyOf(filename)) == |v.table|
    && FreeList(v.inodeMap) != []
    && SizeFits(g, size)
    && BlocksNeeded(g, size) <= |FreeList(v.blockMap)|
  }

  /** The free blocks an add takes: the least ones, in order. */
  ghost function TakenBlocks(g: Geometry, v: Volume, size: nat): seq<nat>
    requires g.bs > 1 && BlocksNeeded(g, size) <= |FreeList(v.blockMap)|
  {
    FreeList(v.blockMap)[..BlocksNeeded(g, size)]
  }

  ghost predicate IsAdded(g: Geometry, v: Volume, filename: seq<byte>, c: seq<byte>, v': Volume)
    requires GeometryOk(g) && Shaped(g, v) && CanAdd(g, v, filename, |c|)
  {
    FreeFromMeans(v.inodeMap, 0);
    FreeFromMeans(v.blockMap, 0);
    var d := BlockCount(|c|, g.bs);
    var f := TakenBlocks(g, v, |c|);
    var i := FreeList(v.inodeMap)[0];
    assert i in FreeList(v.inodeMap);
    && Shaped(g, v')
    && Pointers16(f)
    && v'.inodeMap == v.inodeMap[i := true]
    && v'.blockMap == Mark(v.blockMap, f)
    && v'.table == v.table[i := NewInode(i, filename, |c|, f, d, g.P())]
    && BlocksHold(f, d, c, v'.blocks, g.bs, g.P())
    && (forall b :: 0 <= b < g.blockCount && b !in f ==> v'.blocks[b] == v.blocks[b])
  }

  /** A refused add may have written to free blocks, and to nothing else. */
  ghost predicate IsRefused(g: Geometry, v: Volume, v': Volume)
    requires Shaped(g, v)
  {
    && Shaped(g, v')
    && v'.inodeMap == v.inodeMap && v'.blockMap == v.blockMap && v'.table == v.table
    && (forall b :: 0 <= b < g.blockCount && v.blockMap[b] ==> v'.blocks[b] == v.blocks[b])
  }

  /** The chain of a stored file is marked, so it survives whatever happens to unmarked blocks. */
  lemma StoredFileSurvives(g: Geometry, v: Volume, blocks: seq<seq<byte>>, j: nat)
    requires VolumeOk(g, v) && Used(v, j)
    requires |blocks| == g.blockCount
    requires forall b :: 0 <= b < g.blockCount && v.blockMap[b] ==> blocks[b] == v.blocks[b]
    ensures var n := v.table[j];
            && Chain(g, blocks, n) == Chain(g, v.blocks, n)
            && Contents(g, blocks, n) == Contents(g, v.blocks, n)
            && FileOk(g, blocks, n)
  {
    var n := v.table[j];
    forall x | x in Chain(g, v.blocks, n) ensures x < g.blockCount && v.blocks[x] == blocks[x] {
      assert Owns(g, v, j, x);
    }
    SameChainSameFile(g, v.blocks, blocks, n);
  }

  lemma TakenBlocksAreFree(g: Geometry, v: Volume, size: nat)
    requires g.bs > 1 && BlocksNeeded(g, size) <= |FreeList(v.blockMap)|
    ensures var f := TakenBlocks(g, v, size);
            Ascending(f) && forall x :: x in f ==> x < |v.blockMap| && !v.blockMap[x]
  {
    FreeFromMeans(v.blockMap, 0);
    var all := FreeList(v.blockMap);
    var f := TakenBlocks(g, v, size);
    assert forall x :: x in f ==> x in all;
  }

  /** The index an add uses, and that it is a free one other than 0. */
  lemma ReservedInode(g: Geometry, v: Volume)
    requires VolumeOk(g, v) && FreeList(v.inodeMap) != []
    ensures var i := FreeList(v.inodeMap)[0];
            0 < i < g.inodeCount && !v.inodeMap[i] && v.table[i] == ZeroInode()
  {
    ReserveFirst(v.inodeMap);
  }

  lemma AddedFileStands(g: Geometry, v: Volume, filename: seq<byte>, c: seq<byte>, v': Volume)
    requires VolumeOk(g, v) && CanAdd(g, v, filename, |c|) && |c| < 0x8000_0000
    requires IsAdded(g, v, filename, c, v')
    ensures var i := FreeList(v.inodeMap)[0];
            && i < g.inodeCount
            && Chain(g, v'.blocks, v'.table[i]) == TakenBlocks(g, v, |c|)
            && Contents(g, v'.blocks, v'.table[i]) == c
            && FileOk(g, v'.blocks, v'.table[i])
            && v'.table[i].number == i
  {
    ReservedInode(g, v);
    TakenBlocksAreFree(g, v, |c|);
    var i := FreeList(v.inodeMap)[0];
    var f := TakenBlocks(g, v, |c|);
    assert forall k :: 0 <= k < |f| ==> f[k] in f;
    assert Built(g, f, c, v'.blocks, v'.table[i]);
    BuiltChain(g, f, c, v'.blocks, v'.table[i]);
    BuiltContents(g, f, c, v'.blocks, v'.table[i]);
    BuiltFileOk(g, f, c, v'.blocks, v'.table[i]);
  }

  lemma OtherFilesStand(g: Geometry, v: Volume, filename: seq<byte>, c: seq<byte>, v': Volume, j: nat)
    requires VolumeOk(g, v) && CanAdd(g, v, filename, |c|)
    requires IsAdded(g, v, filename, c, v') && Used(v, j)
    ensures Used(v', j) && v'.table[j] == v.table[j]
    ensures var n := v.table[j];
            && Chain(g, v'.blocks, n) == Chain(g, v.blocks, n)
            && Contents(g, v'.blocks, n) == Contents(g, v.blocks, n)
            && FileOk(g, v'.blocks, n)
  {
    ReservedInode(g, v);
    TakenBlocksAreFree(g, v, |c|);
    StoredFileSurvives(g, v, v'.blocks, j);
  }

  lemma OwnersAfterAdd(g: Geometry, v: Volume, filename: seq<byte>, c: seq<byte>, v': Volume, j: int, b: nat)
    requires VolumeOk(g, v) && CanAdd(g, v, filename, |c|) && |c| < 0x8000_0000
    requires IsAdded(g, v, filename, c, v')
    ensures Owns(g, v', j, b) <==>
            if j == FreeList(v.inodeMap)[0] then b in TakenBlocks(g, v, |c|) else Owns(g, v, j, b)
  {
    ReservedInode(g, v);
    var i := FreeList(v.inodeMap)[0];
    if j == i {
      AddedFileStands(g, v, filename, c, v');
    } else if Used(v, j) {
      OtherFilesStand(g, v, filename, c, v', j);
    }
  }

  lemma AddKeepsTable(g: Geometry, v: Volume, filename: seq<byte>, c: seq<byte>, v': Volume)
    requires VolumeOk(g, v) && CanAdd(g, v, filename, |c|) && |c| < 0x8000_0000 && 0 !in filename
    requires IsAdded(g, v, filename, c, v')
    ensures TableOk(g, v')
  {
    ReservedInode(g, v);
    var i := FreeList(v.inodeMap)[0];
    AddedFileStands(g, v, filename, c, v');
    KeyOfNewInode(i, filename, |c|, TakenBlocks(g, v, |c|), BlockCount(|c|, g.bs), g.P());
    forall j | Used(v', j) && j != i
      ensures Used(v, j) && v'.table[j].number == j && FileOk(g, v'.blocks, v'.table[j])
      ensures KeyOfInode(v'.table[j]) != KeyOf(filename)
    {
      OtherFilesStand(g, v, filename, c, v', j);
      assert !Matches(v.table, j, KeyOf(filename));
    }
  }

  /** A successful add keeps the volume consistent. */
  lemma AddKeepsVolume(g: Geometry, v: Volume, filename: seq<byte>, c: seq<byte>, v': Volume)
    requires VolumeOk(g, v) && CanAdd(g, v, filename, |c|) && |c| < 0x8000_0000 && 0 !in filename
    requires IsAdded(g, v, filename, c, v')
    ensures VolumeOk(g, v')
  {
    AddKeepsTable(g, v, filename, c, v');
    ReservedInode(g, v);
    TakenBlocksAreFree(g, v, |c|);
    var i := FreeList(v.inodeMap)[0];
    forall j: int, b: nat
      ensures Owns(g, v', j, b) <==> if j == i then b in TakenBlocks(g, v, |c|) else Owns(g, v, j, b)
    {
      OwnersAfterAdd(g, v, filename, c, v', j, b);
    }
    forall b: nat | 0 < b < g.blockCount && v'.blockMap[b] ensures exists j :: Owns(g, v', j, b) {
      if v.blockMap[b] {
        var j :| Owns(g, v, j, b);
        assert Owns(g, v', j, b);
      } else {
        assert Owns(g, v', i, b);
      }
    }
  }

  lemma StoredFile(g: Geometry, v: Volume, i: nat)
    requires VolumeOk(g, v) && Used(v, i)
    ensures var key := KeyOfInode(v.table[i]);
            key in Files(g, v) && Files(g, v)[key] == Contents(g, v.blocks, v.table[i])
  {
    LookupFinds(g, v, i);
    FilesByLookup(g, v, KeyOfInode(v.table[i]));
  }

  /** v' has file i besides the files of v, which it has unchanged. */
  ghost predicate OneMore(g: Geometry, v: Volume, v': Volume, i: nat) {
    && VolumeOk(g, v) && VolumeOk(g, v')
    && Used(v', i) && !Used(v, i)
    && (forall j :: 0 <= j < g.inodeCount && j != i ==>
          && (Used(v, j) <==> Used(v', j))
          && (Used(v, j) ==>
                && v.table[j] == v'.table[j]
                && Contents(g, v.blocks, v.table[j]) == Contents(g, v'.blocks, v.table[j])))
  }

  lemma OneMoreKeeps(g: Geometry, v: Volume, v': Volume, i: nat, k: seq<byte>)
    requires OneMore(g, v, v', i) && k in Files(g, v)
    ensures k in Files(g, v') && Files(g, v')[k] == Files(g, v)[k] && k != KeyOfInode(v'.table[i])
  {
    FilesByLookup(g, v, k);
    var j := Lookup(v.table, k);
    assert Used(v', j);
    StoredFile(g, v', j);
  }

  lemma OneMoreAdds(g: Geometry, v: Volume, v': Volume, i: nat, k: seq<byte>)
    requires OneMore(g, v, v', i) && k in Files(g, v') && k != KeyOfInode(v'.table[i])
    ensures k in Files(g, v)
  {
    FilesByLookup(g, v', k);
    var j := Lookup(v'.table, k);
    assert Used(v, j);
    StoredFile(g, v, j);
  }

  lemma ExtendedMap<K, T>(before: map<K, T>, after: map<K, T>, key: K)
    requires key in after && key !in before
    requires forall k :: k in before ==> k in after && after[k] == before[k]
    requires forall k :: k in after && k != key ==> k in before
    ensures after == before[key := after[key]]
    ensures before == after - {key}
  {}

  lemma OneMoreFile(g: Geometry, v: Volume, v': Volume, i: nat)
    requires OneMore(g, v, v', i)
    ensures var key := KeyOfInode(v'.table[i]);
            && key !in Files(g, v)
            && Files(g, v') == Files(g, v)[key := Contents(g, v'.blocks, v'.table[i])]
            && Files(g, v) == Files(g, v') - {key}
  {
    var key := KeyOfInode(v'.table[i]);
    StoredFile(g, v', i);
    forall k | k in Files(g, v) ensures k in Files(g, v') && Files(g, v')[k] == Files(g, v)[k] && k != key {
      OneMoreKeeps(g, v, v', i, k);
    }
    forall k | k in Files(g, v') && k != key ensures k in Files(g, v) {
      OneMoreAdds(g, v, v', i, k);
    }
    ExtendedMap(Files(g, v), Files(g, v'), key);
  }

  /** After a successful add the stored files are the earlier ones and the new one, byte for byte. */
  lemma AddStoresFile(g: Geometry, v: Volume, filename: seq<byte>, c: seq<byte>, v': Volume)
    requires VolumeOk(g, v) && CanAdd(g, v, filename, |c|) && |c| < 0x8000_0000 && 0 !in filename
    requires IsAdded(g, v, filename, c, v')
    ensures KeyOf(filename) !in Files(g, v)
    ensures VolumeOk(g, v') && Files(g, v') == Files(g, v)[KeyOf(filename) := c]
  {
    AddKeepsVolume(g, v, filename, c, v');
    ReservedInode(g, v);
    var i := FreeList(v.inodeMap)[0];
    AddedFileStands(g, v, filename, c, v');
    KeyOfNewInode(i, filename, |c|, TakenBlocks(g, v, |c|), BlockCount(|c|, g.bs), g.P());
    forall j | 0 <= j < g.inodeCount && j != i && Used(v, j)
      ensures Used(v', j) && v.table[j] == v'.table[j]
      ensures Contents(g, v.blocks, v.table[j]) == Contents(g, v'.blocks, v.table[j])
    {
      OtherFilesStand(g, v, filename, c, v', j);
    }
    OneMoreFile(g, v, v', i);
  }

  /** The free-block count falls by exactly what the file takes, the free-inode count by one. */
  lemma AddTakesSpace(g: Geometry, v: Volume, filename: seq<byte>, c: seq<byte>, v': Volume)
    requires VolumeOk(g, v) && CanAdd(g, v, filename, |c|)
    requires IsAdded(g, v, filename, c, v')
    ensures FreeList(v'.blockMap) == FreeList(v.blockMap)[BlocksNeeded(g, |c|)..]
    ensures FreeList(v'.inodeMap) == FreeList(v.inodeMap)[1..]
  {
    MarkPrefix(v.blockMap, BlocksNeeded(g, |c|));
    ReserveFirst(v.inodeMap);
  }

  lemma RefusedKeepsFile(g: Geometry, v: Volume, v': Volume, j: int)
    requires VolumeOk(g, v) && IsRefused(g, v, v') && Used(v, j)
    ensures Chain(g, v'.blocks, v.table[j]) == Chain(g, v.blocks, v.table[j])
    ensures Contents(g, v'.blocks, v.table[j]) == Contents(g, v.blocks, v.table[j])
    ensures FileOk(g, v'.blocks, v.table[j])
  {
    StoredFileSurvives(g, v, v'.blocks, j);
  }

  lemma OwnersAfterRefusal(g: Geometry, v: Volume, v': Volume, j: int, b: nat)
    requires VolumeOk(g, v) && IsRefused(g, v, v')
    ensures Owns(g, v', j, b) <==> Owns(g, v, j, b)
  {
    if Used(v, j) {
      RefusedKeepsFile(g, v, v', j);
    }
  }

  lemma RefusedAddKeepsVolume(g: Geometry, v: Volume, v': Volume)
    requires VolumeOk(g, v) && IsRefused(g, v, v')
    ensures VolumeOk(g, v')
  {
    forall j | Used(v, j) ensures FileOk(g, v'.blocks, v.table[j]) {
      RefusedKeepsFile(g, v, v', j);
    }
    forall j: int, b: nat ensures Owns(g, v', j, b) <==> Owns(g, v, j, b) {
      OwnersAfterRefusal(g, v, v', j, b);
    }
    forall b: nat | 0 < b < g.blockCount && v'.blockMap[b] ensures exists j :: Owns(g, v', j, b) {
      var j :| Owns(g, v, j, b);
      assert Owns(g, v', j, b);
    }
  }

  lemma RefusedKeepsEntry(g: Geometry, v: Volume, v': Volume, key: seq<byte>)
    requires VolumeOk(g, v) && VolumeOk(g, v') && IsRefused(g, v, v')
    ensures key in Files(g, v') <==> key in Files(g, v)
    ensures key in Files(g, v) ==> Files(g, v')[key] == Files(g, v)[key]
  {
    FilesByLookup(g, v, key);
    FilesByLookup(g, v', key);
    if key in Files(g, v) {
      RefusedKeepsFile(g, v, v', Lookup(v.table, key));
    }
  }

  lemma SameEntries(a: map<seq<byte>, seq<byte>>, b: map<seq<byte>, seq<byte>>)
    requires forall key :: key in a <==> key in b
    requires forall key :: key in b ==> a[key] == b[key]
    ensures a == b
  {}

  lemma RefusedKeepsEntries(g: Geometry, v: Volume, v': Volume)
    requires VolumeOk(g, v) && VolumeOk(g, v') && IsRefused(g, v, v')
    ensures Files(g, v') == Files(g, v)
  {
    var before, after := Files(g, v), Files(g, v');
    forall key ensures (key in after <==> key in before) && (key in before ==> after[key] == before[key]) {
      RefusedKeepsEntry(g, v, v', key);
    }
    SameEntries(after, before);
  }

  /** A refused add leaves the volume consistent and every file as it was. */
  lemma RefusedAddIsAtomic(g: Geometry, v: Volume, v': Volume)
    requires VolumeOk(g, v) && IsRefused(g, v, v')
    ensures VolumeOk(g, v') && Files(g, v') == Files(g, v)
  {
    RefusedAddKeepsVolume(g, v, v');
    RefusedKeepsEntries(g, v, v');
  }

  // ----- deleting -----

  /** The volume after file i is removed and the marks on the named blocks are cleared. */
  ghost function Removed(v: Volume, i: nat, named: set<nat>): Volume
    requires i < |v.inodeMap| && i < |v.table|
  {
    Volume(v.inodeMap[i := false], Clear(v.blockMap, named), v.table[i := ZeroInode()], v.blocks)
  }

  ghost predicate IsRemoved(g: Geometry, v: Volume, i: nat, named: set<nat>, v': Volume)
    requires Shaped(g, v) && i < g.inodeCount
  {
    v' == Removed(v, i, named)
  }

  /** Delete as intended: it frees exactly the blocks of the file. */
  ghost predicate IsDeleted(g: Geometry, v: Volume, i: nat, v': Volume)
    requires GeometryOk(g) && Shaped(g, v) && i < g.inodeCount
  {
    IsRemoved(g, v, i, Elements(Chain(g, v.blocks, v.table[i])), v')
  }

  /** A delete keeps the volume consistent. */
  lemma DeleteKeepsVolume(g: Geometry, v: Volume, i: nat, v': Volume)
    requires VolumeOk(g, v) && Used(v, i) && IsDeleted(g, v, i, v')
    ensures VolumeOk(g, v')
  {
    assert 0 !in Chain(g, v.blocks, v.table[i]);
    forall b: nat | 0 < b < g.blockCount && v'.blockMap[b] ensures exists j :: Owns(g, v', j, b) {
      var j :| Owns(g, v, j, b);
      assert j != i;
      assert Owns(g, v', j, b);
    }
    forall j: int, b: nat | Owns(g, v', j, b) ensures b < g.blockCount && v'.blockMap[b] {
      assert Owns(g, v, j, b);
      if b in Chain(g, v.blocks, v.table[i]) {
        assert Owns(g, v, i, b);
      }
    }
    forall j, k, b: nat | Owns(g, v', j, b) && Owns(g, v', k, b) ensures j == k {
      assert Owns(g, v, j, b) && Owns(g, v, k, b);
    }
  }

  lemma DeleteLeavesOneLess(g: Geometry, v: Volume, i: nat, v': Volume)
    requires VolumeOk(g, v) && Used(v, i) && IsDeleted(g, v, i, v')
    ensures OneMore(g, v', v, i)
  {
    DeleteKeepsVolume(g, v, i, v');
  }

  /** After a delete the stored files are the earlier ones without the deleted name. */
  lemma DeleteDropsFile(g: Geometry, v: Volume, i: nat, v': Volume)
    requires VolumeOk(g, v) && Used(v, i) && IsDeleted(g, v, i, v')
    ensures VolumeOk(g, v') && Files(g, v') == Files(g, v) - {KeyOfInode(v.table[i])}
  {
    DeleteLeavesOneLess(g, v, i, v');
    OneMoreFile(g, v', v, i);
  }

  /** Whatever marks are cleared with it, a removed file is gone and every other file reads as before. */
  lemma RemovalDropsFile(g: Geometry, v: Volume, i: nat, named: set<nat>)
    requires VolumeOk(g, v) && Used(v, i)
    ensures Files(g, Removed(v, i, named)) == Files(g, v) - {KeyOfInode(v.table[i])}
  {
    var v1, v2 := Removed(v, i, Elements(Chain(g, v.blocks, v.table[i]))), Removed(v, i, named);
    DeleteDropsFile(g, v, i, v1);
    assert Keys(v1) == Keys(v2);
    assert Files(g, v1) == Files(g, v2);
  }

  /** The volume is consistent afterwards exactly when the marks cleared are those of the file's chain and no others. */
  lemma RemovalConsistentExactly(g: Geometry, v: Volume, i: nat, named: set<nat>)
    requires VolumeOk(g, v) && Used(v, i) && 0 !in named
    ensures VolumeOk(g, Removed(v, i, named)) <==>
            Clear(v.blockMap, named) == Clear(v.blockMap, Elements(Chain(g, v.blocks, v.table[i])))
  {
    var c, v' := Chain(g, v.blocks, v.table[i]), Removed(v, i, named);
    var m := Clear(v.blockMap, Elements(c));
    if VolumeOk(g, v') {
      forall b | 0 <= b < |m| ensures v'.blockMap[b] == m[b] {
        OnlyChainCleared(g, v, i, named, b);
      }
      assert v'.blockMap == m;
    }
    if Clear(v.blockMap, named) == m {
      DeleteKeepsVolume(g, v, i, v');
    }
  }

  lemma OnlyChainCleared(g: Geometry, v: Volume, i: nat, named: set<nat>, b: nat)
    requires VolumeOk(g, v) && Used(v, i) && 0 !in named && b < g.blockCount
    requires VolumeOk(g, Removed(v, i, named))
    ensures Removed(v, i, named).blockMap[b] == Clear(v.blockMap, Elements(Chain(g, v.blocks, v.table[i])))[b]
  {
    var v' := Removed(v, i, named);
    if b > 0 && v.blockMap[b] {
      var j :| Owns(g, v, j, b);
      if j == i {
        if v'.blockMap[b] {
          var k :| Owns(g, v', k, b);
          assert Owns(g, v, k, b);
        }
      } else {
        assert Owns(g, v', j, b);
        if b in Chain(g, v.blocks, v.table[i]) {
          assert Owns(g, v, i, b);
        }
      }
    }
  }

  /** The free-block count rises by exactly the length of the file's chain, the free-inode count by one. */
  lemma DeleteReturnsSpace(g: Geometry, v: Volume, i: nat, v': Volume)
    requires VolumeOk(g, v) && Used(v, i) && IsDeleted(g, v, i, v')
    ensures |FreeList(v'.blockMap)| == |FreeList(v.blockMap)| + BlocksNeeded(g, v.table[i].size)
    ensures |FreeList(v'.inodeMap)| == |FreeList(v.inodeMap)| + 1
  {
    var c := Chain(g, v.blocks, v.table[i]);
    forall x | x in c ensures x < |v.blockMap| && v.blockMap[x] {
      assert Owns(g, v, i, x);
    }
    FreeMany(v.blockMap, c);
    FreeOne(v.inodeMap, i, 0);
  }

  /** Deleting a file just added restores both bitmaps and the inode table. */
  lemma DeleteUndoesAdd(g: Geometry, v: Volume, filename: seq<byte>, c: seq<byte>, v1: Volume, v2: Volume)
    requires VolumeOk(g, v) && CanAdd(g, v, filename, |c|) && |c| < 0x8000_0000 && 0 !in filename
    requires IsAdded(g, v, filename, c, v1)
    requires Lookup(v1.table, KeyOf(filename)) < g.inodeCount
    requires IsDeleted(g, v1, Lookup(v1.table, KeyOf(filename)), v2)
    ensures v2.inodeMap == v.inodeMap && v2.blockMap == v.blockMap && v2.table == v.table
  {
    ReservedInode(g, v);
    TakenBlocksAreFree(g, v, |c|);
    var i, f := FreeList(v.inodeMap)[0], TakenBlocks(g, v, |c|);
    assert Lookup(v1.table, KeyOf(filename)) == i && Chain(g, v1.blocks, v1.table[i]) == f by {
      AddKeepsVolume(g, v, filename, c, v1);
      AddedFileStands(g, v, filename, c, v1);
      KeyOfNewInode(i, filename, |c|, f, BlockCount(|c|, g.bs), g.P());
      LookupFinds(g, v1, i);
    }
    ClearUndoesMark(v.blockMap, f);
  }
}
