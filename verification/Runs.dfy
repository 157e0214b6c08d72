/** Whole runs of adds and deletes, refined by a map of files with two counters. */
module Runs {
  import opened Bytes
  import opened Bits
  import opened Layout
  import opened Inodes
  import opened Volumes
  import opened Steps
  import opened Images
  import opened Mounts

  datatype Op = Add(filename: seq<byte>, contents: seq<byte>) | Delete(filename: seq<byte>)

  predicate ValidOp(op: Op) {
    0 !in op.filename && (op.Add? ==> |op.contents| < 0x8000_0000)
  }

  // ----- the abstract machine -----

  datatype Store = Store(files: map<seq<byte>, seq<byte>>, freeBlocks: nat, freeInodes: nat)

  predicate StoreAccepts(g: Geometry, a: Store, filename: seq<byte>, size: nat)
    requires g.bs > 1
  {
    && KeyOf(filename) !in a.files
    && a.freeInodes > 0
    && SizeFits(g, size)
    && BlocksNeeded(g, size) <= a.freeBlocks
  }

  function StoreStep(g: Geometry, a: Store, op: Op): (Store, bool)
    requires g.bs > 1
  {
    var key := KeyOf(op.filename);
    match op
    case Add(filename, c) =>
      if StoreAccepts(g, a, filename, |c|)
      then (Store(a.files[key := c], a.freeBlocks - BlocksNeeded(g, |c|), a.freeInodes - 1), true)
      else (a, false)
    case Delete(filename) =>
      if key in a.files
      then (Store(a.files - {key}, a.freeBlocks + BlocksNeeded(g, |a.files[key]|), a.freeInodes + 1), true)
      else (a, false)
  }

  function StoreRun(g: Geometry, a: Store, ops: seq<Op>): (r: (Store, seq<bool>))
    requires g.bs > 1
    ensures |r.1| == |ops|
  {
    if ops == [] then (a, [])
    else
      var (b, oks) := StoreRun(g, a, ops[..|ops| - 1]);
      var (c, ok) := StoreStep(g, b, ops[|ops| - 1]);
      (c, oks + [ok])
  }

  // ----- the volume does the same -----

  ghost function StoreOf(g: Geometry, v: Volume): Store
    requires GeometryOk(g)
  {
    Store(Files(g, v), |FreeList(v.blockMap)|, |FreeList(v.inodeMap)|)
  }

  ghost predicate VolumeStep(g: Geometry, v: Volume, op: Op, v': Volume, ok: bool)
    requires GeometryOk(g) && Shaped(g, v)
  {
    match op
    case Add(filename, c) =>
      if CanAdd(g, v, filename, |c|) then ok && IsAdded(g, v, filename, c, v') else !ok && IsRefused(g, v, v')
    case Delete(filename) =>
      var i := Lookup(v.table, KeyOf(filename));
      if i < |v.table| then ok && IsDeleted(g, v, i, v') else !ok && v' == v
  }

  /** Success is decided by the stored files and the two free counts alone: fragmentation plays no part. */
  lemma SuccessCondition(g: Geometry, v: Volume, filename: seq<byte>, size: nat)
    requires VolumeOk(g, v)
    ensures CanAdd(g, v, filename, size) <==> StoreAccepts(g, StoreOf(g, v), filename, size)
  {
    FilesByLookup(g, v, KeyOf(filename));
  }

  lemma AddRefines(g: Geometry, v: Volume, filename: seq<byte>, c: seq<byte>, v': Volume, ok: bool)
    requires VolumeOk(g, v) && ValidOp(Add(filename, c))
    requires VolumeStep(g, v, Add(filename, c), v', ok)
    ensures VolumeOk(g, v') && (StoreOf(g, v'), ok) == StoreStep(g, StoreOf(g, v), Add(filename, c))
  {
    SuccessCondition(g, v, filename, |c|);
    if ok {
      AddStoresFile(g, v, filename, c, v');
      AddTakesSpace(g, v, filename, c, v');
    } else {
      RefusedAddIsAtomic(g, v, v');
    }
  }

  lemma DeleteChanges(g: Geometry, v: Volume, i: nat, v': Volume)
    requires VolumeOk(g, v) && Used(v, i) && IsDeleted(g, v, i, v')
    ensures var a := StoreOf(g, v);
            var key := KeyOfInode(v.table[i]);
            && VolumeOk(g, v')
            && key in a.files
            && StoreOf(g, v') == Store(a.files - {key}, a.freeBlocks + BlocksNeeded(g, |a.files[key]|),
                                       a.freeInodes + 1)
  {
    StoredFile(g, v, i);
    DeleteDropsFile(g, v, i, v');
    DeleteReturnsSpace(g, v, i, v');
  }

  lemma DeleteAccepted(g: Geometry, v: Volume, filename: seq<byte>)
    requires VolumeOk(g, v)
    ensures var i := Lookup(v.table, KeyOf(filename));
            && (i < |v.table| ==> Used(v, i) && KeyOfInode(v.table[i]) == KeyOf(filename))
            && (i < |v.table| <==> KeyOf(filename) in StoreOf(g, v).files)
  {
    FilesByLookup(g, v, KeyOf(filename));
  }

  lemma StoreDeletes(g: Geometry, a: Store, filename: seq<byte>)
    requires g.bs > 1 && KeyOf(filename) in a.files
    ensures var key := KeyOf(filename);
            StoreStep(g, a, Delete(filename)) ==
            (Store(a.files - {key}, a.freeBlocks + BlocksNeeded(g, |a.files[key]|), a.freeInodes + 1), true)
  {}

  lemma DeleteRefines(g: Geometry, v: Volume, filename: seq<byte>, v': Volume, ok: bool)
    requires VolumeOk(g, v) && VolumeStep(g, v, Delete(filename), v', ok)
    ensures VolumeOk(g, v') && (StoreOf(g, v'), ok) == StoreStep(g, StoreOf(g, v), Delete(filename))
  {
    DeleteAccepted(g, v, filename);
    if ok {
      var i := Lookup(v.table, KeyOf(filename));
      var a, b := StoreOf(g, v), StoreOf(g, v');
      StoreDeletes(g, a, filename);
      DeleteChanges(g, v, i, v');
      assert b == StoreStep(g, a, Delete(filename)).0;
    }
  }

  // ----- the volume fs_create leaves -----

  ghost predicate IsFresh(g: Geometry, v: Volume) {
    && Shaped(g, v) && 0 < g.inodeCount && 0 < g.blockCount
    && (forall i :: 0 <= i < g.inodeCount ==> v.inodeMap[i] == (i == 0) && v.table[i] == ZeroInode())
    && (forall b :: 0 <= b < g.blockCount ==> v.blockMap[b] == (b == 0))
  }

  lemma {:induction false} AllFreeFrom(b: seq<bool>, i: nat)
    requires i <= |b| && forall j :: i <= j < |b| ==> !b[j]
    ensures |FreeFrom(b, i)| == |b| - i
    decreases |b| - i
  {
    if i < |b| {
      AllFreeFrom(b, i + 1);
    }
  }

  /** No files; inode 0 and block 0 are reserved. */
  function EmptyStore(g: Geometry): Store
    requires g.blockCount > 0 && g.inodeCount > 0
  {
    Store(map[], g.blockCount - 1, g.inodeCount - 1)
  }

  lemma FreshVolume(g: Geometry, v: Volume)
    requires GeometryOk(g) && IsFresh(g, v)
    ensures VolumeOk(g, v)
    ensures StoreOf(g, v) == EmptyStore(g)
  {
    AllFreeFrom(v.blockMap, 1);
    AllFreeFrom(v.inodeMap, 1);
    assert Keys(v) == {};
  }

  // ----- accounting -----

  /** Blocks that the stored files take, pointer blocks included. */
  ghost function SpaceOf(g: Geometry, files: map<seq<byte>, seq<byte>>): nat
    requires g.bs > 1
    decreases |files|
  {
    if files == map[] then 0
    else
      var k :| k in files;
      BlocksNeeded(g, |files[k]|) + SpaceOf(g, files - {k})
  }

  lemma {:induction false} SpaceWithout(g: Geometry, files: map<seq<byte>, seq<byte>>, k: seq<byte>)
    requires g.bs > 1 && k in files
    ensures SpaceOf(g, files) == BlocksNeeded(g, |files[k]|) + SpaceOf(g, files - {k})
    decreases |files|
  {
    var j :| j in files && SpaceOf(g, files) == BlocksNeeded(g, |files[j]|) + SpaceOf(g, files - {j});
    if j != k {
      SpaceWithout(g, files - {j}, k);
      SpaceWithout(g, files - {k}, j);
      assert files - {j} - {k} == files - {k} - {j};
    }
  }

  /** Every block but block 0 is free or taken by a stored file, every inode but inode 0 free or naming one. */
  ghost predicate Balanced(g: Geometry, a: Store)
    requires g.bs > 1
  {
    a.freeBlocks + SpaceOf(g, a.files) + 1 == g.blockCount && a.freeInodes + |a.files| + 1 == g.inodeCount
  }

  lemma StepKeepsBalance(g: Geometry, a: Store, op: Op)
    requires g.bs > 1 && Balanced(g, a)
    ensures Balanced(g, StoreStep(g, a, op).0)
  {
    var key := KeyOf(op.filename);
    var b := StoreStep(g, a, op).0;
    if StoreStep(g, a, op).1 {
      if op.Add? {
        SpaceWithout(g, b.files, key);
        assert b.files - {key} == a.files;
      } else {
        SpaceWithout(g, a.files, key);
      }
    }
  }

  lemma {:induction false} RunKeepsBalance(g: Geometry, a: Store, ops: seq<Op>)
    requires g.bs > 1 && Balanced(g, a)
    ensures Balanced(g, StoreRun(g, a, ops).0)
  {
    if ops != [] {
      RunKeepsBalance(g, a, ops[..|ops| - 1]);
      StepKeepsBalance(g, StoreRun(g, a, ops[..|ops| - 1]).0, ops[|ops| - 1]);
    }
  }

  lemma RunFromEmpty(g: Geometry, a: Store, ops: seq<Op>, oks: seq<bool>, b: Store)
    requires g.bs > 1 && g.blockCount > 0 && g.inodeCount > 0 && a == EmptyStore(g) && (b, oks) == StoreRun(g, a, ops)
    ensures (b, oks) == StoreRun(g, EmptyStore(g), ops) && Balanced(g, b)
  {
    RunKeepsBalance(g, a, ops);
  }

  // ----- images -----

  /** The store that a consistent image amounts to. */
  ghost function StoreIn(d: seq<byte>): Store
    requires Mounted(HeaderOf(d), d)
  {
    StoreOf(GeometryOf(HeaderOf(d)), ViewOf(HeaderOf(d), d))
  }

  /** One run of a tool on the image d, seen on the volume: the superblock stays, the volume makes the step. */
  ghost predicate ToolStep(d: seq<byte>, op: Op, d': seq<byte>, ok: bool)
    requires Mounted(HeaderOf(d), d)
  {
    var sb := HeaderOf(d);
    && HeaderBytes(d') == HeaderBytes(d)
    && Laid(sb, d')
    && VolumeStep(GeometryOf(sb), ViewOf(sb, d), op, ViewOf(sb, d'), ok)
  }

  /** Such a run keeps the image consistent and does what the abstract store does. */
  lemma ToolStepRefines(sb: Superblock, d: seq<byte>, op: Op, d': seq<byte>, ok: bool)
    requires Mounted(sb, d) && ValidOp(op) && ToolStep(d, op, d', ok)
    ensures Mounted(sb, d')
    ensures (StoreIn(d'), ok) == StoreStep(GeometryOf(sb), StoreIn(d), op)
  {
    match op
    case Add(filename, c) => AddRefines(GeometryOf(sb), ViewOf(sb, d), filename, c, ViewOf(sb, d'), ok);
    case Delete(filename) => DeleteRefines(GeometryOf(sb), ViewOf(sb, d), filename, ViewOf(sb, d'), ok);
  }

  /** Images ds[0], ds[1], ... such that ds[k + 1] is what running ops[k] on ds[k] leaves. */
  ghost predicate IsToolRun(ds: seq<seq<byte>>, ops: seq<Op>, oks: seq<bool>) {
    && |ds| == |ops| + 1 && |oks| == |ops|
    && (forall k :: 0 <= k < |ops| ==> ValidOp(ops[k]))
    && (forall k :: 0 <= k < |ops| && Mounted(HeaderOf(ds[k]), ds[k]) ==> ToolStep(ds[k], ops[k], ds[k + 1], oks[k]))
  }

  lemma ToolRunPrefix(ds: seq<seq<byte>>, ops: seq<Op>, oks: seq<bool>, n: nat)
    requires IsToolRun(ds, ops, oks) && n <= |ops|
    ensures IsToolRun(ds[..n + 1], ops[..n], oks[..n])
  {}

  /** Every image that any run of the tools reaches from a consistent one is consistent, and holds what the abstract
      store holds. */
  lemma {:induction false} ToolRunRefines(sb: Superblock, ds: seq<seq<byte>>, ops: seq<Op>, oks: seq<bool>)
    requires IsToolRun(ds, ops, oks) && Mounted(sb, ds[0])
    ensures Mounted(sb, ds[|ops|])
    ensures GeometryOk(GeometryOf(sb)) && (StoreIn(ds[|ops|]), oks) == StoreRun(GeometryOf(sb), StoreIn(ds[0]), ops)
    decreases |ops|
  {
    if ops == [] {
      assert oks == [];
    } else {
      var n := |ops| - 1;
      ToolRunPrefix(ds, ops, oks, n);
      ToolRunRefines(sb, ds[..n + 1], ops[..n], oks[..n]);
      ToolStepRefines(sb, ds[n], ops[n], ds[n + 1], oks[n]);
      StoreRunOn(GeometryOf(sb), StoreIn(ds[0]), ops, oks, StoreIn(ds[n]), StoreIn(ds[n + 1]));
    }
  }

  lemma StoreRunOn(g: Geometry, a: Store, ops: seq<Op>, oks: seq<bool>, b: Store, c: Store)
    requires g.bs > 1 && 0 < |ops| == |oks|
    requires (b, oks[..|ops| - 1]) == StoreRun(g, a, ops[..|ops| - 1])
    requires (c, oks[|ops| - 1]) == StoreStep(g, b, ops[|ops| - 1])
    ensures (c, oks) == StoreRun(g, a, ops)
  {
    assert oks == oks[..|ops| - 1] + [oks[|ops| - 1]];
  }
}
