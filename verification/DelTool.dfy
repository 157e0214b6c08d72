/** Deleting a file from an image: tools/fs_del.c, as written and with the pointer blocks read where fs_add put them. */
module DelTool {
  import opened Bytes
  import opened Bits
  import opened Arith
  import opened Disk
  import opened Bitmaps
  import opened Layout
  import opened Inodes
  import opened Volumes
  import opened Steps
  import opened Runs
  import opened Freeing
  import opened Images
  import opened Mounts
  import opened Reading
  import opened AddTool

  /** What reading "block base + b" gives: base 0 is what fs_del does, base datablocks_start is where fs_add writes. */
  function ReaderOf(d: seq<byte>, bs: nat, base: nat): nat -> seq<byte> {
    (b: nat) => ImageBlock(d, bs, base + b)
  }

  /** The blocks whose bits deleting inode n clears. */
  ghost function NamedOnDisk(sb: Superblock, d: seq<byte>, base: nat, n: Inode): set<nat> {
    Named(ReaderOf(d, sb.blockSize, base), n, GeometryOf(sb).P())
  }

  /** Clears the bit of a block if its number is not zero and the bit is set. */
  method ClearBit(bitmap: Bitmap, idx: nat, ghost m: seq<bool>, ghost cleared: set<nat>)
    requires bitmap.Valid() && (idx > 0 ==> idx < 8 * bitmap.bits.Length)
    requires bitmap.Bits() == Clear(m, cleared)
    modifies bitmap.bits
    ensures bitmap.Bits() == Clear(m, cleared + (if idx > 0 then {idx} else {}))
  {
    assert cleared + {} == cleared;
    if idx > 0 {
      ClearOne(m, cleared, idx);
      var used := bitmap.Get(idx);
      if used {
        bitmap.Set(idx, false);
      }
    }
  }

  /** Clears the direct pointers' blocks. */
  method FreeDirect(n: Inode, bitmap: Bitmap)
    requires WellFormedInode(n) && bitmap.Valid()
    requires forall j :: 0 <= j < DIRECT ==> n.direct[j] < bitmap.count
    modifies bitmap.bits
    ensures bitmap.Bits() == Clear(old(bitmap.Bits()), NamedBy(n.direct, |n.direct|))
  {
    ghost var m := bitmap.Bits();
    assert Clear(m, {}) == m;
    var i := 0;
    while i < DIRECT
      invariant 0 <= i <= DIRECT
      invariant bitmap.Bits() == Clear(m, NamedBy(n.direct, i))
    {
      ClearBit(bitmap, n.direct[i], m, NamedBy(n.direct, i));
      i := i + 1;
    }
  }

  /** Clears the blocks that one pointer block names; a pointer outside the bitmap's memory is a fault. */
  method FreeLeaves(contents: seq<byte>, p: nat, bitmap: Bitmap, ghost m: seq<bool>, ghost cleared: set<nat>)
    returns (ok: bool)
    requires bitmap.Valid() && bitmap.Bits() == Clear(m, cleared) && 2 * p <= |contents|
    modifies bitmap.bits
    ensures ok <==> forall x :: x in NamedIn(contents, p) ==> x < 8 * bitmap.bits.Length
    ensures ok ==> bitmap.Bits() == Clear(m, cleared + NamedIn(contents, p))
  {
    assert cleared + NamedIn(contents, 0) == cleared;
    var j := 0;
    while j < p
      invariant 0 <= j <= p
      invariant bitmap.Bits() == Clear(m, cleared + NamedIn(contents, j))
      invariant forall x :: x in NamedIn(contents, j) ==> x < 8 * bitmap.bits.Length
    {
      var idx := PointerAt(contents, j);
      assert idx == PointerOr0(contents, j);
      if idx > 0 && idx >= 8 * bitmap.bits.Length {
        InNamedIn(contents, p, idx);
        return false;
      }
      ClearBit(bitmap, idx, m, cleared + NamedIn(contents, j));
      assert cleared + NamedIn(contents, j + 1) ==
             cleared + NamedIn(contents, j) + (if idx > 0 then {idx} else {});
      j := j + 1;
    }
    return true;
  }

  /** Reads block base + b of the image. */
  method ReadImageBlock(base: nat, b: nat, sb: Superblock, fs: File) returns (contents: seq<byte>)
    requires 0 < sb.blockSize && 0 < base + b
    requires |ImageBlock(fs.data, sb.blockSize, base + b)| == sb.blockSize
    modifies fs`pos
    ensures contents == ReaderOf(fs.data, sb.blockSize, base)(b)
  {
    var buf := new byte[sb.blockSize](_ => 0);
    BlockRead(sb.blockSize, base + b, buf, fs);
    contents := buf[..];
    assert contents == buf[..sb.blockSize];
  }

  /** The pointer blocks of a file can be read at base + their number. */
  ghost predicate Readable(sb: Superblock, d: seq<byte>, base: nat, n: Inode)
    requires WellFormedInode(n)
  {
    forall q :: 0 <= q < INDIRECT && n.indirect[q] > 0 ==>
      |ImageBlock(d, sb.blockSize, base + n.indirect[q])| == sb.blockSize
  }

  /** Clears one pointer block and what it names. */
  method FreeGroup(b: nat, base: nat, bitmap: Bitmap, sb: Superblock, fs: File, ghost m: seq<bool>,
                   ghost before: set<nat>)
    returns (ok: bool)
    requires bitmap.Valid() && GeometryOk(GeometryOf(sb)) && 0 < b < bitmap.count
    requires |ImageBlock(fs.data, sb.blockSize, base + b)| == sb.blockSize
    requires bitmap.Bits() == Clear(m, before)
    modifies bitmap.bits, fs`pos
    ensures var named := NamedIn(ReaderOf(fs.data, sb.blockSize, base)(b), GeometryOf(sb).P());
            && (ok <==> forall x :: x in named ==> x < 8 * bitmap.bits.Length)
            && (ok ==> bitmap.Bits() == Clear(m, before + {b} + named))
  {
    QuotRemAreDivision(sb.blockSize, 2);
    ClearBit(bitmap, b, m, before);
    var contents := ReadImageBlock(base, b, sb, fs);
    ok := FreeLeaves(contents, sb.blockSize / 2, bitmap, m, before + {b});
  }

  /** What q passes over the indirect pointers leave: everything named so far is cleared and lies in the bitmap's
      memory. */
  ghost predicate ClearedThrough(bits: seq<bool>, limit: nat, m: seq<bool>, cleared: set<nat>,
                                 read: nat -> seq<byte>, ps: seq<nat>, q: nat, p: nat)
    requires q <= |ps|
  {
    && bits == Clear(m, cleared + NamedThrough(read, ps, q, p))
    && forall x :: x in NamedThrough(read, ps, q, p) ==> x < limit
  }

  /** Some of the first q pointers leads out of the bitmap's memory. */
  ghost predicate StraysFrom(limit: nat, read: nat -> seq<byte>, ps: seq<nat>, q: nat, p: nat)
    requires q <= |ps|
  {
    exists x :: x in NamedThrough(read, ps, q, p) && x >= limit
  }

  /** One pass of the loop over the indirect pointers. */
  method FreePass(i: nat, n: Inode, base: nat, bitmap: Bitmap, sb: Superblock, fs: File, ghost m: seq<bool>,
                  ghost cleared: set<nat>)
    returns (ok: bool)
    requires WellFormedInode(n) && bitmap.Valid() && GeometryOk(GeometryOf(sb)) && i < INDIRECT
    requires n.indirect[i] < bitmap.count && Readable(sb, fs.data, base, n)
    requires ClearedThrough(bitmap.Bits(), 8 * bitmap.bits.Length, m, cleared,
                            ReaderOf(fs.data, sb.blockSize, base), n.indirect, i, GeometryOf(sb).P())
    modifies bitmap.bits, fs`pos
    ensures ok ==> ClearedThrough(bitmap.Bits(), 8 * bitmap.bits.Length, m, cleared,
                                  ReaderOf(fs.data, sb.blockSize, base), n.indirect, i + 1, GeometryOf(sb).P())
    ensures !ok ==> StraysFrom(8 * bitmap.bits.Length,
                               ReaderOf(fs.data, sb.blockSize, base), n.indirect, i + 1, GeometryOf(sb).P())
  {
    ghost var read, p := ReaderOf(fs.data, sb.blockSize, base), GeometryOf(sb).P();
    ghost var through := NamedThrough(read, n.indirect, i, p);
    var b := n.indirect[i];
    if b > 0 {
      ok := FreeGroup(b, base, bitmap, sb, fs, m, cleared + through);
      ThroughStep(read, n.indirect, i, p);
      assert cleared + through + {b} + NamedIn(read(b), p) == cleared + (through + {b} + NamedIn(read(b), p));
    } else {
      ok := true;
    }
  }

  /** Clears the pointer blocks and what they name. */
  method FreeIndirect(n: Inode, base: nat, bitmap: Bitmap, sb: Superblock, fs: File, ghost m: seq<bool>,
                      ghost cleared: set<nat>)
    returns (ok: bool)
    requires WellFormedInode(n) && bitmap.Valid() && GeometryOk(GeometryOf(sb))
    requires forall q :: 0 <= q < INDIRECT ==> n.indirect[q] < bitmap.count
    requires Readable(sb, fs.data, base, n)
    requires bitmap.Bits() == Clear(m, cleared)
    modifies bitmap.bits, fs`pos
    ensures ok ==> ClearedThrough(bitmap.Bits(), 8 * bitmap.bits.Length, m, cleared,
                                  ReaderOf(fs.data, sb.blockSize, base), n.indirect, |n.indirect|, GeometryOf(sb).P())
    ensures !ok ==> StraysFrom(8 * bitmap.bits.Length,
                               ReaderOf(fs.data, sb.blockSize, base), n.indirect, |n.indirect|, GeometryOf(sb).P())
  {
    ghost var read, p := ReaderOf(fs.data, sb.blockSize, base), GeometryOf(sb).P();
    assert cleared + NamedThrough(read, n.indirect, 0, p) == cleared;
    var i := 0;
    while i < INDIRECT
      invariant 0 <= i <= INDIRECT
      invariant ClearedThrough(bitmap.Bits(), 8 * bitmap.bits.Length, m, cleared, read, n.indirect, i, p)
    {
      ok := FreePass(i, n, base, bitmap, sb, fs, m, cleared);
      i := i + 1;
      if !ok {
        StraysLater(8 * bitmap.bits.Length, read, n.indirect, i, |n.indirect|, p);
        return;
      }
    }
    ok := true;
  }

  lemma StraysLater(limit: nat, read: nat -> seq<byte>, ps: seq<nat>, i: nat, j: nat, p: nat)
    requires i <= j <= |ps| && StraysFrom(limit, read, ps, i, p)
    ensures StraysFrom(limit, read, ps, j, p)
  {
    ThroughMonotonic(read, ps, i, j, p);
  }

  lemma ThroughStep(read: nat -> seq<byte>, ps: seq<nat>, i: nat, p: nat)
    requires i < |ps| && ps[i] > 0
    ensures NamedThrough(read, ps, i + 1, p) == NamedThrough(read, ps, i, p) + {ps[i]} + NamedIn(read(ps[i]), p)
  {}

  lemma {:induction false} ThroughMonotonic(read: nat -> seq<byte>, ps: seq<nat>, i: nat, j: nat, p: nat)
    requires i <= j <= |ps|
    ensures NamedThrough(read, ps, i, p) <= NamedThrough(read, ps, j, p)
    decreases j
  {
    if i < j {
      ThroughMonotonic(read, ps, i, j - 1, p);
    }
  }

  /** Every block number below the data block count can be read from the image, at the data blocks and at its start. */
  lemma BlocksReadable(sb: Superblock, d: seq<byte>, b: nat)
    requires Laid(sb, d) && 0 < b < sb.datablockCount
    ensures ImageBlock(d, sb.blockSize, sb.datablocksStart + b) == DataOf(sb, d)[b]
    ensures |ImageBlock(d, sb.blockSize, sb.datablocksStart + b)| == sb.blockSize
    ensures |ImageBlock(d, sb.blockSize, b)| == sb.blockSize
  {
    RawBlock(sb, d, b);
    TimesMonotonic(b, sb.datablockCount, sb.blockSize);
  }

  /** Either way of reading finds the pointer blocks of a stored file inside the image. */
  lemma FileReadable(sb: Superblock, d: seq<byte>, base: nat, n: Inode)
    requires Laid(sb, d) && FileOk(GeometryOf(sb), DataOf(sb, d), n) && (base == 0 || base == sb.datablocksStart)
    ensures Readable(sb, d, base, n)
  {
    PointersInRange(GeometryOf(sb), DataOf(sb, d), n);
    forall q | 0 <= q < INDIRECT && n.indirect[q] > 0
      ensures |ImageBlock(d, sb.blockSize, base + n.indirect[q])| == sb.blockSize
    {
      BlocksReadable(sb, d, n.indirect[q]);
    }
  }

  lemma ReadsBlock(sb: Superblock, d: seq<byte>, b: nat)
    requires Laid(sb, d) && 0 < b < |DataOf(sb, d)|
    ensures ReaderOf(d, sb.blockSize, sb.datablocksStart)(b) == DataOf(sb, d)[b]
  {
    BlocksReadable(sb, d, b);
  }

  /** Reading at the data blocks finds the pointer blocks themselves. */
  lemma ReadsAtDatablocks(sb: Superblock, d: seq<byte>, n: Inode)
    requires Laid(sb, d) && WellFormedInode(n)
    ensures ReadsPointerBlocks(GeometryOf(sb), DataOf(sb, d), n, ReaderOf(d, sb.blockSize, sb.datablocksStart))
  {
    var read := ReaderOf(d, sb.blockSize, sb.datablocksStart);
    forall q | 0 <= q < |n.indirect| && 0 < n.indirect[q] < |DataOf(sb, d)|
      ensures read(n.indirect[q]) == DataOf(sb, d)[n.indirect[q]]
    {
      ReadsBlock(sb, d, n.indirect[q]);
    }
  }

  datatype DeleteReply = Deleted | NoSuchFile | Faulted | NotAnImage

  /** Some pointer that delete follows lies outside the memory of the block bitmap. */
  ghost predicate PointsOutside(sb: Superblock, d: seq<byte>, base: nat, n: Inode) {
    exists x :: x in NamedOnDisk(sb, d, base, n) && x >= 8 * BytesFor(sb.datablockCount)
  }

  lemma {:induction false} DirectInRange(ps: seq<nat>, j: nat, limit: nat)
    requires j <= |ps| && forall i :: 0 <= i < |ps| ==> ps[i] < limit
    ensures forall x :: x in NamedBy(ps, j) ==> x < limit
  {
    if j > 0 {
      DirectInRange(ps, j - 1, limit);
    }
  }

  /** Clears the bits of everything inode n names. */
  method FreeBlocks(n: Inode, base: nat, bitmap: Bitmap, sb: Superblock, fs: File) returns (ok: bool)
    requires WellFormedInode(n) && GeometryOk(GeometryOf(sb)) && Readable(sb, fs.data, base, n)
    requires forall j :: 0 <= j < DIRECT ==> n.direct[j] < sb.datablockCount
    requires forall q :: 0 <= q < INDIRECT ==> n.indirect[q] < sb.datablockCount
    requires bitmap.Valid() && bitmap.count == sb.datablockCount
    modifies bitmap.bits, fs`pos
    ensures ok <==> !PointsOutside(sb, fs.data, base, n)
    ensures ok ==> bitmap.Bits() == Clear(old(bitmap.Bits()), NamedOnDisk(sb, fs.data, base, n))
  {
    ghost var m := bitmap.Bits();
    FreeDirect(n, bitmap);
    ok := FreeIndirect(n, base, bitmap, sb, fs, m, NamedBy(n.direct, |n.direct|));
    DirectInRange(n.direct, |n.direct|, sb.datablockCount);
    ghost var through := NamedThrough(ReaderOf(fs.data, sb.blockSize, base), n.indirect, |n.indirect|,
                                      GeometryOf(sb).P());
    assert NamedOnDisk(sb, fs.data, base, n) == NamedBy(n.direct, |n.direct|) + through;
    assert 8 * bitmap.bits.Length == 8 * BytesFor(sb.datablockCount) >= sb.datablockCount;
  }

  lemma ZeroInodeFits()
    ensures WellFormedInode(ZeroInode())
  {}

  /** fs_del from the found inode on: bits, inode contents, commit. */
  method RemoveFile(i: nat, base: nat, inodeBitmap: Bitmap, blockBitmap: Bitmap, itab: InodeTable,
                    sb: Superblock, fs: File, ghost v: Volume)
    returns (ok: bool)
    requires Laid(sb, fs.data) && v == ViewOf(sb, fs.data) && i < sb.inodeCount
    requires FileOk(GeometryOf(sb), DataOf(sb, fs.data), v.table[i]) && v.table[i].number == i
    requires base == 0 || base == sb.datablocksStart
    requires inodeBitmap.Valid() && inodeBitmap.count == sb.inodeCount && inodeBitmap.Bits() == v.inodeMap
    requires blockBitmap.Valid() && blockBitmap.count == sb.datablockCount && blockBitmap.Bits() == v.blockMap
    requires inodeBitmap.bits != blockBitmap.bits
    requires itab.inodes[..] == v.table
    modifies inodeBitmap.bits, blockBitmap.bits, itab.inodes, fs
    ensures Laid(sb, fs.data) && HeaderBytes(fs.data) == HeaderBytes(old(fs.data))
    ensures ok <==> !PointsOutside(sb, old(fs.data), base, v.table[i])
    ensures ok ==> IsRemoved(GeometryOf(sb), v, i, NamedOnDisk(sb, old(fs.data), base, v.table[i]), ViewOf(sb, fs.data))
    ensures !ok ==> fs.data == old(fs.data)
  {
    var n := itab.inodes[i];
    assert n == v.table[i];
    PointersInRange(GeometryOf(sb), DataOf(sb, fs.data), n);
    FileReadable(sb, fs.data, base, n);
    inodeBitmap.Set(n.number, false);
    ok := FreeBlocks(n, base, blockBitmap, sb, fs);
    if !ok {
      return;
    }
    itab.inodes[i] := ZeroInode();
    assert itab.inodes[..] == v.table[i := ZeroInode()];
    ZeroInodeFits();
    TableStaysWellFormed(v.table, i, ZeroInode());
    CommitVolume(inodeBitmap, blockBitmap, itab, sb, fs);
  }

  lemma LookupUsable(sb: Superblock, d: seq<byte>, key: seq<byte>)
    requires Laid(sb, d) && VolumeOk(GeometryOf(sb), ViewOf(sb, d))
    ensures var v := ViewOf(sb, d);
            var i := Lookup(v.table, key);
            && |v.table| == sb.inodeCount
            && WellFormedTable(v.table)
            && (i < |v.table| ==> v.table[i].number == i && FileOk(GeometryOf(sb), DataOf(sb, d), v.table[i]))
  {
    LookupUsed(GeometryOf(sb), ViewOf(sb, d), key);
  }

  /** fs_del once the superblock is read, with pointer blocks read at base plus their number. */
  method DeleteFromVolume(filename: seq<byte>, base: nat, sb: Superblock, fs: File) returns (r: DeleteReply)
    requires Laid(sb, fs.data) && VolumeOk(GeometryOf(sb), ViewOf(sb, fs.data))
    requires 0 !in filename && (base == 0 || base == sb.datablocksStart)
    modifies fs
    ensures Laid(sb, fs.data) && HeaderBytes(fs.data) == HeaderBytes(old(fs.data)) && r != NotAnImage
    ensures var v := ViewOf(sb, old(fs.data));
            var i := Lookup(v.table, KeyOf(filename));
            && (r == NoSuchFile <==> i == |v.table|)
            && (r == Faulted <==> i < |v.table| && PointsOutside(sb, old(fs.data), base, v.table[i]))
            && (r == Deleted ==>
                  IsRemoved(GeometryOf(sb), v, i, NamedOnDisk(sb, old(fs.data), base, v.table[i]), ViewOf(sb, fs.data)))
    ensures r != Deleted ==> fs.data == old(fs.data)
  {
    ghost var v := ViewOf(sb, fs.data);
    var inodeBitmap, blockBitmap, itab := Load(sb, fs);
    LookupUsable(sb, fs.data, KeyOf(filename));
    var i := FsGetFileInode(filename, itab);
    if i < 0 {
      return NoSuchFile;
    }
    var ok := RemoveFile(i, base, inodeBitmap, blockBitmap, itab, sb, fs, v);
    return if ok then Deleted else Faulted;
  }

  /** With the pointer blocks read at the data blocks, or with none to read, delete frees exactly the file's chain. */
  lemma FreesTheChain(sb: Superblock, d: seq<byte>, base: nat, n: Inode)
    requires Laid(sb, d) && FileOk(GeometryOf(sb), DataOf(sb, d), n)
    requires base == sb.datablocksStart || n.size <= 4 * sb.blockSize
    ensures NamedOnDisk(sb, d, base, n) == Elements(Chain(GeometryOf(sb), DataOf(sb, d), n))
    ensures !PointsOutside(sb, d, base, n)
  {
    var read := ReaderOf(d, sb.blockSize, base);
    if base == sb.datablocksStart {
      ReadsAtDatablocks(sb, d, n);
    } else {
      SmallFileReadsNothing(GeometryOf(sb), DataOf(sb, d), n, read);
    }
    NamedIsChain(GeometryOf(sb), DataOf(sb, d), n, read);
  }

  lemma FilesAfterDelete(g: Geometry, a: Store, filename: seq<byte>)
    requires g.bs > 1 && KeyOf(filename) in a.files
    ensures StoreStep(g, a, Delete(filename)).0.files == a.files - {KeyOf(filename)}
  {}

  /** What freeing a file's chain means for the stored files. */
  lemma DeleteOutcome(sb: Superblock, d: seq<byte>, d': seq<byte>, filename: seq<byte>)
    requires Mounted(sb, d) && 0 !in filename && KeyOf(filename) in FilesIn(d)
    requires ToolStep(d, Delete(filename), d', true)
    ensures Mounted(sb, d')
    ensures (StoreIn(d'), true) == StoreStep(GeometryOf(sb), StoreIn(d), Delete(filename))
    ensures FilesIn(d') == FilesIn(d) - {KeyOf(filename)}
  {
    ToolStepRefines(sb, d, Delete(filename), d', true);
    FilesAfterDelete(GeometryOf(sb), StoreIn(d), filename);
  }

  /** The image after a delete that frees what it should. */
  ghost predicate DeletedFrom(d: seq<byte>, d': seq<byte>, filename: seq<byte>)
    requires Mounted(HeaderOf(d), d) && KeyOf(filename) in FilesIn(d)
  {
    && ToolStep(d, Delete(filename), d', true)
    && HeaderOf(d') == HeaderOf(d) && Mounted(HeaderOf(d'), d')
    && (StoreIn(d'), true) == StoreStep(GeometryOf(HeaderOf(d)), StoreIn(d), Delete(filename))
    && FilesIn(d') == FilesIn(d) - {KeyOf(filename)}
  }

  /** From the exact effect of DeleteFromVolume to what the user sees. */
  lemma RightDelete(sb: Superblock, d: seq<byte>, d': seq<byte>, filename: seq<byte>, base: nat, r: DeleteReply)
    requires Mounted(sb, d) && Laid(sb, d') && HeaderBytes(d') == HeaderBytes(d)
    requires 0 !in filename && KeyOf(filename) in FilesIn(d)
    requires base == sb.datablocksStart || |FilesIn(d)[KeyOf(filename)]| <= 4 * sb.blockSize
    requires var v := ViewOf(sb, d);
             var i := Lookup(v.table, KeyOf(filename));
             && (r == NoSuchFile <==> i == |v.table|)
             && (r == Faulted <==> i < |v.table| && PointsOutside(sb, d, base, v.table[i]))
             && (r == Deleted ==> IsRemoved(GeometryOf(sb), v, i, NamedOnDisk(sb, d, base, v.table[i]), ViewOf(sb, d')))
    requires r != NotAnImage
    ensures r == Deleted && DeletedFrom(d, d', filename)
  {
    LookupInImage(sb, d, filename);
    var v := ViewOf(sb, d);
    var i := Lookup(v.table, KeyOf(filename));
    FreesTheChain(sb, d, base, v.table[i]);
    assert ToolStep(d, Delete(filename), d', true);
    DeleteOutcome(sb, d, d', filename);
  }

  /** Removing an added file with the blocks that delete names: whatever the size of the file when pointer blocks are
      read at the data blocks, and for up to four blocks as written, it takes the add back. */
  lemma RemovalUndoesAdd(sb: Superblock, d: seq<byte>, filename: seq<byte>, c: seq<byte>, d1: seq<byte>, base: nat)
    requires Mounted(sb, d) && ValidOp(Add(filename, c)) && ToolStep(d, Add(filename, c), d1, true)
    requires base == sb.datablocksStart || |c| <= 4 * sb.blockSize
    ensures var v, v1 := ViewOf(sb, d), ViewOf(sb, d1);
            var i := Lookup(v1.table, KeyOf(filename));
            && i < |v1.table|
            && !PointsOutside(sb, d1, base, v1.table[i])
            && var v2 := Removed(v1, i, NamedOnDisk(sb, d1, base, v1.table[i]));
               v2.inodeMap == v.inodeMap && v2.blockMap == v.blockMap && v2.table == v.table
  {
    var g, v, v1 := GeometryOf(sb), ViewOf(sb, d), ViewOf(sb, d1);
    AddOutcome(sb, d, d1, filename, c, true);
    LookupInImage(sb, d1, filename);
    var i := Lookup(v1.table, KeyOf(filename));
    assert v1.table[i].size == |c|;
    FreesTheChain(sb, d1, base, v1.table[i]);
    DeleteUndoesAdd(g, v, filename, c, v1, Removed(v1, i, NamedOnDisk(sb, d1, base, v1.table[i])));
  }

  /** Delete undoes add on the image. */
  lemma DeleteUndoesAddOnDisk(sb: Superblock, d: seq<byte>, filename: seq<byte>, c: seq<byte>, d1: seq<byte>,
                              base: nat, d2: seq<byte>)
    requires Mounted(sb, d) && ValidOp(Add(filename, c)) && ToolStep(d, Add(filename, c), d1, true)
    requires Laid(sb, d2)
    requires base == sb.datablocksStart || |c| <= 4 * sb.blockSize
    requires var v1 := ViewOf(sb, d1);
             var i := Lookup(v1.table, KeyOf(filename));
             i < |v1.table| ==> IsRemoved(GeometryOf(sb), v1, i, NamedOnDisk(sb, d1, base, v1.table[i]), ViewOf(sb, d2))
    ensures var v, v1, v2 := ViewOf(sb, d), ViewOf(sb, d1), ViewOf(sb, d2);
            && Lookup(v1.table, KeyOf(filename)) < |v1.table|
            && v2.inodeMap == v.inodeMap && v2.blockMap == v.blockMap && v2.table == v.table
  {
    RemovalUndoesAdd(sb, d, filename, c, d1, base);
  }

  /** The inode stored under a name. */
  ghost function InodeUnder(d: seq<byte>, filename: seq<byte>): Inode
    requires Mounted(HeaderOf(d), d) && KeyOf(filename) in FilesIn(d)
  {
    LookupInImage(HeaderOf(d), d, filename);
    ViewOf(HeaderOf(d), d).table[Lookup(ViewOf(HeaderOf(d), d).table, KeyOf(filename))]
  }

  /** Whatever bits are cleared with it, the file is gone and the other files read as before. */
  lemma DeleteDropsName(sb: Superblock, d: seq<byte>, d': seq<byte>, filename: seq<byte>, named: set<nat>)
    requires Mounted(sb, d) && Laid(sb, d')
    requires var v := ViewOf(sb, d);
             var i := Lookup(v.table, KeyOf(filename));
             i < |v.table| && IsRemoved(GeometryOf(sb), v, i, named, ViewOf(sb, d'))
    ensures FilesOf(sb, d') == FilesOf(sb, d) - {KeyOf(filename)}
  {
    var v := ViewOf(sb, d);
    LookupUsed(GeometryOf(sb), v, KeyOf(filename));
    RemovalDropsFile(GeometryOf(sb), v, Lookup(v.table, KeyOf(filename)), named);
  }

  // ----- the blocks freed, read off the bytes -----

  /** x is the j-th 16-bit number in block b, counted from the start of the image. */
  ghost predicate NumberAt(d: seq<byte>, bs: nat, b: nat, j: nat, x: nat) {
    && 2 * j + 2 <= bs && bs * b + 2 * j + 2 <= |d|
    && x == d[bs * b + 2 * j] as int + 256 * d[bs * b + 2 * j + 1] as int
  }

  /** The blocks whose bits fs_del clears: those that the inode names, and those named in the blocks that its indirect
      pointers give when they are counted from the start of the image. */
  ghost predicate Cleared(d: seq<byte>, bs: nat, n: Inode, x: nat) {
    && x > 0
    && (|| x in n.direct
        || x in n.indirect
        || exists q: nat, j: nat :: q < |n.indirect| && n.indirect[q] > 0 && NumberAt(d, bs, n.indirect[q], j, x))
  }

  /** A whole block that lies inside the image, number by number. */
  lemma NumberInBlock(d: seq<byte>, bs: nat, p: nat, b: nat, j: nat, x: nat)
    requires bs == 2 * p && Times(b, bs) + bs <= |d| < 0x8000_0000 && x > 0
    ensures j < p && PointerOr0(ImageBlock(d, bs, b), j) == x <==> NumberAt(d, bs, b, j, x)
  {
    PlaceOfBlock(d, bs, b);
    TimesIsProduct(b, bs);
    var at, block := Times(b, bs), ImageBlock(d, bs, b);
    assert at == bs * b;
    if j < p {
      LowByteFirst(block[2 * j..2 * j + 2]);
      assert block[2 * j] == d[at + 2 * j] && block[2 * j + 1] == d[at + 2 * j + 1];
    }
  }

  lemma BlockFromStart(sb: Superblock, d: seq<byte>, b: nat)
    requires Laid(sb, d) && b < sb.datablockCount
    ensures Times(b, sb.blockSize) + sb.blockSize <= |d| < 0x8000_0000 && sb.blockSize == 2 * GeometryOf(sb).P()
  {
    TimesMonotonic(b, sb.datablockCount, sb.blockSize);
  }

  /** The block that is read for an indirect pointer. */
  lemma NumberRead(sb: Superblock, d: seq<byte>, b: nat, j: nat, x: nat)
    requires Laid(sb, d) && 0 < b < sb.datablockCount && x > 0
    ensures j < GeometryOf(sb).P() && PointerOr0(ReaderOf(d, sb.blockSize, 0)(b), j) == x <==>
            NumberAt(d, sb.blockSize, b, j, x)
  {
    BlockFromStart(sb, d, b);
    NumberInBlock(d, sb.blockSize, GeometryOf(sb).P(), b, j, x);
  }

  lemma PlaceOfBlock(d: seq<byte>, bs: nat, b: nat)
    requires Times(b, bs) + bs <= |d| < 0x8000_0000
    ensures ImageBlock(d, bs, b) == d[Times(b, bs)..Times(b, bs) + bs]
  {
    QuotRemUnique(Times(b, bs), 0x1_0000_0000, 0, Times(b, bs));
  }

  lemma NamedThroughBytes(sb: Superblock, d: seq<byte>, n: Inode, x: nat)
    requires Laid(sb, d) && x > 0 && forall q :: 0 <= q < |n.indirect| ==> n.indirect[q] < sb.datablockCount
    ensures x in NamedThrough(ReaderOf(d, sb.blockSize, 0), n.indirect, |n.indirect|, GeometryOf(sb).P()) <==>
            || x in n.indirect
            || exists q: nat, j: nat ::
                 q < |n.indirect| && n.indirect[q] > 0 && NumberAt(d, sb.blockSize, n.indirect[q], j, x)
  {
    var read, p := ReaderOf(d, sb.blockSize, 0), GeometryOf(sb).P();
    InNamedThrough(read, n.indirect, |n.indirect|, p, x);
    forall q: nat | q < |n.indirect| && n.indirect[q] > 0
      ensures x in NamedIn(read(n.indirect[q]), p) <==> exists j: nat :: NumberAt(d, sb.blockSize, n.indirect[q], j, x)
    {
      NamedInBytes(sb, d, n.indirect[q], x);
    }
  }

  lemma NamedInBytes(sb: Superblock, d: seq<byte>, b: nat, x: nat)
    requires Laid(sb, d) && x > 0 && 0 < b < sb.datablockCount
    ensures x in NamedIn(ReaderOf(d, sb.blockSize, 0)(b), GeometryOf(sb).P()) <==>
            exists j: nat :: NumberAt(d, sb.blockSize, b, j, x)
  {
    var block, p := ReaderOf(d, sb.blockSize, 0)(b), GeometryOf(sb).P();
    InNamedIn(block, p, x);
    if j: nat :| NumberAt(d, sb.blockSize, b, j, x) {
      NumberRead(sb, d, b, j, x);
    }
    if j: nat :| j < p && PointerOr0(block, j) == x {
      NumberRead(sb, d, b, j, x);
    }
  }

  lemma NamedArePositive(sb: Superblock, d: seq<byte>, base: nat, n: Inode, x: nat)
    requires x in NamedOnDisk(sb, d, base, n)
    ensures 0 < x
  {
    InNamedBy(n.direct, |n.direct|, x);
    var read, p := ReaderOf(d, sb.blockSize, base), GeometryOf(sb).P();
    InNamedThrough(read, n.indirect, |n.indirect|, p, x);
    if x in NamedThrough(read, n.indirect, |n.indirect|, p) {
      var q: nat :|
        q < |n.indirect| && n.indirect[q] > 0 && (x == n.indirect[q] || x in NamedIn(read(n.indirect[q]), p));
      InNamedIn(read(n.indirect[q]), p, x);
    }
  }

  /** What the as-written delete clears is what the bytes say. */
  lemma ClearedByBytes(sb: Superblock, d: seq<byte>, n: Inode, x: nat)
    requires Laid(sb, d) && FileOk(GeometryOf(sb), DataOf(sb, d), n)
    ensures x in NamedOnDisk(sb, d, 0, n) <==> Cleared(d, sb.blockSize, n, x)
  {
    PointersInRange(GeometryOf(sb), DataOf(sb, d), n);
    if x in NamedOnDisk(sb, d, 0, n) {
      NamedArePositive(sb, d, 0, n, x);
    }
    InNamedBy(n.direct, |n.direct|, x);
    if x > 0 {
      NamedThroughBytes(sb, d, n, x);
    }
  }

  /** One of them lies outside the memory of a bitmap of count bits. */
  ghost predicate ClearsOutside(d: seq<byte>, bs: nat, count: nat, n: Inode) {
    exists x: nat :: x >= 8 * ((count + 7) / 8) && Cleared(d, bs, n, x)
  }

  lemma StraysByBytes(sb: Superblock, d: seq<byte>, n: Inode)
    requires Laid(sb, d) && FileOk(GeometryOf(sb), DataOf(sb, d), n)
    ensures PointsOutside(sb, d, 0, n) <==> ClearsOutside(d, sb.blockSize, sb.datablockCount, n)
  {
    if x: nat :| x >= 8 * ((sb.datablockCount + 7) / 8) && Cleared(d, sb.blockSize, n, x) {
      ClearedByBytes(sb, d, n, x);
    }
    if PointsOutside(sb, d, 0, n) {
      var x :| x in NamedOnDisk(sb, d, 0, n) && x >= 8 * BytesFor(sb.datablockCount);
      ClearedByBytes(sb, d, n, x);
    }
  }

  /** Image d' is d without inode i and without the marks that the bytes of d say. */
  ghost predicate DeletedAsWritten(sb: Superblock, d: seq<byte>, d': seq<byte>, i: nat)
    requires Laid(sb, d) && Laid(sb, d') && i < sb.inodeCount
  {
    var v, v' := ViewOf(sb, d), ViewOf(sb, d');
    && v'.inodeMap == v.inodeMap[i := false] && v'.table == v.table[i := ZeroInode()] && v'.blocks == v.blocks
    && forall x: nat :: x < sb.datablockCount ==>
         (v'.blockMap[x] <==> v.blockMap[x] && !Cleared(d, sb.blockSize, v.table[i], x))
  }

  lemma RemovedByBytes(sb: Superblock, d: seq<byte>, d': seq<byte>, i: nat)
    requires Laid(sb, d) && Laid(sb, d') && i < sb.inodeCount
    requires FileOk(GeometryOf(sb), DataOf(sb, d), ViewOf(sb, d).table[i])
    requires IsRemoved(GeometryOf(sb), ViewOf(sb, d), i, NamedOnDisk(sb, d, 0, ViewOf(sb, d).table[i]), ViewOf(sb, d'))
    ensures DeletedAsWritten(sb, d, d', i)
  {
    var v, v' := ViewOf(sb, d), ViewOf(sb, d');
    forall x: nat | x < sb.datablockCount
      ensures v'.blockMap[x] <==> v.blockMap[x] && !Cleared(d, sb.blockSize, v.table[i], x)
    {
      ClearedByBytes(sb, d, v.table[i], x);
    }
  }

  /** fs_del as written: the pointer blocks are looked for at the start of the image. Files of up to four blocks are
      deleted as they should be; for every file the bits cleared are those of the blocks so named. */
  method DeleteFile(filename: seq<byte>, fs: File) returns (r: DeleteReply)
    requires Openable(fs.data) && 0 !in filename
    modifies fs
    ensures r == NotAnImage <==> !Accepted(HeaderOf(old(fs.data)))
    ensures r == NoSuchFile <==> r != NotAnImage && KeyOf(filename) !in FilesIn(old(fs.data))
    ensures r == Faulted <==>
              && r != NotAnImage && r != NoSuchFile
              && var sb := HeaderOf(old(fs.data));
                 ClearsOutside(old(fs.data), sb.blockSize, sb.datablockCount, InodeUnder(old(fs.data), filename))
    ensures r != Deleted ==> fs.data == old(fs.data)
    ensures r == Deleted ==>
              && Laid(HeaderOf(old(fs.data)), fs.data)
              && FilesOf(HeaderOf(old(fs.data)), fs.data) == FilesIn(old(fs.data)) - {KeyOf(filename)}
    ensures r != NotAnImage && KeyOf(filename) in FilesIn(old(fs.data)) &&
            |FilesIn(old(fs.data))[KeyOf(filename)]| <= 4 * HeaderOf(old(fs.data)).blockSize ==>
              r == Deleted && DeletedFrom(old(fs.data), fs.data, filename)
    ensures r == Deleted ==>
              var sb := HeaderOf(old(fs.data)); var v := ViewOf(sb, old(fs.data));
              var i := Lookup(v.table, KeyOf(filename));
              && HeaderOf(fs.data) == sb && Laid(sb, fs.data) && i < |v.table|
              && v.table[i] == InodeUnder(old(fs.data), filename)
              && DeletedAsWritten(sb, old(fs.data), fs.data, i)
  {
    var ok, sb := SuperblockRead(fs);
    if !ok {
      return NotAnImage;
    }
    ghost var d := fs.data;
    LookupInImage(sb, d, filename);
    r := DeleteFromVolume(filename, 0, sb, fs);
    if r != NoSuchFile {
      StraysByBytes(sb, d, InodeUnder(d, filename));
    }
    if r == Deleted {
      RemovedByBytes(sb, d, fs.data, Lookup(ViewOf(sb, d).table, KeyOf(filename)));
      DeleteDropsName(sb, d, fs.data, filename, NamedOnDisk(sb, d, 0, InodeUnder(d, filename)));
    }
    if KeyOf(filename) in FilesIn(d) && |FilesIn(d)[KeyOf(filename)]| <= 4 * sb.blockSize {
      RightDelete(sb, d, fs.data, filename, 0, r);
    }
  }

  /** fs_del with the pointer blocks read where fs_add writes them: right for files of every size. */
  method DeleteFileAtDatablocks(filename: seq<byte>, fs: File) returns (r: DeleteReply)
    requires Openable(fs.data) && 0 !in filename
    modifies fs
    ensures r == NotAnImage <==> !Accepted(HeaderOf(old(fs.data)))
    ensures r == NoSuchFile <==> r != NotAnImage && KeyOf(filename) !in FilesIn(old(fs.data))
    ensures r != Deleted ==> fs.data == old(fs.data)
    ensures r != NotAnImage && r != NoSuchFile ==> r == Deleted && DeletedFrom(old(fs.data), fs.data, filename)
  {
    var ok, sb := SuperblockRead(fs);
    if !ok {
      return NotAnImage;
    }
    ghost var d := fs.data;
    LookupInImage(sb, d, filename);
    r := DeleteFromVolume(filename, sb.datablocksStart, sb, fs);
    if KeyOf(filename) in FilesIn(d) {
      RightDelete(sb, d, fs.data, filename, sb.datablocksStart, r);
    }
  }
}
