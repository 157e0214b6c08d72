/** Inodes, their 64-byte form on disk, and the inode table (common/fs/inode.c, tools/inode.c). */
module Inodes {
  import opened Arith
  import opened Bytes
  import opened Bits
  import opened CStrings
  import opened Disk
  import opened Bitmaps

  const NAME_LENGTH := 32
  const DIRECT := 4
  const INDIRECT := 9

  datatype Inode = Inode(number: nat, name: seq<byte>, size: nat, direct: seq<nat>, indirect: seq<nat>)

  /** Every field fits the packed C structure. */
  ghost predicate WellFormedInode(n: Inode) {
    && n.number < 0x1_0000
    && |n.name| == NAME_LENGTH
    && n.size < 0x1_0000_0000
    && |n.direct| == DIRECT && (forall j :: 0 <= j < DIRECT ==> n.direct[j] < 0x1_0000)
    && |n.indirect| == INDIRECT && (forall j :: 0 <= j < INDIRECT ==> n.indirect[j] < 0x1_0000)
  }

  function ZeroInode(): Inode {
    Inode(0, Zeros(NAME_LENGTH), 0, seq(DIRECT, _ => 0), seq(INDIRECT, _ => 0))
  }

  // ----- arrays of 16-bit block pointers -----

  /** The j-th pointer stored in a block. */
  function PointerAt(block: seq<byte>, j: nat): (p: nat)
    requires 2 * j + 2 <= |block|
    ensures p < 0x1_0000
  {
    Decode16(block[2 * j..2 * j + 2])
  }

  function EncodePointers(ps: seq<nat>): (s: seq<byte>)
    requires forall j :: 0 <= j < |ps| ==> ps[j] < 0x1_0000
    ensures |s| == 2 * |ps|
  {
    seq(2 * |ps|, i requires 0 <= i < 2 * |ps| => Encode16(ps[i / 2])[i % 2])
  }

  function DecodePointers(s: seq<byte>): (ps: seq<nat>)
    ensures |ps| == |s| / 2
    ensures forall j :: 0 <= j < |ps| ==> ps[j] < 0x1_0000
  {
    seq(|s| / 2, j requires 0 <= j < |s| / 2 => PointerAt(s, j))
  }

  lemma PointerReadsBack(ps: seq<nat>, j: nat)
    requires forall k :: 0 <= k < |ps| ==> ps[k] < 0x1_0000
    requires j < |ps|
    ensures PointerAt(EncodePointers(ps), j) == ps[j]
  {
    var s := EncodePointers(ps);
    assert s[2 * j] == Encode16(ps[(2 * j) / 2])[(2 * j) % 2];
    assert s[2 * j + 1] == Encode16(ps[(2 * j + 1) / 2])[(2 * j + 1) % 2];
    assert s[2 * j..2 * j + 2] == Encode16(ps[j]);
    RoundTrip16(ps[j]);
  }

  lemma PointersRoundTrip(ps: seq<nat>)
    requires forall k :: 0 <= k < |ps| ==> ps[k] < 0x1_0000
    ensures DecodePointers(EncodePointers(ps)) == ps
  {
    forall j | 0 <= j < |ps| ensures DecodePointers(EncodePointers(ps))[j] == ps[j] {
      PointerReadsBack(ps, j);
    }
  }

  lemma ZeroPointers(n: nat)
    ensures DecodePointers(Zeros(2 * n)) == seq(n, _ => 0)
  {}

  // ----- one inode in 64 bytes -----

  function EncodeInode(n: Inode): (s: seq<byte>)
    requires WellFormedInode(n)
    ensures |s| == 64
  {
    Encode16(n.number) + n.name + Encode32(n.size) + EncodePointers(n.direct) + EncodePointers(n.indirect)
  }

  function DecodeInode(s: seq<byte>): (n: Inode)
    requires |s| == 64
    ensures WellFormedInode(n)
  {
    Inode(Decode16(s[..2]), s[2..34], Decode32(s[34..38]), DecodePointers(s[38..46]), DecodePointers(s[46..64]))
  }

  lemma FieldsApart(number: seq<byte>, name: seq<byte>, size: seq<byte>, direct: seq<byte>, indirect: seq<byte>)
    requires |number| == 2 && |name| == 32 && |size| == 4 && |direct| == 8 && |indirect| == 18
    ensures var s := number + name + size + direct + indirect;
            s[..2] == number && s[2..34] == name && s[34..38] == size && s[38..46] == direct && s[46..64] == indirect
  {}

  lemma PointerBytes(s: seq<byte>, j: nat)
    requires 2 * j + 2 <= |s|
    ensures j < |s| / 2 && DecodePointers(s)[j] == s[2 * j] as int + 256 * s[2 * j + 1] as int
  {
    var w := s[2 * j..2 * j + 2];
    LowByteFirst(w);
    assert w[0] == s[2 * j] && w[1] == s[2 * j + 1];
  }

  /** Every field at its own place, low byte first. */
  lemma InodeFields(s: seq<byte>)
    requires |s| == 64
    ensures var n := DecodeInode(s);
            && n.number == s[0] as int + 256 * s[1] as int
            && |n.name| == 32 && (forall k :: 0 <= k < 32 ==> n.name[k] == s[2 + k])
            && n.size == s[34] as int + 256 * s[35] as int + 65536 * s[36] as int + 16777216 * s[37] as int
            && |n.direct| == 4
            && (forall j :: 0 <= j < 4 ==> n.direct[j] == s[38 + 2 * j] as int + 256 * s[39 + 2 * j] as int)
            && |n.indirect| == 9
            && (forall q :: 0 <= q < 9 ==> n.indirect[q] == s[46 + 2 * q] as int + 256 * s[47 + 2 * q] as int)
  {
    LowByteFirst(s[..2]);
    LowByteFirst(s[34..38]);
    forall j: nat | j < 4 ensures DecodePointers(s[38..46])[j] == s[38 + 2 * j] as int + 256 * s[39 + 2 * j] as int {
      PointerBytes(s[38..46], j);
    }
    forall q: nat | q < 9 ensures DecodePointers(s[46..64])[q] == s[46 + 2 * q] as int + 256 * s[47 + 2 * q] as int {
      PointerBytes(s[46..64], q);
    }
  }

  lemma InodeRoundTrip(n: Inode)
    requires WellFormedInode(n)
    ensures DecodeInode(EncodeInode(n)) == n
  {
    FieldsApart(Encode16(n.number), n.name, Encode32(n.size), EncodePointers(n.direct), EncodePointers(n.indirect));
    RoundTrip16(n.number);
    RoundTrip32(n.size);
    PointersRoundTrip(n.direct);
    PointersRoundTrip(n.indirect);
  }

  // ----- the table -----

  ghost predicate WellFormedTable(t: seq<Inode>) {
    forall i :: 0 <= i < |t| ==> WellFormedInode(t[i])
  }

  function EncodeTable(t: seq<Inode>): (s: seq<byte>)
    requires WellFormedTable(t)
    ensures |s| == 64 * |t|
  {
    seq(64 * |t|, k requires 0 <= k < 64 * |t| => EncodeInode(t[k / 64])[k % 64])
  }

  function DecodeTable(s: seq<byte>, count: nat): (t: seq<Inode>)
    requires |s| == 64 * count
    ensures |t| == count && WellFormedTable(t)
  {
    seq(count, i requires 0 <= i < count => DecodeInode(s[64 * i..64 * i + 64]))
  }

  lemma TableRoundTrip(t: seq<Inode>)
    requires WellFormedTable(t)
    ensures DecodeTable(EncodeTable(t), |t|) == t
  {
    var s := EncodeTable(t);
    forall i | 0 <= i < |t| ensures DecodeTable(s, |t|)[i] == t[i] {
      assert s[64 * i..64 * i + 64] == EncodeInode(t[i]) by {
        forall j | 0 <= j < 64 ensures s[64 * i + j] == EncodeInode(t[i])[j] {
          assert (64 * i + j) / 64 == i && (64 * i + j) % 64 == j;
        }
      }
      InodeRoundTrip(t[i]);
    }
  }

  lemma ZeroInodeDecodes(s: seq<byte>)
    requires s == Zeros(64)
    ensures DecodeInode(s) == ZeroInode()
  {
    FieldsApart(Zeros(2), Zeros(32), Zeros(4), Zeros(8), Zeros(18));
    assert s == Zeros(2) + Zeros(32) + Zeros(4) + Zeros(8) + Zeros(18);
    ZeroPointers(DIRECT);
    ZeroPointers(INDIRECT);
  }

  lemma ZeroTableDecodes(count: nat)
    ensures DecodeTable(Zeros(64 * count), count) == seq(count, _ => ZeroInode())
  {
    var z := Zeros(64 * count);
    forall i | 0 <= i < count ensures DecodeTable(z, count)[i] == ZeroInode() {
      ZeroInodeDecodes(z[64 * i..64 * i + 64]);
    }
  }

  lemma ZeroInodeBytes(s: seq<byte>)
    requires s == EncodeInode(ZeroInode())
    ensures s == Zeros(64)
  {
    var n := ZeroInode();
    assert EncodePointers(n.direct) == Zeros(8) && EncodePointers(n.indirect) == Zeros(18);
    assert Encode16(0) == Zeros(2) && Encode32(0) == Zeros(4);
  }

  /** A table of zero inodes is written as zeros. */
  lemma ZeroTableBytes(t: seq<Inode>)
    requires WellFormedTable(t) && forall i :: 0 <= i < |t| ==> t[i] == ZeroInode()
    ensures EncodeTable(t) == Zeros(64 * |t|)
  {
    ZeroInodeBytes(EncodeInode(ZeroInode()));
    forall k | 0 <= k < 64 * |t| ensures EncodeTable(t)[k] == 0 {
      assert EncodeTable(t)[k] == EncodeInode(t[k / 64])[k % 64];
    }
  }

  // ----- lookup by name -----

  /** The part of a file name that the image keeps and compares. */
  function KeyOf(filename: seq<byte>): seq<byte> {
    filename[..Min(NAME_LENGTH - 1, |filename|)]
  }

  function KeyOfInode(n: Inode): seq<byte> {
    Truncated(n.name, NAME_LENGTH - 1)
  }

  /** The name field has the first 31 characters of the file name and, where there are fewer, a zero behind them. */
  ghost predicate AnswersTo(n: Inode, filename: seq<byte>) {
    && |n.name| == 32
    && forall k :: 0 <= k < 31 && k <= |filename| ==> n.name[k] == if k < |filename| then filename[k] else 0
  }

  /** That is when the two are the same name up to 31 characters. */
  lemma NameMatches(n: Inode, filename: seq<byte>)
    requires |n.name| == 32 && 0 !in filename
    ensures KeyOfInode(n) == KeyOf(filename) <==>
            forall k :: 0 <= k < 31 && k <= |filename| ==>
              n.name[k] == if k < |filename| then filename[k] else 0
  {
    var m := Min(31, |filename|);
    UpToNulStops(n.name[..31]);
    if forall k :: 0 <= k < 31 && k <= |filename| ==> n.name[k] == if k < |filename| then filename[k] else 0 {
      assert n.name[..m] == filename[..m];
      assert forall k :: 0 <= k < m ==> n.name[..m][k] in filename;
      TruncatedAt(n.name, 31, m);
    } else if KeyOfInode(n) == KeyOf(filename) {
      var u := UpToNul(n.name[..31]);
      assert u == filename[..m];
      forall k | 0 <= k < 31 && k <= |filename|
        ensures n.name[k] == if k < |filename| then filename[k] else 0
      {
        if k < |filename| {
          assert n.name[k] == n.name[..31][k] == u[k];
        } else {
          assert n.name[k] == n.name[..31][k];
        }
      }
      assert false;
    }
  }

  /** Inode i of table t is in use under the given key. */
  predicate Matches(t: seq<Inode>, i: nat, key: seq<byte>)
    requires i < |t|
  {
    t[i].number > 0 && KeyOfInode(t[i]) == key
  }

  /** The first match from i on, or |t|. */
  function LookupFrom(t: seq<Inode>, key: seq<byte>, i: nat): (r: nat)
    requires i <= |t|
    ensures i <= r <= |t|
    ensures r < |t| ==> Matches(t, r, key)
    ensures forall j :: i <= j < r ==> !Matches(t, j, key)
    decreases |t| - i
  {
    if i == |t| || Matches(t, i, key) then i else LookupFrom(t, key, i + 1)
  }

  function Lookup(t: seq<Inode>, key: seq<byte>): nat {
    LookupFrom(t, key, 0)
  }

  class InodeTable {
    const inodes: array<Inode>

    constructor (inodeCount: nat)
      ensures fresh(inodes) && inodes.Length == inodeCount
      ensures inodes[..] == seq(inodeCount, _ => ZeroInode())
    {
      inodes := new Inode[inodeCount](_ => ZeroInode());
    }

    /** The table whose memory holds the bytes s. */
    constructor FromBytes(s: seq<byte>, inodeCount: nat)
      requires |s| == 64 * inodeCount
      ensures fresh(inodes) && inodes.Length == inodeCount
      ensures inodes[..] == DecodeTable(s, inodeCount)
    {
      var t := DecodeTable(s, inodeCount);
      inodes := new Inode[inodeCount](i requires 0 <= i < |t| => t[i]);
    }
  }

  method InodeTableRead(inodeCount: nat, startBlock: nat, bs: nat, fs: File) returns (itab: InodeTable)
    modifies fs`pos
    ensures fresh(itab) && fresh(itab.inodes)
    ensures itab.inodes.Length == inodeCount
    ensures itab.inodes[..] ==
            DecodeTable(Window(fs.data, SeekTo(ByteOffset(startBlock, bs), old(fs.pos)), 64 * inodeCount), inodeCount)
    ensures var off := ByteOffset(startBlock, bs);
            off < 0x8000_0000 && off + 64 * inodeCount <= |fs.data| ==>
              itab.inodes[..] == DecodeTable(fs.data[off..off + 64 * inodeCount], inodeCount)
  {
    var raw := new byte[64 * inodeCount](_ => 0);
    ByteOffsetIsProduct(startBlock, bs);
    fs.Seek((startBlock * bs) % 0x1_0000_0000);
    ghost var off := fs.pos;
    fs.Read(raw, raw.Length);
    assert raw[..] == Window(fs.data, off, 64 * inodeCount);
    itab := new InodeTable.FromBytes(raw[..], inodeCount);
  }

  method InodeTableWrite(itab: InodeTable, startBlock: nat, bs: nat, fs: File)
    requires 0 < bs && 0 < itab.inodes.Length && WellFormedTable(itab.inodes[..])
    modifies fs
    ensures fs.data == Put(old(fs.data), SeekTo(ByteOffset(startBlock, bs), old(fs.pos)),
                           WithPadding(EncodeTable(itab.inodes[..]), bs))
  {
    BlocksWrite(bs, startBlock, EncodeTable(itab.inodes[..]), fs);
  }

  /** The index of the first used inode whose name agrees with filename on 31 characters; -1 if there is none. */
  method FsGetFileInode(filename: seq<byte>, itab: InodeTable) returns (r: int)
    requires 0 !in filename
    requires forall i :: 0 <= i < itab.inodes.Length ==> |itab.inodes[i].name| == NAME_LENGTH
    ensures -1 <= r < itab.inodes.Length
    ensures r == -1 <==> Lookup(itab.inodes[..], KeyOf(filename)) == itab.inodes.Length
    ensures r != -1 ==> r == Lookup(itab.inodes[..], KeyOf(filename))
    ensures r != -1 ==> itab.inodes[r].number > 0 && AnswersTo(itab.inodes[r], filename)
    ensures forall i :: 0 <= i < (if r == -1 then itab.inodes.Length else r) && itab.inodes[i].number > 0 ==>
              !AnswersTo(itab.inodes[i], filename)
  {
    TruncatedName(filename, NAME_LENGTH - 1);
    var i := 0;
    while i < itab.inodes.Length
      invariant 0 <= i <= itab.inodes.Length
      invariant LookupFrom(itab.inodes[..], KeyOf(filename), i) == Lookup(itab.inodes[..], KeyOf(filename))
      invariant forall j :: 0 <= j < i && itab.inodes[j].number > 0 ==> !AnswersTo(itab.inodes[j], filename)
    {
      NameMatches(itab.inodes[i], filename);
      if itab.inodes[i].number > 0 {
        var c := Strncmp(filename + [0], itab.inodes[i].name, NAME_LENGTH - 1);
        if c == 0 {
          return i;
        }
      }
      i := i + 1;
    }
    return -1;
  }

  /** Takes the least free inode and numbers it, or answers -1. */
  method InodeReserveFirstAvailable(itab: InodeTable, inodeBitmap: Bitmap) returns (i: int)
    requires inodeBitmap.Valid() && inodeBitmap.count == itab.inodes.Length
    modifies itab.inodes, inodeBitmap.bits
    ensures i == -1 <==> FreeList(old(inodeBitmap.Bits())) == []
    ensures i == -1 ==> itab.inodes[..] == old(itab.inodes[..]) && inodeBitmap.bits[..] == old(inodeBitmap.bits[..])
    ensures i != -1 ==>
              && FreeList(old(inodeBitmap.Bits())) != []
              && i == FreeList(old(inodeBitmap.Bits()))[0]
              && 0 <= i < itab.inodes.Length
              && inodeBitmap.Bits() == old(inodeBitmap.Bits())[i := true]
              && itab.inodes[..] == old(itab.inodes[..])[i := old(itab.inodes[..])[i].(number := Rem(i, 0x1_0000))]
  {
    i := inodeBitmap.ReserveFirstAvailableBit();
    if i < 0 {
      return;
    }
    itab.inodes[i] := itab.inodes[i].(number := Rem(i, 0x1_0000));
  }
}
