/** Every consistent volume is the view of some image. */
module Realizing {
  import opened Bytes
  import opened Arith
  import opened Bitmaps
  import opened Layout
  import opened Inodes
  import opened Volumes
  import opened Images
  import opened Mounts

  /** The first i bits of b, packed. */
  function Pack(b: seq<bool>, i: nat): (s: seq<byte>)
    requires i <= |b|
    ensures |s| == BytesFor(|b|)
  {
    if i == 0 then Zeros(BytesFor(|b|))
    else
      var s := Pack(b, i - 1);
      if b[i - 1] then s[(i - 1) / 8 := OrBit(s[(i - 1) / 8], (i - 1) % 8)] else s
  }

  lemma {:induction false} UnpackPack(b: seq<bool>, i: nat, j: nat)
    requires i <= |b| && j < |b|
    ensures Unpack(Pack(b, i), |b|)[j] == (j < i && b[j])
  {
    if i == 0 {
      NoBits(j % 8);
    } else {
      UnpackPack(b, i - 1, j);
      if b[i - 1] {
        var s := Pack(b, i - 1);
        UnpackUpdate(s, |b|, i - 1, true);
        assert Pack(b, i) == s[(i - 1) / 8 := OrBit(s[(i - 1) / 8], (i - 1) % 8)];
      }
    }
  }

  lemma PackRoundTrip(b: seq<bool>)
    ensures Unpack(Pack(b, |b|), |b|) == b
  {
    forall j: nat | j < |b| ensures Unpack(Pack(b, |b|), |b|)[j] == b[j] {
      UnpackPack(b, |b|, j);
    }
  }

  /** The bytes of a data region that holds the given blocks. */
  function DataBytes(blocks: seq<seq<byte>>, n: nat, bs: nat): (s: seq<byte>)
    requires n <= |blocks| && forall b :: 0 < b < |blocks| ==> |blocks[b]| == bs
    ensures |s| == Times(n, bs)
  {
    if n == 0 then []
    else DataBytes(blocks, n - 1, bs) + (if n == 1 then Zeros(bs) else blocks[n - 1])
  }

  lemma {:induction false} DataBytesAt(blocks: seq<seq<byte>>, n: nat, bs: nat, b: nat)
    requires n <= |blocks| && forall b :: 0 < b < |blocks| ==> |blocks[b]| == bs
    requires 0 < b < n
    ensures Times(b, bs) + bs <= Times(n, bs)
    ensures DataBytes(blocks, n, bs)[Times(b, bs)..Times(b, bs) + bs] == blocks[b]
  {
    TimesMonotonic(b, n, bs);
    var s := DataBytes(blocks, n, bs);
    var front := DataBytes(blocks, n - 1, bs);
    if b == n - 1 {
      assert s == front + blocks[b];
    } else {
      TimesMonotonic(b, n - 1, bs);
      DataBytesAt(blocks, n - 1, bs, b);
      assert s[Times(b, bs)..Times(b, bs) + bs] == front[Times(b, bs)..Times(b, bs) + bs];
    }
  }

  /** The superblock and zeros up to the data region. */
  function Head(sb: Superblock): (h: seq<byte>)
    requires WellFormed(sb) && SUPERBLOCK_SIZE <= OffsetsOf(sb).data
    ensures |h| == OffsetsOf(sb).data
  {
    EncodeSuperblock(sb) + Zeros(OffsetsOf(sb).data - SUPERBLOCK_SIZE)
  }

  lemma HeadHeader(sb: Superblock, rest: seq<byte>)
    requires WellFormed(sb) && SUPERBLOCK_SIZE <= OffsetsOf(sb).data
    ensures HeaderOf(Head(sb) + rest) == sb && HeaderBytes(Head(sb) + rest) == EncodeSuperblock(sb)
  {
    assert HeaderBytes(Head(sb) + rest) == EncodeSuperblock(sb);
    SuperblockRoundTrip(sb);
  }

  lemma SuffixSlice(h: seq<byte>, s: seq<byte>, i: nat, j: nat)
    requires i <= j <= |s|
    ensures (h + s)[|h| + i..|h| + j] == s[i..j]
  {}

  lemma SuffixBlock(g: Geometry, o: Offsets, h: seq<byte>, blocks: seq<seq<byte>>, b: nat)
    requires Ordered(g, o) && |h| == o.data
    requires |blocks| == g.blockCount && (forall k :: 0 < k < |blocks| ==> |blocks[k]| == g.bs) && 0 < b < |blocks|
    ensures var d := h + DataBytes(blocks, |blocks|, g.bs);
            RightSize(g, o, d) && BlocksOf(g, o, d)[b] == blocks[b]
  {
    var s := DataBytes(blocks, |blocks|, g.bs);
    DataBytesAt(blocks, |blocks|, g.bs, b);
    SuffixSlice(h, s, Times(b, g.bs), Times(b, g.bs) + g.bs);
  }

  lemma SuffixBlocks(g: Geometry, o: Offsets, h: seq<byte>, blocks: seq<seq<byte>>)
    requires Ordered(g, o) && |h| == o.data
    requires |blocks| == g.blockCount && (forall k :: 0 < k < |blocks| ==> |blocks[k]| == g.bs) && blocks[0] == []
    ensures var d := h + DataBytes(blocks, |blocks|, g.bs);
            RightSize(g, o, d) && BlocksOf(g, o, d) == blocks
  {
    var d := h + DataBytes(blocks, |blocks|, g.bs);
    forall b | 0 < b < g.blockCount ensures BlocksOf(g, o, d)[b] == blocks[b] {
      SuffixBlock(g, o, h, blocks, b);
    }
  }

  /** The bytes of a volume under a given superblock. */
  function ImageOf(sb: Superblock, v: Volume): seq<byte>
    requires WellFormed(sb) && SUPERBLOCK_SIZE <= OffsetsOf(sb).data && 0 < sb.blockSize
    requires Shaped(GeometryOf(sb), v) && WellFormedTable(v.table)
  {
    Committed(sb.blockSize, OffsetsOf(sb), Head(sb) + DataBytes(v.blocks, |v.blocks|, sb.blockSize),
              Pack(v.inodeMap, |v.inodeMap|), Pack(v.blockMap, |v.blockMap|), EncodeTable(v.table))
  }

  lemma ImageOfView(sb: Superblock, v: Volume, h: seq<byte>)
    requires Navigable(sb) && Shaped(GeometryOf(sb), v) && WellFormedTable(v.table) && v.blocks[0] == []
    requires |h| == OffsetsOf(sb).data
    ensures var d := h + DataBytes(v.blocks, |v.blocks|, sb.blockSize);
            var r := Committed(sb.blockSize, OffsetsOf(sb), d,
                               Pack(v.inodeMap, |v.inodeMap|), Pack(v.blockMap, |v.blockMap|), EncodeTable(v.table));
            && RightSize(GeometryOf(sb), OffsetsOf(sb), r) && ViewOf(sb, r) == v
            && SUPERBLOCK_SIZE <= |d| && HeaderBytes(r) == HeaderBytes(d)
  {
    SuffixBlocks(GeometryOf(sb), OffsetsOf(sb), h, v.blocks);
    PackRoundTrip(v.inodeMap);
    PackRoundTrip(v.blockMap);
    var d := h + DataBytes(v.blocks, |v.blocks|, sb.blockSize);
    var x, y := Pack(v.inodeMap, |v.inodeMap|), Pack(v.blockMap, |v.blockMap|);
    CommitView(GeometryOf(sb), OffsetsOf(sb), d, x, y, v.table);
    SameHeader(d, Committed(sb.blockSize, OffsetsOf(sb), d, x, y, EncodeTable(v.table)));
  }

  /** ImageOf is a right inverse of the view: what the bytes stand for is the volume they were made from. */
  lemma ImageOfVolume(sb: Superblock, v: Volume)
    requires SoundSuperblock(sb) && Shaped(GeometryOf(sb), v) && WellFormedTable(v.table) && v.blocks[0] == []
    ensures WellFormed(sb) && SUPERBLOCK_SIZE <= OffsetsOf(sb).data
    ensures Laid(sb, ImageOf(sb, v)) && ViewOf(sb, ImageOf(sb, v)) == v
    ensures HeaderOf(ImageOf(sb, v)) == sb && HeaderBytes(ImageOf(sb, v)) == EncodeSuperblock(sb)
  {
    SoundIsConsecutive(sb);
    SoundIsNavigable(sb);
    HeadHeader(sb, DataBytes(v.blocks, |v.blocks|, sb.blockSize));
    ImageOfView(sb, v, Head(sb));
  }
}
