/** The packed bitmap of common/fs/bitmap.c and its transfer to and from disk (tools/bitmap.c). */
module Bitmaps {
  import opened Bytes
  import opened Bits
  import opened Disk

  /** ROUND_UP(count, 8) for a positive count. */
  function BytesFor(count: nat): nat {
    (count + 7) / 8
  }

  /** The first count bits packed in s, least significant bit first. */
  function Unpack(s: seq<byte>, count: nat): (b: seq<bool>)
    requires count <= 8 * |s|
    ensures |b| == count
  {
    seq(count, i requires 0 <= i < count => TestBit(s[i / 8] as int, i % 8))
  }

  lemma UnpackUpdate(s: seq<byte>, count: nat, index: nat, value: bool)
    requires count <= 8 * |s| && index < 8 * |s|
    ensures
      var b := s[index / 8];
      var r := if value then OrBit(b, index % 8) else AndNotBit(b, index % 8);
      Unpack(s[index / 8 := r], count) ==
      if index < count then Unpack(s, count)[index := value] else Unpack(s, count)
  {
    var b := s[index / 8];
    var r := if value then OrBit(b, index % 8) else AndNotBit(b, index % 8);
    var t := s[index / 8 := r];
    forall i | 0 <= i < count
      ensures TestBit(t[i / 8] as int, i % 8) == if i == index then value else TestBit(s[i / 8] as int, i % 8)
    {
      if i / 8 == index / 8 {
        OneBitChanges(b, index % 8, i % 8);
      }
    }
  }

  class Bitmap {
    const count: nat
    const bits: array<byte>

    ghost predicate Valid() {
      0 < count && bits.Length == BytesFor(count)
    }

    function Bits(): (b: seq<bool>)
      requires Valid()
      reads bits
      ensures |b| == count
    {
      Unpack(bits[..], count)
    }

    /** All bits of the buffer, those behind the first count included. */
    function Memory(): (b: seq<bool>)
      reads bits
      ensures |b| == 8 * bits.Length
    {
      Unpack(bits[..], 8 * bits.Length)
    }

    /** bitmap_create: the buffer comes zeroed from calloc. */
    constructor (bitcount: nat)
      requires 0 < bitcount
      ensures Valid() && count == bitcount && fresh(bits)
      ensures bits[..] == Zeros(BytesFor(bitcount))
    {
      count := bitcount;
      bits := new byte[BytesFor(bitcount)](_ => 0);
    }

    method Get(index: nat) returns (r: bool)
      requires Valid() && index < 8 * bits.Length
      ensures r == Memory()[index]
      ensures index < count ==> r == Bits()[index]
    {
      r := TestBit(bits[index / 8] as int, index % 8);
    }

    method Set(index: nat, value: bool)
      requires Valid() && index < 8 * bits.Length
      modifies bits
      ensures Memory() == old(Memory())[index := value]
      ensures Bits() == if index < count then old(Bits())[index := value] else old(Bits())
      ensures forall k :: 0 <= k < bits.Length && k != index / 8 ==> bits[k] == old(bits[k])
      ensures bits[index / 8] ==
              if value then OrBit(old(bits[index / 8]), index % 8) else AndNotBit(old(bits[index / 8]), index % 8)
    {
      UnpackUpdate(bits[..], count, index, value);
      UnpackUpdate(bits[..], 8 * bits.Length, index, value);
      ghost var before := bits[..];
      if value {
        bits[index / 8] := OrBit(bits[index / 8], index % 8);
      } else {
        bits[index / 8] := AndNotBit(bits[index / 8], index % 8);
      }
      assert bits[..] == before[index / 8 := bits[index / 8]];
    }

    /** First fit: takes the least free index, or answers -1 and changes nothing when there is none. */
    method ReserveFirstAvailableBit() returns (r: int)
      requires Valid()
      modifies bits
      ensures r == -1 <==> FreeList(old(Bits())) == []
      ensures r == -1 ==> bits[..] == old(bits[..])
      ensures r != -1 ==>
                && FreeList(old(Bits())) != []
                && r == FreeList(old(Bits()))[0]
                && 0 <= r < count
                && Bits() == old(Bits())[r := true]
                && FreeList(Bits()) == FreeList(old(Bits()))[1..]
    {
      var i := 0;
      while i < count
        invariant 0 <= i <= count
        invariant bits[..] == old(bits[..])
        invariant FreeFrom(Bits(), i) == FreeList(old(Bits()))
      {
        var used := Get(i);
        if !used {
          ReserveFirst(Bits());
          Set(i, true);
          return i;
        }
        i := i + 1;
      }
      return -1;
    }

    method GetFreeBits() returns (n: nat)
      requires Valid()
      ensures n == |FreeList(Bits())|
    {
      n := 0;
      var i := 0;
      while i < count
        invariant 0 <= i <= count
        invariant n + |FreeFrom(Bits(), i)| == |FreeList(Bits())|
      {
        var used := Get(i);
        if !used {
          n := n + 1;
        }
        i := i + 1;
      }
    }
  }

  method BitmapRead(startBlock: nat, bitcount: nat, bs: nat, fs: File) returns (bitmap: Bitmap)
    requires 0 < bitcount
    modifies fs`pos
    ensures fresh(bitmap) && fresh(bitmap.bits)
    ensures bitmap.Valid() && bitmap.count == bitcount
    ensures bitmap.bits[..] == Window(fs.data, SeekTo(ByteOffset(startBlock, bs), old(fs.pos)), BytesFor(bitcount))
    ensures var off := ByteOffset(startBlock, bs);
            off < 0x8000_0000 && off + BytesFor(bitcount) <= |fs.data| ==>
              bitmap.bits[..] == fs.data[off..off + BytesFor(bitcount)]
  {
    bitmap := new Bitmap(bitcount);
    ByteOffsetIsProduct(startBlock, bs);
    fs.Seek((startBlock * bs) % 0x1_0000_0000);
    ghost var at := fs.pos;
    fs.Read(bitmap.bits, bitmap.bits.Length);
    assert bitmap.bits[..] == Window(fs.data, at, BytesFor(bitcount));
  }

  method BitmapWrite(bitmap: Bitmap, startBlock: nat, bs: nat, fs: File)
    requires 0 < bs && bitmap.Valid()
    modifies fs
    ensures fs.data == Put(old(fs.data), SeekTo(ByteOffset(startBlock, bs), old(fs.pos)),
                           WithPadding(bitmap.bits[..], bs))
  {
    BlocksWrite(bs, startBlock, bitmap.bits[..], fs);
  }
}
