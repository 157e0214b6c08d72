/** Bytes, the little-endian integers the image stores, and the bits of a byte. */
module Bytes {
  import opened Arith

  newtype byte = x: int | 0 <= x < 256

  function Zeros(n: nat): (s: seq<byte>)
    ensures |s| == n
    ensures forall i :: 0 <= i < n ==> s[i] == 0
  {
    seq(n, _ => 0)
  }

  function Min(a: int, b: int): int {
    if a < b then a else b
  }

  // ----- little-endian integers -----

  function Encode16(x: nat): (s: seq<byte>)
    requires x < 0x1_0000
    ensures |s| == 2
  {
    [(x % 256) as byte, (x / 256) as byte]
  }

  function Decode16(s: seq<byte>): (x: nat)
    requires |s| == 2
    ensures x < 0x1_0000
  {
    s[0] as int + 256 * (s[1] as int)
  }

  lemma RoundTrip16(x: nat)
    requires x < 0x1_0000
    ensures Decode16(Encode16(x)) == x
  {}

  function Encode32(x: nat): (s: seq<byte>)
    requires x < 0x1_0000_0000
    ensures |s| == 4
  {
    Encode16(x % 0x1_0000) + Encode16(x / 0x1_0000)
  }

  function Decode32(s: seq<byte>): (x: nat)
    requires |s| == 4
    ensures x < 0x1_0000_0000
  {
    Decode16(s[..2]) + 0x1_0000 * Decode16(s[2..])
  }

  lemma RoundTrip32(x: nat)
    requires x < 0x1_0000_0000
    ensures Decode32(Encode32(x)) == x
  {
    assert Encode32(x)[..2] == Encode16(x % 0x1_0000);
    assert Encode32(x)[2..] == Encode16(x / 0x1_0000);
  }

  /** The low byte comes first. */
  lemma LowByteFirst(s: seq<byte>)
    ensures |s| == 2 ==> Decode16(s) == s[0] as int + 256 * s[1] as int
    ensures |s| == 4 ==>
              Decode32(s) == s[0] as int + 256 * s[1] as int + 65536 * s[2] as int + 16777216 * s[3] as int
  {}

  // ----- bits of a byte -----

  /** 1 << k */
  function Pow2(k: nat): (m: nat)
    ensures m > 0
  {
    if k == 0 then 1 else 2 * Pow2(k - 1)
  }

  /** b & (1 << k) is not zero. */
  predicate TestBit(b: nat, k: nat) {
    if k == 0 then b % 2 == 1 else TestBit(b / 2, k - 1)
  }

  lemma HalfThenRest(n: nat, m: nat)
    requires m > 0
    ensures n / 2 / m == n / (2 * m)
  {
    var q, r := n / 2 / m, n / 2 % m;
    Split(n / 2, m);
    assert n == q * (2 * m) + (2 * r + n % 2);
    DivMod(n, 2 * m, q, 2 * r + n % 2);
  }

  lemma {:induction false} BitByDivision(b: nat, k: nat)
    ensures TestBit(b, k) <==> b / Pow2(k) % 2 == 1
  {
    if k > 0 {
      BitByDivision(b / 2, k - 1);
      HalfThenRest(b, Pow2(k - 1));
    }
  }

  lemma PowersOf2()
    ensures Pow2(0) == 1 && Pow2(1) == 2 && Pow2(2) == 4 && Pow2(3) == 8
    ensures Pow2(4) == 16 && Pow2(5) == 32 && Pow2(6) == 64 && Pow2(7) == 128
  {}

  /** The value of each bit. */
  lemma BitValues(b: byte, k: nat)
    requires k < 8
    ensures TestBit(b as int, k) <==> b as int / [1, 2, 4, 8, 16, 32, 64, 128][k] % 2 == 1
  {
    PowersOf2();
    BitByDivision(b as int, k);
    assert Pow2(k) == [1, 2, 4, 8, 16, 32, 64, 128][k];
  }

  lemma {:induction false} NoBits(k: nat)
    ensures !TestBit(0, k)
  {
    if k > 0 {
      NoBits(k - 1);
    }
  }

  lemma {:induction false} BitRoom(b: nat, k: nat, m: nat)
    requires k < m && b < Pow2(m) && !TestBit(b, k)
    ensures b + Pow2(k) < Pow2(m)
  {
    assert Pow2(m) == 2 * Pow2(m - 1);
    var half := b / 2;
    assert 2 * half <= b <= 2 * half + 1;
    if k > 0 {
      BitRoom(half, k - 1, m - 1);
      assert Pow2(k) == 2 * Pow2(k - 1);
    }
  }

  lemma {:induction false} BitPresent(b: nat, k: nat)
    requires TestBit(b, k)
    ensures Pow2(k) <= b
  {
    if k > 0 {
      BitPresent(b / 2, k - 1);
    }
  }

  lemma {:induction false} AddMask(b: nat, k: nat, j: nat)
    requires !TestBit(b, k)
    ensures TestBit(b + Pow2(k), j) == (j == k || TestBit(b, j))
  {
    if k > 0 && j > 0 {
      AddMask(b / 2, k - 1, j - 1);
      assert (b + Pow2(k)) / 2 == b / 2 + Pow2(k - 1);
    }
  }

  lemma {:induction false} SubtractMask(b: nat, k: nat, j: nat)
    requires TestBit(b, k)
    ensures Pow2(k) <= b
    ensures TestBit(b - Pow2(k), j) == (j != k && TestBit(b, j))
  {
    BitPresent(b, k);
    if k > 0 && j > 0 {
      SubtractMask(b / 2, k - 1, j - 1);
      assert (b - Pow2(k)) / 2 == b / 2 - Pow2(k - 1);
    }
  }

  lemma Pow2Of8()
    ensures Pow2(8) == 256
  {
    assert Pow2(2) == 4;
    assert Pow2(4) == 16;
    assert Pow2(6) == 64;
  }

  /** b | (1 << k): the mask is added when its bit is clear. */
  function OrBit(b: byte, k: nat): byte
    requires k < 8
  {
    if TestBit(b as int, k) then b
    else
      Pow2Of8();
      BitRoom(b as int, k, 8);
      (b as int + Pow2(k)) as byte
  }

  /** b & ~(1 << k): the mask is taken away when its bit is set. */
  function AndNotBit(b: byte, k: nat): byte
    requires k < 8
  {
    if !TestBit(b as int, k) then b
    else
      BitPresent(b as int, k);
      (b as int - Pow2(k)) as byte
  }

  /** Setting or clearing bit k leaves the other seven bits of the byte alone. */
  lemma OneBitChanges(b: byte, k: nat, j: nat)
    requires k < 8
    ensures TestBit(OrBit(b, k) as int, j) == (j == k || TestBit(b as int, j))
    ensures TestBit(AndNotBit(b, k) as int, j) == (j != k && TestBit(b as int, j))
  {
    if TestBit(b as int, k) {
      SubtractMask(b as int, k, j);
    } else {
      AddMask(b as int, k, j);
    }
  }
}
