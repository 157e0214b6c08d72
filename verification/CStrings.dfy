/** The string and memory loops of common/func.c. A C string is a sequence of bytes with a zero in it. */
module CStrings {
  import opened Bytes

  /** The bytes before the first zero. */
  function UpToNul(s: seq<byte>): seq<byte> {
    if s == [] || s[0] == 0 then [] else [s[0]] + UpToNul(s[1..])
  }

  /** The string at s as a function that looks at no more than count bytes sees it. */
  function Truncated(s: seq<byte>, count: nat): seq<byte> {
    UpToNul(s[..Min(count, |s|)])
  }

  /** A reader of at most count bytes stays inside s. */
  predicate Terminated(s: seq<byte>, count: nat) {
    count <= |s| || 0 in s
  }

  /** What strncpy leaves in the first count bytes of its destination. */
  function Padded(s: seq<byte>, count: nat): (r: seq<byte>)
    ensures |r| == count
  {
    s[..Min(count, |s|)] + Zeros(count - Min(count, |s|))
  }

  /** The bytes before the first zero: a prefix with a zero behind it, if anything is behind it. */
  lemma {:induction false} UpToNulStops(s: seq<byte>)
    ensures UpToNul(s) <= s && 0 !in UpToNul(s)
    ensures |UpToNul(s)| < |s| ==> s[|UpToNul(s)|] == 0
  {
    if s != [] && s[0] != 0 {
      UpToNulStops(s[1..]);
    }
  }

  lemma {:induction false} UpToNulSplit(s: seq<byte>, i: nat)
    requires i <= |s| && 0 !in s[..i]
    ensures UpToNul(s) == s[..i] + UpToNul(s[i..])
  {
    if i == 0 {
      assert s[0..] == s;
    } else {
      assert s[..i][0] == s[0];
      assert s[1..][..i - 1] == s[1..i];
      assert s[..i] == [s[0]] + s[1..i];
      assert 0 !in s[1..i];
      UpToNulSplit(s[1..], i - 1);
      assert s[1..][i - 1..] == s[i..];
    }
  }

  lemma TruncatedAt(s: seq<byte>, count: nat, i: nat)
    requires i <= |s| && i <= count && 0 !in s[..i]
    requires i == count || (i < |s| && s[i] == 0)
    ensures Truncated(s, count) == s[..i]
  {
    var t := s[..Min(count, |s|)];
    assert t[..i] == s[..i];
    UpToNulSplit(t, i);
    assert t[i..] == [] || t[i..][0] == 0;
  }

  /** A name copied by strncpy and read back is the name cut at count bytes. */
  lemma PaddedReadsBack(s: seq<byte>, tail: seq<byte>, count: nat)
    requires 0 !in s
    ensures Truncated(Padded(s, count) + tail, count) == s[..Min(count, |s|)]
  {
    var m := Min(count, |s|);
    var f := Padded(s, count) + tail;
    assert f[..m] == s[..m];
    assert forall k :: 0 <= k < m ==> f[..m][k] == s[k];
    if m < count {
      assert f[m] == 0;
    }
    TruncatedAt(f, count, m);
  }

  lemma TruncatedName(s: seq<byte>, count: nat)
    requires 0 !in s
    ensures Truncated(s + [0], count) == s[..Min(count, |s|)]
  {
    var m := Min(count, |s|);
    assert (s + [0])[..m] == s[..m];
    assert forall k :: 0 <= k < m ==> s[..m][k] == s[k];
    TruncatedAt(s + [0], count, m);
  }

  /** Two strings that agree up to a differing byte have different truncations. */
  lemma TruncationsDiffer(p: seq<byte>, q: seq<byte>, count: nat, i: nat)
    requires i < count && i < |p| && i < |q|
    requires p[..i] == q[..i] && 0 !in p[..i] && p[i] != q[i]
    ensures Truncated(p, count) != Truncated(q, count)
  {
    var s, t := p[..Min(count, |p|)], q[..Min(count, |q|)];
    assert s[..i] == p[..i] && t[..i] == q[..i];
    UpToNulSplit(s, i);
    UpToNulSplit(t, i);
    var u, w := UpToNul(s[i..]), UpToNul(t[i..]);
    assert s[i..][0] == p[i] && t[i..][0] == q[i];
    assert u != w by {
      if p[i] != 0 {
        assert u[0] == p[i];
      } else {
        assert w[0] == q[i];
      }
    }
    assert UpToNul(s)[i..] == u && UpToNul(t)[i..] == w;
  }

  /** The order of two strings: the difference at the first place where they differ, a string's end counting as zero. */
  function Compare(s: seq<byte>, t: seq<byte>): int {
    if s == [] && t == [] then 0
    else if s == [] then -(t[0] as int)
    else if t == [] then s[0] as int
    else if s[0] != t[0] then s[0] as int - t[0] as int
    else Compare(s[1..], t[1..])
  }

  lemma {:induction false} ComparePrefix(u: seq<byte>, s: seq<byte>, t: seq<byte>)
    ensures Compare(u + s, u + t) == Compare(s, t)
  {
    if u == [] {
      assert u + s == s && u + t == t;
    } else {
      assert (u + s)[1..] == u[1..] + s && (u + t)[1..] == u[1..] + t;
      ComparePrefix(u[1..], s, t);
    }
  }

  lemma CompareSame(s: seq<byte>)
    ensures Compare(s, s) == 0
  {
    ComparePrefix(s, [], []);
    assert s + [] == s;
  }

  /** Strings that agree up to place i compare as their bytes there do. */
  lemma CompareAt(p: seq<byte>, q: seq<byte>, count: nat, i: nat)
    requires i < count && i < |p| && i < |q|
    requires p[..i] == q[..i] && 0 !in p[..i] && (p[i] != q[i] || p[i] == 0)
    ensures Compare(Truncated(p, count), Truncated(q, count)) == p[i] as int - q[i] as int
  {
    var s, t := p[..Min(count, |p|)], q[..Min(count, |q|)];
    assert s[..i] == p[..i] && t[..i] == q[..i];
    UpToNulSplit(s, i);
    UpToNulSplit(t, i);
    ComparePrefix(p[..i], UpToNul(s[i..]), UpToNul(t[i..]));
    assert s[i..][0] == p[i] && t[i..][0] == q[i];
  }

  method Memset(dst: array<byte>, value: byte, count: nat)
    requires count <= dst.Length
    modifies dst
    ensures dst[..count] == seq(count, _ => value)
    ensures dst[count..] == old(dst[count..])
  {
    var left, p := count, 0;
    while left > 0
      invariant left + p == count
      invariant forall k :: 0 <= k < p ==> dst[k] == value
      invariant dst[count..] == old(dst[count..])
    {
      left := left - 1;
      dst[p] := value;
      p := p + 1;
    }
  }

  method Memcpy(dst: array<byte>, dstStart: nat, src: array<byte>, srcStart: nat, count: nat)
    requires dst != src
    requires dstStart + count <= dst.Length && srcStart + count <= src.Length
    modifies dst
    ensures dst[dstStart..dstStart + count] == src[srcStart..srcStart + count]
    ensures dst[..dstStart] == old(dst[..dstStart])
    ensures dst[dstStart + count..] == old(dst[dstStart + count..])
  {
    var left, k := count, 0;
    while left > 0
      invariant left + k == count
      invariant dst[dstStart..dstStart + k] == src[srcStart..srcStart + k]
      invariant dst[..dstStart] == old(dst[..dstStart])
      invariant dst[dstStart + count..] == old(dst[dstStart + count..])
    {
      left := left - 1;
      dst[dstStart + k] := src[srcStart + k];
      k := k + 1;
    }
  }

  method Strncpy(dst: array<byte>, src: seq<byte>, count: nat)
    requires count <= dst.Length
    requires Terminated(src, count)
    modifies dst
    ensures dst[..count] == Padded(UpToNul(src), count)
    ensures dst[count..] == old(dst[count..])
  {
    var left: nat, i: nat := count, 0;
    while true
      invariant left + i == count && i <= |src|
      invariant dst[..i] == src[..i] && 0 !in src[..i]
      invariant dst[count..] == old(dst[count..])
      decreases left
    {
      if left == 0 {
        UpToNulSplit(src, i);
        return;
      }
      left := left - 1;
      dst[i] := src[i];
      i := i + 1;
      if src[i - 1] == 0 {
        break;
      }
    }
    ghost var m := i - 1;
    UpToNulSplit(src, m);
    assert UpToNul(src) == src[..m];
    while left > 0
      invariant left + i == count && m < i
      invariant dst[..m] == src[..m] && (forall k :: m <= k < i ==> dst[k] == 0)
      invariant dst[count..] == old(dst[count..])
    {
      left := left - 1;
      dst[i] := 0;
      i := i + 1;
    }
    assert dst[..count] == src[..m] + Zeros(count - m);
  }

  /** Compares the first count characters of two strings; zero exactly when they agree there. */
  method Strncmp(p: seq<byte>, q: seq<byte>, count: nat) returns (r: int)
    requires count > 0
    requires Terminated(p, count) && Terminated(q, count)
    ensures r == 0 <==> Truncated(p, count) == Truncated(q, count)
    ensures r == Compare(Truncated(p, count), Truncated(q, count))
  {
    var left, i := count, 0;
    var c1: byte, c2: byte := 0, 0;
    while true
      invariant left + i == count && i <= |p| && i <= |q|
      invariant p[..i] == q[..i] && 0 !in p[..i] && c1 == c2
      decreases left
    {
      if left > 0 {
        left := left - 1;
        c1 := p[i];
        c2 := q[i];
        if c1 != c2 || c1 == 0 {
          CompareAt(p, q, count, i);
        }
        if c1 != c2 {
          TruncationsDiffer(p, q, count, i);
        } else if c1 == 0 {
          TruncatedAt(p, count, i);
          TruncatedAt(q, count, i);
        }
        i := i + 1;
        if c1 == 0 {
          return c1 as int - c2 as int;
        }
      } else {
        TruncatedAt(p, count, i);
        TruncatedAt(q, count, i);
        CompareSame(p[..i]);
        return c1 as int - c2 as int;
      }
      if c1 != c2 {
        break;
      }
    }
    return c1 as int - c2 as int;
  }
}
