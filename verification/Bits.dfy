/** Allocation bitmaps as sequences of booleans; true is a used bit. */
module Bits {

  /** The free indices of b from i on, in ascending order. */
  function FreeFrom(b: seq<bool>, i: nat): (f: seq<nat>)
    requires i <= |b|
    decreases |b| - i
  {
    if i == |b| then []
    else if b[i] then FreeFrom(b, i + 1)
    else [i] + FreeFrom(b, i + 1)
  }

  function FreeList(b: seq<bool>): seq<nat> {
    FreeFrom(b, 0)
  }

  ghost predicate Ascending(s: seq<nat>) {
    forall i, j :: 0 <= i < j < |s| ==> s[i] < s[j]
  }

  lemma {:induction false} FreeFromMeans(b: seq<bool>, i: nat)
    requires i <= |b|
    ensures Ascending(FreeFrom(b, i))
    ensures forall x :: x in FreeFrom(b, i) <==> i <= x < |b| && !b[x]
    decreases |b| - i
  {
    if i < |b| {
      FreeFromMeans(b, i + 1);
      var rest := FreeFrom(b, i + 1);
      if !b[i] {
        var f := FreeFrom(b, i);
        assert f == [i] + rest;
        forall j, k | 0 <= j < k < |f| ensures f[j] < f[k] {
          assert f[k] == rest[k - 1] && rest[k - 1] in rest;
        }
        assert forall x :: x in f <==> x == i || x in rest;
      }
    }
  }

  lemma HeadIsElement(s: seq<nat>)
    ensures s != [] ==> s[0] in s
  {}

  /** An ascending enumeration is determined by its elements. */
  lemma {:induction false} AscendingUnique(s: seq<nat>, t: seq<nat>)
    requires Ascending(s) && Ascending(t)
    requires forall x :: x in s <==> x in t
    ensures s == t
  {
    HeadIsElement(t);
    if s != [] {
      assert s[0] in t && t[0] in s;
      assert s[0] == t[0];
      forall x ensures x in s[1..] <==> x in t[1..] {
        assert x in s <==> x == s[0] || x in s[1..];
        assert x in t <==> x == t[0] || x in t[1..];
      }
      AscendingUnique(s[1..], t[1..]);
      assert s == [s[0]] + s[1..] && t == [t[0]] + t[1..];
    }
  }

  /** Reserving the least free bit drops the head of the free list and nothing else. */
  lemma ReserveFirst(b: seq<bool>)
    requires FreeList(b) != []
    ensures var x := FreeList(b)[0];
            && x < |b| && !b[x]
            && (forall y :: 0 <= y < x ==> b[y])
            && FreeList(b[x := true]) == FreeList(b)[1..]
  {
    var f := FreeList(b);
    FreeFromMeans(b, 0);
    var x := f[0];
    assert x in f;
    assert forall y :: 0 <= y < x ==> (b[y] || y in f);
    var c := b[x := true];
    FreeFromMeans(c, 0);
    forall y ensures y in FreeList(c) <==> y in f[1..] {
      assert y in f <==> y == f[0] || y in f[1..];
      assert y in f[1..] ==> y != x;
    }
    AscendingUnique(FreeList(c), f[1..]);
  }

  /** b with the listed bits set. */
  function Mark(b: seq<bool>, s: seq<nat>): (r: seq<bool>)
    ensures |r| == |b|
  {
    seq(|b|, i requires 0 <= i < |b| => b[i] || i in s)
  }

  /** b with the listed bits cleared. */
  function Clear(b: seq<bool>, s: set<nat>): (r: seq<bool>)
    ensures |r| == |b|
  {
    seq(|b|, i requires 0 <= i < |b| => b[i] && i !in s)
  }

  ghost function Elements(s: seq<nat>): set<nat> {
    set x | x in s
  }

  lemma MarkOne(b: seq<bool>, s: seq<nat>, x: nat)
    requires x < |b|
    ensures Mark(b, s)[x := true] == Mark(b, s + [x])
  {}

  lemma ClearOne(b: seq<bool>, s: set<nat>, x: nat)
    ensures Clear(b, s + {x}) == if x < |b| then Clear(b, s)[x := false] else Clear(b, s)
  {}

  /** Clearing what was just marked gives the bitmap back. */
  lemma ClearUndoesMark(b: seq<bool>, s: seq<nat>)
    requires forall x :: x in s ==> x < |b| && !b[x]
    ensures Clear(Mark(b, s), Elements(s)) == b
  {
    var m := Mark(b, s);
    forall i | 0 <= i < |b| ensures Clear(m, Elements(s))[i] == b[i] {
      if i in s { assert !b[i]; }
    }
  }

  lemma PrefixOrRest(f: seq<nat>, k: nat, y: nat)
    requires Ascending(f) && k <= |f|
    ensures y in f <==> y in f[..k] || y in f[k..]
    ensures !(y in f[..k] && y in f[k..])
  {
    assert f == f[..k] + f[k..];
    forall i, j | 0 <= i < k <= j < |f| ensures f[i] != f[j] {}
  }

  /** Marking the first k free bits leaves the rest of the free list. */
  lemma {:induction false} MarkPrefix(b: seq<bool>, k: nat)
    requires k <= |FreeList(b)|
    ensures FreeList(Mark(b, FreeList(b)[..k])) == FreeList(b)[k..]
  {
    var f := FreeList(b);
    var m := Mark(b, f[..k]);
    FreeFromMeans(b, 0);
    FreeFromMeans(m, 0);
    forall y ensures y in FreeList(m) <==> y in f[k..] {
      PrefixOrRest(f, k, y);
    }
    AscendingUnique(FreeList(m), f[k..]);
  }

  lemma {:induction false} FreeFromCongruent(b: seq<bool>, c: seq<bool>, i: nat)
    requires |b| == |c| && i <= |b|
    requires forall j :: i <= j < |b| ==> b[j] == c[j]
    ensures FreeFrom(b, i) == FreeFrom(c, i)
    decreases |b| - i
  {
    if i < |b| {
      FreeFromCongruent(b, c, i + 1);
    }
  }

  /** Freeing one used bit makes the free list one longer. */
  lemma {:induction false} FreeOne(b: seq<bool>, x: nat, i: nat)
    requires i <= x < |b| && b[x]
    ensures |FreeFrom(b[x := false], i)| == |FreeFrom(b, i)| + 1
    decreases |b| - i
  {
    if i == x {
      FreeFromCongruent(b[x := false], b, i + 1);
    } else {
      FreeOne(b, x, i + 1);
    }
  }

  /** Freeing distinct used bits frees exactly that many. */
  lemma {:induction false} FreeMany(b: seq<bool>, s: seq<nat>)
    requires Ascending(s)
    requires forall x :: x in s ==> x < |b| && b[x]
    ensures |FreeList(Clear(b, Elements(s)))| == |FreeList(b)| + |s|
  {
    if s == [] {
      assert Clear(b, Elements(s)) == b;
    } else {
      var n := |s| - 1;
      var front := s[..n];
      assert s == front + [s[n]];
      assert forall x :: x in front ==> x in s;
      FreeMany(b, front);
      assert Elements(s) == Elements(front) + {s[n]};
      ClearOne(b, Elements(front), s[n]);
      assert s[n] !in front;
      FreeOne(Clear(b, Elements(front)), s[n], 0);
    }
  }
}
