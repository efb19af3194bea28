/** How lists of buckets cover the 32-bit space. */
module Tiling {
  import opened Integers
  import opened FieldTheory
  import opened Lists
  import opened Triage

  type Position = x: int | 0 <= x < 0x1_0000_0000

  datatype Bucket = Bucket(depth: nat, prefix: nat)

  predicate Covers(b: Bucket, x: int) {
    b.depth <= MAX_DEPTH && Start(b.depth, b.prefix) <= x < End(b.depth, b.prefix)
  }

  /** A bucket covers the positions whose first bits, as many as its depth, are its index. */
  lemma CoversPrefix(b: Bucket, x: nat)
    requires b.depth <= 32
    ensures Covers(b, x) <==> x / Exp2(32 - b.depth) == b.prefix
  {
    var n := Size(b.depth);
    QuotientBound(x, n, b.prefix);
    QuotientBound(x, n, b.prefix + 1);
    OneMore(b.prefix, n);
  }

  /** How many of the buckets cover a position. */
  function Hits(buckets: seq<Bucket>, x: int): nat {
    if buckets == [] then 0 else
      Hits(buckets[..|buckets| - 1], x) + if Covers(buckets[|buckets| - 1], x) then 1 else 0
  }

  predicate TiledAt(buckets: seq<Bucket>, x: int) {
    Hits(buckets, x) == if 0 <= x < 0x1_0000_0000 then 1 else 0
  }

  /** Every position is covered exactly once, and nothing else is. */
  ghost predicate Tiles(buckets: seq<Bucket>) {
    forall x: int :: TiledAt(buckets, x)
  }

  lemma {:induction false} HitsAppend(a: seq<Bucket>, b: seq<Bucket>, x: int)
    ensures Hits(a + b, x) == Hits(a, x) + Hits(b, x)
  {
    if b == [] {
      assert a + b == a;
    } else {
      assert (a + b)[..|a + b| - 1] == a + b[..|b| - 1];
      HitsAppend(a, b[..|b| - 1], x);
    }
  }

  lemma HitsOne(b: Bucket, x: int)
    ensures Hits([b], x) == if Covers(b, x) then 1 else 0
  {
    assert [b][..0] == [];
  }

  lemma Doubling(p: nat, half: nat)
    ensures (2 * p) * half == p * (2 * half) && (2 * p + 1) * half == p * (2 * half) + half
  {
  }

  /** The two halves of a node sit side by side in it. */
  lemma Children(depth: nat, prefix: nat)
    requires depth < MAX_DEPTH
    ensures Start(depth + 1, 2 * prefix) == Start(depth, prefix)
    ensures End(depth + 1, 2 * prefix) == Start(depth + 1, 2 * prefix + 1)
    ensures End(depth + 1, 2 * prefix + 1) == End(depth, prefix)
    ensures Start(depth, prefix) < Start(depth + 1, 2 * prefix + 1) < End(depth, prefix)
  {
    var half := Size(depth + 1);
    assert Size(depth) == 2 * half;
    Doubling(prefix, half);
  }

  /** Splitting a bucket changes no cover count. */
  lemma SplitHits(depth: nat, prefix: nat, x: int)
    requires depth < MAX_DEPTH
    ensures Hits([Bucket(depth + 1, 2 * prefix), Bucket(depth + 1, 2 * prefix + 1)], x) ==
      Hits([Bucket(depth, prefix)], x)
  {
    var l, r := Bucket(depth + 1, 2 * prefix), Bucket(depth + 1, 2 * prefix + 1);
    Children(depth, prefix);
    assert [l] + [r] == [l, r];
    HitsAppend([l], [r], x);
    HitsOne(l, x);
    HitsOne(r, x);
    HitsOne(Bucket(depth, prefix), x);
  }

  function Level(depth: nat, n: nat): seq<Bucket> {
    seq(n, i requires 0 <= i < n => Bucket(depth, i))
  }

  lemma {:induction false} LevelHits(depth: nat, n: nat, x: int)
    requires depth <= MAX_DEPTH
    ensures Hits(Level(depth, n), x) == if 0 <= x < Start(depth, n) then 1 else 0
    decreases n
  {
    if n > 0 {
      assert Level(depth, n)[..n - 1] == Level(depth, n - 1);
      LevelHits(depth, n - 1, x);
      OneMore(n - 1, Size(depth));
    }
  }

  /** All the nodes of one depth tile the space. */
  lemma LevelTiles(depth: nat)
    requires depth <= MAX_DEPTH
    ensures Tiles(Level(depth, Exp2(depth)))
  {
    Exp2Add(depth, MAX_DEPTH - depth);
    FullDepth();
    assert Start(depth, Exp2(depth)) == 0x1_0000_0000;
    forall x: int
      ensures TiledAt(Level(depth, Exp2(depth)), x)
    {
      LevelHits(depth, Exp2(depth), x);
    }
  }

  // ---- the part of a set in a bucket

  /** The elements of D whose position lies in a bucket. */
  ghost function Restrict<F>(D: seq<F>, position: F -> Position, b: Bucket): seq<F> {
    if D == [] then [] else
      var rest := Restrict(D[..|D| - 1], position, b);
      if Covers(b, position(D[|D| - 1])) then rest + [D[|D| - 1]] else rest
  }

  lemma {:induction false} RestrictCount<F>(D: seq<F>, position: F -> Position, b: Bucket, x: F)
    ensures multiset(Restrict(D, position, b))[x] == if Covers(b, position(x)) then multiset(D)[x] else 0
  {
    if D != [] {
      var n := |D| - 1;
      RestrictCount(D[..n], position, b, x);
      assert D == D[..n] + [D[n]];
    }
  }

  lemma {:induction false} RestrictIsSet<F>(D: seq<F>, position: F -> Position, b: Bucket)
    requires Distinct(D)
    ensures Distinct(Restrict(D, position, b)) && forall x :: x in Restrict(D, position, b) ==> x in D
  {
    if D != [] {
      var n := |D| - 1;
      RestrictIsSet(D[..n], position, b);
      assert D[n] !in D[..n];
    }
  }

  function Concat<F>(parts: seq<seq<F>>): seq<F> {
    if parts == [] then [] else Concat(parts[..|parts| - 1]) + parts[|parts| - 1]
  }

  ghost predicate PartAt<F>(D: seq<F>, position: F -> Position, buckets: seq<Bucket>, parts: seq<seq<F>>, i: nat)
    requires i < |buckets| == |parts|
  {
    multiset(parts[i]) == multiset(Restrict(D, position, buckets[i]))
  }

  lemma OneMore(h: nat, m: nat)
    ensures (h + 1) * m == h * m + m
  {
  }

  lemma {:induction false} PartsCount<F>(D: seq<F>, position: F -> Position, buckets: seq<Bucket>,
      parts: seq<seq<F>>, x: F)
    requires |buckets| == |parts| && forall i :: 0 <= i < |parts| ==> PartAt(D, position, buckets, parts, i)
    ensures multiset(Concat(parts))[x] == Hits(buckets, position(x)) * multiset(D)[x]
    decreases |parts|
  {
    if parts != [] {
      var n := |parts| - 1;
      forall i | 0 <= i < n
        ensures PartAt(D, position, buckets[..n], parts[..n], i)
      {
        assert PartAt(D, position, buckets, parts, i);
      }
      PartsCount(D, position, buckets[..n], parts[..n], x);
      assert PartAt(D, position, buckets, parts, n);
      RestrictCount(D, position, buckets[n], x);
      OneMore(Hits(buckets[..n], position(x)), multiset(D)[x]);
    }
  }

  lemma TiledCount<F>(D: seq<F>, position: F -> Position, buckets: seq<Bucket>, parts: seq<seq<F>>, x: F)
    requires Tiles(buckets)
    requires |buckets| == |parts| && forall i :: 0 <= i < |parts| ==> PartAt(D, position, buckets, parts, i)
    ensures multiset(Concat(parts))[x] == multiset(D)[x]
  {
    PartsCount(D, position, buckets, parts, x);
    assert TiledAt(buckets, position(x));
  }

  /** The parts of D in the buckets of a tiling make up D. */
  lemma TiledParts<F(!new)>(D: seq<F>, position: F -> Position, buckets: seq<Bucket>, parts: seq<seq<F>>)
    requires Tiles(buckets)
    requires |buckets| == |parts| && forall i :: 0 <= i < |parts| ==> PartAt(D, position, buckets, parts, i)
    ensures multiset(Concat(parts)) == multiset(D)
  {
    forall x: F
      ensures multiset(Concat(parts))[x] == multiset(D)[x]
    {
      TiledCount(D, position, buckets, parts, x);
    }
  }
}
