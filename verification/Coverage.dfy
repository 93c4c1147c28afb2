/** The coverage map of the fuzzing helper. */
module Coverage {

  const MAP_SIZE := 65536

  function Mask(i: nat): (m: bv8)
    requires i < 8
  {
    match i
    case 0 => 1 case 1 => 2 case 2 => 4 case 3 => 8
    case 4 => 16 case 5 => 32 case 6 => 64 case _ => 128
  }

  predicate Bit(b: bv8, i: nat)
    requires i < 8
  {
    b & Mask(i) != 0
  }

  lemma OrBit(a: bv8, b: bv8, i: nat)
    requires i < 8
    ensures Bit(a | b, i) <==> Bit(a, i) || Bit(b, i)
  {
    MaskOr(a, b, Mask(i));
  }

  lemma MaskOr(a: bv8, b: bv8, m: bv8)
    ensures (a | b) & m != 0 <==> a & m != 0 || b & m != 0
  {
  }

  lemma SomeBit(b: bv8)
    ensures b != 0 ==>
      b & 1 != 0 || b & 2 != 0 || b & 4 != 0 || b & 8 != 0 || b & 16 != 0 || b & 32 != 0 || b & 64 != 0 || b & 128 != 0
  {
  }

  lemma DifferentBit(a: bv8, b: bv8) returns (i: nat)
    requires a != b
    ensures i < 8 && Bit(a, i) != Bit(b, i)
  {
    var d := a ^ b;
    assert d != 0;
    SomeBit(d);
    i := if d & 1 != 0 then 0 else if d & 2 != 0 then 1 else if d & 4 != 0 then 2 else if d & 8 != 0 then 3
         else if d & 16 != 0 then 4 else if d & 32 != 0 then 5 else if d & 64 != 0 then 6 else 7;
    XorMask(a, b, Mask(i));
    XorSingle(a, b, i);
  }

  lemma XorMask(a: bv8, b: bv8, m: bv8)
    ensures (a ^ b) & m == (a & m) ^ (b & m)
  {
  }

  lemma XorSingle(a: bv8, b: bv8, i: nat)
    requires i < 8 && (a & Mask(i)) ^ (b & Mask(i)) != 0
    ensures Bit(a, i) != Bit(b, i)
  {
  }

  type Map = s: seq<bv8> | |s| == MAP_SIZE witness seq(MAP_SIZE, _ => 0)

  function Empty(): (m: Map)
  {
    seq(MAP_SIZE, _ => 0)
  }

  function Union(a: Map, b: Map): (m: Map)
  {
    seq(MAP_SIZE, p requires 0 <= p < MAP_SIZE => a[p] | b[p])
  }

  predicate Hit(m: Map, p: nat, i: nat)
  {
    p < MAP_SIZE && i < 8 && Bit(m[p], i)
  }

  lemma UnionHit(a: Map, b: Map, p: nat, i: nat)
    ensures Hit(Union(a, b), p, i) <==> Hit(a, p, i) || Hit(b, p, i)
  {
    if p < MAP_SIZE && i < 8 {
      OrBit(a[p], b[p], i);
    }
  }

  lemma DifferentHit(a: Map, b: Map, p: nat) returns (i: nat)
    requires p < MAP_SIZE && a[p] != b[p]
    ensures Hit(a, p, i) != Hit(b, p, i)
  {
    i := DifferentBit(a[p], b[p]);
  }

  /** Maps with the same bits are equal. */
  lemma SameHits(a: Map, b: Map)
    requires forall p: nat, i: nat :: Hit(a, p, i) <==> Hit(b, p, i)
    ensures a == b
  {
    forall p | 0 <= p < MAP_SIZE
      ensures a[p] == b[p]
    {
      if a[p] != b[p] {
        var i := DifferentHit(a, b, p);
        assert false;
      }
    }
  }

  ghost predicate AddsCoverage(known: Map, m: Map)
  {
    exists p: nat, i: nat :: Hit(m, p, i) && !Hit(known, p, i)
  }

  /** Merging changes the map exactly when there is a bit to add. */
  lemma ChangesExactlyWhen(known: Map, m: Map)
    ensures Union(known, m) != known <==> AddsCoverage(known, m)
  {
    if AddsCoverage(known, m) {
      var p, i :| Hit(m, p, i) && !Hit(known, p, i);
      UnionHit(known, m, p, i);
    } else {
      forall p: nat, i: nat
        ensures Hit(Union(known, m), p, i) <==> Hit(known, p, i)
      {
        UnionHit(known, m, p, i);
      }
      SameHits(Union(known, m), known);
    }
  }

  function UnionAll(ms: seq<Map>): (m: Map)
  {
    if ms == [] then Empty() else Union(UnionAll(ms[..|ms| - 1]), ms[|ms| - 1])
  }

  lemma {:induction false} UnionAllHit(ms: seq<Map>, p: nat, i: nat)
    ensures Hit(UnionAll(ms), p, i) <==> exists m :: m in ms && Hit(m, p, i)
  {
    if ms == [] {
      ZeroBit(i);
    } else {
      var n := |ms| - 1;
      UnionAllHit(ms[..n], p, i);
      UnionHit(UnionAll(ms[..n]), ms[n], p, i);
      assert forall m :: m in ms <==> m in ms[..n] || m == ms[n];
    }
  }

  lemma ZeroBit(i: nat)
    ensures i < 8 ==> !Bit(0, i)
  {
  }

  /** The cumulative map does not depend on the order of the merges. */
  lemma OrderIrrelevant(ms: seq<Map>, ms': seq<Map>)
    requires forall m :: m in ms <==> m in ms'
    ensures UnionAll(ms) == UnionAll(ms')
  {
    forall p: nat, i: nat
      ensures Hit(UnionAll(ms), p, i) <==> Hit(UnionAll(ms'), p, i)
    {
      UnionAllHit(ms, p, i);
      UnionAllHit(ms', p, i);
    }
    SameHits(UnionAll(ms), UnionAll(ms'));
  }

  // ---------- how often coverage can grow ----------

  function Count(b: bv8, n: nat): (c: nat)
    requires n <= 8
    ensures c <= n
  {
    if n == 0 then 0 else Count(b, n - 1) + if Bit(b, n - 1) then 1 else 0
  }

  function Total(bs: seq<bv8>): (c: nat)
    ensures c <= 8 * |bs|
  {
    if bs == [] then 0 else Total(bs[..|bs| - 1]) + Count(bs[|bs| - 1], 8)
  }

  lemma {:induction false} CountGrows(a: bv8, b: bv8, n: nat)
    requires n <= 8
    ensures Count(a, n) <= Count(a | b, n)
  {
    if n > 0 {
      CountGrows(a, b, n - 1);
      OrBit(a, b, n - 1);
    }
  }

  lemma {:induction false} CountGrowsAt(a: bv8, b: bv8, n: nat, i: nat)
    requires i < n <= 8 && Bit(b, i) && !Bit(a, i)
    ensures Count(a, n) < Count(a | b, n)
  {
    hide Bit;
    OrBit(a, b, n - 1);
    if i < n - 1 {
      CountGrowsAt(a, b, n - 1, i);
    } else {
      CountGrows(a, b, n - 1);
    }
  }

  predicate IsUnion(a: seq<bv8>, b: seq<bv8>, c: seq<bv8>)
  {
    |a| == |b| == |c| && forall p :: 0 <= p < |a| ==> c[p] == a[p] | b[p]
  }

  lemma {:induction false} TotalGrows(a: seq<bv8>, b: seq<bv8>, c: seq<bv8>)
    requires IsUnion(a, b, c)
    ensures Total(a) <= Total(c)
  {
    hide Count;
    if a != [] {
      var n := |a| - 1;
      TotalGrows(a[..n], b[..n], c[..n]);
      CountGrows(a[n], b[n], 8);
    }
  }

  lemma {:induction false} TotalGrowsAt(a: seq<bv8>, b: seq<bv8>, c: seq<bv8>, p: nat, i: nat)
    requires IsUnion(a, b, c) && p < |a| && i < 8 && Bit(b[p], i) && !Bit(a[p], i)
    ensures Total(a) < Total(c)
  {
    hide Count, Bit;
    var n := |a| - 1;
    if p < n {
      TotalGrowsAt(a[..n], b[..n], c[..n], p, i);
      CountGrows(a[n], b[n], 8);
    } else {
      TotalGrows(a[..n], b[..n], c[..n]);
      CountGrowsAt(a[n], b[n], 8, i);
    }
  }

  /** Every merge that adds coverage uses up some of the bits that are left. */
  lemma NewCoverageCounts(known: Map, m: Map)
    ensures Total(known) <= Total(Union(known, m)) <= 8 * MAP_SIZE
    ensures AddsCoverage(known, m) ==> Total(known) < Total(Union(known, m))
  {
    hide Total, Bit;
    TotalBound(Union(known, m));
    TotalGrows(known, m, Union(known, m));
    if AddsCoverage(known, m) {
      var p: nat, i: nat :| Hit(m, p, i) && !Hit(known, p, i);
      TotalGrowsAt(known, m, Union(known, m), p, i);
    }
  }

  lemma TotalBound(m: Map)
    ensures Total(m) <= 8 * MAP_SIZE
  {
  }

  class AflMap {
    const data: array<bv8>

    ghost predicate Valid()
      reads this
    {
      data.Length == MAP_SIZE
    }

    ghost function Contents(): (m: Map)
      requires Valid()
      reads this, data
    {
      data[..]
    }

    constructor ()
      ensures Valid() && fresh(data) && Contents() == Empty()
    {
      data := new bv8[MAP_SIZE](_ => 0);
    }

    constructor Load(m: Map)
      ensures Valid() && fresh(data) && Contents() == m
    {
      data := new bv8[MAP_SIZE](p requires 0 <= p < MAP_SIZE => m[p]);
    }

    /** Merge in place: the union, and whether that was anything new. */
    method Merge(other: AflMap) returns (interesting: bool)
      requires Valid() && other.Valid() && other.data != data
      modifies data
      ensures Contents() == Union(old(Contents()), other.Contents())
      ensures interesting <==> AddsCoverage(old(Contents()), other.Contents())
    {
      ghost var known, union := Contents(), Union(Contents(), other.Contents());
      ChangesExactlyWhen(known, other.Contents());
      interesting := false;
      for p := 0 to MAP_SIZE
        invariant forall q :: 0 <= q < p ==> data[q] == union[q]
        invariant forall q :: p <= q < MAP_SIZE ==> data[q] == known[q]
        invariant interesting <==> exists q :: 0 <= q < p && union[q] != known[q]
      {
        if data[p] != data[p] | other.data[p] {
          data[p] := data[p] | other.data[p];
          interesting := true;
        }
      }
      assert Contents() == union;
      if !interesting {
        assert union == known;
      }
    }
  }
}
