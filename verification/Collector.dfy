/** The registry of expressions and its garbage collector. An expression stays
    registered as long as shadow memory or a registered region refers to it. */
module Collector {
  import opened Bytes
  import opened Expressions
  import opened Shadow
  import opened MemoryOps

  /** A part of an array that a client asked the collector to scan. */
  datatype Region = Region(cells: array<SymExpr>, first: nat, count: nat)

  predicate Fits(r: Region)
  {
    r.first + r.count <= r.cells.Length
  }

  function Scanned(r: Region): (es: seq<SymExpr>)
    requires Fits(r)
    reads r.cells
  {
    r.cells[r.first..r.first + r.count]
  }

  /** The expressions among some entries. */
  function NonNull(es: seq<SymExpr>): (s: set<Expr>)
  {
    set k | 0 <= k < |es| && es[k].Some? :: es[k].value
  }

  lemma NonNullNext(es: seq<SymExpr>, k: nat)
    requires k < |es|
    ensures NonNull(es[..k + 1]) == NonNull(es[..k]) + if es[k].Some? then {es[k].value} else {}
  {
    var before, after := es[..k], es[..k + 1];
    forall e | e in NonNull(after)
      ensures e in NonNull(before) || es[k] == Some(e)
    {
      var i :| 0 <= i < k + 1 && after[i] == Some(e);
      assert i < k ==> before[i] == Some(e);
    }
    forall e | e in NonNull(before) || es[k] == Some(e)
      ensures e in NonNull(after)
    {
      if es[k] == Some(e) {
        assert after[k] == Some(e);
      } else {
        var i :| 0 <= i < k && before[i] == Some(e);
        assert after[i] == Some(e);
      }
    }
  }

  /** The expressions in all pages. */
  ghost function PageExprs(m: ShadowMemory, qs: set<nat>): (s: set<Expr>)
    requires m.Valid() && qs <= m.pages.Keys
    reads m, m.Repr
  {
    set q, k | q in qs && 0 <= k < PAGE_SIZE && m.pages[q][k].Some? :: m.pages[q][k].value
  }

  /** The expressions in the first `n` regions. */
  ghost function RegionExprs(rs: seq<Region>, n: nat): (s: set<Expr>)
    requires n <= |rs| && forall i :: 0 <= i < |rs| ==> Fits(rs[i])
    reads set r | r in rs :: r.cells
  {
    if n == 0 then {} else RegionExprs(rs, n - 1) + NonNull(Scanned(rs[n - 1]))
  }

  method CollectRegion(cells: array<SymExpr>, first: nat, count: nat, acc: set<Expr>) returns (reachable: set<Expr>)
    requires first + count <= cells.Length
    ensures reachable == acc + NonNull(cells[first..first + count])
  {
    reachable := acc;
    ghost var es := cells[first..first + count];
    for k := 0 to count
      invariant reachable == acc + NonNull(es[..k])
    {
      NonNullNext(es, k);
      if cells[first + k].Some? {
        reachable := reachable + {cells[first + k].value};
      }
    }
    assert es[..count] == es;
  }

  method CollectPages(m: ShadowMemory, acc: set<Expr>) returns (reachable: set<Expr>)
    requires m.Valid()
    ensures reachable == acc + PageExprs(m, m.pages.Keys)
  {
    reachable := acc;
    var unseen := m.pages.Keys;
    while unseen != {}
      invariant unseen <= m.pages.Keys
      invariant reachable == acc + PageExprs(m, m.pages.Keys - unseen)
    {
      var q :| q in unseen;
      PageNext(m, m.pages.Keys - unseen, q);
      reachable := CollectRegion(m.pages[q], 0, PAGE_SIZE, reachable);
      assert m.pages.Keys - (unseen - {q}) == m.pages.Keys - unseen + {q};
      unseen := unseen - {q};
    }
    assert m.pages.Keys - {} == m.pages.Keys;
  }

  lemma PageNext(m: ShadowMemory, qs: set<nat>, q: nat)
    requires m.Valid() && qs <= m.pages.Keys && q in m.pages
    ensures PageExprs(m, qs + {q}) == PageExprs(m, qs) + NonNull(m.pages[q][0..PAGE_SIZE])
  {
    var es := m.pages[q][0..PAGE_SIZE];
    forall e | e in NonNull(es)
      ensures e in PageExprs(m, qs + {q})
    {
      var k :| 0 <= k < |es| && es[k] == Some(e);
      assert m.pages[q][k] == Some(e) && q in qs + {q};
    }
    forall e | e in PageExprs(m, qs + {q}) && e !in PageExprs(m, qs)
      ensures e in NonNull(es)
    {
      var q', k :| q' in qs + {q} && 0 <= k < PAGE_SIZE && m.pages[q'][k] == Some(e);
      assert es[k] == Some(e);
    }
  }

  /** The pages hold exactly the expressions that some address has. */
  lemma PageExprsMean(m: ShadowMemory, e: Expr)
    requires m.Valid()
    ensures e in PageExprs(m, m.pages.Keys) <==> exists a: nat :: m.At(a) == Some(e)
  {
    if e in PageExprs(m, m.pages.Keys) {
      var q, k :| q in m.pages.Keys && 0 <= k < PAGE_SIZE && m.pages[q][k] == Some(e);
      InPage(q, k);
      assert m.At(q + k) == Some(e);
    }
    if a: nat :| m.At(a) == Some(e) {
      assert PageStart(a) in m.pages.Keys && m.pages[PageStart(a)][PageOffset(a)] == Some(e);
    }
  }

  lemma InPage(q: nat, k: nat)
    requires PageStart(q) == q && k < PAGE_SIZE
    ensures PageStart(q + k) == q && PageOffset(q + k) == k
  {
  }

  lemma {:induction false} RegionExprsMean(rs: seq<Region>, n: nat, e: Expr)
    requires n <= |rs| && forall i :: 0 <= i < |rs| ==> Fits(rs[i])
    ensures e in RegionExprs(rs, n) <==> exists i :: 0 <= i < n && Some(e) in Scanned(rs[i])
  {
    if n > 0 {
      RegionExprsMean(rs, n - 1, e);
      assert e in NonNull(Scanned(rs[n - 1])) <==> Some(e) in Scanned(rs[n - 1]);
    }
  }

  ghost predicate AllIn(f: imap<nat, SymExpr>, s: set<Expr>)
    requires Total(f)
  {
    forall a: nat :: f[a].Some? ==> f[a].value in s
  }

  lemma StoredIn(f: imap<nat, SymExpr>, dest: nat, es: seq<SymExpr>, s: set<Expr>)
    requires Total(f) && AllIn(f, s) && forall k :: 0 <= k < |es| && es[k].Some? ==> es[k].value in s
    ensures AllIn(Stored(f, dest, es), s)
  {
  }

  lemma MovedIn(f: imap<nat, SymExpr>, dest: nat, src: nat, n: nat, s: set<Expr>)
    requires Total(f) && AllIn(f, s)
    ensures AllIn(Moved(f, dest, src, n), s)
  {
    forall a: nat
      ensures Moved(f, dest, src, n)[a].Some? ==> Moved(f, dest, src, n)[a].value in s
    {
      assert MovedEntry(f, dest, src, n, a) == f[a]
        || (a >= dest && MovedEntry(f, dest, src, n, a) == f[a - dest + src]);
    }
  }

  /** Erase what is not reachable, one expression at a time. */
  method Sweep(registered: set<Expr>, reachable: set<Expr>) returns (kept: set<Expr>)
    ensures kept == registered * reachable
  {
    kept := registered;
    var unseen := registered;
    while unseen != {}
      invariant unseen <= registered && kept == registered * (reachable + unseen)
    {
      var e :| e in unseen;
      if e !in reachable {
        kept := kept - {e};
      }
      unseen := unseen - {e};
    }
  }

  lemma RegionsIn(rs: seq<Region>, n: nat, s: set<Expr>)
    requires n <= |rs| && forall i :: 0 <= i < |rs| ==> Fits(rs[i])
    ensures RegionExprs(rs, n) <= s <==> forall i, e :: 0 <= i < n && Some(e) in Scanned(rs[i]) ==> e in s
  {
    hide RegionExprs;
    forall i, e | 0 <= i < n && Some(e) in Scanned(rs[i])
      ensures e in RegionExprs(rs, n)
    {
      RegionExprsMean(rs, n, e);
    }
    forall e | e in RegionExprs(rs, n)
      ensures exists i :: 0 <= i < n && Some(e) in Scanned(rs[i])
    {
      RegionExprsMean(rs, n, e);
    }
  }

  class Registry {
    const memory: ShadowMemory
    const threshold: nat
    /** Every expression handed out and not collected since. */
    var registered: set<Expr>
    var regions: seq<Region>

    constructor (memory: ShadowMemory, threshold: nat)
      requires memory.Valid() && memory.pages == map[]
      ensures Valid() && this.memory == memory && this.threshold == threshold && registered == {} && regions == []
    {
      this.memory, this.threshold := memory, threshold;
      registered, regions := {}, [];
    }

    /** Region arrays are not shadow pages. */
    ghost predicate Shaped()
      reads this, memory
    {
      memory.Valid() && forall i :: 0 <= i < |regions| ==> Fits(regions[i]) && regions[i].cells !in memory.Repr
    }

    /** What the collector must keep. */
    ghost function Reachable(): (s: set<Expr>)
      requires Shaped()
      reads this, memory, memory.Repr, set r | r in regions :: r.cells
    {
      RegionExprs(regions, |regions|) + PageExprs(memory, memory.pages.Keys)
    }

    /** Every expression in a shadow page or in a region is registered. */
    ghost predicate Valid()
      reads this, memory, memory.Repr, set r | r in regions :: r.cells
    {
      Shaped() && Reachable() <= registered
    }

    lemma ReachableMeans(e: Expr)
      requires Shaped()
      ensures e in Reachable() <==>
        (exists a: nat :: memory.At(a) == Some(e)) || (exists i :: 0 <= i < |regions| && Some(e) in Scanned(regions[i]))
    {
      PageExprsMean(memory, e);
      RegionExprsMean(regions, |regions|, e);
    }

    method RegisterExpression(e: Expr) returns (r: Expr)
      requires Valid()
      modifies this`registered
      ensures Valid() && r == e && registered == old(registered) + {e}
    {
      registered := registered + {e};
      r := e;
    }

    /** Using a stored expression as a key of the registry cannot fail. */
    method Lookup(addr: nat) returns (e: SymExpr)
      requires Valid()
      ensures e == memory.At(addr) && (e.Some? ==> e.value in registered)
    {
      var slot := memory.GetShadow(addr);
      e := if slot.Slot? then slot.page[slot.index] else None;
      if e.Some? {
        ReachableMeans(e.value);
        assert memory.At(addr) == Some(e.value);
      }
    }

    method RegisterExpressionRegion(r: Region)
      requires Valid() && Fits(r) && r.cells !in memory.Repr && NonNull(Scanned(r)) <= registered
      modifies this`regions
      ensures Valid() && regions == old(regions) + [r]
    {
      ghost var before := regions;
      regions := regions + [r];
      RegionsPrefix(before, regions, |before|);
    }

    /** Validity in terms of the flat map. */
    lemma ValidIff()
      requires Shaped()
      ensures Valid() <==> AllIn(memory.Flat(), registered) && RegionExprs(regions, |regions|) <= registered
    {
      hide Total;
      forall a: nat, e | memory.Flat()[a] == Some(e)
        ensures e in PageExprs(memory, memory.pages.Keys)
      {
        assert memory.At(a) == Some(e);
        PageExprsMean(memory, e);
      }
      forall e | e in PageExprs(memory, memory.pages.Keys)
        ensures exists a: nat :: memory.Flat()[a] == Some(e)
      {
        PageExprsMean(memory, e);
        var a: nat :| memory.At(a) == Some(e);
        assert memory.Flat()[a] == Some(e);
      }
    }

    /** Shadow writes of expressions that are registered. */
    method Store(addr: nat, value: SymExpr, length: nat)
      requires Valid() && (value.Some? ==> value.value in registered)
      modifies memory, memory.Repr
      ensures Valid() && memory.Flat() == Stored(old(memory.Flat()), addr, Repeat(value, length))
    {
      hide Valid, ShadowMemory.Flat, ShadowMemory.At, ShadowMemory.Valid, Stored, AllIn, Reachable, Total, Scanned;
      StillShaped();
      ValidIff();
      StoredIn(memory.Flat(), addr, Repeat(value, length), registered);
      MemSet(memory, addr, value, length);
      ValidIff();
    }

    lemma StillShaped()
      requires Valid()
      ensures Shaped()
    {
    }

    method Copy(dest: nat, src: nat, length: nat)
      requires Valid()
      modifies memory, memory.Repr
      ensures Valid() && memory.Flat() == Moved(old(memory.Flat()), dest, src, length)
    {
      hide Valid, ShadowMemory.Flat, ShadowMemory.At, ShadowMemory.Valid, Moved, AllIn, Reachable, Total, Scanned;
      StillShaped();
      ValidIff();
      MovedIn(memory.Flat(), dest, src, length, registered);
      MemMove(memory, dest, src, length);
      ValidIff();
    }

    /** A client puts a registered expression into a region. */
    method StoreInRegion(i: nat, k: nat, value: SymExpr)
      requires Valid() && i < |regions| && k < regions[i].count && (value.Some? ==> value.value in registered)
      modifies regions[i].cells
      ensures Valid() && Scanned(regions[i]) == old(Scanned(regions[i]))[k := value]
    {
      hide PageExprs, RegionExprs, ShadowMemory.Valid;
      RegionsIn(regions, |regions|, registered);
      regions[i].cells[regions[i].first + k] := value;
      forall j, e | 0 <= j < |regions| && Some(e) in Scanned(regions[j])
        ensures e in registered
      {
        var x :| 0 <= x < regions[j].count && Scanned(regions[j])[x] == Some(e);
        if Some(e) != value {
          assert old(Scanned(regions[j]))[x] == Some(e);
        }
      }
      RegionsIn(regions, |regions|, registered);
    }

    /** A collection below the threshold does nothing; otherwise what remains is
        the old registry intersected with the reachable expressions. */
    method CollectGarbage()
      requires Valid()
      modifies this`registered
      ensures Valid()
      ensures registered == if |old(registered)| < threshold then old(registered) else old(registered) * Reachable()
    {
      hide PageExprs, RegionExprs, Fits, Scanned;
      if |registered| < threshold {
        return;
      }
      var reachable := CollectReachableExpressions();
      registered := Sweep(registered, reachable);
    }

    method CollectReachableExpressions() returns (reachable: set<Expr>)
      requires Shaped()
      ensures reachable == Reachable()
    {
      reachable := {};
      for i := 0 to |regions|
        invariant reachable == RegionExprs(regions, i)
      {
        var r := regions[i];
        reachable := CollectRegion(r.cells, r.first, r.count, reachable);
      }
      reachable := CollectPages(memory, reachable);
    }
  }

  /** Appending a region does not change what the earlier ones hold. */
  lemma {:induction false} RegionsPrefix(before: seq<Region>, after: seq<Region>, n: nat)
    requires n <= |before| <= |after| && before == after[..|before|]
    requires forall i :: 0 <= i < |after| ==> Fits(after[i])
    ensures RegionExprs(after, n) == RegionExprs(before, n)
  {
    if n > 0 {
      RegionsPrefix(before, after, n - 1);
    }
  }
}
