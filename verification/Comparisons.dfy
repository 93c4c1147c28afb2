/** The constraint that the wrappers of memcmp and bcmp push. */
module Comparisons {
  import opened BitVectors
  import opened Expressions
  import opened Aggregates
  import opened Lifting
  import opened Programs
  import opened Replay
  import opened ReplaySteps
  import opened ReplayTheorems
  import opened Shadow
  import opened MemoryOps

  /** The regions are equal byte by byte. */
  function EqualAll(left: seq<Expr>, right: seq<Expr>): (e: Expr)
    requires |left| == |right| > 0
  {
    var n := |left| - 1;
    if n == 0 then Compare(Eq, left[0], right[0])
    else BoolBinary(And, EqualAll(left[..n], right[..n]), Compare(Eq, left[n], right[n]))
  }

  lemma EqualBytes(a: Expr, b: Expr, input: Input, x: Byte, y: Byte)
    requires Holds(a, input, [x]) && Holds(b, input, [y])
    ensures IsCondition(Compare(Eq, a, b)) && (Truth(Compare(Eq, a, b), input) <==> x == y)
  {
    hide Eval, WellSorted, IsBool, Bits;
    HeldByte(a, input, x);
    HeldByte(b, input, y);
    CompareNode(Eq, a, b, input);
  }

  lemma AndNode(a: Expr, b: Expr, input: Input)
    requires IsCondition(a) && IsCondition(b)
    ensures IsCondition(BoolBinary(And, a, b))
    ensures Truth(BoolBinary(And, a, b), input) <==> Truth(a, input) && Truth(b, input)
  {
    EvalRange(a, input);
    EvalRange(b, input);
    Pow2Eight();
  }

  lemma {:induction false} EqualAllMeans(left: seq<Expr>, right: seq<Expr>, input: Input, xs: seq<Byte>, ys: seq<Byte>)
    requires |left| == |right| > 0 && HoldEach(left, input, xs) && HoldEach(right, input, ys)
    ensures IsCondition(EqualAll(left, right)) && (Truth(EqualAll(left, right), input) <==> xs == ys)
  {
    hide Holds, IsCondition, Truth;
    var n := |left| - 1;
    EqualBytes(left[n], right[n], input, xs[n], ys[n]);
    if n > 0 {
      EqualAllMeans(left[..n], right[..n], input, xs[..n], ys[..n]);
      AndNode(EqualAll(left[..n], right[..n]), Compare(Eq, left[n], right[n]), input);
      assert xs == xs[..n] + [xs[n]] && ys == ys[..n] + [ys[n]];
    } else {
      assert xs == [xs[0]] && ys == [ys[0]];
    }
  }

  /** The constraint for two regions, or null if both are concrete. */
  function RegionsEqual(m: map<int, Byte>, sh: map<int, SymExpr>, a: int, b: int, n: nat): (e: SymExpr)
  {
    if n == 0 || (AllNull(ShadowBytes(sh, a, n)) && AllNull(ShadowBytes(sh, b, n))) then None
    else Some(EqualAll(ByteExprs(m, sh, a, n), ByteExprs(m, sh, b, n)))
  }

  /** On any input whose run explains memory, the pushed formula says whether
      the native function finds the regions equal there; without a formula it
      finds the same as in the recorded run. On the recorded run's own input
      this is the `taken` flag. */
  lemma ComparisonPredicts(m: map<int, Byte>, sh: map<int, SymExpr>, m': map<int, Byte>, a: int, b: int, n: nat,
                           input: Input)
    requires MemoryAgree(m, sh, m', input)
    ensures var e := RegionsEqual(m, sh, a, b, n);
      (e.Some? ==> IsCondition(e.value) && (Truth(e.value, input) <==> ReadBytes(m', a, n) == ReadBytes(m', b, n)))
      && (e.None? ==> ReadBytes(m', a, n) == ReadBytes(m, a, n) && ReadBytes(m', b, n) == ReadBytes(m, b, n))
  {
    hide Truth, IsCondition, ByteExprs, EqualAll;
    if RegionsEqual(m, sh, a, b, n).Some? {
      ByteExprsHold(m, sh, m', a, n, input);
      ByteExprsHold(m, sh, m', b, n, input);
      EqualAllMeans(ByteExprs(m, sh, a, n), ByteExprs(m, sh, b, n), input, ReadBytes(m', a, n), ReadBytes(m', b, n));
    } else {
      ConcreteBytes(m, sh, m', a, n, input);
      ConcreteBytes(m, sh, m', b, n, input);
    }
  }

  /** There is no formula exactly if every byte of both regions is concrete. */
  lemma NoFormulaExactlyWhen(m: map<int, Byte>, sh: map<int, SymExpr>, a: int, b: int, n: nat)
    ensures RegionsEqual(m, sh, a, b, n).None?
      <==> forall x: int {:trigger ShadowAt(sh, x)} :: a <= x < a + n || b <= x < b + n ==> ShadowAt(sh, x).None?
  {
    hide EqualAll, ByteExprs;
    NullRange(sh, a, n);
    NullRange(sh, b, n);
  }

  lemma NullRange(sh: map<int, SymExpr>, a: int, n: nat)
    ensures AllNull(ShadowBytes(sh, a, n))
      <==> forall x: int {:trigger ShadowAt(sh, x)} :: a <= x < a + n ==> ShadowAt(sh, x).None?
  {
    if AllNull(ShadowBytes(sh, a, n)) {
      forall x: int | a <= x < a + n
        ensures ShadowAt(sh, x).None?
      {
        assert ShadowBytes(sh, a, n)[x - a].None?;
      }
    } else {
      var k :| 0 <= k < n && ShadowBytes(sh, a, n)[k].Some?;
      assert ShadowAt(sh, a + k).Some?;
    }
  }

  /** In every reachable state of a run, the formula evaluates on the run's own
      input to the flag that is pushed with it. */
  lemma ComparisonHolds(p: Program, input: Input, memory: map<int, Byte>, n: nat, a: int, b: int, length: nat)
    requires ProgramOk(p) && !CRun(p, input, memory, n).status.Trapped?
    ensures var st := Run(p, input, memory, n);
      var e := RegionsEqual(st.c.memory, st.s.shadow, a, b, length);
      e.Some? ==>
        IsCondition(e.value)
        && (Truth(e.value, input) <==> ReadBytes(st.c.memory, a, length) == ReadBytes(st.c.memory, b, length))
  {
    hide CStep, SStep, RegionsEqual, Truth, IsCondition, ReadBytes, StackRel, MemoryAgree;
    var st := Run(p, input, memory, n);
    PathConditionHolds(p, input, memory, n);
    ComparisonPredicts(st.c.memory, st.s.shadow, st.c.memory, a, b, length, input);
  }

  /** On an input that replays the run, it tells whether the regions are equal
      there; without a formula they compare as recorded. */
  lemma ComparisonReplays(p: Program, input: Input, memory: map<int, Byte>, n: nat, input': Input,
                          a: int, b: int, length: nat)
    requires ProgramOk(p) && !CRun(p, input, memory, n).status.Trapped?
    requires PathSat(Run(p, input, memory, n).s.path, input')
    requires ReadsAlike(p, input, memory, n, input') && DivisorsAlive(p, input, memory, n, input')
    ensures var st, c' := Run(p, input, memory, n), CRun(p, input', memory, n);
      var e := RegionsEqual(st.c.memory, st.s.shadow, a, b, length);
      (ReadBytes(c'.memory, a, length) == ReadBytes(c'.memory, b, length))
      == if e.Some? then Truth(e.value, input')
         else ReadBytes(st.c.memory, a, length) == ReadBytes(st.c.memory, b, length)
  {
    hide CStep, SStep, RegionsEqual, Truth, IsCondition, ReadBytes, StackRel, MemoryAgree, ReadsAlike, DivisorsAlive;
    var st, c' := Run(p, input, memory, n), CRun(p, input', memory, n);
    ReplaySoundness(p, input, memory, n, input');
    ComparisonPredicts(st.c.memory, st.s.shadow, c'.memory, a, b, length, input');
  }

  lemma ConcreteBytes(m: map<int, Byte>, sh: map<int, SymExpr>, m': map<int, Byte>, a: int, n: nat, input: Input)
    requires MemoryAgree(m, sh, m', input) && (n == 0 || AllNull(ShadowBytes(sh, a, n)))
    ensures ReadBytes(m', a, n) == ReadBytes(m, a, n)
  {
    forall k | 0 <= k < n
      ensures ReadBytes(m', a, n)[k] == ReadBytes(m, a, n)[k]
    {
      assert ShadowBytes(sh, a, n)[k].None?;
      assert Agree(ByteAt(m, a + k), ShadowAt(sh, a + k), ByteAt(m', a + k), input);
    }
  }

  /** `v` shows the flat map on a range. */
  ghost predicate Shows(v: map<int, SymExpr>, f: imap<nat, SymExpr>, addr: nat, n: nat)
    requires Total(f)
  {
    forall x: nat {:trigger ShadowAt(v, x)} :: addr <= x < addr + n ==> ShadowAt(v, x) == Entry(f, x)
  }

  lemma ConcreteView(v: map<int, SymExpr>, f: imap<nat, SymExpr>, addr: nat, n: nat)
    requires Total(f) && Shows(v, f, addr, n)
    ensures AllNull(ShadowBytes(v, addr, n)) <==> ConcreteRange(f, addr, n)
  {
    if AllNull(ShadowBytes(v, addr, n)) {
      forall x: nat | addr <= x < addr + n
        ensures f[x].None?
      {
        assert ShadowBytes(v, addr, n)[x - addr].None?;
        assert ShadowAt(v, x) == Entry(f, x);
      }
    } else {
      var k :| 0 <= k < n && ShadowBytes(v, addr, n)[k].Some?;
      assert ShadowAt(v, addr + k) == Entry(f, addr + k);
    }
  }

  /** What the non-null read iterator yields at byte `k` of a range. */
  method GetNonNull(it: ReadShadowIterator, m: ShadowMemory, concrete: map<int, Byte>, ghost v: map<int, SymExpr>,
                    ghost addr: nat, ghost n: nat, ghost k: nat)
    returns (e: Expr)
    requires Standing(it, m, addr + k) && m.Valid() && Shows(v, m.Flat(), addr, n) && k < n
    ensures e == ByteExprs(concrete, v, addr, n)[k]
  {
    hide ShadowMemory.Flat, ShadowMemory.At, ShadowMemory.Valid, PageStart, PageOffset, ByteAt, ShadowAt;
    var entry := it.Get();
    assert entry == m.Flat()[addr + k];
    assert ShadowAt(v, addr + k) == Entry(m.Flat(), addr + k);
    assert ByteExprs(concrete, v, addr, n)[k] == Coerce(entry, ByteAt(concrete, addr + k), 8);
    ByteConstant(ByteAt(concrete, addr + k));
    e := if entry.Some? then entry.value else Integer(ByteAt(concrete, it.address), 8);
  }

  /** The formula that memcmp and bcmp push, if any; `taken` says whether their
      result is zero. */
  method CompareRegions(m: ShadowMemory, concrete: map<int, Byte>, a: nat, b: nat, n: nat, ghost v: map<int, SymExpr>)
    returns (constraint: SymExpr, taken: bool)
    requires m.Valid() && Shows(v, m.Flat(), a, n) && Shows(v, m.Flat(), b, n)
    ensures taken <==> ReadBytes(concrete, a, n) == ReadBytes(concrete, b, n)
    ensures constraint == RegionsEqual(concrete, v, a, b, n)
  {
    hide Shows, ShadowMemory.Flat, ShadowMemory.At, ShadowMemory.Valid, PageStart, PageOffset, ConcreteRange, AllNull,
         ShadowBytes, ByteExprs, ReadBytes;
    taken := ReadBytes(concrete, a, n) == ReadBytes(concrete, b, n);
    ConcreteView(v, m.Flat(), a, n);
    ConcreteView(v, m.Flat(), b, n);
    ConcreteNothing(m.Flat(), a);
    ConcreteNothing(m.Flat(), b);
    var isConcrete := IsConcrete(m, a, n);
    if isConcrete {
      isConcrete := IsConcrete(m, b, n);
    }
    if isConcrete {
      return None, taken;
    }
    var allEqual := BuildAllEqual(m, concrete, a, b, n, v);
    constraint := Some(allEqual);
  }

  /** A read iterator with nothing to miss, at a given address. */
  ghost predicate Standing(it: ReadShadowIterator, m: ShadowMemory, at: nat)
    reads it, m
  {
    it.memory == m && it.Valid() && it.Misses(m.pages.Keys) && it.address == at
  }

  method StartNonNull(m: ShadowMemory, at: nat) returns (it: ReadShadowIterator)
    requires m.Valid()
    ensures fresh(it) && Standing(it, m, at)
  {
    it := new ReadShadowIterator(m, at);
  }

  method NextNonNull(it: ReadShadowIterator, m: ShadowMemory, concrete: map<int, Byte>, ghost v: map<int, SymExpr>,
                     ghost addr: nat, ghost n: nat, ghost k: nat)
    returns (e: Expr)
    requires 0 < k < n && Standing(it, m, addr + k - 1) && m.Valid() && Shows(v, m.Flat(), addr, n)
    modifies it
    ensures Standing(it, m, addr + k) && e == ByteExprs(concrete, v, addr, n)[k]
  {
    hide ShadowMemory.Flat, ShadowMemory.At, ShadowMemory.Valid, PageStart, PageOffset, Shows, ByteExprs;
    it.Increment(m.pages.Keys);
    e := GetNonNull(it, m, concrete, v, addr, n, k);
  }

  method BuildAllEqual(m: ShadowMemory, concrete: map<int, Byte>, a: nat, b: nat, n: nat, ghost v: map<int, SymExpr>)
    returns (allEqual: Expr)
    requires m.Valid() && n > 0 && Shows(v, m.Flat(), a, n) && Shows(v, m.Flat(), b, n)
    ensures allEqual == EqualAll(ByteExprs(concrete, v, a, n), ByteExprs(concrete, v, b, n))
  {
    hide Shows, Standing, ShadowMemory.Flat, ShadowMemory.At, ShadowMemory.Valid, PageStart, PageOffset, ByteExprs,
         Total;
    ghost var left, right := ByteExprs(concrete, v, a, n), ByteExprs(concrete, v, b, n);
    var aShadowIt := StartNonNull(m, a);
    var bShadowIt := StartNonNull(m, b);
    var aExpr := GetNonNull(aShadowIt, m, concrete, v, a, n, 0);
    var bExpr := GetNonNull(bShadowIt, m, concrete, v, b, n, 0);
    allEqual := Compare(Eq, aExpr, bExpr);
    for i := 1 to n
      invariant fresh(aShadowIt) && fresh(bShadowIt) && aShadowIt != bShadowIt
      invariant Standing(aShadowIt, m, a + i - 1) && Standing(bShadowIt, m, b + i - 1)
      invariant allEqual == EqualAll(left[..i], right[..i])
    {
      aExpr := NextNonNull(aShadowIt, m, concrete, v, a, n, i);
      bExpr := NextNonNull(bShadowIt, m, concrete, v, b, n, i);
      assert left[..i + 1][..i] == left[..i] && right[..i + 1][..i] == right[..i];
      allEqual := BoolBinary(And, allEqual, Compare(Eq, aExpr, bExpr));
    }
    assert left[..n] == left && right[..n] == right;
  }
}
