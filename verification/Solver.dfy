/** The solver protocol of the simple backend: every path constraint is first
    used for an alternative query and then asserted. Z3 itself is a pair of
    functions that simplify a formula and decide satisfiability. */
module Solver {
  import opened Expressions
  import opened Programs
  import opened ReplayTheorems

  predicate SatAll(fs: seq<Expr>, input: Input)
  {
    forall k :: 0 <= k < |fs| ==> Truth(fs[k], input)
  }

  lemma SatSnoc(fs: seq<Expr>, f: Expr, input: Input)
    ensures SatAll(fs + [f], input) <==> SatAll(fs, input) && Truth(f, input)
  {
    if SatAll(fs + [f], input) {
      assert (fs + [f])[|fs|] == f;
      forall k | 0 <= k < |fs| ensures Truth(fs[k], input) { assert (fs + [f])[k] == fs[k]; }
    }
  }

  /** Simplification preserves meaning. */
  ghost predicate SoundSimplifier(simplify: Expr -> Expr)
  {
    forall e: Expr :: IsCondition(e) ==> IsCondition(simplify(e)) && Equivalent(simplify(e), e)
  }

  ghost predicate Equivalent(a: Expr, b: Expr)
  {
    forall input: Input :: Truth(a, input) <==> Truth(b, input)
  }

  /** The check answers whether the formulas have a common solution. */
  ghost predicate DecidesSatisfiability(check: seq<Expr> -> bool)
  {
    forall fs: seq<Expr> :: check(fs) <==> exists input: Input :: SatAll(fs, input)
  }

  /** A query for a diverging input, and whether one was found. */
  datatype Query = Query(formulas: seq<Expr>, feasible: bool)

  /** Every solution of `q` satisfies `before` and takes the other side of `k`. */
  ghost predicate Alternative(q: Query, before: seq<Expr>, k: Constraint)
  {
    && (forall input: Input :: SatAll(q.formulas, input) <==> SatAll(before, input) && !Satisfied(k, input))
    && (q.feasible <==> exists input: Input :: SatAll(q.formulas, input))
  }

  class SolverState {
    const simplify: Expr -> Expr
    const check: seq<Expr> -> bool
    var asserted: seq<Expr>
    /** How many formulas were asserted when each open scope was pushed. */
    var scopes: seq<nat>
    var log: seq<Query>

    ghost predicate Valid()
      reads this
    {
      && SoundSimplifier(simplify) && DecidesSatisfiability(check)
      && (forall k :: 0 <= k < |scopes| ==> scopes[k] <= |asserted|)
    }

    constructor (simplify: Expr -> Expr, check: seq<Expr> -> bool)
      requires SoundSimplifier(simplify) && DecidesSatisfiability(check)
      ensures Valid() && asserted == [] && scopes == [] && log == []
      ensures this.simplify == simplify && this.check == check
    {
      this.simplify := simplify;
      this.check := check;
      asserted, scopes, log := [], [], [];
    }

    method Push()
      modifies this`scopes
      ensures scopes == old(scopes) + [|asserted|]
    {
      scopes := scopes + [|asserted|];
    }

    method Pop()
      requires Valid() && scopes != []
      modifies this`scopes, this`asserted
      ensures scopes == old(scopes)[..|old(scopes)| - 1]
      ensures asserted == old(asserted)[..old(scopes)[|old(scopes)| - 1]]
    {
      asserted := asserted[..scopes[|scopes| - 1]];
      scopes := scopes[..|scopes| - 1];
    }

    method Assert(f: Expr)
      modifies this`asserted
      ensures asserted == old(asserted) + [f]
    {
      asserted := asserted + [f];
    }

    /** `_sym_push_path_constraint`. The asserted formulas become the old ones
        together with the side that was taken, scopes are balanced, and the run
        that is being recorded still satisfies them all, so the feasibility
        assertion holds. Either one alternative query is made, or the
        constraint was constant and no input takes the other side. */
    method PushPathConstraint(constraint: SymExpr, taken: bool, ghost actual: Input)
      requires Valid() && SatAll(asserted, actual)
      requires constraint.Some? ==>
        IsCondition(constraint.value) && Satisfied(Constraint(constraint.value, taken), actual)
      modifies this
      ensures Valid() && scopes == old(scopes) && SatAll(asserted, actual)
      ensures constraint.None? ==> asserted == old(asserted) && log == old(log)
      ensures constraint.Some? ==> var k := Constraint(constraint.value, taken);
        && (forall input: Input :: SatAll(asserted, input) <==> SatAll(old(asserted), input) && Satisfied(k, input))
        && (log == old(log) <==> simplify(constraint.value).BoolConst?)
        && (if log == old(log) then asserted == old(asserted) && forall input: Input :: Satisfied(k, input)
            else
              && |log| == |old(log)| + 1 && log[..|old(log)|] == old(log)
              && Alternative(log[|old(log)|], old(asserted), k))
    {
      hide SatAll, Truth, IsCondition, SoundSimplifier;
      if constraint.None? {
        return;
      }
      ghost var k := Constraint(constraint.value, taken);
      var simplified := simplify(constraint.value);
      if simplified == BoolConst(true) {
        ConstantConstraint(simplify, k, true, actual);
        assert taken;
        return;
      }
      if simplified == BoolConst(false) {
        ConstantConstraint(simplify, k, false, actual);
        assert !taken;
        return;
      }
      var negated := simplify(LNot(simplified));
      Sides(simplify, k, asserted);
      TryToSolve(if taken then negated else simplified);
      Assert(if taken then simplified else negated);
      assert check(asserted) by {
        assert SatAll(asserted, actual);
      }
    }

    /** The alternative is solved in a scope of its own. */
    method TryToSolve(f: Expr)
      requires Valid()
      modifies this
      ensures Valid() && scopes == old(scopes) && asserted == old(asserted)
      ensures log == old(log) + [Query(asserted + [f], check(asserted + [f]))]
    {
      Push();
      Assert(f);
      var feasible := check(asserted);
      log := log + [Query(asserted, feasible)];
      Pop();
      assert asserted == old(asserted);
    }
  }

  /** A constraint that simplifies to a constant has one possible side, and the
      recorded run took it. */
  lemma ConstantConstraint(simplify: Expr -> Expr, k: Constraint, b: bool, actual: Input)
    requires SoundSimplifier(simplify) && IsCondition(k.expr) && simplify(k.expr) == BoolConst(b)
      && Satisfied(k, actual)
    ensures k.taken == b && forall input: Input :: Satisfied(k, input)
  {
    hide IsCondition;
    assert Equivalent(simplify(k.expr), k.expr);
  }

  lemma NotIsCondition(e: Expr)
    requires IsCondition(e)
    ensures IsCondition(LNot(e)) && forall input: Input :: Truth(LNot(e), input) <==> !Truth(e, input)
  {
  }

  function Side(simplify: Expr -> Expr, e: Expr, taken: bool): (f: Expr)
  {
    if taken then simplify(e) else simplify(LNot(simplify(e)))
  }

  /** The two formulas stand for the two sides of the constraint. */
  lemma Sides(simplify: Expr -> Expr, k: Constraint, before: seq<Expr>)
    requires SoundSimplifier(simplify) && IsCondition(k.expr)
    ensures forall input: Input :: SatAll(before + [Side(simplify, k.expr, k.taken)], input) <==>
      SatAll(before, input) && Satisfied(k, input)
    ensures forall input: Input :: SatAll(before + [Side(simplify, k.expr, !k.taken)], input) <==>
      SatAll(before, input) && !Satisfied(k, input)
  {
    hide Truth, IsCondition, SatAll;
    var e := simplify(k.expr);
    assert Equivalent(e, k.expr);
    NotIsCondition(e);
    assert Equivalent(simplify(LNot(e)), LNot(e));
    forall input: Input
      ensures SatAll(before + [Side(simplify, k.expr, k.taken)], input) <==>
        SatAll(before, input) && Satisfied(k, input)
      ensures SatAll(before + [Side(simplify, k.expr, !k.taken)], input) <==>
        SatAll(before, input) && !Satisfied(k, input)
    {
      SatSnoc(before, Side(simplify, k.expr, true), input);
      SatSnoc(before, Side(simplify, k.expr, false), input);
    }
  }

  // ---------- the queries of a whole run ----------

  /** Query `q` asks for an input that agrees with the first `m` constraints of
      the path and violates the next one. */
  ghost predicate AsksAt(q: Query, path: seq<Constraint>, m: nat)
    requires m < |path|
  {
    && (forall input: Input :: SatAll(q.formulas, input) <==> PathSat(path[..m], input) && !Satisfied(path[m], input))
    && (q.feasible <==> exists input: Input :: SatAll(q.formulas, input))
  }

  /** The queries belong to increasing positions of the path, and every
      position in between leaves no alternative. */
  ghost predicate Explains(log: seq<Query>, at: seq<nat>, path: seq<Constraint>, n: nat)
    requires n <= |path|
  {
    && |at| == |log|
    && (forall i :: 0 <= i < |at| ==> at[i] < n && AsksAt(log[i], path, at[i]))
    && (forall i, j :: 0 <= i < j < |at| ==> at[i] < at[j])
    && (forall m :: 0 <= m < n && m !in at ==> forall input: Input :: Satisfied(path[m], input))
  }

  method PushNext(s: SolverState, path: seq<Constraint>, n: nat, ghost at: seq<nat>, ghost actual: Input)
    returns (ghost at': seq<nat>)
    requires n < |path| && PathSat(path, actual) && IsCondition(path[n].expr)
    requires s.Valid() && s.scopes == [] && SatAll(s.asserted, actual) && Explains(s.log, at, path, n)
    requires forall input: Input :: SatAll(s.asserted, input) <==> PathSat(path[..n], input)
    modifies s
    ensures s.Valid() && s.scopes == [] && SatAll(s.asserted, actual) && Explains(s.log, at', path, n + 1)
    ensures forall input: Input :: SatAll(s.asserted, input) <==> PathSat(path[..n + 1], input)
  {
    hide SatAll, Satisfied, SoundSimplifier, DecidesSatisfiability;
    var k := path[n];
    PathNext(path, n);
    assert Satisfied(k, actual);
    s.PushPathConstraint(Some(k.expr), k.taken, actual);
    if s.log == old(s.log) {
      at' := at;
    } else {
      at' := at + [n];
      assert AsksAt(s.log[|at|], path, n);
      assert forall m :: m in at' <==> m in at || m == n;
    }
  }

  lemma PathNext(path: seq<Constraint>, n: nat)
    requires n < |path|
    ensures forall input: Input :: PathSat(path[..n + 1], input) <==>
      PathSat(path[..n], input) && Satisfied(path[n], input)
  {
    forall input: Input
      ensures PathSat(path[..n + 1], input) <==> PathSat(path[..n], input) && Satisfied(path[n], input)
    {
      hide Satisfied;
      assert path[..n + 1] == path[..n] + [path[n]];
      PathSatAppend(path[..n], [path[n]], input);
      assert [path[n]][0] == path[n];
    }
  }

  /** The solver fed with the constraints of a run: afterwards its solutions
      are exactly the inputs that satisfy the path condition. */
  method PushAll(s: SolverState, path: seq<Constraint>, ghost actual: Input) returns (ghost at: seq<nat>)
    requires s.Valid() && s.asserted == [] && s.scopes == [] && s.log == []
    requires PathSat(path, actual) && forall k :: 0 <= k < |path| ==> IsCondition(path[k].expr)
    modifies s
    ensures s.Valid() && s.scopes == []
    ensures forall input: Input :: SatAll(s.asserted, input) <==> PathSat(path, input)
    ensures Explains(s.log, at, path, |path|)
  {
    hide Satisfied, SoundSimplifier, DecidesSatisfiability, AsksAt;
    at := [];
    for n := 0 to |path|
      invariant s.Valid() && s.scopes == [] && SatAll(s.asserted, actual) && Explains(s.log, at, path, n)
      invariant forall input: Input :: SatAll(s.asserted, input) <==> PathSat(path[..n], input)
    {
      at := PushNext(s, path, n, at, actual);
    }
    assert path[..|path|] == path;
  }
}
