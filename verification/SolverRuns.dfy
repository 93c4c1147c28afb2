/** The solver beside a whole instrumented run: what its assertions and its
    queries say about other runs of the same program. */
module SolverRuns {
  import opened BitVectors
  import opened Expressions
  import opened Offsets
  import opened Programs
  import opened Replay
  import opened ReplaySteps
  import opened ReplayTheorems
  import opened Solver

  predicate AllConditions(path: seq<Constraint>)
  {
    forall k :: 0 <= k < |path| ==> IsCondition(path[k].expr)
  }

  lemma {:induction false} PushedConditions(ds: seq<Decision>)
    requires forall k :: 0 <= k < |ds| && ds[k].expr.Some? ==> IsCondition(ds[k].expr.value)
    ensures AllConditions(Pushed(ds))
  {
    hide IsCondition;
    if ds != [] {
      PushedConditions(ds[..|ds| - 1]);
    }
  }

  lemma NextConditions(p: Program, st: State, input: Input)
    requires ProgramOk(p) && |st.s.exprs| == |st.c.stack| && Rel(p, st.c, st.s, st.c, input)
    ensures AllConditions(Pushed(NextDecisions(p, st)))
  {
    hide FrameRel, Decisions, ProgramOk, StackRel, MemoryAgree, IsCondition, Outcomes, Truth;
    var ds := NextDecisions(p, st);
    if st.c.status.Running? && st.c.stack != [] {
      TopRel(p, st.c, st.s, st.c, input);
      var fr := Top(st.c);
      DecisionsPredict(p, fr, st.s.exprs[|st.s.exprs| - 1], fr, input);
      forall k | 0 <= k < |ds| && ds[k].expr.Some?
        ensures IsCondition(ds[k].expr.value)
      {
        assert Predicts(ds[k], Outcomes(p, fr, fr)[k], Outcomes(p, fr, fr)[k], input);
      }
    }
    PushedConditions(ds);
  }

  /** Every constraint of a run is a formula that the solver accepts. */
  lemma {:induction false} PathConditions(p: Program, input: Input, memory: map<int, Byte>, n: nat)
    requires ProgramOk(p) && !CRun(p, input, memory, n).status.Trapped?
    ensures AllConditions(Run(p, input, memory, n).s.path)
  {
    hide CStep, SStep, NextDecisions, Pushed, Rel, ProgramOk, IsCondition;
    if n > 0 {
      var st := Run(p, input, memory, n - 1);
      Untrapped(p, input, memory, n - 1);
      PathConditions(p, input, memory, n - 1);
      PathConditionHolds(p, input, memory, n - 1);
      PathGrows(p, input, memory, n - 1);
      NextConditions(p, st, input);
    }
  }

  /** The step of the run that pushed the constraint at position `m`. */
  lemma {:induction false} PathPosition(p: Program, input: Input, memory: map<int, Byte>, n: nat, m: nat)
    returns (i: nat, k: nat)
    requires !CRun(p, input, memory, n).status.Trapped? && m < |Run(p, input, memory, n).s.path|
    ensures i < n && !CRun(p, input, memory, i).status.Trapped?
    ensures var path, st := Run(p, input, memory, n).s.path, Run(p, input, memory, i);
      var cs := Pushed(NextDecisions(p, st));
      k < |cs| && path[..m] == st.s.path + cs[..k] && path[m] == cs[k]
  {
    hide CStep, SStep, NextDecisions, Pushed;
    if n == 0 {
      assert false;
    } else {
      var st := Run(p, input, memory, n - 1);
      Untrapped(p, input, memory, n - 1);
      PathGrows(p, input, memory, n - 1);
      if m < |st.s.path| {
        i, k := PathPosition(p, input, memory, n - 1, m);
        assert Run(p, input, memory, n).s.path[..m] == st.s.path[..m];
      } else {
        i, k := n - 1, m - |st.s.path|;
        assert Run(p, input, memory, n).s.path[..m] == st.s.path + Pushed(NextDecisions(p, st))[..k];
      }
    }
  }

  /** The run on `input'` follows the recorded run up to step `i` and makes
      decision `j` there differently, unless a division before that is foreseen
      to trap, and then it has trapped. */
  ghost predicate TurnsAway(p: Program, input: Input, memory: map<int, Byte>, i: nat, j: nat, input': Input)
  {
    if DivisorsAlive(p, input, memory, i, input') then DivergesAt(p, input, memory, i, j, input')
    else CRun(p, input', memory, i).status.Trapped?
  }

  /** Any input that satisfies the constraints before position `m` and violates
      the one there makes the program diverge. */
  lemma FlippedDiverges(p: Program, input: Input, memory: map<int, Byte>, n: nat, m: nat, input': Input)
    returns (i: nat, j: nat)
    requires ProgramOk(p) && !CRun(p, input, memory, n).status.Trapped? && ReadsAlike(p, input, memory, n, input')
    requires m < |Run(p, input, memory, n).s.path|
    requires PathSat(Run(p, input, memory, n).s.path[..m], input')
      && !Satisfied(Run(p, input, memory, n).s.path[m], input')
    ensures i < n && TurnsAway(p, input, memory, i, j, input')
  {
    hide CStep, SStep, NextDecisions, Pushed, Rel, ProgramOk, Satisfied, Outcomes, DivisorsAlive, ReadAlike, CRun,
         DivergesAt;
    var k: nat;
    i, k := PathPosition(p, input, memory, n, m);
    j := Divergence(p, input, memory, i, k, input');
  }

  /** A run whose constraints can be satisfied up to `m` and violated there by
      any input has an input of its own length that does so. */
  lemma ResizedFlips(p: Program, input: Input, memory: map<int, Byte>, n: nat, m: nat, input': Input)
    requires m < |Run(p, input, memory, n).s.path|
    ensures var path := Run(p, input, memory, n).s.path;
      PathSat(path[..m], Resized(input', |input|)) == PathSat(path[..m], input')
      && Satisfied(path[m], Resized(input', |input|)) == Satisfied(path[m], input')
  {
    hide CStep, SStep, Eval, Within;
    var path, input'' := Run(p, input, memory, n).s.path, Resized(input', |input|);
    RunWithin(p, input, memory, n);
    PathOfRun(Run(p, input, memory, n).s, |input|);
    forall k | 0 <= k < |path|
      ensures Satisfied(path[k], input'') == Satisfied(path[k], input')
    {
      EvalResized(path[k].expr, input', |input|);
    }
    assert forall k :: 0 <= k < m ==> path[..m][k] == path[k];
  }

  lemma PathOfRun(s: Sym, n: nat)
    requires SymWithin(s, n)
    ensures PathWithin(s.path, n)
  {
  }

  /** An input of the recorded length on which the program turns away. */
  ghost predicate Discovers(p: Program, input: Input, memory: map<int, Byte>, n: nat, input': Input)
  {
    |input'| == |input| && exists i: nat, j: nat :: i < n && TurnsAway(p, input, memory, i, j, input')
  }

  /** A query is feasible exactly when it has a solution of the recorded
      length, and every such solution makes the program diverge. */
  lemma QueryDiscovers(p: Program, input: Input, memory: map<int, Byte>, n: nat, m: nat, q: Query)
    requires ProgramOk(p) && !CRun(p, input, memory, n).status.Trapped?
    requires m < |Run(p, input, memory, n).s.path| && AsksAt(q, Run(p, input, memory, n).s.path, m)
    ensures q.feasible <==> exists input': Input :: SatAll(q.formulas, input') && Discovers(p, input, memory, n, input')
  {
    hide CStep, SStep, PathSat, Satisfied, SatAll, TurnsAway, CRun, Run, ProgramOk;
    if q.feasible {
      var input' :| SatAll(q.formulas, input');
      var input'' := Resized(input', |input|);
      ResizedFlips(p, input, memory, n, m, input');
      SameLengthAlike(p, input, memory, n, input'');
      var i, j := FlippedDiverges(p, input, memory, n, m, input'');
      assert Discovers(p, input, memory, n, input'');
    }
  }

  /** The solver fed with a run. Its solutions are the inputs that replay the
      run as long as divisions are alive; every constraint with an alternative is
      queried once, in order; a solution of a query makes the
      program diverge; and every feasible query has such a solution of the
      recorded length. */
  method SolveRun(p: Program, input: Input, memory: map<int, Byte>, n: nat, s: SolverState) returns (ghost at: seq<nat>)
    requires ProgramOk(p) && !CRun(p, input, memory, n).status.Trapped?
    requires s.Valid() && s.asserted == [] && s.scopes == [] && s.log == []
    modifies s
    ensures s.scopes == [] && SatAll(s.asserted, input)
    ensures var path := Run(p, input, memory, n).s.path;
      Explains(s.log, at, path, |path|)
      && forall input': Input :: SatAll(s.asserted, input') <==> PathSat(path, input')
    ensures forall input': Input :: SatAll(s.asserted, input') && ReadsAlike(p, input, memory, n, input') ==>
      (RelAt(p, input, memory, n, input') <==> DivisorsAlive(p, input, memory, n, input'))
    ensures forall q, input': Input ::
      q in s.log && SatAll(q.formulas, input') && ReadsAlike(p, input, memory, n, input') ==>
      exists i: nat, j: nat :: i < n && TurnsAway(p, input, memory, i, j, input')
    ensures forall q :: q in s.log ==>
      (q.feasible <==> exists input': Input :: SatAll(q.formulas, input') && Discovers(p, input, memory, n, input'))
  {
    hide CStep, SStep, NextDecisions, Pushed, Rel, ProgramOk, Satisfied, PathSat, SatAll, TurnsAway, CRun, ReadsAlike,
         DivisorsAlive, Discovers, SoundSimplifier, DecidesSatisfiability;
    var path := Run(p, input, memory, n).s.path;
    PathConditionHolds(p, input, memory, n);
    PathConditions(p, input, memory, n);
    at := PushAll(s, path, input);
    forall input': Input | SatAll(s.asserted, input') && ReadsAlike(p, input, memory, n, input')
      ensures RelAt(p, input, memory, n, input') <==> DivisorsAlive(p, input, memory, n, input')
    {
      ReplaySoundness(p, input, memory, n, input');
    }
    forall q, input': Input | q in s.log && SatAll(q.formulas, input') && ReadsAlike(p, input, memory, n, input')
      ensures exists i: nat, j: nat :: i < n && TurnsAway(p, input, memory, i, j, input')
    {
      var l :| 0 <= l < |s.log| && s.log[l] == q;
      assert AsksAt(s.log[l], path, at[l]);
      var i, j := FlippedDiverges(p, input, memory, n, at[l], input');
    }
    forall q | q in s.log
      ensures q.feasible <==>
        exists input': Input :: SatAll(q.formulas, input') && Discovers(p, input, memory, n, input')
    {
      var l :| 0 <= l < |s.log| && s.log[l] == q;
      assert AsksAt(s.log[l], path, at[l]);
      QueryDiscovers(p, input, memory, n, at[l], q);
    }
  }
}
