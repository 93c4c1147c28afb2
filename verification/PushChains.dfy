/** The computations that only push a path constraint. */
module PushChains {
  import opened Expressions
  import opened Lifting
  import opened Programs
  import opened ShortCircuit
  import opened AddressChains
  import opened CallChains
  import opened CastChains

  /** A branch or select on `cond`. */
  function BranchCalls(cond: Operand, sym: SymOperand): (c: Computation)
  {
    Force(Nothing(), PushB(cond), [Symbolic(Word(cond, 1), sym)])
  }

  /** The rewritten computation pushes the decision of the program model. */
  lemma BranchPushes(cond: Operand, sym: SymOperand, env: Env)
    ensures WellFormed(BranchCalls(cond, sym))
    ensures ExecPushes(Rewritten(BranchCalls(cond, sym)), env)
         == Pushed([Decision(OperandExpr(env, sym), OpVal(env.regs, cond) != 0)])
  {
    hide Builds, OperandExpr, ExecPushes, Rewritten, OpVal;
    var e := Coerce(OperandExpr(env, sym), OpVal(env.regs, cond), 1);
    FirstOn(PushB(cond), Word(cond, 1), sym, env);
    var c := BranchCalls(cond, sym);
    Finish(c, env, [e], {sym});
    assert PushedBy(c.calls, [e], env, 0) == [];
    PushedOne(Decision(OperandExpr(env, sym), OpVal(env.regs, cond) != 0));
  }

  lemma PushedOne(d: Decision)
    ensures Pushed([d]) == if d.expr.Some? then [Constraint(d.expr.value, d.taken)] else []
  {
    assert [d][..0] == [];
    assert Pushed([d][..0]) == [];
  }

  /** `tryAlternative`: the value's constant, the equation, and its push. */
  function AlternativeCalls(v: Operand, sym: SymOperand, w: nat): (c: Computation)
  {
    Force(EquationCalls(v, sym, w), PushB(Const(1, 1)), [Plain(1)])
  }

  function EquationCalls(v: Operand, sym: SymOperand, w: nat): (c: Computation)
  {
    Force(Force(Nothing(), ConstB(Word(v, w)), []), CompareB(Eq), [Symbolic(Word(v, w), sym), Plain(0)])
  }

  lemma ConstantBuilds(s: Source, env: Env)
    ensures Builds(Force(Nothing(), ConstB(s), []), env, [Given(env, None, s)], {})
  {
    hide Builds, Given;
    Start(env);
    Then(Nothing(), ConstB(s), [], env, [], {});
    assert {} + ArgSyms([]) == {};
    assert [] + [Given(env, None, s)] == [Given(env, None, s)];
  }

  lemma EquationBuilds(v: Operand, sym: SymOperand, w: nat, env: Env)
    ensures var e, k := Coerce(OperandExpr(env, sym), OpVal(env.regs, v), w), ValueExpr(OpVal(env.regs, v), w);
      Builds(EquationCalls(v, sym, w), env, [k, Compare(Eq, e, k)], {sym})
  {
    hide Builds, OperandExpr, ValueExpr, OpVal;
    var e, k := Coerce(OperandExpr(env, sym), OpVal(env.regs, v), w), ValueExpr(OpVal(env.regs, v), w);
    ConstantBuilds(Word(v, w), env);
    var made := Force(Nothing(), ConstB(Word(v, w)), []);
    var args := [Symbolic(Word(v, w), sym), Plain(0)];
    assert args[0].sym == sym;
    assert {} + ArgSyms(args) == {sym};
    assert ArgValues(args, env, [k]) == [e, k];
    Then(made, CompareB(Eq), args, env, [k], {});
    assert [k] + [Compare(Eq, e, k)] == [k, Compare(Eq, e, k)];
  }

  lemma AlternativeBuilds(v: Operand, sym: SymOperand, w: nat, env: Env)
    ensures var e, k := Coerce(OperandExpr(env, sym), OpVal(env.regs, v), w), ValueExpr(OpVal(env.regs, v), w);
      Builds(AlternativeCalls(v, sym, w), env, [k, Compare(Eq, e, k), Compare(Eq, e, k)], {sym})
  {
    hide Builds, OperandExpr, ValueExpr, OpVal, Coerce, EquationCalls;
    var e, k := Coerce(OperandExpr(env, sym), OpVal(env.regs, v), w), ValueExpr(OpVal(env.regs, v), w);
    EquationBuilds(v, sym, w, env);
    NextOn(EquationCalls(v, sym, w), PushB(Const(1, 1)), env, [k, Compare(Eq, e, k)], 1, {sym});
    assert [k, Compare(Eq, e, k)] + [Compare(Eq, e, k)] == [k, Compare(Eq, e, k), Compare(Eq, e, k)];
  }

  /** The rewritten computation pushes that the value is what it was. */
  lemma AlternativePushes(v: Operand, sym: SymOperand, w: nat, env: Env)
    ensures WellFormed(AlternativeCalls(v, sym, w))
    ensures ExecPushes(Rewritten(AlternativeCalls(v, sym, w)), env)
         == Pushed([Concretize(OperandExpr(env, sym), OpVal(env.regs, v), w)])
  {
    hide Builds, OperandExpr, ExecPushes, Rewritten, OpVal, ValueExpr;
    var e, k := Coerce(OperandExpr(env, sym), OpVal(env.regs, v), w), ValueExpr(OpVal(env.regs, v), w);
    AlternativeBuilds(v, sym, w, env);
    var c, done := AlternativeCalls(v, sym, w), [k, Compare(Eq, e, k), Compare(Eq, e, k)];
    Finish(c, env, done, {sym});
    OnlyLast(c.calls, done, env);
    PushedOne(Concretize(OperandExpr(env, sym), OpVal(env.regs, v), w));
  }

  lemma OnlyLast(calls: seq<Call>, done: seq<Expr>, env: Env)
    requires |calls| == |done| == 3 && !calls[0].builder.PushB? && !calls[1].builder.PushB?
    requires calls[2].builder == PushB(Const(1, 1))
    ensures PushedBy(calls, done, env, 3) == [Constraint(done[2], true)]
  {
    assert PushedBy(calls, done, env, 0) == PushedBy(calls, done, env, 1) == PushedBy(calls, done, env, 2) == [];
  }
}
