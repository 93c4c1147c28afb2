/** Computations grown one call at a time: what they build, and what they read. */
module CallChains {
  import opened Expressions
  import opened ShortCircuit
  import opened AddressChains

  function Nothing(): (c: Computation)
  {
    Computation([], [])
  }

  function Inputs(c: Computation): (syms: set<SymOperand>)
  {
    set i | 0 <= i < |c.inputs| :: SlotOperand(c.calls, c.inputs[i])
  }

  function ArgSyms(args: seq<CallArg>): (syms: set<SymOperand>)
  {
    set j | 0 <= j < |args| && args[j].Symbolic? :: args[j].sym
  }

  /** The calls of `c` make the expressions `done` from the inputs `syms`. */
  predicate Builds(c: Computation, env: Env, done: seq<Expr>, syms: set<SymOperand>)
  {
    Coherent(c) && Ideal(c, env) == Some(done) && Inputs(c) == syms
  }

  lemma Start(env: Env)
    ensures Builds(Nothing(), env, [], {})
  {
  }

  lemma BuildsSize(c: Computation, env: Env, done: seq<Expr>, syms: set<SymOperand>)
    requires Builds(c, env, done, syms)
    ensures |done| == |c.calls|
  {
  }

  lemma InputsGrow(c: Computation, b: Builder, args: seq<CallArg>)
    requires Coherent(c) && ArgsFit(c, b, args)
    ensures Inputs(Force(c, b, args)) == Inputs(c) + ArgSyms(args)
  {
    hide Coherent, Force, SlotOperand;
    var r := Force(c, b, args);
    assert OnlyFrom(c, Inputs(c) + ArgSyms(args));
    ForceOnlyFrom(c, b, args, Inputs(c) + ArgSyms(args));
    forall sym | sym in Inputs(c) + ArgSyms(args)
      ensures sym in Inputs(r)
    {
      ForceCovers(c, b, args, sym);
    }
    assert forall sym :: sym in Inputs(r) ==> sym in Inputs(c) + ArgSyms(args);
  }

  /** One more call. */
  lemma Then(c: Computation, b: Builder, args: seq<CallArg>, env: Env, done: seq<Expr>, syms: set<SymOperand>)
    requires Builds(c, env, done, syms) && ArgsFit(c, b, args)
    ensures var e := Apply(b, env, ArgValues(args, env, done));
      Builds(Force(c, b, args), env, done + [e], syms + ArgSyms(args))
  {
    hide Coherent, Apply, Ideal, Force, Inputs, ArgSyms;
    ForceMeaning(c, b, args, env, done);
    InputsGrow(c, b, args);
  }

  predicate NoneSymbolic(env: Env, syms: set<SymOperand>)
  {
    forall sym :: sym in syms ==> OperandExpr(env, sym).None?
  }

  /** What the rewritten computation returns and pushes. */
  lemma Finish(c: Computation, env: Env, done: seq<Expr>, syms: set<SymOperand>)
    requires Builds(c, env, done, syms) && syms != {} && done != []
    ensures WellFormed(c) && |done| == |c.calls|
    ensures Exec(Rewritten(c), env) == Done(if NoneSymbolic(env, syms) then None else Some(done[|done| - 1]))
    ensures ExecPushes(Rewritten(c), env)
         == if NoneSymbolic(env, syms) then [] else PushedBy(c.calls, done, env, |c.calls|)
  {
    hide Coherent, Exec, ExecPushes, PushedBy, Rewritten, IdealSlots, SlotOperand, OperandExpr;
    BuildsSize(c, env, done, syms);
    assert c.inputs != [];
    assert AllConcrete(c, env) <==> NoneSymbolic(env, syms);
    RewriteCorrect(c, env);
    RewritePushes(c, env);
  }
}
