/** Casts as the pass emits them: one run-time call, or two where a Boolean is
    converted before an extension or after a truncation. */
module CastChains {
  import opened Expressions
  import opened Lifting
  import opened Programs
  import opened ShortCircuit
  import opened AddressChains
  import opened CallChains

  function ExtensionOf(k: Cast, extra: nat): (b: Builder)
  {
    if k.ZExtCast? then ZExtB(extra) else SExtB(extra)
  }

  function FirstCall(k: Cast, from: nat, to: nat, a: CallArg): (c: Computation)
  {
    var b := if k.TruncCast? then TruncB(to) else if from == 1 then BoolToBitB else ExtensionOf(k, ExtraBits(from, to));
    Force(Nothing(), b, [a])
  }

  function CastCalls(k: Cast, from: nat, to: nat, o: Operand, sym: SymOperand): (c: Computation)
  {
    var first := FirstCall(k, from, to, Symbolic(Word(o, from), sym));
    if k.TruncCast? then (if to == 1 then Force(first, BitToBoolB, [Plain(0)]) else first)
    else if from == 1 then Force(first, ExtensionOf(k, ExtraBits(from, to)), [Plain(0)])
    else first
  }

  lemma FirstOn(b: Builder, s: Source, sym: SymOperand, env: Env)
    requires Arity(b) == 1
    ensures var e := Given(env, OperandExpr(env, sym), s);
      Builds(Force(Nothing(), b, [Symbolic(s, sym)]), env, [Apply(b, env, [e])], {sym})
  {
    hide Builds, Apply, OperandExpr, Given;
    var a := Symbolic(s, sym);
    Start(env);
    Then(Nothing(), b, [a], env, [], {});
    assert [a][0] == a;
    assert {} + ArgSyms([a]) == {sym};
    var e := ArgValue(a, env, []);
    assert ArgValues([a], env, []) == [e];
    assert [] + [Apply(b, env, [e])] == [Apply(b, env, [e])];
  }

  /** One more call, on the result of the last one. */
  lemma NextOn(c: Computation, b: Builder, env: Env, done: seq<Expr>, k: nat, syms: set<SymOperand>)
    requires Builds(c, env, done, syms) && Arity(b) == 1 && k < |done|
    ensures Builds(Force(c, b, [Plain(k)]), env, done + [Apply(b, env, [done[k]])], syms)
  {
    hide Builds, Apply;
    BuildsSize(c, env, done, syms);
    Then(c, b, [Plain(k)], env, done, syms);
    assert syms + ArgSyms([Plain(k)]) == syms;
    assert ArgValues([Plain(k)], env, done) == [done[k]];
  }

  /** The computation of a cast, once rewritten, is the lifted cast of the
      program model: null in gives null out. */
  lemma CastIsLift(k: Cast, from: nat, to: nat, o: Operand, sym: SymOperand, env: Env)
    requires to >= 1
    ensures WellFormed(CastCalls(k, from, to, o, sym))
    ensures Exec(Rewritten(CastCalls(k, from, to, o, sym)), env) == Done(LiftCast(k, from, to, OperandExpr(env, sym)))
  {
    hide Builds, Force, OperandExpr, Exec, Rewritten;
    var e := Coerce(OperandExpr(env, sym), OpVal(env.regs, o), from);
    var c, first := CastCalls(k, from, to, o, sym), FirstCall(k, from, to, Symbolic(Word(o, from), sym));
    var done;
    if k.TruncCast? {
      FirstOn(TruncB(to), Word(o, from), sym, env);
      done := [Extract(e, to - 1, 0)];
      if to == 1 {
        NextOn(first, BitToBoolB, env, done, 0, {sym});
        done := done + [BitToBool(done[0])];
      }
    } else if from == 1 {
      FirstOn(BoolToBitB, Word(o, from), sym, env);
      done := [BoolToBit(e)];
      NextOn(first, ExtensionOf(k, ExtraBits(from, to)), env, done, 0, {sym});
      done := done + [Apply(ExtensionOf(k, ExtraBits(from, to)), env, done)];
    } else {
      FirstOn(ExtensionOf(k, ExtraBits(from, to)), Word(o, from), sym, env);
      done := [Apply(ExtensionOf(k, ExtraBits(from, to)), env, [e])];
    }
    Finish(c, env, done, {sym});
  }
}
