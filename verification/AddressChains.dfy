/** Address computations: the chain of run-time calls that the pass emits for
    a getelementptr instruction, and what the chain means. */
module AddressChains {
  import opened Expressions
  import opened Lifting
  import opened Programs
  import opened ShortCircuit

  // ---------- appending calls to a computation ----------

  datatype CallArg = Plain(k: nat) | Symbolic(source: Source, sym: SymOperand)

  function ArgOf(a: CallArg): (r: Arg)
  {
    match a case Plain(k) => Result(k) case Symbolic(_, sym) => Arg.Input(sym)
  }

  function ArgsOf(args: seq<CallArg>): (r: seq<Arg>)
    ensures |r| == |args|
  {
    seq(|args|, j requires 0 <= j < |args| => ArgOf(args[j]))
  }

  /** The inputs of call `user`, for its first `n` arguments. */
  function UsesOf(args: seq<CallArg>, user: nat, n: nat): (us: seq<Use>)
    requires n <= |args|
  {
    if n == 0 then []
    else
      var a := args[n - 1];
      UsesOf(args, user, n - 1) + if a.Symbolic? then [Use(a.source, user, n - 1)] else []
  }

  function Force(c: Computation, b: Builder, args: seq<CallArg>): (r: Computation)
  {
    Computation(c.calls + [Call(b, ArgsOf(args))], c.inputs + UsesOf(args, |c.calls|, |args|))
  }

  predicate ArgsFit(c: Computation, b: Builder, args: seq<CallArg>)
  {
    |args| == Arity(b) && forall j :: 0 <= j < |args| && args[j].Plain? ==> args[j].k < |c.calls|
  }

  /** The `i`-th use belongs to a symbolic argument. */
  lemma {:induction false} UseShape(args: seq<CallArg>, user: nat, n: nat, i: nat)
    requires n <= |args| && i < |UsesOf(args, user, n)|
    ensures var u := UsesOf(args, user, n)[i];
      u.operand < n && args[u.operand].Symbolic? && u == Use(args[u.operand].source, user, u.operand)
  {
    if i < |UsesOf(args, user, n - 1)| {
      UseShape(args, user, n - 1, i);
    }
  }

  lemma {:induction false} UsesOrdered(args: seq<CallArg>, user: nat, n: nat, i: nat, i': nat)
    requires n <= |args| && i < i' < |UsesOf(args, user, n)|
    ensures UsesOf(args, user, n)[i].operand < UsesOf(args, user, n)[i'].operand
  {
    if i' < |UsesOf(args, user, n - 1)| {
      UsesOrdered(args, user, n - 1, i, i');
    } else {
      UseShape(args, user, n - 1, i);
    }
  }

  lemma {:induction false} FindUseAppend(us: seq<Use>, more: seq<Use>, k: nat, j: nat)
    ensures FindUse(us + more, k, j)
      == if FindUse(more, k, j).Some? then Some(|us| + FindUse(more, k, j).value) else FindUse(us, k, j)
  {
    if more == [] {
      assert us + more == us;
    } else {
      assert (us + more)[..|us + more| - 1] == us + more[..|more| - 1];
      FindUseAppend(us, more[..|more| - 1], k, j);
    }
  }

  lemma {:induction false} UsesFound(args: seq<CallArg>, user: nat, n: nat, k: nat, j: nat)
    requires n <= |args|
    ensures var i := FindUse(UsesOf(args, user, n), k, j);
      (i.Some? <==> k == user && j < n && args[j].Symbolic?)
      && (i.Some? ==> UsesOf(args, user, n)[i.value] == Use(args[j].source, user, j))
  {
    if n > 0 {
      UsesFound(args, user, n - 1, k, j);
      var before, us := UsesOf(args, user, n - 1), UsesOf(args, user, n);
      if args[n - 1].Symbolic? {
        assert us[..|us| - 1] == before;
      } else {
        assert us == before;
      }
    }
  }

  /** Appending a call keeps the uses of the earlier ones. */
  lemma ForceUses(c: Computation, b: Builder, args: seq<CallArg>, k: nat, j: nat)
    ensures k < |c.calls| ==> FindUse(Force(c, b, args).inputs, k, j) == FindUse(c.inputs, k, j)
    ensures k == |c.calls| && j < |args| && args[j].Symbolic? ==>
      var i := FindUse(Force(c, b, args).inputs, k, j);
      i.Some? && Force(c, b, args).inputs[i.value] == Use(args[j].source, k, j)
  {
    hide UsesOf, FindUse;
    var us := UsesOf(args, |c.calls|, |args|);
    UsesFound(args, |c.calls|, |args|, k, j);
    FindUseAppend(c.inputs, us, k, j);
  }

  lemma ForceUse(c: Computation, b: Builder, args: seq<CallArg>, i: nat)
    requires Coherent(c) && i < |Force(c, b, args).inputs|
    ensures var u, calls := Force(c, b, args).inputs[i], Force(c, b, args).calls;
      SlotExists(calls, u.user, u.operand) && calls[u.user].args[u.operand].Input?
      && (if i < |c.inputs| then u == c.inputs[i] && u.user < |c.calls| else u.user == |c.calls|)
  {
    hide UsesOf, FindUse;
    if i < |c.inputs| {
      assert Force(c, b, args).inputs[i] == c.inputs[i];
    } else {
      UseShape(args, |c.calls|, |args|, i - |c.inputs|);
    }
  }

  lemma ForceCoherent(c: Computation, b: Builder, args: seq<CallArg>)
    requires Coherent(c) && ArgsFit(c, b, args)
    ensures Coherent(Force(c, b, args))
  {
    hide UsesOf, FindUse;
    var n, r := |c.calls|, Force(c, b, args);
    forall i | 0 <= i < |r.inputs|
      ensures SlotExists(r.calls, r.inputs[i].user, r.inputs[i].operand)
        && r.calls[r.inputs[i].user].args[r.inputs[i].operand].Input?
    {
      ForceUse(c, b, args, i);
    }
    forall k, j | 0 <= k < |r.calls| && 0 <= j < |r.calls[k].args|
      ensures match r.calls[k].args[j]
        case Input(_) => FindUse(r.inputs, k, j).Some?
        case Result(q) => q < k
        case Fresh(_) => false
    {
      ForceUses(c, b, args, k, j);
    }
    forall i, i' | 0 <= i < i' < |r.inputs|
      ensures !UsesAt(r.inputs[i'], r.inputs[i].user, r.inputs[i].operand)
    {
      ForceUse(c, b, args, i);
      ForceUse(c, b, args, i');
      if i >= |c.inputs| {
        UsesOrdered(args, n, |args|, i - |c.inputs|, i' - |c.inputs|);
      } else if i' < |c.inputs| {
        assert !UsesAt(c.inputs[i'], c.inputs[i].user, c.inputs[i].operand);
      }
    }
  }

  // ---------- the meaning of an appended call ----------

  function ArgValue(a: CallArg, env: Env, done: seq<Expr>): (e: Expr)
  {
    match a
    case Plain(k) => if k < |done| then done[k] else BoolConst(false)
    case Symbolic(s, sym) => Given(env, OperandExpr(env, sym), s)
  }

  function ArgValues(args: seq<CallArg>, env: Env, done: seq<Expr>): (es: seq<Expr>)
    ensures |es| == |args|
  {
    seq(|args|, j requires 0 <= j < |args| => ArgValue(args[j], env, done))
  }

  function Ideal(c: Computation, env: Env): (r: Option<seq<Expr>>)
  {
    Results(c.calls, IdealSlots(c, env), env, |c.calls|)
  }

  lemma {:induction false} PrefixResults(a: seq<Call>, sa: Slots, b: seq<Call>, sb: Slots, env: Env, n: nat)
    requires n <= |a| <= |b| && a == b[..|a|]
    requires forall k, j :: 0 <= k < n && 0 <= j < |a[k].args| && !a[k].args[j].Result? ==> sb(k, j) == sa(k, j)
    ensures Results(a, sa, env, n) == Results(b, sb, env, n)
  {
    hide Apply, AllPresent;
    if n > 0 {
      PrefixResults(a, sa, b, sb, env, n - 1);
      assert a[n - 1] == b[n - 1];
      var before := Results(a, sa, env, n - 1);
      if before.Some? {
        assert ArgExprs(a[n - 1], n - 1, sa, before.value) == ArgExprs(b[n - 1], n - 1, sb, before.value);
      }
    }
  }

  lemma ForceSlots(c: Computation, b: Builder, args: seq<CallArg>, env: Env, k: nat, j: nat)
    requires Coherent(c) && ArgsFit(c, b, args)
    ensures SlotExists(c.calls, k, j) ==> IdealSlots(Force(c, b, args), env)(k, j) == IdealSlots(c, env)(k, j)
    ensures k == |c.calls| && j < |args| && args[j].Symbolic? ==>
      IdealSlots(Force(c, b, args), env)(k, j) == Some(ArgValue(args[j], env, []))
  {
    hide ExprOf, OpVal, ValueExpr, UsesOf;
    ForceUses(c, b, args, k, j);
    var r := Force(c, b, args);
    if SlotExists(c.calls, k, j) {
      var i := FindUse(c.inputs, k, j);
      if i.Some? {
        assert r.inputs[i.value] == c.inputs[i.value];
      }
    }
  }

  lemma ForceArgs(c: Computation, b: Builder, args: seq<CallArg>, env: Env, done: seq<Expr>)
    requires Coherent(c) && ArgsFit(c, b, args) && |done| == |c.calls|
    ensures var es := ArgExprs(Call(b, ArgsOf(args)), |c.calls|, IdealSlots(Force(c, b, args), env), done);
      AllPresent(es) && Unwrap(es) == ArgValues(args, env, done)
  {
    hide IdealSlots, Coherent;
    var es := ArgExprs(Call(b, ArgsOf(args)), |c.calls|, IdealSlots(Force(c, b, args), env), done);
    forall j | 0 <= j < |args|
      ensures es[j] == Some(ArgValue(args[j], env, done))
    {
      ForceSlots(c, b, args, env, |c.calls|, j);
    }
  }

  /** An appended call applies its builder to its arguments' expressions. */
  lemma ForceMeaning(c: Computation, b: Builder, args: seq<CallArg>, env: Env, done: seq<Expr>)
    requires Coherent(c) && ArgsFit(c, b, args) && Ideal(c, env) == Some(done)
    ensures Coherent(Force(c, b, args))
    ensures Ideal(Force(c, b, args), env) == Some(done + [Apply(b, env, ArgValues(args, env, done))])
  {
    hide IdealSlots, Coherent, Apply, UsesOf;
    ForceCoherent(c, b, args);
    var r, n := Force(c, b, args), |c.calls|;
    assert c.calls == r.calls[..n];
    forall k, j | 0 <= k < n && 0 <= j < |c.calls[k].args|
      ensures IdealSlots(r, env)(k, j) == IdealSlots(c, env)(k, j)
    {
      ForceSlots(c, b, args, env, k, j);
    }
    PrefixResults(c.calls, IdealSlots(c, env), r.calls, IdealSlots(r, env), env, n);
    ForceArgs(c, b, args, env, done);
    assert r.calls[n] == Call(b, ArgsOf(args));
  }

  /** `sym` is one of the inputs, so it counts for concreteness. */
  predicate Covers(c: Computation, sym: SymOperand)
  {
    exists i :: 0 <= i < |c.inputs| && SlotOperand(c.calls, c.inputs[i]) == sym
  }

  lemma ForceCovers(c: Computation, b: Builder, args: seq<CallArg>, sym: SymOperand)
    requires Coherent(c) && ArgsFit(c, b, args)
    requires Covers(c, sym) || exists j :: 0 <= j < |args| && args[j].Symbolic? && args[j].sym == sym
    ensures Covers(Force(c, b, args), sym)
  {
    hide UsesOf;
    var r, n := Force(c, b, args), |c.calls|;
    if Covers(c, sym) {
      var i :| 0 <= i < |c.inputs| && SlotOperand(c.calls, c.inputs[i]) == sym;
      assert r.inputs[i] == c.inputs[i];
      assert SlotOperand(r.calls, r.inputs[i]) == sym;
    } else {
      var j :| 0 <= j < |args| && args[j].Symbolic? && args[j].sym == sym;
      ForceUses(c, b, args, n, j);
      var i := FindUse(r.inputs, n, j);
      assert SlotOperand(r.calls, r.inputs[i.value]) == sym;
    }
  }

  /** Every input comes from one of `syms`. */
  predicate OnlyFrom(c: Computation, syms: set<SymOperand>)
  {
    forall i :: 0 <= i < |c.inputs| ==> SlotOperand(c.calls, c.inputs[i]) in syms
  }

  lemma ForceOnlyFrom(c: Computation, b: Builder, args: seq<CallArg>, syms: set<SymOperand>)
    requires Coherent(c) && OnlyFrom(c, syms)
    requires forall j :: 0 <= j < |args| && args[j].Symbolic? ==> args[j].sym in syms
    ensures OnlyFrom(Force(c, b, args), syms)
  {
    hide UsesOf, Coherent;
    var r, n := Force(c, b, args), |c.calls|;
    forall i | 0 <= i < |r.inputs|
      ensures SlotOperand(r.calls, r.inputs[i]) in syms
    {
      ForceUse(c, b, args, i);
      if i < |c.inputs| {
        assert SlotOperand(r.calls, r.inputs[i]) == SlotOperand(c.calls, c.inputs[i]);
      } else {
        UseShape(args, n, |args|, i - |c.inputs|);
      }
    }
  }
}
