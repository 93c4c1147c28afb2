/** The symbolic computations that the pass records, and the rewriting that
    runs them only when some input is symbolic. */
module ShortCircuit {
  import opened Expressions
  import opened Aggregates
  import opened Lifting
  import opened Programs

  // ---------- recorded computations ----------

  /** The expression operand of a run-time call: the null constant, or an
      instruction whose value is known at run time only. */
  datatype SymOperand = NullExpr | SymVar(id: nat)

  /** What a concrete value is made a constant expression from: an integer or
      pointer of some width, or a structure in a register. */
  datatype Source = Word(o: Operand, width: nat) | Aggregate(id: nat)

  /** `ConstB` makes a constant; `PushB` pushes a path constraint. */
  datatype Builder = BinaryB(op: BinOp, width: nat) | CompareB(pred: Pred)
                   | ZExtB(extra: nat) | SExtB(extra: nat) | TruncB(bits: nat) | BoolToBitB | BitToBoolB
                   | ExtractB(offset: nat, length: nat, little: bool) | InsertB(offset: nat, little: bool)
                   | ConstB(source: Source) | PushB(taken: Operand)

  /** A call argument: an input expression, the result of an earlier call of
      the same computation, or an expression that the rewriting provides. */
  datatype Arg = Input(o: SymOperand) | Result(k: nat) | Fresh(i: nat)

  datatype Call = Call(builder: Builder, args: seq<Arg>)

  /** `Input`: the value behind operand `operand` of call `user`. */
  datatype Use = Use(concrete: Source, user: nat, operand: nat)

  datatype Computation = Computation(calls: seq<Call>, inputs: seq<Use>)

  predicate SlotExists(calls: seq<Call>, k: nat, j: nat)
  {
    k < |calls| && j < |calls[k].args|
  }

  predicate UsesAt(u: Use, k: nat, j: nat)
  {
    u.user == k && u.operand == j
  }

  /** The last use of a slot, if any. */
  function FindUse(inputs: seq<Use>, k: nat, j: nat): (r: Option<nat>)
    ensures r.Some? ==> r.value < |inputs| && UsesAt(inputs[r.value], k, j)
    ensures r.None? ==> forall i :: 0 <= i < |inputs| ==> !UsesAt(inputs[i], k, j)
  {
    if inputs == [] then None
    else
      var n := |inputs| - 1;
      if UsesAt(inputs[n], k, j) then Some(n) else FindUse(inputs[..n], k, j)
  }

  function Arity(b: Builder): (n: nat)
  {
    if b.BinaryB? || b.CompareB? || b.InsertB? then 2 else if b.ConstB? then 0 else 1
  }

  /** Inputs name distinct input slots, cover all of them, and results refer
      backwards. */
  predicate Coherent(c: Computation)
  {
    && (forall i :: 0 <= i < |c.inputs| ==>
          var u := c.inputs[i];
          SlotExists(c.calls, u.user, u.operand) && c.calls[u.user].args[u.operand].Input?)
    && (forall i, i' :: 0 <= i < i' < |c.inputs| ==> !UsesAt(c.inputs[i'], c.inputs[i].user, c.inputs[i].operand))
    && (forall k :: 0 <= k < |c.calls| ==> |c.calls[k].args| == Arity(c.calls[k].builder))
    && (forall k, j :: 0 <= k < |c.calls| && 0 <= j < |c.calls[k].args| ==>
          match c.calls[k].args[j]
          case Input(_) => FindUse(c.inputs, k, j).Some?
          case Result(r) => r < k
          case Fresh(_) => false)
  }

  predicate WellFormed(c: Computation)
  {
    c.inputs != [] && c.calls != [] && Coherent(c)
  }

  // ---------- run-time meaning ----------

  /** `structs`: the constant expressions of the structures in registers. */
  datatype Env = Env(exprs: map<nat, SymExpr>, regs: map<nat, nat>, structs: map<nat, Expr>)

  /** An expression, or a constant for the value behind it. */
  function Given(env: Env, e: SymExpr, s: Source): (r: Expr)
  {
    match s
    case Word(o, w) => Coerce(e, OpVal(env.regs, o), w)
    case Aggregate(id) =>
      if e.Some? then e.value else if id in env.structs then env.structs[id] else BoolConst(false)
  }

  function OperandExpr(env: Env, o: SymOperand): (e: SymExpr)
  {
    match o case NullExpr => None case SymVar(id) => ExprOf(env.exprs, id)
  }

  /** The operands that the assertions of the builders of aggregates admit. */
  predicate Admits(b: Builder, es: seq<Expr>)
    requires |es| == Arity(b)
  {
    match b
    case ExtractB(offset, length, _) =>
      IsVector(es[0]) && WholeBytes(es[0]) && length >= 1 && 8 * (offset + length) <= Bits(es[0])
    case InsertB(offset, little) => Insertable(es[0], es[1], offset, little)
    case _ => true
  }

  /** A push has no result; its constraint stands for it, as the first operand
      does where an assertion fails. */
  function Apply(b: Builder, env: Env, es: seq<Expr>): (e: Expr)
    requires |es| == Arity(b)
  {
    match b
    case BinaryB(op, w) => BinaryExpr(op, w, es[0], es[1])
    case CompareB(p) => Compare(p, es[0], es[1])
    case ZExtB(extra) => ZExt(es[0], extra)
    case SExtB(extra) => SExt(es[0], extra)
    case TruncB(bits) => if bits >= 1 then Extract(es[0], bits - 1, 0) else es[0]
    case BoolToBitB => BoolToBit(es[0])
    case BitToBoolB => BitToBool(es[0])
    case ExtractB(offset, length, little) =>
      if Admits(b, es) then ExtractExpr(es[0], offset, length, little) else es[0]
    case InsertB(offset, little) => if Admits(b, es) then InsertExpr(es[0], es[1], offset, little) else es[0]
    case ConstB(s) => Given(env, None, s)
    case PushB(_) => es[0]
  }

  /** What slot `j` of call `k` receives, unless it is an earlier result. */
  type Slots = (nat, nat) -> SymExpr

  function ArgExpr(a: Arg, k: nat, j: nat, slots: Slots, done: seq<Expr>): (e: SymExpr)
  {
    if a.Result? then (if a.k < |done| then Some(done[a.k]) else None) else slots(k, j)
  }

  function ArgExprs(c: Call, k: nat, slots: Slots, done: seq<Expr>): (es: seq<SymExpr>)
    ensures |es| == |c.args|
  {
    seq(|c.args|, j requires 0 <= j < |c.args| => ArgExpr(c.args[j], k, j, slots, done))
  }

  predicate AllPresent(es: seq<SymExpr>)
  {
    forall j :: 0 <= j < |es| ==> es[j].Some?
  }

  function Unwrap(es: seq<SymExpr>): (r: seq<Expr>)
    requires AllPresent(es)
    ensures |r| == |es|
  {
    seq(|es|, j requires 0 <= j < |es| => es[j].value)
  }

  /** The results of the first `n` calls; `None` if a builder received null. */
  function Results(calls: seq<Call>, slots: Slots, env: Env, n: nat): (r: Option<seq<Expr>>)
    requires n <= |calls|
    ensures r.Some? ==> |r.value| == n
  {
    if n == 0 then Some([])
    else
      var before := Results(calls, slots, env, n - 1);
      if before.None? then None
      else
        var es := ArgExprs(calls[n - 1], n - 1, slots, before.value);
        if !AllPresent(es) || |es| != Arity(calls[n - 1].builder) then None
        else Some(before.value + [Apply(calls[n - 1].builder, env, Unwrap(es))])
  }

  function SlotOperand(calls: seq<Call>, u: Use): (o: SymOperand)
  {
    if SlotExists(calls, u.user, u.operand) && calls[u.user].args[u.operand].Input?
    then calls[u.user].args[u.operand].o else NullExpr
  }

  /** The input expression, or a constant for the concrete value. */
  function Supplied(c: Computation, env: Env, i: nat): (e: Expr)
    requires i < |c.inputs|
  {
    var u := c.inputs[i];
    Given(env, OperandExpr(env, SlotOperand(c.calls, u)), u.concrete)
  }

  function IdealSlots(c: Computation, env: Env): (s: Slots)
  {
    (k: nat, j: nat) => var i := FindUse(c.inputs, k, j); if i.Some? then Some(Supplied(c, env, i.value)) else None
  }

  predicate AllConcrete(c: Computation, env: Env)
  {
    forall i :: 0 <= i < |c.inputs| ==> OperandExpr(env, SlotOperand(c.calls, c.inputs[i])).None?
  }

  // ---------- the generated code ----------

  /** How the slow path provides an input: leave the operand alone, create the
      constant unconditionally, or create it if the operand is null. */
  datatype Prep = Keep | Create(concrete: Source) | CreateIfNull(o: SymOperand, concrete: Source)

  datatype Code = Code(checks: seq<SymOperand>, preps: seq<Prep>, calls: seq<Call>)

  datatype Outcome = Crash | Done(e: SymExpr)

  function PrepExpr(p: Prep, env: Env): (e: SymExpr)
  {
    match p
    case Keep => None
    case Create(s) => Some(Given(env, None, s))
    case CreateIfNull(o, s) => Some(Given(env, OperandExpr(env, o), s))
  }

  function CodeSlots(code: Code, env: Env): (s: Slots)
  {
    (k: nat, j: nat) =>
      if SlotExists(code.calls, k, j) then
        match code.calls[k].args[j]
        case Input(o) => OperandExpr(env, o)
        case Fresh(i) => if i < |code.preps| then PrepExpr(code.preps[i], env) else None
        case Result(_) => None
      else None
  }

  function Exec(code: Code, env: Env): (r: Outcome)
  {
    if forall i :: 0 <= i < |code.checks| ==> OperandExpr(env, code.checks[i]).None? then Done(None)
    else
      var es := Results(code.calls, CodeSlots(code, env), env, |code.calls|);
      if es.None? || es.value == [] then Crash else Done(Some(es.value[|es.value| - 1]))
  }

  /** The constraints that the first `n` calls push. */
  function PushedBy(calls: seq<Call>, done: seq<Expr>, env: Env, n: nat): (cs: seq<Constraint>)
    requires n <= |calls| && n <= |done|
  {
    if n == 0 then []
    else
      PushedBy(calls, done, env, n - 1)
      + if calls[n - 1].builder.PushB? then [Constraint(done[n - 1], OpVal(env.regs, calls[n - 1].builder.taken) != 0)]
        else []
  }

  /** What a run of the code adds to the path. */
  function ExecPushes(code: Code, env: Env): (cs: seq<Constraint>)
  {
    if forall i :: 0 <= i < |code.checks| ==> OperandExpr(env, code.checks[i]).None? then []
    else
      var es := Results(code.calls, CodeSlots(code, env), env, |code.calls|);
      if es.None? then [] else PushedBy(code.calls, es.value, env, |code.calls|)
  }

  function SetArg(calls: seq<Call>, k: nat, j: nat, a: Arg): (r: seq<Call>)
    ensures |r| == |calls|
  {
    if SlotExists(calls, k, j) then calls[k := calls[k].(args := calls[k].args[j := a])] else calls
  }

  function CountUnknown(c: Computation, n: nat): (r: nat)
    requires n <= |c.inputs|
    ensures r <= n
  {
    if n == 0 then 0
    else CountUnknown(c, n - 1) + if SlotOperand(c.calls, c.inputs[n - 1]).SymVar? then 1 else 0
  }

  function PrepFor(c: Computation, i: nat): (p: Prep)
    requires i < |c.inputs|
  {
    var u := c.inputs[i];
    var o := SlotOperand(c.calls, u);
    if o.NullExpr? then Create(u.concrete)
    else if CountUnknown(c, |c.inputs|) == 1 then Keep
    else CreateIfNull(o, u.concrete)
  }

  function RewrittenCalls(c: Computation, n: nat): (calls: seq<Call>)
    requires n <= |c.inputs|
    ensures |calls| == |c.calls|
  {
    if n == 0 then c.calls
    else
      var before := RewrittenCalls(c, n - 1);
      var u := c.inputs[n - 1];
      if PrepFor(c, n - 1).Keep? then before else SetArg(before, u.user, u.operand, Fresh(n - 1))
  }

  function Rewritten(c: Computation): (code: Code)
  {
    Code(seq(|c.inputs|, i requires 0 <= i < |c.inputs| => SlotOperand(c.calls, c.inputs[i])),
         seq(|c.inputs|, i requires 0 <= i < |c.inputs| => PrepFor(c, i)),
         RewrittenCalls(c, |c.inputs|))
  }

  /** Replacing one slot leaves the operands of the others alone. */
  lemma {:induction false} RewrittenArg(c: Computation, n: nat, k: nat, j: nat)
    requires WellFormed(c) && n <= |c.inputs| && SlotExists(c.calls, k, j)
    ensures SlotExists(RewrittenCalls(c, n), k, j)
    ensures RewrittenCalls(c, n)[k].builder == c.calls[k].builder && |RewrittenCalls(c, n)[k].args| == |c.calls[k].args|
    ensures var i := FindUse(c.inputs[..n], k, j);
      RewrittenCalls(c, n)[k].args[j]
      == if i.Some? && !PrepFor(c, i.value).Keep? then Fresh(i.value) else c.calls[k].args[j]
  {
    hide PrepFor, CountUnknown, Coherent, SetArg;
    if n > 0 {
      RewrittenArg(c, n - 1, k, j);
      var u := c.inputs[n - 1];
      assert c.inputs[..n][..n - 1] == c.inputs[..n - 1];
      SetArgAt(RewrittenCalls(c, n - 1), u, Fresh(n - 1), k, j);
      if UsesAt(u, k, j) {
        NotUsedBefore(c, n - 1, k, j);
      }
    }
  }

  lemma SetArgAt(calls: seq<Call>, u: Use, a: Arg, k: nat, j: nat)
    requires SlotExists(calls, k, j)
    ensures var r := SetArg(calls, u.user, u.operand, a);
      SlotExists(r, k, j) && r[k].builder == calls[k].builder && |r[k].args| == |calls[k].args|
      && r[k].args[j] == if UsesAt(u, k, j) then a else calls[k].args[j]
  {
  }

  lemma NotUsedBefore(c: Computation, n: nat, k: nat, j: nat)
    requires WellFormed(c) && n < |c.inputs| && UsesAt(c.inputs[n], k, j)
    ensures FindUse(c.inputs[..n], k, j).None?
  {
    forall i | 0 <= i < n
      ensures !UsesAt(c.inputs[i], k, j)
    {
      assert !UsesAt(c.inputs[n], c.inputs[i].user, c.inputs[i].operand);
    }
  }

  /** If only one input is of unknown concreteness, the slow path is entered
      only when that one is symbolic. */
  lemma {:induction false} OnlyUnknown(c: Computation, env: Env, n: nat, i: nat)
    requires i < n <= |c.inputs| && CountUnknown(c, n) == 1 && SlotOperand(c.calls, c.inputs[i]).SymVar?
    requires exists i' :: 0 <= i' < n && OperandExpr(env, SlotOperand(c.calls, c.inputs[i'])).Some?
    ensures OperandExpr(env, SlotOperand(c.calls, c.inputs[i])).Some?
  {
    hide SlotOperand, ExprOf;
    var i' :| 0 <= i' < n && OperandExpr(env, SlotOperand(c.calls, c.inputs[i'])).Some?;
    assert SlotOperand(c.calls, c.inputs[i']).SymVar?;
    if i != i' {
      TwoUnknown(c, n, if i < i' then i else i', if i < i' then i' else i);
    }
  }

  lemma {:induction false} TwoUnknown(c: Computation, n: nat, i: nat, i': nat)
    requires i < i' < n <= |c.inputs|
    requires SlotOperand(c.calls, c.inputs[i]).SymVar? && SlotOperand(c.calls, c.inputs[i']).SymVar?
    ensures CountUnknown(c, n) >= 2
  {
    hide SlotOperand;
    if i' < n - 1 {
      TwoUnknown(c, n - 1, i, i');
    } else {
      OneUnknown(c, n - 1, i);
    }
  }

  lemma {:induction false} OneUnknown(c: Computation, n: nat, i: nat)
    requires i < n <= |c.inputs| && SlotOperand(c.calls, c.inputs[i]).SymVar?
    ensures CountUnknown(c, n) >= 1
  {
    hide SlotOperand;
    if i < n - 1 {
      OneUnknown(c, n - 1, i);
    }
  }

  /** On the slow path every slot receives what it ideally should. */
  lemma SlotsAgree(c: Computation, env: Env, k: nat, j: nat)
    requires WellFormed(c) && !AllConcrete(c, env) && SlotExists(c.calls, k, j) && !c.calls[k].args[j].Result?
    ensures CodeSlots(Rewritten(c), env)(k, j) == IdealSlots(c, env)(k, j)
    ensures IdealSlots(c, env)(k, j).Some?
    ensures !Rewritten(c).calls[k].args[j].Result?
  {
    hide CountUnknown, ValueExpr, ExprOf, OpVal;
    RewrittenArg(c, |c.inputs|, k, j);
    assert c.inputs[..|c.inputs|] == c.inputs;
    var i := FindUse(c.inputs, k, j);
    assert c.calls[k].args[j].Input? && i.Some?;
    var p, o := PrepFor(c, i.value), SlotOperand(c.calls, c.inputs[i.value]);
    assert o == c.calls[k].args[j].o;
    if p.Keep? {
      OnlyUnknown(c, env, |c.inputs|, i.value);
    } else {
      assert Rewritten(c).preps[i.value] == p;
    }
  }

  lemma {:induction false} SameResults(a: seq<Call>, sa: Slots, b: seq<Call>, sb: Slots, env: Env, n: nat)
    requires n <= |a| == |b|
    requires forall k :: 0 <= k < n ==> a[k].builder == b[k].builder && |a[k].args| == |b[k].args|
    requires forall k, j :: 0 <= k < n && 0 <= j < |a[k].args| ==>
      (a[k].args[j].Result? ==> b[k].args[j] == a[k].args[j])
      && (!a[k].args[j].Result? ==> !b[k].args[j].Result? && sb(k, j) == sa(k, j))
    ensures Results(a, sa, env, n) == Results(b, sb, env, n)
  {
    hide Apply, AllPresent;
    if n > 0 {
      SameResults(a, sa, b, sb, env, n - 1);
      var before := Results(a, sa, env, n - 1);
      if before.Some? {
        var es, fs := ArgExprs(a[n - 1], n - 1, sa, before.value), ArgExprs(b[n - 1], n - 1, sb, before.value);
        forall j | 0 <= j < |es|
          ensures es[j] == fs[j]
        {
          assert a[n - 1].args[j].Result? ==> b[n - 1].args[j] == a[n - 1].args[j];
        }
        assert es == fs;
      }
    }
  }

  /** Without a missing slot, every builder gets present operands. */
  lemma {:induction false} NoNullArguments(c: Computation, env: Env, n: nat)
    requires WellFormed(c) && n <= |c.calls|
    requires forall k, j :: 0 <= k < |c.calls| && 0 <= j < |c.calls[k].args| && !c.calls[k].args[j].Result? ==>
      IdealSlots(c, env)(k, j).Some?
    ensures Results(c.calls, IdealSlots(c, env), env, n).Some?
  {
    hide Apply, IdealSlots;
    if n > 0 {
      NoNullArguments(c, env, n - 1);
    }
  }

  /** The rewriting preserves meaning. The result is null exactly when every
      input is null; otherwise it is what the builders make of the inputs when
      every null is replaced by a constant for its concrete value, and no
      builder ever receives a null. */
  lemma RewriteCorrect(c: Computation, env: Env)
    requires WellFormed(c)
    ensures AllConcrete(c, env) ==> Exec(Rewritten(c), env) == Done(None)
    ensures var ideal := Results(c.calls, IdealSlots(c, env), env, |c.calls|);
      !AllConcrete(c, env) ==> ideal.Some? && Exec(Rewritten(c), env) == Done(Some(ideal.value[|c.calls| - 1]))
  {
    hide CodeSlots, IdealSlots, PrepFor, Apply, OperandExpr, SlotOperand;
    var code := Rewritten(c);
    assert forall i :: 0 <= i < |c.inputs| ==> code.checks[i] == SlotOperand(c.calls, c.inputs[i]);
    if AllConcrete(c, env) {
    } else {
      var i :| 0 <= i < |c.inputs| && OperandExpr(env, SlotOperand(c.calls, c.inputs[i])).Some?;
      assert OperandExpr(env, code.checks[i]).Some?;
      SlowPath(c, env);
    }
  }

  /** The rewriting pushes nothing if every input is null, and otherwise what
      the recorded computation pushes. */
  lemma RewritePushes(c: Computation, env: Env)
    requires WellFormed(c)
    ensures AllConcrete(c, env) ==> ExecPushes(Rewritten(c), env) == []
    ensures var ideal := Results(c.calls, IdealSlots(c, env), env, |c.calls|);
      !AllConcrete(c, env) ==>
        ideal.Some? && ExecPushes(Rewritten(c), env) == PushedBy(c.calls, ideal.value, env, |c.calls|)
  {
    hide CodeSlots, IdealSlots, PrepFor, Apply, OperandExpr, SlotOperand, WellFormed;
    var code := Rewritten(c);
    assert forall i :: 0 <= i < |c.inputs| ==> code.checks[i] == SlotOperand(c.calls, c.inputs[i]);
    if !AllConcrete(c, env) {
      var i :| 0 <= i < |c.inputs| && OperandExpr(env, SlotOperand(c.calls, c.inputs[i])).Some?;
      assert OperandExpr(env, code.checks[i]).Some?;
      SlowPath(c, env);
      SamePushes(c, Results(c.calls, IdealSlots(c, env), env, |c.calls|).value, env, |c.calls|);
    }
  }

  lemma {:induction false} SamePushes(c: Computation, done: seq<Expr>, env: Env, n: nat)
    requires n <= |c.calls| == |done|
    ensures PushedBy(RewrittenCalls(c, |c.inputs|), done, env, n) == PushedBy(c.calls, done, env, n)
  {
    hide PrepFor, RewrittenCalls, OpVal;
    if n > 0 {
      SamePushes(c, done, env, n - 1);
      ShapeKept(c, |c.inputs|, n - 1);
    }
  }

  predicate SlotCarriedOver(c: Computation, env: Env, k: nat, j: nat)
    requires SlotExists(c.calls, k, j)
  {
    var calls, code := c.calls, Rewritten(c);
    && SlotExists(code.calls, k, j)
    && if calls[k].args[j].Result? then code.calls[k].args[j] == calls[k].args[j]
       else
         && !code.calls[k].args[j].Result?
         && CodeSlots(code, env)(k, j) == IdealSlots(c, env)(k, j)
         && IdealSlots(c, env)(k, j).Some?
  }

  lemma SlowPath(c: Computation, env: Env)
    requires WellFormed(c) && !AllConcrete(c, env)
    ensures var ideal := Results(c.calls, IdealSlots(c, env), env, |c.calls|);
      ideal.Some? && Results(Rewritten(c).calls, CodeSlots(Rewritten(c), env), env, |c.calls|) == ideal
  {
    hide CodeSlots, IdealSlots, PrepFor, Apply, OperandExpr, SlotOperand, AllConcrete;
    var calls, calls' := c.calls, Rewritten(c).calls;
    forall k | 0 <= k < |calls|
      ensures calls[k].builder == calls'[k].builder && |calls[k].args| == |calls'[k].args|
    {
      ShapeKept(c, |c.inputs|, k);
    }
    forall k, j | 0 <= k < |calls| && 0 <= j < |calls[k].args|
      ensures SlotCarriedOver(c, env, k, j)
    {
      if calls[k].args[j].Result? {
        ResultsKept(c, k, j);
      } else {
        SlotsAgree(c, env, k, j);
      }
    }
    forall k, j | 0 <= k < |calls| && 0 <= j < |calls[k].args|
      ensures calls[k].args[j].Result? ==> calls'[k].args[j] == calls[k].args[j]
      ensures !calls[k].args[j].Result? ==>
        (!calls'[k].args[j].Result? && CodeSlots(Rewritten(c), env)(k, j) == IdealSlots(c, env)(k, j))
      ensures !calls[k].args[j].Result? ==> IdealSlots(c, env)(k, j).Some?
    {
      assert SlotCarriedOver(c, env, k, j);
    }
    NoNullArguments(c, env, |calls|);
    SameResults(calls, IdealSlots(c, env), calls', CodeSlots(Rewritten(c), env), env, |calls|);
  }

  lemma ResultsKept(c: Computation, k: nat, j: nat)
    requires WellFormed(c) && SlotExists(c.calls, k, j) && c.calls[k].args[j].Result?
    ensures SlotExists(Rewritten(c).calls, k, j) && Rewritten(c).calls[k].args[j] == c.calls[k].args[j]
  {
    hide PrepFor;
    RewrittenArg(c, |c.inputs|, k, j);
    assert c.inputs[..|c.inputs|] == c.inputs;
    ResultsAreNoUses(c, k, j);
  }

  lemma ResultsAreNoUses(c: Computation, k: nat, j: nat)
    requires WellFormed(c) && SlotExists(c.calls, k, j) && !c.calls[k].args[j].Input?
    ensures FindUse(c.inputs, k, j).None?
  {
    forall i | 0 <= i < |c.inputs|
      ensures !UsesAt(c.inputs[i], k, j)
    {
      assert c.calls[c.inputs[i].user].args[c.inputs[i].operand].Input?;
    }
  }

  lemma {:induction false} ShapeKept(c: Computation, n: nat, k: nat)
    requires n <= |c.inputs| && k < |c.calls|
    ensures RewrittenCalls(c, n)[k].builder == c.calls[k].builder && |RewrittenCalls(c, n)[k].args| == |c.calls[k].args|
  {
    hide PrepFor;
    if n > 0 {
      ShapeKept(c, n - 1, k);
    }
  }

  /** A binary instruction's computation, once rewritten, is the lifted
      operation of the program model. */
  lemma BinaryIsLift(op: BinOp, w: nat, a: Operand, b: Operand, oa: SymOperand, ob: SymOperand, env: Env)
    ensures var c := Computation([Call(BinaryB(op, w), [Input(oa), Input(ob)])],
                                 [Use(Word(a, w), 0, 0), Use(Word(b, w), 0, 1)]);
      WellFormed(c)
      && Exec(Rewritten(c), env)
         == Done(LiftBinary(op, w, OperandExpr(env, oa), OpVal(env.regs, a), OperandExpr(env, ob), OpVal(env.regs, b)))
  {
    hide CodeSlots, PrepFor, OperandExpr, Rewritten, Coerce;
    var calls := [Call(BinaryB(op, w), [Input(oa), Input(ob)])];
    var c := Computation(calls, [Use(Word(a, w), 0, 0), Use(Word(b, w), 0, 1)]);
    assert c.inputs[..1] == [Use(Word(a, w), 0, 0)];
    assert FindUse(c.inputs, 0, 0) == Some(0) && FindUse(c.inputs, 0, 1) == Some(1);
    RewriteCorrect(c, env);
    assert SlotOperand(calls, c.inputs[0]) == oa && SlotOperand(calls, c.inputs[1]) == ob;
    if !AllConcrete(c, env) {
      var slots := IdealSlots(c, env);
      var es := ArgExprs(calls[0], 0, slots, []);
      assert es[0] == Some(Supplied(c, env, 0)) && es[1] == Some(Supplied(c, env, 1));
      assert Results(calls, slots, env, 0) == Some([]);
    }
  }

  /** The same for a comparison. */
  lemma CompareIsLift(p: Pred, w: nat, a: Operand, b: Operand, oa: SymOperand, ob: SymOperand, env: Env)
    ensures var c := Computation([Call(CompareB(p), [Input(oa), Input(ob)])],
                                 [Use(Word(a, w), 0, 0), Use(Word(b, w), 0, 1)]);
      WellFormed(c)
      && Exec(Rewritten(c), env)
         == Done(LiftCompare(p, w, OperandExpr(env, oa), OpVal(env.regs, a), OperandExpr(env, ob), OpVal(env.regs, b)))
  {
    hide CodeSlots, PrepFor, OperandExpr, Rewritten, Coerce;
    var calls := [Call(CompareB(p), [Input(oa), Input(ob)])];
    var c := Computation(calls, [Use(Word(a, w), 0, 0), Use(Word(b, w), 0, 1)]);
    assert c.inputs[..1] == [Use(Word(a, w), 0, 0)];
    assert FindUse(c.inputs, 0, 0) == Some(0) && FindUse(c.inputs, 0, 1) == Some(1);
    RewriteCorrect(c, env);
    assert SlotOperand(calls, c.inputs[0]) == oa && SlotOperand(calls, c.inputs[1]) == ob;
    if !AllConcrete(c, env) {
      var slots := IdealSlots(c, env);
      var es := ArgExprs(calls[0], 0, slots, []);
      assert es[0] == Some(Supplied(c, env, 0)) && es[1] == Some(Supplied(c, env, 1));
      assert Results(calls, slots, env, 0) == Some([]);
    }
  }

  /** An operand is read before anything replaces it. */
  lemma OperandUnchanged(c: Computation, i: nat)
    requires WellFormed(c) && i < |c.inputs|
    ensures SlotOperand(RewrittenCalls(c, i), c.inputs[i]) == SlotOperand(c.calls, c.inputs[i])
  {
    hide PrepFor;
    var u := c.inputs[i];
    RewrittenArg(c, i, u.user, u.operand);
    NotUsedBefore(c, i, u.user, u.operand);
  }

  // ---------- the loop of the pass ----------

  method ShortCircuitUses(c: Computation) returns (code: Code)
    requires WellFormed(c)
    ensures code == Rewritten(c)
  {
    hide PrepFor, CountUnknown, RewrittenCalls, SlotOperand, WellFormed;
    var nullChecks := BuildNullChecks(c);
    var numUnknownConcreteness := CountInputs(c);
    var calls, preps := ReplaceOperands(c, numUnknownConcreteness);
    code := Code(nullChecks, preps, calls);
  }

  method BuildNullChecks(c: Computation) returns (nullChecks: seq<SymOperand>)
    ensures |nullChecks| == |c.inputs|
    ensures forall i :: 0 <= i < |c.inputs| ==> nullChecks[i] == SlotOperand(c.calls, c.inputs[i])
  {
    hide SlotOperand;
    nullChecks := [];
    for i := 0 to |c.inputs|
      invariant |nullChecks| == i
      invariant forall i' :: 0 <= i' < i ==> nullChecks[i'] == SlotOperand(c.calls, c.inputs[i'])
    {
      nullChecks := nullChecks + [SlotOperand(c.calls, c.inputs[i])];
    }
  }

  method CountInputs(c: Computation) returns (numUnknownConcreteness: nat)
    ensures numUnknownConcreteness == CountUnknown(c, |c.inputs|)
  {
    hide SlotOperand;
    numUnknownConcreteness := 0;
    for i := 0 to |c.inputs|
      invariant numUnknownConcreteness == CountUnknown(c, i)
    {
      if SlotOperand(c.calls, c.inputs[i]) != NullExpr {
        numUnknownConcreteness := numUnknownConcreteness + 1;
      }
    }
  }

  method ReplaceOperands(c: Computation, numUnknownConcreteness: nat) returns (calls: seq<Call>, preps: seq<Prep>)
    requires WellFormed(c) && numUnknownConcreteness == CountUnknown(c, |c.inputs|)
    ensures calls == RewrittenCalls(c, |c.inputs|) && |preps| == |c.inputs|
    ensures forall i :: 0 <= i < |c.inputs| ==> preps[i] == PrepFor(c, i)
  {
    hide WellFormed, SlotOperand, SetArg, CountUnknown;
    calls, preps := c.calls, [];
    for i := 0 to |c.inputs|
      invariant calls == RewrittenCalls(c, i) && |preps| == i
      invariant forall i' :: 0 <= i' < i ==> preps[i'] == PrepFor(c, i')
    {
      var argument := c.inputs[i];
      OperandUnchanged(c, i);
      var originalArgExpression := SlotOperand(calls, argument);
      var needRuntimeCheck := originalArgExpression != NullExpr;
      if needRuntimeCheck && numUnknownConcreteness == 1 {
        preps := preps + [Keep];
        continue;
      }
      preps := preps + [if needRuntimeCheck then CreateIfNull(originalArgExpression, argument.concrete)
                        else Create(argument.concrete)];
      calls := SetArg(calls, argument.user, argument.operand, Fresh(i));
    }
  }
}
