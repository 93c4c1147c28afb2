/** The relation between an instrumented run and any other run of the same
    program, and what it says about the path condition. */
module Replay {
  import opened BitVectors
  import opened Expressions
  import opened Lifting
  import opened Programs

  // ---------- well-typed programs ----------

  predicate OperandOk(f: Func, o: Operand)
  {
    ValidWidth(OpWidth(f, o)) && (o.Const? ==> o.value < Pow2(o.width))
  }

  predicate HasWidth(f: Func, o: Operand, w: nat)
  {
    OperandOk(f, o) && OpWidth(f, o) == w
  }

  predicate Storable(w: nat)
  {
    ValidWidth(w) && (w == 1 || w % 8 == 0)
  }

  predicate InstrOk(p: Program, f: Func, i: Instr)
  {
    match i
    case BinInst(d, op, a, b) =>
      var w := Width(f, d);
      HasWidth(f, a, w) && HasWidth(f, b, w) && BinaryAllowed(op, w)
    case CmpInst(d, pr, a, b) =>
      Width(f, d) == 1 && OperandOk(f, a) && HasWidth(f, b, OpWidth(f, a)) && CompareAllowed(pr, OpWidth(f, a))
    case CastInst(d, k, a) => OperandOk(f, a) && CastAllowed(k, OpWidth(f, a), Width(f, d))
    case SelectInst(d, c, a, b) =>
      HasWidth(f, c, 1) && HasWidth(f, a, Width(f, d)) && HasWidth(f, b, Width(f, d))
    case LoadInst(d, addr) => HasWidth(f, addr, PTR_BITS) && Storable(Width(f, d))
    case StoreInst(v, addr) => HasWidth(f, addr, PTR_BITS) && OperandOk(f, v) && Storable(OpWidth(f, v))
    case MemMoveInst(a, b, n) => HasWidth(f, a, PTR_BITS) && HasWidth(f, b, PTR_BITS) && HasWidth(f, n, PTR_BITS)
    case MemSetInst(a, v, n) => HasWidth(f, a, PTR_BITS) && HasWidth(f, v, 8) && HasWidth(f, n, PTR_BITS)
    case ReadInst(d, a, n) => HasWidth(f, a, PTR_BITS) && HasWidth(f, n, PTR_BITS) && Width(f, d) == PTR_BITS
    case CallInst(d, callee, args) =>
      callee < |p.funcs| && var g := p.funcs[callee];
      |args| == |g.params| <= MAX_FUNCTION_ARGUMENTS
      && (forall k :: 0 <= k < |args| ==> HasWidth(f, args[k], Width(g, g.params[k])))
      && (d.Some? ==> g.ret == Some(Width(f, d.value)))
  }

  predicate EndOk(f: Func, t: Terminator)
  {
    match t
    case Jump(_) => true
    case Branch(c, _, _) => HasWidth(f, c, 1)
    case Switch(v, cases, _) =>
      OperandOk(f, v) && forall k :: 0 <= k < |cases| ==> cases[k].value < Pow2(OpWidth(f, v))
    case Return(v) => if v.Some? then OperandOk(f, v.value) && f.ret == Some(OpWidth(f, v.value)) else f.ret.None?
  }

  predicate PhiOk(f: Func, phi: Phi)
  {
    forall b :: b in phi.incoming ==> HasWidth(f, phi.incoming[b], Width(f, phi.d))
  }

  predicate BlockOk(p: Program, f: Func, b: Block)
  {
    && (forall k :: 0 <= k < |b.phis| ==> PhiOk(f, b.phis[k]))
    && (forall k :: 0 <= k < |b.body| ==> InstrOk(p, f, b.body[k]))
    && EndOk(f, b.end)
  }

  predicate FuncOk(p: Program, f: Func)
  {
    && (forall r :: r in f.widths ==> ValidWidth(f.widths[r]))
    && (forall k :: 0 <= k < |f.blocks| ==> BlockOk(p, f, f.blocks[k]))
  }

  predicate ProgramOk(p: Program)
  {
    |p.funcs| > 0 && forall k :: 0 <= k < |p.funcs| ==> FuncOk(p, p.funcs[k])
  }

  lemma WorkOk(p: Program, fr: Frame)
    requires ProgramOk(p)
    ensures WorkAt(p, fr).Do? ==> InstrOk(p, FuncOf(p, fr.fn), WorkAt(p, fr).i)
    ensures WorkAt(p, fr).End? ==> EndOk(FuncOf(p, fr.fn), WorkAt(p, fr).t)
    ensures !WorkAt(p, fr).Stuck? ==> fr.fn < |p.funcs|
  {
    if fr.fn < |p.funcs| && fr.blk < |p.funcs[fr.fn].blocks| {
      var f := p.funcs[fr.fn];
      assert FuncOk(p, f);
      assert BlockOk(p, f, f.blocks[fr.blk]);
    }
  }

  lemma WidthOk(p: Program, fn: nat, r: nat)
    requires ProgramOk(p) && fn < |p.funcs|
    ensures ValidWidth(Width(p.funcs[fn], r))
  {
    assert FuncOk(p, p.funcs[fn]);
  }

  // ---------- the relation ----------

  /** Registers and their expressions respect the declared widths. */
  ghost predicate FrameTyped(f: Func, regs: map<nat, nat>, exprs: map<nat, SymExpr>)
  {
    forall r: nat {:trigger Lookup(regs, r)} {:trigger ExprOf(exprs, r)} ::
      Lookup(regs, r) < Pow2(Width(f, r)) && Typed(ExprOf(exprs, r), Width(f, r))
  }

  ghost predicate FrameAgree(regs: map<nat, nat>, exprs: map<nat, SymExpr>, regs': map<nat, nat>, input: Input)
  {
    forall r: nat {:trigger Lookup(regs', r)} :: Agree(Lookup(regs, r), ExprOf(exprs, r), Lookup(regs', r), input)
  }

  ghost predicate MemoryAgree(m: map<int, Byte>, sh: map<int, SymExpr>, m': map<int, Byte>, input: Input)
  {
    forall a: int {:trigger ByteAt(m', a)} {:trigger ShadowAt(sh, a)} ::
      Agree(ByteAt(m, a), ShadowAt(sh, a), ByteAt(m', a), input) && Typed(ShadowAt(sh, a), 8)
  }

  predicate SamePlace(a: Frame, b: Frame)
  {
    a.fn == b.fn && a.blk == b.blk && a.idx == b.idx
  }

  /** Frame `fr` of the recorded run, with its expressions, explains frame
      `fr'` of the run on `input`. */
  ghost predicate FrameRel(p: Program, fr: Frame, exprs: map<nat, SymExpr>, fr': Frame, input: Input)
  {
    && fr.fn < |p.funcs| && SamePlace(fr, fr')
    && FrameTyped(p.funcs[fr.fn], fr.regs, exprs)
    && FrameAgree(fr.regs, exprs, fr'.regs, input)
  }

  /** Every frame but the last is waiting for the one above it. */
  predicate Waiting(p: Program, stack: seq<Frame>)
  {
    forall k {:trigger stack[k]} :: 0 <= k < |stack| - 1 ==>
      var w := WorkAt(p, stack[k]);
      w.Do? && w.i.CallInst? && w.i.callee == stack[k + 1].fn
  }

  ghost predicate StackRel(p: Program, stack: seq<Frame>, exprs: seq<map<nat, SymExpr>>, stack': seq<Frame>,
                           input: Input)
  {
    && |exprs| == |stack| == |stack'|
    && Waiting(p, stack)
    && forall k {:trigger stack[k]} {:trigger stack'[k]} :: 0 <= k < |stack| ==>
      FrameRel(p, stack[k], exprs[k], stack'[k], input)
  }

  /** The states agree: same control point, and every register and memory byte
      of the other run is the value of its expression, or unchanged. */
  ghost predicate Rel(p: Program, c: Conc, s: Sym, c': Conc, input: Input)
  {
    && c'.status == c.status && c'.offset == c.offset
    && StackRel(p, c.stack, s.exprs, c'.stack, input)
    && MemoryAgree(c.memory, s.shadow, c'.memory, input)
  }

  lemma OperandAgree(f: Func, o: Operand, w: nat, regs: map<nat, nat>, exprs: map<nat, SymExpr>, regs': map<nat, nat>,
                     input: Input)
    requires HasWidth(f, o, w) && FrameTyped(f, regs, exprs) && FrameAgree(regs, exprs, regs', input)
    ensures Agree(OpVal(regs, o), OpExpr(exprs, o), OpVal(regs', o), input)
    ensures Typed(OpExpr(exprs, o), w) && OpVal(regs, o) < Pow2(w) && ValidWidth(w)
  {
  }

  // ---------- decisions ----------

  /** What each decision of the recorded frame `fr` comes to in frame `fr'`. */
  function Outcomes(p: Program, fr: Frame, fr': Frame): (os: seq<bool>)
  {
    var w := WorkAt(p, fr);
    if ConditionOf(w).Some? then [OpVal(fr'.regs, ConditionOf(w).value) != 0]
    else if IsSwitch(w) then CasesHit(fr'.regs, w.t.v, w.t.cases)
    else Unmoved(fr.regs, fr'.regs, Concretized(w))
  }

  function CasesHit(regs: map<nat, nat>, v: Operand, cases: seq<Case>): (bs: seq<bool>)
    ensures |bs| == |cases|
  {
    seq(|cases|, k requires 0 <= k < |cases| => OpVal(regs, v) == cases[k].value)
  }

  function Unmoved(regs: map<nat, nat>, regs': map<nat, nat>, os: seq<Operand>): (bs: seq<bool>)
  {
    seq(|os|, k requires 0 <= k < |os| => OpVal(regs', os[k]) == OpVal(regs, os[k]))
  }

  /** A decision predicts its outcome in the other run: by its expression, or
      because it cannot differ. */
  ghost predicate Predicts(d: Decision, here: bool, there: bool, input: Input)
  {
    && d.taken == here
    && (d.expr.None? ==> there == here)
    && (d.expr.Some? ==> IsCondition(d.expr.value) && (Truth(d.expr.value, input) <==> there))
  }

  lemma ConditionPredicts(v: nat, e: SymExpr, v': nat, input: Input)
    requires Typed(e, 1) && Agree(v, e, v', input)
    ensures Predicts(Decision(e, v != 0), v != 0, v' != 0, input)
  {
  }

  lemma EqualityPredicts(v: nat, e: SymExpr, v': nat, value: nat, w: nat, input: Input)
    requires ValidWidth(w) && value < Pow2(w) && Typed(e, w) && Agree(v, e, v', input)
    ensures Predicts(SwitchDecision(e, v, value, w), v == value, v' == value, input)
  {
    hide Pow2, Eval, WellSorted, Bits, IsBool, ValueExpr;
    ValueExprCorrect(value, w, input);
    if e.Some? {
      CompareExprValue(Eq, w, e.value, ValueExpr(value, w), input);
      EvalRange(Compare(Eq, e.value, ValueExpr(value, w)), input);
      ConditionType(Compare(Eq, e.value, ValueExpr(value, w)));
    }
  }

  lemma ConditionType(e: Expr)
    requires HasType(e, 1)
    ensures IsCondition(e)
  {
  }

  lemma ConcretizePredicts(f: Func, os: seq<Operand>, k: nat, regs: map<nat, nat>, exprs: map<nat, SymExpr>,
                           regs': map<nat, nat>, input: Input)
    requires k < |os| && HasWidth(f, os[k], PTR_BITS)
    requires FrameTyped(f, regs, exprs) && FrameAgree(regs, exprs, regs', input)
    ensures Predicts(ConcretizeAll(exprs, regs, os)[k], Unmoved(regs, regs, os)[k], Unmoved(regs, regs', os)[k], input)
  {
    hide Pow2, Eval, WellSorted, Bits, IsBool, ValueExpr, FrameTyped, FrameAgree, HasWidth, Predicts;
    var v := OpVal(regs, os[k]);
    OperandAgree(f, os[k], PTR_BITS, regs, exprs, regs', input);
    EqualityPredicts(v, OpExpr(exprs, os[k]), OpVal(regs', os[k]), v, PTR_BITS, input);
  }

  lemma SwitchPredicts(f: Func, o: Operand, cases: seq<Case>, k: nat, regs: map<nat, nat>, exprs: map<nat, SymExpr>,
                       regs': map<nat, nat>, input: Input)
    requires k < |cases| && OperandOk(f, o) && cases[k].value < Pow2(OpWidth(f, o))
    requires FrameTyped(f, regs, exprs) && FrameAgree(regs, exprs, regs', input)
    ensures Predicts(SwitchDecisions(exprs, regs, o, cases, OpWidth(f, o))[k], CasesHit(regs, o, cases)[k],
                     CasesHit(regs', o, cases)[k], input)
  {
    hide Pow2, Eval, WellSorted, Bits, IsBool, ValueExpr, FrameTyped, FrameAgree, Predicts;
    OperandAgree(f, o, OpWidth(f, o), regs, exprs, regs', input);
    EqualityPredicts(OpVal(regs, o), OpExpr(exprs, o), OpVal(regs', o), cases[k].value, OpWidth(f, o), input);
  }

  lemma AddressesOk(p: Program, f: Func, w: Work, k: nat)
    requires w.Do? && InstrOk(p, f, w.i) && k < |Concretized(w)|
    ensures HasWidth(f, Concretized(w)[k], PTR_BITS)
  {
  }

  lemma ConditionOk(p: Program, f: Func, w: Work)
    requires w.Do? ==> InstrOk(p, f, w.i)
    requires w.End? ==> EndOk(f, w.t)
    requires ConditionOf(w).Some?
    ensures HasWidth(f, ConditionOf(w).value, 1)
  {
  }

  /** Each decision of the recorded run predicts what the other run does. */
  lemma DecisionsPredict(p: Program, fr: Frame, exprs: map<nat, SymExpr>, fr': Frame, input: Input)
    requires ProgramOk(p) && FrameRel(p, fr, exprs, fr', input)
    ensures |Decisions(p, fr, exprs)| == |Outcomes(p, fr, fr)| == |Outcomes(p, fr, fr')|
    ensures forall k :: 0 <= k < |Decisions(p, fr, exprs)| ==>
      Predicts(Decisions(p, fr, exprs)[k], Outcomes(p, fr, fr)[k], Outcomes(p, fr, fr')[k], input)
  {
    hide Pow2, Eval, WellSorted, Bits, IsBool, ValueExpr, Predicts, FrameTyped, FrameAgree, HasWidth, Concretized,
         ConditionOf, InstrOk;
    var f, w := p.funcs[fr.fn], WorkAt(p, fr);
    WorkOk(p, fr);
    forall k | 0 <= k < |Decisions(p, fr, exprs)|
      ensures Predicts(Decisions(p, fr, exprs)[k], Outcomes(p, fr, fr)[k], Outcomes(p, fr, fr')[k], input)
    {
      if ConditionOf(w).Some? {
        var c := ConditionOf(w).value;
        ConditionOk(p, f, w);
        OperandAgree(f, c, 1, fr.regs, exprs, fr'.regs, input);
        ConditionPredicts(OpVal(fr.regs, c), OpExpr(exprs, c), OpVal(fr'.regs, c), input);
      } else if IsSwitch(w) {
        SwitchPredicts(f, w.t.v, w.t.cases, k, fr.regs, exprs, fr'.regs, input);
      } else {
        NoAddresses(w);
        AddressesOk(p, f, w, k);
        ConcretizePredicts(f, Concretized(w), k, fr.regs, exprs, fr'.regs, input);
      }
    }
  }

  lemma NoAddresses(w: Work)
    ensures !w.Do? ==> Concretized(w) == []
  {
  }
}
