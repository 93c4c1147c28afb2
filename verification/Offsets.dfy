/** The expressions of a run mention only bytes that its input has. So an
    input that solves constraints of the run can be cut or padded to the
    length of the recorded input. */
module Offsets {
  import opened BitVectors
  import opened Expressions
  import opened Lifting
  import opened Programs

  predicate Within(e: Expr, n: nat)
  {
    match e
    case InputByte(k) => k < n
    case Integer(_, _) => true
    case BoolConst(_) => true
    case Binary(_, a, b) => Within(a, n) && Within(b, n)
    case BoolBinary(_, a, b) => Within(a, n) && Within(b, n)
    case Compare(_, a, b) => Within(a, n) && Within(b, n)
    case LNot(a) => Within(a, n)
    case Ite(c, a, b) => Within(c, n) && Within(a, n) && Within(b, n)
    case Concat(a, b) => Within(a, n) && Within(b, n)
    case Extract(a, _, _) => Within(a, n)
    case SExt(a, _) => Within(a, n)
    case ZExt(a, _) => Within(a, n)
  }

  /** The input cut or padded with zeros to length `n`. */
  function Resized(input: Input, n: nat): (r: Input)
    ensures |r| == n
  {
    seq<Byte>(n, k requires 0 <= k < n => if k < |input| then input[k] else 0)
  }

  /** Resizing does not change what the expression means. */
  lemma {:induction false} EvalResized(e: Expr, input: Input, n: nat)
    requires Within(e, n)
    ensures Eval(e, Resized(input, n)) == Eval(e, input)
  {
    match e
    case InputByte(_) =>
    case Integer(_, _) =>
    case BoolConst(_) =>
    case Binary(_, a, b) => EvalResized(a, input, n); EvalResized(b, input, n);
    case BoolBinary(_, a, b) => EvalResized(a, input, n); EvalResized(b, input, n);
    case Compare(_, a, b) => EvalResized(a, input, n); EvalResized(b, input, n);
    case LNot(a) => EvalResized(a, input, n);
    case Ite(c, a, b) => EvalResized(c, input, n); EvalResized(a, input, n); EvalResized(b, input, n);
    case Concat(a, b) => EvalResized(a, input, n); EvalResized(b, input, n);
    case Extract(a, _, _) => EvalResized(a, input, n);
    case SExt(a, _) => EvalResized(a, input, n);
    case ZExt(a, _) => EvalResized(a, input, n);
  }

  predicate MaybeWithin(e: SymExpr, n: nat)
  {
    e.Some? ==> Within(e.value, n)
  }

  predicate AllWithin(es: seq<SymExpr>, n: nat)
  {
    forall k :: 0 <= k < |es| ==> MaybeWithin(es[k], n)
  }

  predicate TableWithin<K>(m: map<K, SymExpr>, n: nat)
  {
    forall r :: r in m ==> MaybeWithin(m[r], n)
  }

  predicate PathWithin(path: seq<Constraint>, n: nat)
  {
    forall k :: 0 <= k < |path| ==> Within(path[k].expr, n)
  }

  predicate SymWithin(s: Sym, n: nat)
  {
    && (forall k :: 0 <= k < |s.exprs| ==> TableWithin(s.exprs[k], n))
    && TableWithin(s.shadow, n) && TableWithin(s.slots, n) && MaybeWithin(s.ret, n) && PathWithin(s.path, n)
  }

  // ---------- builders ----------

  lemma OperandWithin(exprs: map<nat, SymExpr>, o: Operand, n: nat)
    requires TableWithin(exprs, n)
    ensures MaybeWithin(OpExpr(exprs, o), n)
  {
  }

  lemma CoerceWithin(e: SymExpr, v: nat, w: nat, n: nat)
    requires MaybeWithin(e, n)
    ensures Within(Coerce(e, v, w), n)
  {
  }

  lemma CastWithin(k: Cast, from: nat, to: nat, e: Expr, n: nat)
    requires to >= 1 && Within(e, n)
    ensures Within(CastExpr(k, from, to, e), n)
  {
    assert Within(Integer(1, 1), n) && Within(Integer(0, 1), n);
    assert Within(Extract(e, 0, 0), n) && Within(BoolToBit(e), n);
    assert Within(BitToBool(Extract(e, 0, 0)), n);
  }

  lemma {:induction false} JoinWithin(es: seq<Expr>, littleEndian: bool, n: nat)
    requires es != [] && forall k :: 0 <= k < |es| ==> Within(es[k], n)
    ensures Within(JoinBytes(es, littleEndian), n)
  {
    if |es| > 1 {
      JoinWithin(es[..|es| - 1], littleEndian, n);
    }
  }

  lemma ReadWithin(m: map<int, Byte>, sh: map<int, SymExpr>, at: int, length: nat, littleEndian: bool, n: nat)
    requires TableWithin(sh, n)
    ensures MaybeWithin(ReadShadow(m, sh, at, length, littleEndian), n)
  {
    hide Within, AllNull, Coerce;
    if length > 0 {
      var es := ByteExprs(m, sh, at, length);
      forall k | 0 <= k < |es|
        ensures Within(es[k], n)
      {
        CoerceWithin(ShadowAt(sh, at + k), ByteAt(m, at + k), 8, n);
      }
      JoinWithin(es, littleEndian, n);
    }
  }

  lemma StoreWithin(e: SymExpr, w: nat, length: nat, littleEndian: bool, n: nat)
    requires MaybeWithin(e, n)
    ensures AllWithin(StoreShadow(StoredExpr(e, w), length, littleEndian), n)
  {
    if e.Some? {
      assert Within(Integer(1, 1), n) && Within(Integer(0, 1), n);
      assert Within(BoolToBit(e.value), n) && Within(ZExt(BoolToBit(e.value), 7), n);
    }
  }

  lemma LoadWithin(e: SymExpr, w: nat, n: nat)
    requires MaybeWithin(e, n)
    ensures MaybeWithin(LoadedExpr(e, w), n)
  {
    if e.Some? {
      assert Within(Extract(e.value, 0, 0), n);
      assert Within(BitToBool(Extract(e.value, 0, 0)), n);
    }
  }

  lemma {:induction false} AssignWithin(m: map<nat, SymExpr>, ds: seq<nat>, es: seq<SymExpr>, n: nat)
    requires |ds| == |es| && TableWithin(m, n) && AllWithin(es, n)
    ensures TableWithin(Assign(m, ds, es), n)
  {
    if ds != [] {
      AssignWithin(m, ds[..|ds| - 1], es[..|ds| - 1], n);
    }
  }

  lemma {:induction false} PutWithin(m: map<int, SymExpr>, at: int, es: seq<SymExpr>, n: nat)
    requires TableWithin(m, n) && AllWithin(es, n)
    ensures TableWithin(Put(m, at, es), n)
  {
    if es != [] {
      PutWithin(m, at, es[..|es| - 1], n);
    }
  }

  lemma OperandsWithin(exprs: map<nat, SymExpr>, os: seq<Operand>, n: nat)
    requires TableWithin(exprs, n)
    ensures AllWithin(OpExprs(exprs, os), n)
  {
  }

  // ---------- steps ----------

  lemma TrackWithin(p: Program, f: Func, input: Input, c: Conc, s: Sym, i: Instr, regs: map<nat, nat>,
                    exprs: map<nat, SymExpr>)
    requires SymWithin(s, |input|) && TableWithin(exprs, |input|)
    ensures var t := Track(p, f, input, c, s, i, regs, exprs);
      MaybeWithin(t.expr, |input|) && AllWithin(t.shadow, |input|)
  {
    hide Coerce, CastExpr, ReadShadow, StoreShadow, StoredExpr, LoadedExpr, TableWithin, OpExpr;
    var n := |input|;
    match i
    case BinInst(_, _, a, b) =>
      CoerceBoth(exprs, regs, a, b, OpWidth(f, a), n);
    case CmpInst(_, _, a, b) =>
      CoerceBoth(exprs, regs, a, b, OpWidth(f, a), n);
    case CastInst(d, k, a) =>
      OperandWithin(exprs, a, n);
      if Width(f, d) >= 1 && OpExpr(exprs, a).Some? {
        CastWithin(k, OpWidth(f, a), Width(f, d), OpExpr(exprs, a).value, n);
      }
    case SelectInst(_, _, a, b) =>
      OperandWithin(exprs, a, n);
      OperandWithin(exprs, b, n);
    case LoadInst(d, addr) =>
      var w := Width(f, d);
      ReadWithin(c.memory, s.shadow, OpVal(regs, addr), ByteCount(w), p.littleEndian, n);
      LoadWithin(ReadShadow(c.memory, s.shadow, OpVal(regs, addr), ByteCount(w), p.littleEndian), w, n);
    case StoreInst(v, addr) =>
      OperandWithin(exprs, v, n);
      StoreWithin(OpExpr(exprs, v), OpWidth(f, v), ByteCount(OpWidth(f, v)), p.littleEndian, n);
    case MemMoveInst(dst, src, len) =>
      ShadowWithin(s.shadow, OpVal(regs, src), OpVal(regs, len), n);
    case MemSetInst(_, v, _) =>
      OperandWithin(exprs, v, n);
    case ReadInst(_, _, _) =>
    case CallInst(_, _, _) =>
  }

  lemma CoerceBoth(exprs: map<nat, SymExpr>, regs: map<nat, nat>, a: Operand, b: Operand, w: nat, n: nat)
    requires TableWithin(exprs, n)
    ensures Within(Coerce(OpExpr(exprs, a), OpVal(regs, a), w), n)
      && Within(Coerce(OpExpr(exprs, b), OpVal(regs, b), w), n)
  {
    OperandWithin(exprs, a, n);
    OperandWithin(exprs, b, n);
    CoerceWithin(OpExpr(exprs, a), OpVal(regs, a), w, n);
    CoerceWithin(OpExpr(exprs, b), OpVal(regs, b), w, n);
  }

  lemma ShadowWithin(sh: map<int, SymExpr>, at: int, length: nat, n: nat)
    requires TableWithin(sh, n)
    ensures AllWithin(ShadowBytes(sh, at, length), n)
  {
    var es := ShadowBytes(sh, at, length);
    forall k | 0 <= k < length
      ensures MaybeWithin(es[k], n)
    {
      assert es[k] == ShadowAt(sh, at + k);
    }
  }

  predicate DecisionsWithin(ds: seq<Decision>, n: nat)
  {
    forall k :: 0 <= k < |ds| ==> MaybeWithin(ds[k].expr, n)
  }

  lemma {:induction false} PushedWithin(ds: seq<Decision>, n: nat)
    requires DecisionsWithin(ds, n)
    ensures PathWithin(Pushed(ds), n)
  {
    if ds != [] {
      PushedWithin(ds[..|ds| - 1], n);
    }
  }

  lemma DecidedWithin(p: Program, fr: Frame, exprs: map<nat, SymExpr>, n: nat)
    requires TableWithin(exprs, n)
    ensures DecisionsWithin(Decisions(p, fr, exprs), n)
  {
    hide TableWithin, OpExpr, WorkAt, Concretized, OpVal, ValueExpr;
    var w, ds := WorkAt(p, fr), Decisions(p, fr, exprs);
    forall k | 0 <= k < |ds|
      ensures MaybeWithin(ds[k].expr, n)
    {
      if ConditionOf(w).Some? {
        OperandWithin(exprs, ConditionOf(w).value, n);
      } else if IsSwitch(w) {
        OperandWithin(exprs, w.t.v, n);
        ValueWithin(w.t.cases[k].value, OpWidth(FuncOf(p, fr.fn), w.t.v), n);
      } else {
        OperandWithin(exprs, Concretized(w)[k], n);
        ValueWithin(OpVal(fr.regs, Concretized(w)[k]), PTR_BITS, n);
      }
    }
  }

  lemma ValueWithin(v: nat, w: nat, n: nat)
    ensures Within(ValueExpr(v, w), n)
  {
  }

  /** The mention of input bytes stays within the recorded input. */
  lemma StepWithin(p: Program, input: Input, c: Conc, s: Sym)
    requires |s.exprs| == |c.stack| && SymWithin(s, |input|)
    ensures SymWithin(SStep(p, input, c, s), |input|)
  {
    hide Within, Perform, Track, WorkAt, Put, SetSlots, Assign, Decisions, Pushed, Traps, TableWithin;
    var n := |input|;
    if c.status.Running? && c.stack != [] {
      var fr, exprs := Top(c), s.exprs[|s.exprs| - 1];
      DecidedWithin(p, fr, exprs, n);
      PushedWithin(Decisions(p, fr, exprs), n);
      match WorkAt(p, fr)
      case Stuck =>
      case Do(i) =>
        if i.CallInst? {
          CallWithin(p, s, exprs, i, n);
        } else {
          TrackWithin(p, FuncOf(p, fr.fn), input, c, s, i, fr.regs, exprs);
          var e, t := Perform(p, FuncOf(p, fr.fn), input, c, i, fr.regs),
              Track(p, FuncOf(p, fr.fn), input, c, s, i, fr.regs, exprs);
          PutWithin(s.shadow, e.at, t.shadow, n);
          SetWithin(exprs, DestOf(i), t.expr, n);
        }
      case End(t) =>
        if t.Return? {
          if t.val.Some? {
            OperandWithin(exprs, t.val.value, n);
          }
          if |c.stack| >= 2 {
            var ret := if t.val.Some? then OpExpr(exprs, t.val.value) else s.ret;
            SetWithin(s.exprs[|s.exprs| - 2], ResultOf(p, c.stack[|c.stack| - 2]), ret, n);
          }
        } else {
          var phis := PhisOf(FuncOf(p, fr.fn), NextBlock(t, fr.regs));
          OperandsWithin(exprs, PhiOperands(phis, fr.blk), n);
          AssignWithin(exprs, PhiDests(phis), OpExprs(exprs, PhiOperands(phis, fr.blk)), n);
        }
    }
  }

  lemma SetWithin(exprs: map<nat, SymExpr>, d: Option<nat>, e: SymExpr, n: nat)
    requires TableWithin(exprs, n) && MaybeWithin(e, n)
    ensures TableWithin(SetDest(exprs, d, e), n)
  {
  }

  lemma CallWithin(p: Program, s: Sym, exprs: map<nat, SymExpr>, i: Instr, n: nat)
    requires i.CallInst? && TableWithin(s.slots, n) && TableWithin(exprs, n)
    ensures TableWithin(SetSlots(s.slots, OpExprs(exprs, i.args)), n)
    ensures TableWithin(NewExprs(p, i.callee, SetSlots(s.slots, OpExprs(exprs, i.args))), n)
  {
    hide Assign;
    var es := OpExprs(exprs, i.args);
    OperandsWithin(exprs, i.args, n);
    AssignWithin(s.slots, seq(|es|, k requires 0 <= k => SlotIndex(k)), es, n);
    var slots, ps := SetSlots(s.slots, es), FuncOf(p, i.callee).params;
    AssignWithin(map[], ps, GetSlots(slots, |ps|), n);
  }

  /** In every state of a run, expressions and constraints mention only bytes
      of the recorded input. */
  lemma {:induction false} RunWithin(p: Program, input: Input, memory: map<int, Byte>, n: nat)
    ensures SymWithin(Run(p, input, memory, n).s, |input|)
  {
    hide CStep, SStep, SymWithin;
    if n == 0 {
      NothingWithin(|input|);
    } else {
      RunWithin(p, input, memory, n - 1);
      var st := Run(p, input, memory, n - 1);
      StepWithin(p, input, st.c, st.s);
    }
  }

  lemma NothingWithin(n: nat)
    ensures SymWithin(InitSym(), n)
  {
  }
}
