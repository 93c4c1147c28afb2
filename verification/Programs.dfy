/** A small SSA language for the instrumented programs, its concrete execution
    on an input, and the bookkeeping that the inserted run-time calls perform
    next to it. */
module Programs {
  import opened BitVectors
  import opened Bytes
  import opened Expressions
  import opened Aggregates
  import opened Lifting

  // ---------- programs ----------

  datatype Operand = Const(value: nat, width: nat) | Reg(r: nat)

  datatype Instr =
    | BinInst(d: nat, op: BinOp, a: Operand, b': Operand)
    | CmpInst(d: nat, pred: Pred, a: Operand, b': Operand)
    | CastInst(d: nat, kind: Cast, a: Operand)
    | SelectInst(d: nat, c: Operand, a: Operand, b': Operand)
    | LoadInst(d: nat, addr: Operand)
    | StoreInst(v: Operand, addr: Operand)
    | MemMoveInst(dst: Operand, src: Operand, len: Operand)
    | MemSetInst(dst: Operand, v: Operand, len: Operand)
    | ReadInst(d: nat, buf: Operand, len: Operand)
    | CallInst(result: Option<nat>, callee: nat, args: seq<Operand>)

  datatype Case = Case(value: nat, target: nat)

  datatype Terminator =
    | Jump(target: nat)
    | Branch(c: Operand, ifTrue: nat, ifFalse: nat)
    | Switch(v: Operand, cases: seq<Case>, default: nat)
    | Return(val: Option<Operand>)

  datatype Phi = Phi(d: nat, incoming: map<nat, Operand>)

  datatype Block = Block(phis: seq<Phi>, body: seq<Instr>, end: Terminator)

  datatype Func = Func(params: seq<nat>, widths: map<nat, nat>, ret: Option<nat>, blocks: seq<Block>)

  datatype Program = Program(funcs: seq<Func>, littleEndian: bool)

  const PTR_BITS := 64

  function Width(f: Func, r: nat): (w: nat)
  {
    if r in f.widths then f.widths[r] else PTR_BITS
  }

  function OpWidth(f: Func, o: Operand): (w: nat)
  {
    match o case Const(_, w) => w case Reg(r) => Width(f, r)
  }

  function DestOf(i: Instr): (d: Option<nat>)
  {
    match i
    case StoreInst(_, _) => None
    case MemMoveInst(_, _, _) => None
    case MemSetInst(_, _, _) => None
    case CallInst(_, _, _) => None
    case _ => Some(i.d)
  }

  function Incoming(phi: Phi, from: nat): (o: Operand)
  {
    if from in phi.incoming then phi.incoming[from] else Reg(phi.d)
  }

  // ---------- maps with defaults ----------

  function Lookup(m: map<nat, nat>, r: nat): (v: nat)
  {
    if r in m then m[r] else 0
  }

  function ExprOf(m: map<nat, SymExpr>, r: nat): (e: SymExpr)
  {
    if r in m then m[r] else None
  }

  /** Assign `vs` to `ds`, from left to right. */
  function Assign<T>(m: map<nat, T>, ds: seq<nat>, vs: seq<T>): (r: map<nat, T>)
    requires |ds| == |vs|
  {
    if ds == [] then m
    else var n := |ds| - 1; Assign(m, ds[..n], vs[..n])[ds[n] := vs[n]]
  }

  function ByteAt(m: map<int, Byte>, a: int): (v: Byte)
  {
    if a in m then m[a] else 0
  }

  function ShadowAt(m: map<int, SymExpr>, a: int): (e: SymExpr)
  {
    if a in m then m[a] else None
  }

  /** Write `vs` at consecutive addresses from `at`. */
  function Put<T>(m: map<int, T>, at: int, vs: seq<T>): (r: map<int, T>)
  {
    if vs == [] then m
    else var n := |vs| - 1; Put(m, at, vs[..n])[at + n := vs[n]]
  }

  lemma {:induction false} PutAt<T>(m: map<int, T>, at: int, vs: seq<T>, a: int)
    ensures at <= a < at + |vs| ==> a in Put(m, at, vs) && Put(m, at, vs)[a] == vs[a - at]
    ensures !(at <= a < at + |vs|) ==> (a in Put(m, at, vs) <==> a in m)
    ensures !(at <= a < at + |vs|) && a in m ==> Put(m, at, vs)[a] == m[a]
  {
    if vs != [] {
      PutAt(m, at, vs[..|vs| - 1], a);
    }
  }

  // ---------- concrete execution ----------

  datatype Status = Running | Finished | Trapped

  datatype Frame = Frame(fn: nat, blk: nat, idx: nat, regs: map<nat, nat>)

  datatype Conc = Conc(status: Status, stack: seq<Frame>, memory: map<int, Byte>, offset: nat)

  function OpVal(regs: map<nat, nat>, o: Operand): (v: nat)
  {
    match o case Const(v, _) => v case Reg(r) => Lookup(regs, r)
  }

  function OpVals(regs: map<nat, nat>, os: seq<Operand>): (vs: seq<nat>)
    ensures |vs| == |os|
  {
    seq(|os|, k requires 0 <= k < |os| => OpVal(regs, os[k]))
  }

  datatype Work = Do(i: Instr) | End(t: Terminator) | Stuck

  function WorkAt(p: Program, fr: Frame): (w: Work)
  {
    if fr.fn < |p.funcs| && fr.blk < |p.funcs[fr.fn].blocks| then
      var b := p.funcs[fr.fn].blocks[fr.blk];
      if fr.idx < |b.body| then Do(b.body[fr.idx])
      else if fr.idx == |b.body| then End(b.end)
      else Stuck
    else Stuck
  }

  function PhisOf(f: Func, blk: nat): (phis: seq<Phi>)
  {
    if blk < |f.blocks| then f.blocks[blk].phis else []
  }

  function ByteCount(w: nat): (n: nat)
  {
    if w == 1 then 1 else w / 8
  }

  function ReadBytes(m: map<int, Byte>, at: int, n: nat): (bs: seq<Byte>)
    ensures |bs| == n
  {
    seq<Byte>(n, k requires 0 <= k < n => ByteAt(m, at + k))
  }

  /** What an instruction other than a call does. */
  datatype Effect = Effect(value: nat, at: int, bytes: seq<Byte>, advance: nat)

  predicate IsDivision(op: BinOp)
  {
    op.UDiv? || op.SDiv? || op.URem? || op.SRem?
  }

  /** A division by zero, and a signed division whose quotient does not fit. */
  predicate DivisionTraps(op: BinOp, w: nat, x: nat, y: nat)
  {
    IsDivision(op)
    && (y == 0 || ((op.SDiv? || op.SRem?) && w >= 1 && x == Pow2(w - 1) && y == Pow2(w) - 1))
  }

  predicate Traps(f: Func, i: Instr, regs: map<nat, nat>)
  {
    i.BinInst? && DivisionTraps(i.op, OpWidth(f, i.a), OpVal(regs, i.a), OpVal(regs, i.b'))
  }

  function Min(a: nat, b: nat): (m: nat)
  {
    if a <= b then a else b
  }

  function Remaining(input: Input, offset: nat): (n: nat)
    ensures n == 0 || offset + n == |input|
  {
    if offset <= |input| then |input| - offset else 0
  }

  /** How many bytes a read of at most `len` bytes delivers. */
  function ReadCount(input: Input, offset: nat, len: nat): (n: nat)
  {
    Min(len, Remaining(input, offset))
  }

  function LoadValue(w: nat, bs: seq<Byte>, littleEndian: bool): (v: nat)
  {
    var v := FromBytes(Ordered(bs, littleEndian));
    if w == 1 then v % 2 else v
  }

  function Perform(p: Program, f: Func, input: Input, c: Conc, i: Instr, regs: map<nat, nat>): (e: Effect)
  {
    match i
    case BinInst(_, op, a, b) => Effect(ConcBinary(op, OpWidth(f, a), OpVal(regs, a), OpVal(regs, b)), 0, [], 0)
    case CmpInst(_, pr, a, b) => Effect(BitOf(CmpVal(pr, OpWidth(f, a), OpVal(regs, a), OpVal(regs, b))), 0, [], 0)
    case CastInst(d, k, a) => Effect(ConcCast(k, OpWidth(f, a), Width(f, d), OpVal(regs, a)), 0, [], 0)
    case SelectInst(_, cond, a, b) =>
      Effect(if OpVal(regs, cond) != 0 then OpVal(regs, a) else OpVal(regs, b), 0, [], 0)
    case LoadInst(d, addr) =>
      var w := Width(f, d);
      Effect(LoadValue(w, ReadBytes(c.memory, OpVal(regs, addr), ByteCount(w)), p.littleEndian), 0, [], 0)
    case StoreInst(v, addr) =>
      Effect(0, OpVal(regs, addr), Ordered(ToBytes(ByteCount(OpWidth(f, v)), OpVal(regs, v)), p.littleEndian), 0)
    case MemMoveInst(dst, src, len) =>
      Effect(0, OpVal(regs, dst), ReadBytes(c.memory, OpVal(regs, src), OpVal(regs, len)), 0)
    case MemSetInst(dst, v, len) =>
      Effect(0, OpVal(regs, dst), Repeat(OpVal(regs, v) % 256, OpVal(regs, len)), 0)
    case ReadInst(_, buf, len) =>
      var n := ReadCount(input, c.offset, OpVal(regs, len));
      Effect(n, OpVal(regs, buf), if n == 0 then [] else input[c.offset..c.offset + n], n)
    case CallInst(_, _, _) => Effect(0, 0, [], 0)
  }

  function SetDest<T>(m: map<nat, T>, d: Option<nat>, v: T): (r: map<nat, T>)
  {
    if d.Some? then m[d.value := v] else m
  }

  function Top(c: Conc): (fr: Frame)
    requires c.stack != []
  {
    c.stack[|c.stack| - 1]
  }

  function SwitchTarget(v: nat, cases: seq<Case>, default: nat): (b: nat)
  {
    if cases == [] then default
    else if v == cases[0].value then cases[0].target
    else SwitchTarget(v, cases[1..], default)
  }

  function NextBlock(t: Terminator, regs: map<nat, nat>): (b: nat)
    requires !t.Return?
  {
    match t
    case Jump(b) => b
    case Branch(c, b0, b1) => if OpVal(regs, c) != 0 then b0 else b1
    case Switch(v, cases, default) => SwitchTarget(OpVal(regs, v), cases, default)
  }

  function PhiDests(phis: seq<Phi>): (ds: seq<nat>)
    ensures |ds| == |phis|
  {
    seq(|phis|, k requires 0 <= k < |phis| => phis[k].d)
  }

  function PhiOperands(phis: seq<Phi>, from: nat): (os: seq<Operand>)
    ensures |os| == |phis|
  {
    seq(|phis|, k requires 0 <= k < |phis| => Incoming(phis[k], from))
  }

  function FuncOf(p: Program, fn: nat): (f: Func)
  {
    if fn < |p.funcs| then p.funcs[fn] else Func([], map[], None, [])
  }

  function EnterBlock(p: Program, fr: Frame, b: nat): (r: Frame)
  {
    var phis := PhisOf(FuncOf(p, fr.fn), b);
    Frame(fr.fn, b, 0, Assign(fr.regs, PhiDests(phis), OpVals(fr.regs, PhiOperands(phis, fr.blk))))
  }

  function NewFrame(p: Program, callee: nat, vs: seq<nat>): (fr: Frame)
  {
    var ps := FuncOf(p, callee).params;
    Frame(callee, 0, 0, if |ps| == |vs| then Assign(map[], ps, vs) else map[])
  }

  /** Where the caller wants the result of the call it is waiting for. */
  function ResultOf(p: Program, caller: Frame): (d: Option<nat>)
  {
    match WorkAt(p, caller)
    case Do(CallInst(d, _, _)) => d
    case _ => None
  }

  /** The callers of a function that returned `value`. */
  function Resume(p: Program, callers: seq<Frame>, value: nat): (r: seq<Frame>)
    requires callers != []
    ensures |r| == |callers|
  {
    var n := |callers| - 1;
    var fr := callers[n];
    callers[..n] + [fr.(idx := fr.idx + 1, regs := SetDest(fr.regs, ResultOf(p, fr), value))]
  }

  function CStep(p: Program, input: Input, c: Conc): (r: Conc)
  {
    if !c.status.Running? || c.stack == [] then c
    else
      var fr := Top(c);
      var below := c.stack[..|c.stack| - 1];
      match WorkAt(p, fr)
      case Stuck => c.(status := Trapped)
      case Do(CallInst(_, callee, args)) =>
        c.(stack := c.stack + [NewFrame(p, callee, OpVals(fr.regs, args))])
      case Do(i) =>
        if Traps(FuncOf(p, fr.fn), i, fr.regs) then c.(status := Trapped)
        else
          var e := Perform(p, FuncOf(p, fr.fn), input, c, i, fr.regs);
          Conc(Running, below + [fr.(idx := fr.idx + 1, regs := SetDest(fr.regs, DestOf(i), e.value))],
               Put(c.memory, e.at, e.bytes), c.offset + e.advance)
      case End(Return(v)) =>
        if below == [] then c.(status := Finished)
        else c.(stack := Resume(p, below, if v.Some? then OpVal(fr.regs, v.value) else 0))
      case End(t) =>
        c.(stack := below + [EnterBlock(p, fr, NextBlock(t, fr.regs))])
  }

  // ---------- symbolic bookkeeping ----------

  datatype Constraint = Constraint(expr: Expr, taken: bool)

  /** A place where the run asks the solver for an alternative: nothing is
      pushed when the expression is null. */
  datatype Decision = Decision(expr: SymExpr, taken: bool)

  datatype Sym = Sym(exprs: seq<map<nat, SymExpr>>, shadow: map<int, SymExpr>,
                     slots: map<nat, SymExpr>, ret: SymExpr, path: seq<Constraint>)

  function OpExpr(exprs: map<nat, SymExpr>, o: Operand): (e: SymExpr)
  {
    match o case Const(_, _) => None case Reg(r) => ExprOf(exprs, r)
  }

  function OpExprs(exprs: map<nat, SymExpr>, os: seq<Operand>): (es: seq<SymExpr>)
    ensures |es| == |os|
  {
    seq(|os|, k requires 0 <= k < |os| => OpExpr(exprs, os[k]))
  }

  /** `tryAlternative`: the expression equals the concrete value of this run. */
  function Concretize(e: SymExpr, v: nat, w: nat): (d: Decision)
  {
    Decision(if e.Some? then Some(Compare(Eq, e.value, ValueExpr(v, w))) else None, true)
  }

  /** The condition that a branch or select turns into a constraint. */
  function ConditionOf(w: Work): (o: Option<Operand>)
  {
    match w
    case Do(SelectInst(_, c, _, _)) => Some(c)
    case End(Branch(c, _, _)) => Some(c)
    case _ => None
  }

  /** The addresses and lengths that an instruction makes concrete. */
  function Concretized(w: Work): (os: seq<Operand>)
  {
    match w
    case Do(LoadInst(_, a)) => [a]
    case Do(StoreInst(_, a)) => [a]
    case Do(MemMoveInst(a, b, n)) => [a, b, n]
    case Do(MemSetInst(a, _, n)) => [a, n]
    case Do(ReadInst(_, a, n)) => [a, n]
    case _ => []
  }

  predicate IsSwitch(w: Work)
  {
    w.End? && w.t.Switch?
  }

  /** What this instruction or terminator would push, in order. */
  function Decisions(p: Program, fr: Frame, exprs: map<nat, SymExpr>): (ds: seq<Decision>)
  {
    var w := WorkAt(p, fr);
    if ConditionOf(w).Some? then
      var c := ConditionOf(w).value;
      [Decision(OpExpr(exprs, c), OpVal(fr.regs, c) != 0)]
    else if IsSwitch(w) then
      SwitchDecisions(exprs, fr.regs, w.t.v, w.t.cases, OpWidth(FuncOf(p, fr.fn), w.t.v))
    else ConcretizeAll(exprs, fr.regs, Concretized(w))
  }

  function SwitchDecisions(exprs: map<nat, SymExpr>, regs: map<nat, nat>, v: Operand, cases: seq<Case>,
                           w: nat): (ds: seq<Decision>)
    ensures |ds| == |cases|
  {
    seq(|cases|, k requires 0 <= k < |cases| => SwitchDecision(OpExpr(exprs, v), OpVal(regs, v), cases[k].value, w))
  }

  function ConcretizeAll(exprs: map<nat, SymExpr>, regs: map<nat, nat>, os: seq<Operand>): (ds: seq<Decision>)
    ensures |ds| == |os|
  {
    seq(|os|, k requires 0 <= k < |os| => Concretize(OpExpr(exprs, os[k]), OpVal(regs, os[k]), PTR_BITS))
  }

  function SwitchDecision(e: SymExpr, v: nat, value: nat, w: nat): (d: Decision)
  {
    Decision(if e.Some? then Some(Compare(Eq, e.value, ValueExpr(value, w))) else None, v == value)
  }

  function Pushed(ds: seq<Decision>): (cs: seq<Constraint>)
  {
    if ds == [] then []
    else
      var n := |ds| - 1;
      Pushed(ds[..n]) + if ds[n].expr.Some? then [Constraint(ds[n].expr.value, ds[n].taken)] else []
  }

  /** `_sym_read_memory`: null if every byte is concrete. */
  function ReadShadow(m: map<int, Byte>, sh: map<int, SymExpr>, at: int, n: nat, littleEndian: bool): (e: SymExpr)
  {
    if n == 0 || AllNull(ShadowBytes(sh, at, n)) then None
    else Some(JoinBytes(ByteExprs(m, sh, at, n), littleEndian))
  }

  predicate AllNull(es: seq<SymExpr>)
  {
    forall k :: 0 <= k < |es| ==> es[k].None?
  }

  function ShadowBytes(sh: map<int, SymExpr>, at: int, n: nat): (es: seq<SymExpr>)
    ensures |es| == n
  {
    seq(n, k requires 0 <= k < n => ShadowAt(sh, at + k))
  }

  function ByteExprs(m: map<int, Byte>, sh: map<int, SymExpr>, at: int, n: nat): (es: seq<Expr>)
    ensures |es| == n
  {
    seq(n, k requires 0 <= k < n => Coerce(ShadowAt(sh, at + k), ByteAt(m, at + k), 8))
  }

  /** `_sym_write_memory`: one byte expression per address, or all null. */
  function StoreShadow(e: SymExpr, n: nat, littleEndian: bool): (es: seq<SymExpr>)
    ensures |es| == n
  {
    if e.None? then seq(n, _ => None)
    else seq(n, k requires 0 <= k < n => Some(SplitByte(e.value, n, k, littleEndian)))
  }

  /** A Boolean is stored as a whole byte. */
  function StoredExpr(e: SymExpr, w: nat): (r: SymExpr)
  {
    if w == 1 && e.Some? then Some(ZExt(BoolToBit(e.value), 7)) else e
  }

  function LoadedExpr(e: SymExpr, w: nat): (r: SymExpr)
  {
    if w == 1 && e.Some? then Some(ByteToBool(e.value)) else e
  }

  /** The expressions of input bytes at consecutive offsets. */
  function InputBytes(offset: nat, n: nat): (es: seq<SymExpr>)
    ensures |es| == n
  {
    seq(n, k requires 0 <= k => Some(InputByte(offset + k)))
  }

  datatype SymEffect = SymEffect(expr: SymExpr, shadow: seq<SymExpr>)

  function Track(p: Program, f: Func, input: Input, c: Conc, s: Sym, i: Instr,
                 regs: map<nat, nat>, exprs: map<nat, SymExpr>): (e: SymEffect)
  {
    match i
    case BinInst(_, op, a, b) =>
      SymEffect(LiftBinary(op, OpWidth(f, a), OpExpr(exprs, a), OpVal(regs, a), OpExpr(exprs, b), OpVal(regs, b)), [])
    case CmpInst(_, pr, a, b) =>
      SymEffect(LiftCompare(pr, OpWidth(f, a), OpExpr(exprs, a), OpVal(regs, a), OpExpr(exprs, b), OpVal(regs, b)), [])
    case CastInst(d, k, a) =>
      SymEffect(if Width(f, d) >= 1 then LiftCast(k, OpWidth(f, a), Width(f, d), OpExpr(exprs, a)) else None, [])
    case SelectInst(_, cond, a, b) =>
      SymEffect(if OpVal(regs, cond) != 0 then OpExpr(exprs, a) else OpExpr(exprs, b), [])
    case LoadInst(d, addr) =>
      var w := Width(f, d);
      SymEffect(LoadedExpr(ReadShadow(c.memory, s.shadow, OpVal(regs, addr), ByteCount(w), p.littleEndian), w), [])
    case StoreInst(v, addr) =>
      var w := OpWidth(f, v);
      SymEffect(None, StoreShadow(StoredExpr(OpExpr(exprs, v), w), ByteCount(w), p.littleEndian))
    case MemMoveInst(dst, src, len) =>
      SymEffect(None, ShadowBytes(s.shadow, OpVal(regs, src), OpVal(regs, len)))
    case MemSetInst(dst, v, len) =>
      SymEffect(None, seq(OpVal(regs, len), _ => OpExpr(exprs, v)))
    case ReadInst(_, buf, len) =>
      SymEffect(None, InputBytes(c.offset, ReadCount(input, c.offset, OpVal(regs, len))))
    case CallInst(_, _, _) => SymEffect(None, [])
  }

  const MAX_FUNCTION_ARGUMENTS := 256

  /** The argument slots are indexed by a byte. */
  function SlotIndex(k: nat): (i: nat)
    ensures i < MAX_FUNCTION_ARGUMENTS
  {
    k % MAX_FUNCTION_ARGUMENTS
  }

  function SetSlots(slots: map<nat, SymExpr>, es: seq<SymExpr>): (r: map<nat, SymExpr>)
  {
    Assign(slots, seq(|es|, k requires 0 <= k => SlotIndex(k)), es)
  }

  function GetSlots(slots: map<nat, SymExpr>, n: nat): (es: seq<SymExpr>)
    ensures |es| == n
  {
    seq(n, k requires 0 <= k => ExprOf(slots, SlotIndex(k)))
  }

  function NewExprs(p: Program, callee: nat, slots: map<nat, SymExpr>): (m: map<nat, SymExpr>)
  {
    var ps := FuncOf(p, callee).params;
    Assign(map[], ps, GetSlots(slots, |ps|))
  }

  /** The caller fetches the return expression if it uses the result. */
  function ResumeExprs(callers: seq<map<nat, SymExpr>>, d: Option<nat>, ret: SymExpr): (r: seq<map<nat, SymExpr>>)
    requires callers != []
    ensures |r| == |callers|
  {
    var n := |callers| - 1;
    callers[..n] + [SetDest(callers[n], d, ret)]
  }

  function SStep(p: Program, input: Input, c: Conc, s: Sym): (r: Sym)
    requires |s.exprs| == |c.stack|
  {
    if !c.status.Running? || c.stack == [] then s
    else
      var fr, exprs := Top(c), s.exprs[|s.exprs| - 1];
      var below := s.exprs[..|s.exprs| - 1];
      var path := s.path + Pushed(Decisions(p, fr, exprs));
      match WorkAt(p, fr)
      case Stuck => s
      case Do(CallInst(d, callee, args)) =>
        var slots := SetSlots(s.slots, OpExprs(exprs, args));
        s.(slots := slots, ret := if d.Some? then None else s.ret,
           exprs := s.exprs + [NewExprs(p, callee, slots)])
      case Do(i) =>
        if Traps(FuncOf(p, fr.fn), i, fr.regs) then s
        else
          var e := Track(p, FuncOf(p, fr.fn), input, c, s, i, fr.regs, exprs);
          var e' := Perform(p, FuncOf(p, fr.fn), input, c, i, fr.regs);
          s.(exprs := below + [SetDest(exprs, DestOf(i), e.expr)],
             shadow := Put(s.shadow, e'.at, e.shadow), path := path)
      case End(Return(v)) =>
        var ret := if v.Some? then OpExpr(exprs, v.value) else s.ret;
        if below == [] then s.(ret := ret)
        else
          var d := ResultOf(p, c.stack[|c.stack| - 2]);
          s.(exprs := ResumeExprs(below, d, ret), ret := if d.Some? then None else ret)
      case End(t) =>
        var phis := PhisOf(FuncOf(p, fr.fn), NextBlock(t, fr.regs));
        s.(exprs := below + [Assign(exprs, PhiDests(phis), OpExprs(exprs, PhiOperands(phis, fr.blk)))],
           path := path)
  }

  // ---------- whole runs ----------

  datatype State = State(c: Conc, s: Sym)

  function InitConc(memory: map<int, Byte>): (c: Conc)
  {
    Conc(Running, [Frame(0, 0, 0, map[])], memory, 0)
  }

  function InitSym(): (s: Sym)
  {
    Sym([map[]], map[], map[], None, [])
  }

  function CRun(p: Program, input: Input, memory: map<int, Byte>, n: nat): (c: Conc)
  {
    if n == 0 then InitConc(memory) else CStep(p, input, CRun(p, input, memory, n - 1))
  }

  lemma {:induction false} StepShape(p: Program, input: Input, c: Conc, s: Sym)
    requires |s.exprs| == |c.stack|
    ensures |SStep(p, input, c, s).exprs| == |CStep(p, input, c).stack|
  {
  }

  /** The instrumented run: the concrete state and the bookkeeping beside it. */
  function Run(p: Program, input: Input, memory: map<int, Byte>, n: nat): (st: State)
    ensures |st.s.exprs| == |st.c.stack|
    ensures st.c == CRun(p, input, memory, n)
  {
    if n == 0 then State(InitConc(memory), InitSym())
    else
      var st := Run(p, input, memory, n - 1);
      StepShape(p, input, st.c, st.s);
      State(CStep(p, input, st.c), SStep(p, input, st.c, st.s))
  }
}
