/** What one step of an instrumented run does, instruction by instruction:
    the register, the bytes of memory, the expressions and the constraints
    after the step in terms of those before it. */
module StepLaws {
  import opened BitVectors
  import opened Bytes
  import opened Expressions
  import opened Aggregates
  import opened Lifting
  import opened Programs
  import opened ReplayTheorems
  import opened ArgumentSlots
  import opened OperatorLaws

  function Step(p: Program, input: Input, st: State): (r: State)
    requires |st.s.exprs| == |st.c.stack|
  {
    State(CStep(p, input, st.c), SStep(p, input, st.c, st.s))
  }

  /** Runs start in the first block of the first function, with nothing in
      registers, shadow memory, slots and path, and go on step by step until
      they end. */
  lemma RunLaw(p: Program, input: Input, memory: map<int, Byte>, n: nat)
    ensures Run(p, input, memory, 0)
         == State(Conc(Running, [Frame(0, 0, 0, map[])], memory, 0), Sym([map[]], map[], map[], None, []))
    ensures Run(p, input, memory, n + 1) == Step(p, input, Run(p, input, memory, n))
    ensures !Run(p, input, memory, n).c.status.Running? ==> Run(p, input, memory, n + 1) == Run(p, input, memory, n)
  {
  }

  /** The frame that executes, its expressions, and the frames below it. */
  datatype Point = Point(below: seq<Frame>, fr: Frame, lower: seq<map<nat, SymExpr>>, exprs: map<nat, SymExpr>)

  predicate In(p: Program, st: State, k: Point)
  {
    && st.c.status.Running? && st.c.stack == k.below + [k.fr] && st.s.exprs == k.lower + [k.exprs]
    && |k.below| == |k.lower|
    && k.fr.fn < |p.funcs| && k.fr.blk < |p.funcs[k.fr.fn].blocks|
  }

  /** The next thing to execute is instruction `i`. */
  predicate Before(p: Program, st: State, k: Point, i: Instr)
  {
    && In(p, st, k)
    && k.fr.idx < |p.funcs[k.fr.fn].blocks[k.fr.blk].body| && p.funcs[k.fr.fn].blocks[k.fr.blk].body[k.fr.idx] == i
  }

  /** The next thing to execute is terminator `t`. */
  predicate AtEnd(p: Program, st: State, k: Point, t: Terminator)
  {
    && In(p, st, k)
    && k.fr.idx == |p.funcs[k.fr.fn].blocks[k.fr.blk].body| && p.funcs[k.fr.fn].blocks[k.fr.blk].end == t
  }

  /** The step ends behind the instruction; register `d`, if any, has a new
      value and expression, and the path new constraints. */
  predicate Advances(st: State, st': State, k: Point, d: Option<nat>, v: nat, e: SymExpr, cs: seq<Constraint>)
  {
    && st'.c.status.Running?
    && st'.c.stack
       == k.below + [k.fr.(idx := k.fr.idx + 1, regs := if d.Some? then k.fr.regs[d.value := v] else k.fr.regs)]
    && st'.s.exprs == k.lower + [if d.Some? then k.exprs[d.value := e] else k.exprs]
    && st'.s.slots == st.s.slots && st'.s.ret == st.s.ret && st'.s.path == st.s.path + cs
  }

  predicate SameMemory(st: State, st': State)
  {
    st'.c.memory == st.c.memory && st'.s.shadow == st.s.shadow && st'.c.offset == st.c.offset
  }

  /** Memory and its shadow change in the range of the `n` bytes from `at` only. */
  ghost predicate OnlyAt(st: State, st': State, at: int, n: nat)
  {
    forall a: int {:trigger ByteAt(st'.c.memory, a)} {:trigger ShadowAt(st'.s.shadow, a)} :: !(at <= a < at + n) ==>
      ByteAt(st'.c.memory, a) == ByteAt(st.c.memory, a) && ShadowAt(st'.s.shadow, a) == ShadowAt(st.s.shadow, a)
  }

  /** The bytes and their expressions from address `at` on. */
  predicate Holding(st: State, at: int, bs: seq<Byte>, es: seq<SymExpr>)
  {
    |bs| == |es|
    && forall j {:trigger bs[j]} {:trigger es[j]} :: 0 <= j < |bs| ==>
         ByteAt(st.c.memory, at + j) == bs[j] && ShadowAt(st.s.shadow, at + j) == es[j]
  }

  /** A register that was assigned has the value and expression assigned. */
  lemma OperandLaw(regs: map<nat, nat>, exprs: map<nat, SymExpr>, r: nat, v: nat, e: SymExpr, w: nat)
    ensures OpVal(regs[r := v], Reg(r)) == v && OpExpr(exprs[r := e], Reg(r)) == e
    ensures OpVal(regs, Const(v, w)) == v && OpExpr(exprs, Const(v, w)) == None
  {
  }

  /** Constants and registers have their declared widths; registers without one
      are as wide as pointers. */
  lemma WidthLaw(f: Func, r: nat, v: nat, w: nat)
    ensures r in f.widths ==> OpWidth(f, Reg(r)) == Width(f, r) == f.widths[r]
    ensures r !in f.widths ==> OpWidth(f, Reg(r)) == Width(f, r) == 64
    ensures OpWidth(f, Const(v, w)) == w
  {
  }

  // ---------- constraints ----------

  /** What a condition pushes. */
  function Asked(e: SymExpr, taken: bool): (cs: seq<Constraint>)
  {
    if e.None? then [] else [Constraint(e.value, taken)]
  }

  /** What making an address or length concrete pushes. */
  function Fixed(k: Point, o: Operand): (cs: seq<Constraint>)
  {
    var e := OpExpr(k.exprs, o);
    if e.None? then [] else [Constraint(Compare(Eq, e.value, ValueExpr(OpVal(k.fr.regs, o), PTR_BITS)), true)]
  }

  /** Exactly the inputs on which it has its recorded value satisfy it. */
  lemma FixedMeans(k: Point, o: Operand, input: Input)
    requires OpVal(k.fr.regs, o) < Pow2(PTR_BITS) && Typed(OpExpr(k.exprs, o), PTR_BITS)
    ensures PathSat(Fixed(k, o), input)
      <==> OpExpr(k.exprs, o).Some? ==> Eval(OpExpr(k.exprs, o).value, input) == OpVal(k.fr.regs, o)
  {
    hide Pow2, Eval, WellSorted, Bits, IsBool, ValueExpr;
    var e, v := OpExpr(k.exprs, o), OpVal(k.fr.regs, o);
    if e.Some? {
      ValueExprCorrect(v, PTR_BITS, input);
      CompareExprValue(Eq, PTR_BITS, e.value, ValueExpr(v, PTR_BITS), input);
      assert PathSat(Fixed(k, o), input) <==> Satisfied(Fixed(k, o)[0], input);
    }
  }

  lemma PushedNext(ds: seq<Decision>, d: Decision)
    ensures Pushed(ds + [d]) == Pushed(ds) + Asked(d.expr, d.taken)
  {
    assert (ds + [d])[..|ds|] == ds;
  }

  lemma PushedOne(d: Decision)
    ensures Pushed([d]) == Asked(d.expr, d.taken)
  {
    PushedNext([], d);
    assert [] + [d] == [d];
  }

  lemma PushedTwo(d: Decision, d': Decision)
    ensures Pushed([d, d']) == Asked(d.expr, d.taken) + Asked(d'.expr, d'.taken)
  {
    PushedOne(d);
    PushedNext([d], d');
    assert [d] + [d'] == [d, d'];
  }

  lemma PushedThree(d: Decision, d': Decision, d'': Decision)
    ensures Pushed([d, d', d'']) == Asked(d.expr, d.taken) + Asked(d'.expr, d'.taken) + Asked(d''.expr, d''.taken)
  {
    PushedTwo(d, d');
    PushedNext([d, d'], d'');
    assert [d, d'] + [d''] == [d, d', d''];
  }

  // ---------- one instruction ----------

  /** A step at an instruction other than a call, through its effects. */
  lemma InstrStep(p: Program, input: Input, st: State, k: Point, i: Instr)
    requires Before(p, st, k, i) && !i.CallInst?
    ensures var f := p.funcs[k.fr.fn];
      if Traps(f, i, k.fr.regs) then Step(p, input, st) == State(st.c.(status := Trapped), st.s)
      else
        var e, t := Perform(p, f, input, st.c, i, k.fr.regs), Track(p, f, input, st.c, st.s, i, k.fr.regs, k.exprs);
        Step(p, input, st)
        == State(Conc(Running, k.below + [k.fr.(idx := k.fr.idx + 1, regs := SetDest(k.fr.regs, DestOf(i), e.value))],
                      Put(st.c.memory, e.at, e.bytes), st.c.offset + e.advance),
                 st.s.(exprs := k.lower + [SetDest(k.exprs, DestOf(i), t.expr)],
                       shadow := Put(st.s.shadow, e.at, t.shadow),
                       path := st.s.path + Pushed(Decisions(p, k.fr, k.exprs))))
  {
    hide Perform, Track, Put, Pushed, Decisions, Traps, DestOf;
    Tops(p, st, k);
    assert WorkAt(p, k.fr) == Do(i);
  }

  lemma Tops(p: Program, st: State, k: Point)
    requires In(p, st, k)
    ensures Top(st.c) == k.fr && st.c.stack[..|st.c.stack| - 1] == k.below
    ensures |st.s.exprs| == |st.c.stack| && st.s.exprs[|st.s.exprs| - 1] == k.exprs
    ensures st.s.exprs[..|st.s.exprs| - 1] == k.lower && FuncOf(p, k.fr.fn) == p.funcs[k.fr.fn]
  {
  }

  /** An instruction that touches no memory and pushes nothing. */
  lemma QuietStep(p: Program, input: Input, st: State, k: Point, i: Instr, d: nat)
    requires Before(p, st, k, i) && (i.BinInst? || i.CmpInst? || i.CastInst?) && d == i.d
    requires !Traps(p.funcs[k.fr.fn], i, k.fr.regs)
    ensures var e, t := Perform(p, p.funcs[k.fr.fn], input, st.c, i, k.fr.regs),
                        Track(p, p.funcs[k.fr.fn], input, st.c, st.s, i, k.fr.regs, k.exprs);
      Advances(st, Step(p, input, st), k, Some(d), e.value, t.expr, []) && SameMemory(st, Step(p, input, st))
  {
    hide ConcBinary, LiftBinary, CmpVal, LiftCompare, ConcCast, LiftCast;
    InstrStep(p, input, st, k, i);
    assert WorkAt(p, k.fr) == Do(i);
    assert Decisions(p, k.fr, k.exprs) == [];
  }

  /** A binary instruction: its trap, or the result of the operator on the
      operands in their order; null exactly if both operands are. */
  lemma BinaryLaw(p: Program, input: Input, st: State, k: Point, d: nat, op: BinOp, a: Operand, b: Operand)
    returns (e: SymExpr)
    requires Before(p, st, k, BinInst(d, op, a, b))
    ensures var w := OpWidth(p.funcs[k.fr.fn], a);
      var x, y := OpVal(k.fr.regs, a), OpVal(k.fr.regs, b);
      if DivisionTraps(op, w, x, y) then Step(p, input, st) == State(st.c.(status := Trapped), st.s)
      else
        && Advances(st, Step(p, input, st), k, Some(d), ConcBinary(op, w, x, y), e, [])
        && SameMemory(st, Step(p, input, st)) && (w != 1 ==> ConcBinary(op, w, x, y) == BinVal(op, w, x, y))
        && (e.None? <==> OpExpr(k.exprs, a).None? && OpExpr(k.exprs, b).None?)
  {
    hide Perform, Traps, DivisionTraps, ConcBinary;
    WideOperator(op, OpWidth(p.funcs[k.fr.fn], a), OpVal(k.fr.regs, a), OpVal(k.fr.regs, b));
    var i, f := BinInst(d, op, a, b), p.funcs[k.fr.fn];
    e := Track(p, f, input, st.c, st.s, i, k.fr.regs, k.exprs).expr;
    BinaryEffect(p, f, input, st.c, i, k.fr.regs);
    if Traps(f, i, k.fr.regs) {
      InstrStep(p, input, st, k, i);
    } else {
      QuietStep(p, input, st, k, i, d);
    }
  }

  lemma WideOperator(op: BinOp, w: nat, x: nat, y: nat)
    ensures w != 1 ==> ConcBinary(op, w, x, y) == BinVal(op, w, x, y)
  {
    hide BinVal;
  }

  lemma BinaryEffect(p: Program, f: Func, input: Input, c: Conc, i: Instr, regs: map<nat, nat>)
    requires i.BinInst?
    ensures Perform(p, f, input, c, i, regs).value
         == ConcBinary(i.op, OpWidth(f, i.a), OpVal(regs, i.a), OpVal(regs, i.b'))
    ensures Traps(f, i, regs) == DivisionTraps(i.op, OpWidth(f, i.a), OpVal(regs, i.a), OpVal(regs, i.b'))
  {
    hide ConcBinary, DivisionTraps;
  }

  lemma CompareLaw(p: Program, input: Input, st: State, k: Point, d: nat, pr: Pred, a: Operand, b: Operand)
    returns (e: SymExpr)
    requires Before(p, st, k, CmpInst(d, pr, a, b))
    ensures var w := OpWidth(p.funcs[k.fr.fn], a);
      && Advances(st, Step(p, input, st), k, Some(d),
                  if CmpVal(pr, w, OpVal(k.fr.regs, a), OpVal(k.fr.regs, b)) then 1 else 0, e, [])
      && SameMemory(st, Step(p, input, st))
      && (e.None? <==> OpExpr(k.exprs, a).None? && OpExpr(k.exprs, b).None?)
  {
    hide CmpVal;
    var i := CmpInst(d, pr, a, b);
    e := Track(p, p.funcs[k.fr.fn], input, st.c, st.s, i, k.fr.regs, k.exprs).expr;
    QuietStep(p, input, st, k, i, d);
  }

  lemma CastLaw(p: Program, input: Input, st: State, k: Point, d: nat, kind: Cast, a: Operand) returns (e: SymExpr)
    requires Before(p, st, k, CastInst(d, kind, a)) && Width(p.funcs[k.fr.fn], d) >= 1
    ensures var f := p.funcs[k.fr.fn];
      && Advances(st, Step(p, input, st), k, Some(d),
                  ConcCast(kind, OpWidth(f, a), Width(f, d), OpVal(k.fr.regs, a)), e, [])
      && SameMemory(st, Step(p, input, st))
      && (e.None? <==> OpExpr(k.exprs, a).None?)
  {
    hide ConcCast;
    var i := CastInst(d, kind, a);
    e := Track(p, p.funcs[k.fr.fn], input, st.c, st.s, i, k.fr.regs, k.exprs).expr;
    QuietStep(p, input, st, k, i, d);
  }

  /** A select takes the value and the expression of its first operand if the
      condition is not zero, and those of the second otherwise. */
  lemma SelectLaw(p: Program, input: Input, st: State, k: Point, d: nat, cond: Operand, a: Operand, b: Operand)
    requires Before(p, st, k, SelectInst(d, cond, a, b))
    ensures var v := OpVal(k.fr.regs, cond);
      var cs := Asked(OpExpr(k.exprs, cond), v != 0);
      && (v != 0 ==>
            Advances(st, Step(p, input, st), k, Some(d), OpVal(k.fr.regs, a), OpExpr(k.exprs, a), cs))
      && (v == 0 ==>
            Advances(st, Step(p, input, st), k, Some(d), OpVal(k.fr.regs, b), OpExpr(k.exprs, b), cs))
      && SameMemory(st, Step(p, input, st))
  {
    hide Pushed, OpVal, OpExpr;
    var i := SelectInst(d, cond, a, b);
    InstrStep(p, input, st, k, i);
    assert WorkAt(p, k.fr) == Do(i);
    PushedOne(Decision(OpExpr(k.exprs, cond), OpVal(k.fr.regs, cond) != 0));
  }

  // ---------- memory ----------

  /** How many bytes a value of `w` bits takes in memory. */
  function MemorySize(w: nat): (n: nat)
  {
    if w == 1 then 1 else w / 8
  }

  /** The byte of `v` at address `j` of `n`, in the byte order of memory. */
  function ByteOf(v: nat, n: nat, j: nat, littleEndian: bool): (b: nat)
    requires j < n
  {
    v / Pow2(8 * (if littleEndian then j else n - 1 - j)) % 256
  }

  lemma DivideTwice(x: nat, a: nat, b: nat)
    requires a >= 1 && b >= 1
    ensures a * b >= 1 && x / (a * b) == x / a / b
  {
    var h := x / a;
    var q, r := h / b, h % b;
    assert x == h * a + x % a && h == q * b + r;
    assert h * a == q * (a * b) + r * a;
    assert r * a + x % a < a * b by {
      MulMono(a, r, b - 1);
      assert r * a == a * r && a * (b - 1) == a * b - a;
    }
    MulGap(a, b);
    DivModUnique(x, a * b, q, r * a + x % a);
  }

  lemma {:induction false} FromBytesAt(bs: seq<Byte>, i: nat)
    requires i < |bs|
    ensures FromBytes(bs) / Pow2(8 * i) % 256 == bs[|bs| - 1 - i]
  {
    hide Pow2;
    var n := |bs| - 1;
    var x := FromBytes(bs);
    DivModUnique(x, 256, FromBytes(bs[..n]), bs[n]);
    if i == 0 {
      Pow2One();
    } else {
      Pow2Byte(i - 1);
      DivideTwice(x, 256, Pow2(8 * (i - 1)));
      FromBytesAt(bs[..n], i - 1);
    }
  }

  lemma {:induction false} ToBytesAt(n: nat, v: nat, i: nat)
    requires i < n
    ensures ToBytes(n, v)[n - 1 - i] == v / Pow2(8 * i) % 256
  {
    hide Pow2;
    if i == 0 {
      Pow2One();
    } else {
      Pow2Byte(i - 1);
      DivideTwice(v, 256, Pow2(8 * (i - 1)));
      ToBytesAt(n - 1, v / 256, i - 1);
    }
  }

  /** A loaded value has the bytes of memory, a stored one puts them there. */
  lemma OrderedAt(bs: seq<Byte>, v: nat, j: nat, littleEndian: bool)
    requires j < |bs|
    ensures ByteOf(FromBytes(Ordered(bs, littleEndian)), |bs|, j, littleEndian) == bs[j]
    ensures Ordered(ToBytes(|bs|, v), littleEndian)[j] == ByteOf(v, |bs|, j, littleEndian)
  {
    hide Pow2, FromBytes, ToBytes, Reverse;
    var n := |bs|;
    if littleEndian {
      FromBytesAt(Reverse(bs), j);
      ReverseIndex(bs, n - 1 - (n - 1 - j));
      ReverseIndex(bs, n - 1 - j);
      ToBytesAt(n, v, j);
      ReverseIndex(ToBytes(n, v), j);
    } else {
      FromBytesAt(bs, n - 1 - j);
      ToBytesAt(n, v, n - 1 - j);
    }
  }

  /** What a load delivers, byte by byte. */
  predicate Loaded(st: State, at: int, w: nat, v: nat, littleEndian: bool)
  {
    if w == 1 then v == ByteAt(st.c.memory, at) % 2
    else
      v < Pow2(8 * MemorySize(w))
      && forall j :: 0 <= j < MemorySize(w) ==> ByteOf(v, MemorySize(w), j, littleEndian) == ByteAt(st.c.memory, at + j)
  }

  predicate ConcreteBytes(st: State, at: int, n: nat)
  {
    forall a: int :: at <= a < at + n ==> ShadowAt(st.s.shadow, a).None?
  }

  /** A load reads the bytes at the address in the byte order of memory; its
      expression is null exactly if all of them are concrete. */
  lemma LoadLaw(p: Program, input: Input, st: State, k: Point, d: nat, addr: Operand) returns (v: nat, e: SymExpr)
    requires Before(p, st, k, LoadInst(d, addr))
    ensures var w, at := Width(p.funcs[k.fr.fn], d), OpVal(k.fr.regs, addr);
      && Advances(st, Step(p, input, st), k, Some(d), v, e, Fixed(k, addr)) && SameMemory(st, Step(p, input, st))
      && Loaded(st, at, w, v, p.littleEndian)
      && (e.None? <==> ConcreteBytes(st, at, MemorySize(w)))
  {
    hide Pushed, OpVal, OpExpr, LoadValue, ReadShadow, ReadBytes;
    var i, f := LoadInst(d, addr), p.funcs[k.fr.fn];
    v := Perform(p, f, input, st.c, i, k.fr.regs).value;
    e := Track(p, f, input, st.c, st.s, i, k.fr.regs, k.exprs).expr;
    InstrStep(p, input, st, k, i);
    assert WorkAt(p, k.fr) == Do(i);
    OneFixed(k, addr);
    LoadedValue(st, OpVal(k.fr.regs, addr), Width(f, d), p.littleEndian);
    LoadedNull(st, OpVal(k.fr.regs, addr), Width(f, d), p.littleEndian);
  }

  lemma OneFixed(k: Point, o: Operand)
    ensures Pushed(ConcretizeAll(k.exprs, k.fr.regs, [o])) == Fixed(k, o)
  {
    var d := Concretize(OpExpr(k.exprs, o), OpVal(k.fr.regs, o), PTR_BITS);
    assert ConcretizeAll(k.exprs, k.fr.regs, [o]) == [d];
    PushedOne(d);
  }

  lemma LoadedValue(st: State, at: int, w: nat, littleEndian: bool)
    ensures Loaded(st, at, w, LoadValue(w, ReadBytes(st.c.memory, at, ByteCount(w)), littleEndian), littleEndian)
  {
    hide FromBytes, Reverse, Pow2, ByteOf;
    var n := ByteCount(w);
    var bs := ReadBytes(st.c.memory, at, n);
    var v := FromBytes(Ordered(bs, littleEndian));
    FromBytesRange(Ordered(bs, littleEndian));
    forall j | 0 <= j < n
      ensures ByteOf(v, n, j, littleEndian) == ByteAt(st.c.memory, at + j)
    {
      OrderedAt(bs, 0, j, littleEndian);
    }
    if w == 1 {
      OneByteValue(bs, littleEndian);
    }
  }

  lemma OneByteValue(bs: seq<Byte>, littleEndian: bool)
    requires |bs| == 1
    ensures FromBytes(Ordered(bs, littleEndian)) == bs[0]
  {
    assert bs[1..] == [] && Reverse(bs[1..]) == [];
    assert bs[..0] == [] && FromBytes(bs[..0]) == 0;
    assert Reverse(bs) == bs;
  }

  lemma LoadedNull(st: State, at: int, w: nat, littleEndian: bool)
    ensures LoadedExpr(ReadShadow(st.c.memory, st.s.shadow, at, ByteCount(w), littleEndian), w).None?
      <==> ConcreteBytes(st, at, MemorySize(w))
  {
    hide JoinBytes, ByteExprs;
    var n := ByteCount(w);
    var es := ShadowBytes(st.s.shadow, at, n);
    if AllNull(es) {
      forall a: int | at <= a < at + n
        ensures ShadowAt(st.s.shadow, a).None?
      {
        assert es[a - at].None?;
      }
    } else {
      var j :| 0 <= j < n && es[j].Some?;
      assert ShadowAt(st.s.shadow, at + j).Some?;
    }
  }

  /** What a writing instruction leaves in memory. */
  lemma Written(st: State, st': State, at: int, bs: seq<Byte>, es: seq<SymExpr>)
    requires |bs| == |es| && st'.c.memory == Put(st.c.memory, at, bs) && st'.s.shadow == Put(st.s.shadow, at, es)
    ensures OnlyAt(st, st', at, |bs|) && Holding(st', at, bs, es)
  {
    hide Put;
    forall a: int | !(at <= a < at + |bs|)
      ensures ByteAt(st'.c.memory, a) == ByteAt(st.c.memory, a) && ShadowAt(st'.s.shadow, a) == ShadowAt(st.s.shadow, a)
    {
      PutAt(st.c.memory, at, bs, a);
      PutAt(st.s.shadow, at, es, a);
    }
    forall j | 0 <= j < |bs|
      ensures ByteAt(st'.c.memory, at + j) == bs[j] && ShadowAt(st'.s.shadow, at + j) == es[j]
    {
      PutAt(st.c.memory, at, bs, at + j);
      PutAt(st.s.shadow, at, es, at + j);
    }
  }

  /** A step at an instruction that writes memory. */
  lemma WriteStep(p: Program, input: Input, st: State, k: Point, i: Instr, at: int, bs: seq<Byte>, es: seq<SymExpr>)
    requires Before(p, st, k, i) && (i.StoreInst? || i.MemMoveInst? || i.MemSetInst?) && |bs| == |es|
    requires Perform(p, p.funcs[k.fr.fn], input, st.c, i, k.fr.regs) == Effect(0, at, bs, 0)
    requires Track(p, p.funcs[k.fr.fn], input, st.c, st.s, i, k.fr.regs, k.exprs) == SymEffect(None, es)
    ensures var st' := Step(p, input, st);
      Advances(st, st', k, None, 0, None, Pushed(Decisions(p, k.fr, k.exprs))) && st'.c.offset == st.c.offset
      && OnlyAt(st, st', at, |bs|) && Holding(st', at, bs, es)
  {
    hide Perform, Track, Put, Pushed, Decisions, OnlyAt, Holding;
    InstrStep(p, input, st, k, i);
    Written(st, Step(p, input, st), at, bs, es);
  }

  /** A store puts the bytes of the value at the address and nothing else; each
      gets an expression exactly if the value has one. */
  lemma StoreLaw(p: Program, input: Input, st: State, k: Point, v: Operand, addr: Operand)
    returns (bs: seq<Byte>, es: seq<SymExpr>)
    requires Before(p, st, k, StoreInst(v, addr))
    ensures var st', at, n := Step(p, input, st), OpVal(k.fr.regs, addr), MemorySize(OpWidth(p.funcs[k.fr.fn], v));
      && Advances(st, st', k, None, 0, None, Fixed(k, addr)) && st'.c.offset == st.c.offset
      && |bs| == n && OnlyAt(st, st', at, n) && Holding(st', at, bs, es)
      && forall j :: 0 <= j < n ==>
           bs[j] == ByteOf(OpVal(k.fr.regs, v), n, j, p.littleEndian) && (es[j].None? <==> OpExpr(k.exprs, v).None?)
  {
    hide Pushed, OpVal, OpExpr, ToBytes, Ordered, StoreShadow, StoredExpr, OnlyAt, Holding, ByteOf;
    var i, f := StoreInst(v, addr), p.funcs[k.fr.fn];
    var n, x, e := MemorySize(OpWidth(f, v)), OpVal(k.fr.regs, v), OpExpr(k.exprs, v);
    bs := Ordered(ToBytes(n, x), p.littleEndian);
    es := StoreShadow(StoredExpr(e, OpWidth(f, v)), n, p.littleEndian);
    assert WorkAt(p, k.fr) == Do(i);
    OneFixed(k, addr);
    WriteStep(p, input, st, k, i, OpVal(k.fr.regs, addr), bs, es);
    forall j | 0 <= j < n
      ensures bs[j] == ByteOf(x, n, j, p.littleEndian) && (es[j].None? <==> e.None?)
    {
      OrderedAt(bs, x, j, p.littleEndian);
      StoredNull(e, OpWidth(f, v), n, j, p.littleEndian);
    }
  }

  lemma StoredNull(e: SymExpr, w: nat, n: nat, j: nat, littleEndian: bool)
    requires j < n
    ensures StoreShadow(StoredExpr(e, w), n, littleEndian)[j].None? <==> e.None?
  {
  }

  /** A move copies every byte of the source and its expression, as they were
      before the step. */
  lemma MemMoveLaw(p: Program, input: Input, st: State, k: Point, dst: Operand, src: Operand, len: Operand)
    returns (bs: seq<Byte>, es: seq<SymExpr>)
    requires Before(p, st, k, MemMoveInst(dst, src, len))
    ensures var st', n := Step(p, input, st), OpVal(k.fr.regs, len);
      var at, from := OpVal(k.fr.regs, dst), OpVal(k.fr.regs, src);
      && Advances(st, st', k, None, 0, None, Fixed(k, dst) + Fixed(k, src) + Fixed(k, len))
      && st'.c.offset == st.c.offset && |bs| == n && OnlyAt(st, st', at, n)
      && Holding(st, from, bs, es) && Holding(st', at, bs, es)
  {
    hide Pushed, OpVal, OpExpr, OnlyAt;
    var i := MemMoveInst(dst, src, len);
    var from, n := OpVal(k.fr.regs, src), OpVal(k.fr.regs, len);
    assert WorkAt(p, k.fr) == Do(i);
    ThreeFixed(k, dst, src, len);
    bs, es := ReadBytes(st.c.memory, from, n), ShadowBytes(st.s.shadow, from, n);
    WriteStep(p, input, st, k, i, OpVal(k.fr.regs, dst), bs, es);
  }

  lemma TwoFixed(k: Point, a: Operand, b: Operand)
    ensures Pushed(ConcretizeAll(k.exprs, k.fr.regs, [a, b])) == Fixed(k, a) + Fixed(k, b)
  {
    var d, d' := Concretize(OpExpr(k.exprs, a), OpVal(k.fr.regs, a), PTR_BITS),
                 Concretize(OpExpr(k.exprs, b), OpVal(k.fr.regs, b), PTR_BITS);
    assert ConcretizeAll(k.exprs, k.fr.regs, [a, b]) == [d, d'];
    PushedTwo(d, d');
  }

  lemma ThreeFixed(k: Point, a: Operand, b: Operand, c: Operand)
    ensures Pushed(ConcretizeAll(k.exprs, k.fr.regs, [a, b, c])) == Fixed(k, a) + Fixed(k, b) + Fixed(k, c)
  {
    hide OpVal, OpExpr;
    var d, d', d'' := Concretize(OpExpr(k.exprs, a), OpVal(k.fr.regs, a), PTR_BITS),
                      Concretize(OpExpr(k.exprs, b), OpVal(k.fr.regs, b), PTR_BITS),
                      Concretize(OpExpr(k.exprs, c), OpVal(k.fr.regs, c), PTR_BITS);
    assert ConcretizeAll(k.exprs, k.fr.regs, [a, b, c]) == [d, d', d''];
    PushedThree(d, d', d'');
  }

  /** A fill puts the low byte of the value, and its expression, everywhere. */
  lemma MemSetLaw(p: Program, input: Input, st: State, k: Point, dst: Operand, v: Operand, len: Operand)
    returns (bs: seq<Byte>, es: seq<SymExpr>)
    requires Before(p, st, k, MemSetInst(dst, v, len))
    ensures var st', at, n := Step(p, input, st), OpVal(k.fr.regs, dst), OpVal(k.fr.regs, len);
      && Advances(st, st', k, None, 0, None, Fixed(k, dst) + Fixed(k, len))
      && st'.c.offset == st.c.offset && |bs| == n && OnlyAt(st, st', at, n) && Holding(st', at, bs, es)
      && forall j :: 0 <= j < n ==> bs[j] == OpVal(k.fr.regs, v) % 256 && es[j] == OpExpr(k.exprs, v)
  {
    hide Pushed, OpVal, OpExpr, OnlyAt, Holding;
    var i := MemSetInst(dst, v, len);
    var n := OpVal(k.fr.regs, len);
    assert WorkAt(p, k.fr) == Do(i);
    TwoFixed(k, dst, len);
    bs, es := Repeat(OpVal(k.fr.regs, v) % 256, n), Repeat(OpExpr(k.exprs, v), n);
    WriteStep(p, input, st, k, i, OpVal(k.fr.regs, dst), bs, es);
  }

  /** A read delivers as many bytes as are wanted and left, each labelled with
      its offset in the input; the count itself has no expression. */
  lemma ReadLaw(p: Program, input: Input, st: State, k: Point, d: nat, buf: Operand, len: Operand)
    returns (bs: seq<Byte>, es: seq<SymExpr>)
    requires Before(p, st, k, ReadInst(d, buf, len))
    ensures var st', at, most, n := Step(p, input, st), OpVal(k.fr.regs, buf), OpVal(k.fr.regs, len), |bs|;
      && Advances(st, st', k, Some(d), n, None, Fixed(k, buf) + Fixed(k, len))
      && st'.c.offset == st.c.offset + n && OnlyAt(st, st', at, n) && Holding(st', at, bs, es)
      && n <= most && (n == 0 || st.c.offset + n <= |input|) && (n < most ==> st.c.offset + n >= |input|)
      && forall j :: 0 <= j < n ==> bs[j] == input[st.c.offset + j] && es[j] == Some(InputByte(st.c.offset + j))
  {
    hide Pushed, OpVal, OpExpr, OnlyAt, Holding, Put, Perform, Track;
    var i := ReadInst(d, buf, len);
    assert WorkAt(p, k.fr) == Do(i);
    TwoFixed(k, buf, len);
    InstrStep(p, input, st, k, i);
    bs, es := ReadEffect(p, input, st, k, i);
    Written(st, Step(p, input, st), OpVal(k.fr.regs, buf), bs, es);
  }

  lemma ReadEffect(p: Program, input: Input, st: State, k: Point, i: Instr) returns (bs: seq<Byte>, es: seq<SymExpr>)
    requires i.ReadInst? && k.fr.fn < |p.funcs|
    ensures var f, n := p.funcs[k.fr.fn], |bs|;
      && Perform(p, f, input, st.c, i, k.fr.regs) == Effect(n, OpVal(k.fr.regs, i.buf), bs, n)
      && Track(p, f, input, st.c, st.s, i, k.fr.regs, k.exprs) == SymEffect(None, es) && |es| == n
    ensures var most, offset := OpVal(k.fr.regs, i.len), st.c.offset;
      && |bs| <= most && (|bs| == 0 || offset + |bs| <= |input|) && (|bs| < most ==> offset + |bs| >= |input|)
      && forall j :: 0 <= j < |bs| ==> bs[j] == input[offset + j] && es[j] == Some(InputByte(offset + j))
  {
    hide OpVal, OpExpr;
    var offset := st.c.offset;
    var n := ReadCount(input, offset, OpVal(k.fr.regs, i.len));
    bs, es := if n == 0 then [] else input[offset..offset + n], InputBytes(offset, n);
  }

  // ---------- control flow ----------

  /** Where a terminator leads: a branch to its first target exactly if the
      condition is not zero, a switch to the target of the first matching case,
      or to the default. */
  ghost predicate Leads(t: Terminator, regs: map<nat, nat>, b: nat)
  {
    match t
    case Jump(target) => b == target
    case Branch(c, ifTrue, ifFalse) => (OpVal(regs, c) != 0 ==> b == ifTrue) && (OpVal(regs, c) == 0 ==> b == ifFalse)
    case Switch(v, cases, default) =>
      || (exists j: nat :: IsFirst(OpVal(regs, v), cases, j) && b == cases[j].target)
      || (b == default && forall j :: 0 <= j < |cases| ==> cases[j].value != OpVal(regs, v))
    case Return(_) => false
  }

  predicate IsFirst(v: nat, cases: seq<Case>, j: nat)
  {
    j < |cases| && cases[j].value == v && forall i :: 0 <= i < j ==> cases[i].value != v
  }

  /** What a terminator pushes: a branch its condition, a switch one equation
      for every case in order. */
  predicate Pushes(k: Point, t: Terminator, w: nat, cs: seq<Constraint>)
  {
    match t
    case Branch(c, _, _) => cs == Asked(OpExpr(k.exprs, c), OpVal(k.fr.regs, c) != 0)
    case Switch(v, cases, _) =>
      var e := OpExpr(k.exprs, v);
      if e.None? then cs == []
      else
        |cs| == |cases|
        && forall j :: 0 <= j < |cs| ==>
             var value := cases[j].value;
             cs[j] == Constraint(Compare(Eq, e.value, ValueExpr(value, w)), OpVal(k.fr.regs, v) == value)
    case _ => cs == []
  }

  lemma {:induction false} SwitchLeads(v: nat, cases: seq<Case>, default: nat)
    ensures var b := SwitchTarget(v, cases, default);
      || (exists j: nat :: IsFirst(v, cases, j) && b == cases[j].target)
      || (b == default && forall j :: 0 <= j < |cases| ==> cases[j].value != v)
  {
    if cases != [] {
      if v == cases[0].value {
        assert IsFirst(v, cases, 0);
      } else {
        SwitchLeads(v, cases[1..], default);
        assert forall i :: 1 <= i < |cases| ==> cases[i] == cases[1..][i - 1];
        if j: nat :| IsFirst(v, cases[1..], j) && SwitchTarget(v, cases[1..], default) == cases[1..][j].target {
          assert IsFirst(v, cases, j + 1);
        }
      }
    }
  }

  lemma NextBlockLeads(t: Terminator, regs: map<nat, nat>)
    requires !t.Return?
    ensures Leads(t, regs, NextBlock(t, regs))
  {
    hide SwitchTarget;
    if t.Switch? {
      SwitchLeads(OpVal(regs, t.v), t.cases, t.default);
    }
  }

  lemma {:induction false} SwitchPushes(ds: seq<Decision>)
    requires forall j :: 0 <= j < |ds| ==> ds[j].expr.Some?
    ensures |Pushed(ds)| == |ds|
    ensures forall j :: 0 <= j < |ds| ==> Pushed(ds)[j] == Constraint(ds[j].expr.value, ds[j].taken)
  {
    if ds != [] {
      SwitchPushes(ds[..|ds| - 1]);
    }
  }

  lemma {:induction false} NothingPushed(ds: seq<Decision>)
    requires forall j :: 0 <= j < |ds| ==> ds[j].expr.None?
    ensures Pushed(ds) == []
  {
    if ds != [] {
      NothingPushed(ds[..|ds| - 1]);
    }
  }

  lemma EndPushes(p: Program, st: State, k: Point, t: Terminator)
    requires AtEnd(p, st, k, t)
    ensures Pushes(k, t, if t.Switch? then OpWidth(p.funcs[k.fr.fn], t.v) else 0, Pushed(Decisions(p, k.fr, k.exprs)))
  {
    hide OpVal, OpExpr, ValueExpr, Pushed;
    assert WorkAt(p, k.fr) == End(t);
    var ds := Decisions(p, k.fr, k.exprs);
    if t.Branch? {
      PushedOne(Decision(OpExpr(k.exprs, t.c), OpVal(k.fr.regs, t.c) != 0));
    } else if t.Switch? && OpExpr(k.exprs, t.v).Some? {
      SwitchPushes(ds);
    } else {
      NothingPushed(ds);
    }
  }

  predicate AllDifferent(ds: seq<nat>)
  {
    forall i, j :: 0 <= i < j < |ds| ==> ds[i] != ds[j]
  }

  /** Simultaneous assignment to different registers. */
  lemma {:induction false} Assigned<T>(m: map<nat, T>, ds: seq<nat>, vs: seq<T>)
    requires |ds| == |vs|
    ensures AllDifferent(ds) ==>
      forall j :: 0 <= j < |ds| ==> ds[j] in Assign(m, ds, vs) && Assign(m, ds, vs)[ds[j]] == vs[j]
    ensures forall r :: r !in ds ==> (r in Assign(m, ds, vs) <==> r in m)
    ensures forall r :: r !in ds && r in m ==> Assign(m, ds, vs)[r] == m[r]
  {
    if ds != [] {
      var n := |ds| - 1;
      Assigned(m, ds[..n], vs[..n]);
      assert forall j :: 0 <= j < n ==> ds[..n][j] == ds[j] && vs[..n][j] == vs[j];
      assert forall r :: r in ds <==> r in ds[..n] || r == ds[n];
    }
  }

  predicate DifferentPhis(phis: seq<Phi>)
  {
    forall i, j :: 0 <= i < j < |phis| ==> phis[i].d != phis[j].d
  }

  /** The phis of a block, entered from another, took the operands of that
      edge, all evaluated before any of them was assigned. */
  ghost predicate PhisTaken(phis: seq<Phi>, from: nat, k: Point, regs': map<nat, nat>, exprs': map<nat, SymExpr>)
  {
    && (forall j :: 0 <= j < |phis| && from in phis[j].incoming ==>
          Lookup(regs', phis[j].d) == OpVal(k.fr.regs, phis[j].incoming[from])
          && ExprOf(exprs', phis[j].d) == OpExpr(k.exprs, phis[j].incoming[from]))
    && (forall r: nat :: (forall j :: 0 <= j < |phis| ==> phis[j].d != r) ==>
          Lookup(regs', r) == Lookup(k.fr.regs, r) && ExprOf(exprs', r) == ExprOf(k.exprs, r))
  }

  /** The end of a block: control goes where the terminator leads, into a block
      whose phis are taken from the edge, and the terminator's constraints are
      pushed. */
  lemma EnterLaw(p: Program, input: Input, st: State, k: Point, t: Terminator)
    returns (b: nat, regs': map<nat, nat>, exprs': map<nat, SymExpr>, cs: seq<Constraint>)
    requires AtEnd(p, st, k, t) && !t.Return?
    ensures Leads(t, k.fr.regs, b)
    ensures Pushes(k, t, if t.Switch? then OpWidth(p.funcs[k.fr.fn], t.v) else 0, cs)
    ensures Step(p, input, st)
         == State(st.c.(stack := k.below + [Frame(k.fr.fn, b, 0, regs')]),
                  st.s.(exprs := k.lower + [exprs'], path := st.s.path + cs))
    ensures var blocks := p.funcs[k.fr.fn].blocks;
      b < |blocks| && DifferentPhis(blocks[b].phis) ==>
        PhisTaken(blocks[b].phis, k.fr.blk, k, regs', exprs')
  {
    hide NextBlock, Pushed, Decisions, Leads, Pushes, Assign, PhisTaken;
    b := NextBlock(t, k.fr.regs);
    var phis := PhisOf(p.funcs[k.fr.fn], b);
    regs' := Assign(k.fr.regs, PhiDests(phis), OpVals(k.fr.regs, PhiOperands(phis, k.fr.blk)));
    exprs' := Assign(k.exprs, PhiDests(phis), OpExprs(k.exprs, PhiOperands(phis, k.fr.blk)));
    cs := Pushed(Decisions(p, k.fr, k.exprs));
    NextBlockLeads(t, k.fr.regs);
    EndPushes(p, st, k, t);
    Tops(p, st, k);
    assert WorkAt(p, k.fr) == End(t);
    if DifferentPhis(phis) {
      PhisAssigned(phis, k);
    }
  }

  lemma PhisAssigned(phis: seq<Phi>, k: Point)
    requires DifferentPhis(phis)
    ensures PhisTaken(phis, k.fr.blk, k,
                      Assign(k.fr.regs, PhiDests(phis), OpVals(k.fr.regs, PhiOperands(phis, k.fr.blk))),
                      Assign(k.exprs, PhiDests(phis), OpExprs(k.exprs, PhiOperands(phis, k.fr.blk))))
  {
    hide OpVal, OpExpr;
    var ds, os := PhiDests(phis), PhiOperands(phis, k.fr.blk);
    Assigned(k.fr.regs, ds, OpVals(k.fr.regs, os));
    Assigned(k.exprs, ds, OpExprs(k.exprs, os));
    forall j | 0 <= j < |phis|
      ensures ds[j] == phis[j].d && os[j] == Incoming(phis[j], k.fr.blk)
    {
    }
  }

  // ---------- calls ----------

  /** A call starts the callee with the arguments in its parameters, values and
      expressions alike; the caller waits, and a used result will not be one
      that some earlier call left behind. */
  lemma CallLaw(p: Program, input: Input, st: State, k: Point, d: Option<nat>, callee: nat, args: seq<Operand>)
    returns (regs': map<nat, nat>, exprs': map<nat, SymExpr>)
    requires Before(p, st, k, CallInst(d, callee, args)) && callee < |p.funcs|
    requires |args| == |p.funcs[callee].params| <= MAX_FUNCTION_ARGUMENTS && AllDifferent(p.funcs[callee].params)
    ensures var st', ps := Step(p, input, st), p.funcs[callee].params;
      && st'.c == st.c.(stack := st.c.stack + [Frame(callee, 0, 0, regs')])
      && st'.s.exprs == st.s.exprs + [exprs'] && st'.s.shadow == st.s.shadow && st'.s.path == st.s.path
      && (d.Some? ==> st'.s.ret == None)
      && (forall j :: 0 <= j < |args| ==>
            Lookup(regs', ps[j]) == OpVal(k.fr.regs, args[j]) && ExprOf(exprs', ps[j]) == OpExpr(k.exprs, args[j]))
      && (forall r: nat :: r !in ps ==> Lookup(regs', r) == 0 && ExprOf(exprs', r) == None)
  {
    hide OpVal, OpExpr, Assign, Decisions, Pushed, SetSlots, GetSlots;
    var ps, es := p.funcs[callee].params, OpExprs(k.exprs, args);
    Tops(p, st, k);
    assert WorkAt(p, k.fr) == Do(CallInst(d, callee, args));
    regs' := Assign(map[], ps, OpVals(k.fr.regs, args));
    exprs' := Assign(map[], ps, GetSlots(SetSlots(st.s.slots, es), |ps|));
    HandsOver(st.s.slots, es, |ps|);
    assert es[..|ps|] == es;
    Assigned(map[], ps, OpVals(k.fr.regs, args));
    Assigned(map[], ps, es);
  }

  /** A return hands value and expression to the caller, which goes on behind
      the call; in the first function it ends the run. */
  lemma ReturnLaw(p: Program, input: Input, st: State, k: Point, o: Operand)
    requires AtEnd(p, st, k, Return(Some(o))) && k.below == []
    ensures Step(p, input, st).c == st.c.(status := Finished)
    ensures Step(p, input, st).s == st.s.(ret := OpExpr(k.exprs, o))
  {
    Tops(p, st, k);
    assert WorkAt(p, k.fr) == End(Return(Some(o)));
  }

  lemma ReturnToLaw(p: Program, input: Input, st: State, k: Point, o: Operand, caller: Point, d: nat, callee: nat,
                    args: seq<Operand>)
    requires AtEnd(p, st, k, Return(Some(o)))
    requires k.below == caller.below + [caller.fr] && k.lower == caller.lower + [caller.exprs]
    requires Before(p, State(st.c.(stack := k.below), st.s.(exprs := k.lower)), caller, CallInst(Some(d), callee, args))
    ensures var st' := Step(p, input, st);
      Advances(st.(s := st.s.(ret := None)), st', caller, Some(d), OpVal(k.fr.regs, o), OpExpr(k.exprs, o), [])
      && SameMemory(st, st')
  {
    hide OpVal, OpExpr, Decisions, Pushed;
    Tops(p, st, k);
    assert WorkAt(p, k.fr) == End(Return(Some(o)));
    assert WorkAt(p, caller.fr) == Do(CallInst(Some(d), callee, args));
    var n := |k.below| - 1;
    assert k.below[n] == caller.fr && k.below[..n] == caller.below && k.lower[n] == caller.exprs
      && k.lower[..n] == caller.lower;
    assert st.c.stack[|st.c.stack| - 2] == caller.fr;
  }

  /** A division traps exactly if the divisor is zero or the signed quotient is
      no number of that width. */
  lemma TrapsExactlyWhen(op: BinOp, w: nat, x: nat, y: nat)
    requires w >= 1 && x < Pow2(w) && y < Pow2(w) && IsDivision(op)
    ensures DivisionTraps(op, w, x, y)
      <==> y == 0 || ((op.SDiv? || op.SRem?) && TruncDiv(Signed(w, x), Signed(w, y)) >= Pow2(w - 1))
  {
    if y != 0 {
      QuotientFits(w, x, y);
    }
  }

  lemma QuotientFits(w: nat, x: nat, y: nat)
    requires w >= 1 && x < Pow2(w) && 0 < y < Pow2(w)
    ensures Signed(w, y) != 0
    ensures TruncDiv(Signed(w, x), Signed(w, y)) >= Pow2(w - 1) <==> x == Pow2(w - 1) && y == Pow2(w) - 1
  {
    hide TruncDiv;
    var a, b := Signed(w, x), Signed(w, y);
    SignedRange(w, x);
    TruncatedDivision(a, b);
    if b == -1 {
      assert a * b == -a;
    } else if b == 1 {
      assert a * b == a;
    }
  }
}
