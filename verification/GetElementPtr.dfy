/** The visitor for getelementptr: address arithmetic at the symbolic level. */
module GetElementPtr {
  import opened BitVectors
  import opened Expressions
  import opened Lifting
  import opened Programs
  import opened ShortCircuit
  import opened AddressChains

  /** An index into a struct, or into an array or through a pointer. */
  datatype Index = Member(index: nat, offset: nat) | Element(o: Operand, sym: SymOperand, width: nat, size: nat)

  datatype Base = Base(o: Operand, sym: SymOperand)

  predicate IsZero(i: Index)
  {
    match i case Member(n, _) => n == 0 case Element(o, _, _, _) => o.Const? && o.value == 0
  }

  predicate Skipped(i: Index)
  {
    i.Element? && IsZero(i)
  }

  /** The calls emitted so far, and where the current address is. */
  datatype Chain = Chain(c: Computation, current: CallArg)

  function Constant(n: nat): (a: CallArg)
  {
    Symbolic(Word(Const(n, PTR_BITS), PTR_BITS), NullExpr)
  }

  function BinaryOn(op: BinOp): (b: Builder)
  {
    BinaryB(op, PTR_BITS)
  }

  function Push(c: Computation, op: BinOp, a: CallArg, b: CallArg): (r: Computation)
  {
    Force(c, BinaryOn(op), [a, b])
  }

  function Extend(c: Computation, i: Index): (r: Chain)
    requires i.Element?
  {
    var a := Symbolic(Word(i.o, i.width), i.sym);
    if i.width != PTR_BITS then Chain(Force(c, ZExtB(ExtraBits(i.width, PTR_BITS)), [a]), Plain(|c.calls|))
    else Chain(c, a)
  }

  function Scale(c: Computation, i: Index): (r: Chain)
    requires i.Element?
  {
    var e := Extend(c, i);
    Chain(Push(e.c, Mul, e.current, Constant(i.size)), Plain(|e.c.calls|))
  }

  function AddIndex(ch: Chain, i: Index): (r: Chain)
  {
    if Skipped(i) then ch
    else
      var s := if i.Member? then Chain(ch.c, Constant(i.offset)) else Scale(ch.c, i);
      Chain(Push(s.c, Add, s.current, ch.current), Plain(|s.c.calls|))
  }

  function Emitted(base: Base, indices: seq<Index>): (ch: Chain)
  {
    if indices == [] then Chain(Computation([], []), Symbolic(Word(base.o, PTR_BITS), base.sym))
    else AddIndex(Emitted(base, indices[..|indices| - 1]), indices[|indices| - 1])
  }

  datatype Registered = NoExpression | SameAsPointer | Computed(c: Computation)

  predicate AllNullAtCompileTime(base: Base, indices: seq<Index>)
  {
    base.sym.NullExpr? && forall k :: 0 <= k < |indices| ==> (indices[k].Element? ==> indices[k].sym.NullExpr?)
  }

  function Visited(base: Base, indices: seq<Index>): (r: Registered)
  {
    if AllNullAtCompileTime(base, indices) then NoExpression
    else if forall k :: 0 <= k < |indices| ==> IsZero(indices[k]) then SameAsPointer
    else Computed(Emitted(base, indices).c)
  }

  /** The expression that the instruction's value ends up with at run time. */
  function AddressExpr(base: Base, indices: seq<Index>, env: Env): (r: Outcome)
  {
    match Visited(base, indices)
    case NoExpression => Done(None)
    case SameAsPointer => Done(OperandExpr(env, base.sym))
    case Computed(c) => Exec(Rewritten(c), env)
  }

  // ---------- addresses ----------

  /** The displacement with indices read as unsigned numbers. */
  function UnsignedSum(indices: seq<Index>, regs: map<nat, nat>): (s: int)
  {
    if indices == [] then 0
    else
      var i := indices[|indices| - 1];
      UnsignedSum(indices[..|indices| - 1], regs) + if i.Member? then i.offset else OpVal(regs, i.o) * i.size
  }

  /** The displacement that the instruction really uses: indices are signed. */
  function SignedSum(indices: seq<Index>, regs: map<nat, nat>): (s: int)
  {
    if indices == [] then 0
    else
      var i := indices[|indices| - 1];
      SignedSum(indices[..|indices| - 1], regs) + if i.Member? then i.offset
        else Signed(i.width, OpVal(regs, i.o)) * i.size
  }

  function Address(base: Base, indices: seq<Index>, regs: map<nat, nat>): (a: nat)
  {
    Wrap(PTR_BITS, OpVal(regs, base.o) + SignedSum(indices, regs))
  }

  /** What zero extension adds for the negative indices. */
  function Excess(indices: seq<Index>, regs: map<nat, nat>): (s: int)
  {
    if indices == [] then 0
    else
      var i := indices[|indices| - 1];
      Excess(indices[..|indices| - 1], regs) + if i.Element? && Negative(i, regs) then Pow2(i.width) * i.size else 0
  }

  predicate Negative(i: Index, regs: map<nat, nat>)
    requires i.Element?
  {
    Signed(i.width, OpVal(regs, i.o)) < 0
  }

  /** Every index counts once, wherever it stands: a struct member with its
      offset, an array index with its signed value times the element size. */
  lemma {:induction false} EachIndexCounts(before: seq<Index>, i: Index, after: seq<Index>, regs: map<nat, nat>)
    ensures SignedSum([], regs) == 0
    ensures SignedSum(before + [i] + after, regs)
         == SignedSum(before + after, regs) + if i.Member? then i.offset else Signed(i.width, OpVal(regs, i.o)) * i.size
  {
    if after == [] {
      assert before + [i] + after == before + [i] && before + after == before;
      assert (before + [i])[..|before|] == before;
    } else {
      var n := |after| - 1;
      EachIndexCounts(before, i, after[..n], regs);
      assert (before + [i] + after)[..|before| + 1 + n] == before + [i] + after[..n];
      assert (before + after)[..|before| + n] == before + after[..n];
    }
  }

  /** With a displacement of zero the address is the base; changing an index by
      one moves the address by the element size. */
  lemma AddressMoves(base: Base, before: seq<Index>, i: Index, after: seq<Index>, regs: map<nat, nat>,
                     regs': map<nat, nat>)
    requires i.Element? && Signed(i.width, OpVal(regs', i.o)) == Signed(i.width, OpVal(regs, i.o)) + 1
    requires SignedSum(before + after, regs') == SignedSum(before + after, regs)
      && OpVal(regs', base.o) == OpVal(regs, base.o)
    ensures Address(base, before + [i] + after, regs')
      == Wrap(PTR_BITS, Address(base, before + [i] + after, regs) + i.size)
    ensures Address(base, [], regs) == Wrap(PTR_BITS, OpVal(regs, base.o))
  {
    hide Wrap, Signed, SignedSum, OpVal;
    EachIndexCounts(before, i, after, regs);
    EachIndexCounts(before, i, after, regs');
    NextMultiple(Signed(i.width, OpVal(regs, i.o)), i.size);
    WrapAgain(OpVal(regs, base.o) + SignedSum(before + [i] + after, regs), i.size);
  }

  lemma NextMultiple(x: int, size: nat)
    ensures (x + 1) * size == x * size + size
  {
  }

  lemma WrapAgain(x: int, y: int)
    ensures Wrap(PTR_BITS, x + y) == Wrap(PTR_BITS, Wrap(PTR_BITS, x) + y)
  {
    var q := WrapQuotient(PTR_BITS, x);
    WrapSame(PTR_BITS, Wrap(PTR_BITS, x) + y, x + y, q);
  }

  // ---------- what operands are known to be ----------

  /** The recorded run and a run on `input` agree on an operand. */
  predicate Known(env: Env, regs': map<nat, nat>, input: Expressions.Input, o: Operand, sym: SymOperand, w: nat)
  {
    && ValidWidth(w) && OpVal(env.regs, o) < Pow2(w) && Typed(OperandExpr(env, sym), w)
    && Agree(OpVal(env.regs, o), OperandExpr(env, sym), OpVal(regs', o), input)
  }

  /** Offsets and sizes are 32-bit numbers in the pass; a struct's first
      member is at offset 0; an index is an integer of at most pointer width. */
  predicate IndexKnown(env: Env, regs': map<nat, nat>, input: Expressions.Input, i: Index)
  {
    match i
    case Member(n, offset) => offset < Pow2(32) && (n == 0 ==> offset == 0)
    case Element(o, sym, w, size) => 2 <= w <= PTR_BITS && size < Pow2(32) && Known(env, regs', input, o, sym, w)
  }

  predicate AllKnown(env: Env, regs': map<nat, nat>, input: Expressions.Input, base: Base, indices: seq<Index>)
  {
    && Known(env, regs', input, base.o, base.sym, PTR_BITS)
    && forall k :: 0 <= k < |indices| ==> IndexKnown(env, regs', input, indices[k])
  }

  // ---------- meaning of the chain ----------

  /** After the calls of `c`, argument `a` is a bit vector with value `v`. */
  predicate Denotes(c: Computation, env: Env, a: CallArg, w: nat, input: Expressions.Input, v: nat)
  {
    && Coherent(c) && Ideal(c, env).Some? && (a.Plain? ==> a.k < |c.calls|)
    && HasType(ArgValue(a, env, Ideal(c, env).value), w)
    && Eval(ArgValue(a, env, Ideal(c, env).value), input) == v
  }

  lemma Carried(c: Computation, b: Builder, args: seq<CallArg>, env: Env, a: CallArg, w: nat, input: Expressions.Input,
                v: nat)
    requires Denotes(c, env, a, w, input, v) && ArgsFit(c, b, args)
    ensures Denotes(Force(c, b, args), env, a, w, input, v)
  {
    hide Coherent, HasType, Eval, Apply, Force, Coerce;
    ForceMeaning(c, b, args, env, Ideal(c, env).value);
    ForceLength(c, b, args);
  }

  lemma ForceLength(c: Computation, b: Builder, args: seq<CallArg>)
    ensures |Force(c, b, args).calls| == |c.calls| + 1
  {
  }

  lemma PushMeaning(c: Computation, op: BinOp, a: CallArg, b: CallArg, env: Env, input: Expressions.Input, x: nat,
                    y: nat)
    requires Denotes(c, env, a, PTR_BITS, input, x) && Denotes(c, env, b, PTR_BITS, input, y)
    ensures Denotes(Push(c, op, a, b), env, Plain(|c.calls|), PTR_BITS, input, BinVal(op, PTR_BITS, x, y))
  {
    hide Coherent, HasType, Eval, Force, Coerce, BinVal, BinaryExpr, Ideal;
    var done := Ideal(c, env).value;
    IdealLength(c, env);
    ForceMeaning(c, BinaryOn(op), [a, b], env, done);
    ForceLength(c, BinaryOn(op), [a, b]);
    assert ArgValues([a, b], env, done) == [ArgValue(a, env, done), ArgValue(b, env, done)];
    BinaryExprValue(op, PTR_BITS, ArgValue(a, env, done), ArgValue(b, env, done), input);
  }

  lemma IdealLength(c: Computation, env: Env)
    ensures Ideal(c, env).Some? ==> |Ideal(c, env).value| == |c.calls|
  {
  }

  lemma ConstantMeaning(c: Computation, n: nat, env: Env, input: Expressions.Input)
    requires Coherent(c) && Ideal(c, env).Some? && n < Pow2(32)
    ensures Denotes(c, env, Constant(n), PTR_BITS, input, n)
  {
    hide Coherent, Ideal, Pow2, Eval, HasType;
    Pow2Mono(32, 64);
    ValueExprCorrect(n, PTR_BITS, input);
  }

  lemma OperandMeaning(c: Computation, o: Operand, sym: SymOperand, w: nat, env: Env, regs': map<nat, nat>,
                       input: Expressions.Input)
    requires Coherent(c) && Ideal(c, env).Some? && Known(env, regs', input, o, sym, w)
    ensures Denotes(c, env, Symbolic(Word(o, w), sym), w, input, OpVal(regs', o)) && OpVal(regs', o) < Pow2(w)
  {
    hide Coherent, Ideal, Pow2, Eval, HasType, OperandExpr;
    CoerceAgree(OpVal(env.regs, o), OperandExpr(env, sym), OpVal(regs', o), w, input);
  }

  lemma ExtendMeaning(c: Computation, i: Index, env: Env, regs': map<nat, nat>, input: Expressions.Input)
    requires i.Element? && IndexKnown(env, regs', input, i) && Coherent(c) && Ideal(c, env).Some?
    ensures Denotes(Extend(c, i).c, env, Extend(c, i).current, PTR_BITS, input, OpVal(regs', i.o))
  {
    hide Coherent, HasType, Eval, Force, Coerce, Ideal;
    var a := Symbolic(Word(i.o, i.width), i.sym);
    OperandMeaning(c, i.o, i.sym, i.width, env, regs', input);
    if i.width != PTR_BITS {
      var b, done := ZExtB(ExtraBits(i.width, PTR_BITS)), Ideal(c, env).value;
      IdealLength(c, env);
      ForceMeaning(c, b, [a], env, done);
      ForceLength(c, b, [a]);
      assert ArgValues([a], env, done) == [ArgValue(a, env, done)];
      ExtendValue(ZExtCast, ArgValue(a, env, done), i.width, PTR_BITS, input);
    }
  }

  lemma ExtendCarries(c: Computation, i: Index, env: Env, a: CallArg, input: Expressions.Input, v: nat)
    requires i.Element? && Denotes(c, env, a, PTR_BITS, input, v)
    ensures Denotes(Extend(c, i).c, env, a, PTR_BITS, input, v)
  {
    hide Denotes;
    if i.width != PTR_BITS {
      Carried(c, ZExtB(ExtraBits(i.width, PTR_BITS)), [Symbolic(Word(i.o, i.width), i.sym)], env, a, PTR_BITS, input,
              v);
    }
  }

  /** Scaling an index gives its product with the element size, and keeps the
      current address. */
  lemma ScaleMeaning(ch: Chain, i: Index, env: Env, regs': map<nat, nat>, input: Expressions.Input, v: nat)
    requires i.Element? && IndexKnown(env, regs', input, i) && Denotes(ch.c, env, ch.current, PTR_BITS, input, v)
    ensures var s := Scale(ch.c, i);
      Denotes(s.c, env, s.current, PTR_BITS, input, Wrap(PTR_BITS, OpVal(regs', i.o) * i.size))
      && Denotes(s.c, env, ch.current, PTR_BITS, input, v)
  {
    hide Coherent, HasType, Eval, Force, Coerce, Extend, Ideal, ArgValue, Known;
    ExtendMeaning(ch.c, i, env, regs', input);
    ExtendCarries(ch.c, i, env, ch.current, input, v);
    var e := Extend(ch.c, i);
    ConstantMeaning(e.c, i.size, env, input);
    PushMeaning(e.c, Mul, e.current, Constant(i.size), env, input, OpVal(regs', i.o), i.size);
    Carried(e.c, BinaryOn(Mul), [e.current, Constant(i.size)], env, ch.current, PTR_BITS, input, v);
  }

  lemma AddIndexMeaning(ch: Chain, i: Index, env: Env, regs': map<nat, nat>, input: Expressions.Input, sum: int)
    requires IndexKnown(env, regs', input, i) && Denotes(ch.c, env, ch.current, PTR_BITS, input, Wrap(PTR_BITS, sum))
    ensures var r := AddIndex(ch, i);
      Denotes(r.c, env, r.current, PTR_BITS, input,
              Wrap(PTR_BITS, sum + if i.Member? then i.offset else OpVal(regs', i.o) * i.size))
  {
    hide Denotes, Scale, Known, Pow2, Wrap;
    if Skipped(i) {
    } else if i.Member? {
      DenotesFacts(ch.c, env, ch.current, PTR_BITS, input, Wrap(PTR_BITS, sum));
      ConstantMeaning(ch.c, i.offset, env, input);
      PushMeaning(ch.c, Add, Constant(i.offset), ch.current, env, input, i.offset, Wrap(PTR_BITS, sum));
      Pow2Mono(32, 64);
      WrapSmall(PTR_BITS, i.offset);
      WrapAdd(PTR_BITS, i.offset, sum);
    } else {
      var x, s := OpVal(regs', i.o) * i.size, Scale(ch.c, i);
      ScaleMeaning(ch, i, env, regs', input, Wrap(PTR_BITS, sum));
      PushMeaning(s.c, Add, s.current, ch.current, env, input, Wrap(PTR_BITS, x), Wrap(PTR_BITS, sum));
      WrapAdd(PTR_BITS, x, sum);
    }
  }

  lemma DenotesFacts(c: Computation, env: Env, a: CallArg, w: nat, input: Expressions.Input, v: nat)
    requires Denotes(c, env, a, w, input, v)
    ensures Coherent(c) && Ideal(c, env).Some?
  {
  }

  /** The emitted chain computes base plus the unsigned displacement. */
  lemma {:induction false} EmittedMeaning(base: Base, indices: seq<Index>, env: Env, regs': map<nat, nat>,
                                          input: Expressions.Input)
    requires AllKnown(env, regs', input, base, indices)
    ensures var ch := Emitted(base, indices);
      Denotes(ch.c, env, ch.current, PTR_BITS, input,
              Wrap(PTR_BITS, OpVal(regs', base.o) + UnsignedSum(indices, regs')))
  {
    hide Denotes, AddIndex, Known, IndexKnown, Wrap;
    if indices == [] {
      EmptyChain(env);
      OperandMeaning(Computation([], []), base.o, base.sym, PTR_BITS, env, regs', input);
      WrapSmall(PTR_BITS, OpVal(regs', base.o));
    } else {
      var n := |indices| - 1;
      EmittedMeaning(base, indices[..n], env, regs', input);
      AddIndexMeaning(Emitted(base, indices[..n]), indices[n], env, regs', input,
                      OpVal(regs', base.o) + UnsignedSum(indices[..n], regs'));
    }
  }

  lemma EmptyChain(env: Env)
    ensures Coherent(Computation([], [])) && Ideal(Computation([], []), env) == Some([])
  {
  }

  // ---------- every operand counts for concreteness ----------

  predicate Sound(ch: Chain)
  {
    Coherent(ch.c) && (ch.current.Plain? ==> ch.current.k < |ch.c.calls|)
  }

  predicate Mentions(a: CallArg, sym: SymOperand)
  {
    a.Symbolic? && a.sym == sym
  }

  lemma PushShape(c: Computation, op: BinOp, a: CallArg, b: CallArg, sym: SymOperand)
    requires Sound(Chain(c, a)) && Sound(Chain(c, b))
    ensures Sound(Chain(Push(c, op, a, b), Plain(|c.calls|))) && |Push(c, op, a, b).calls| == |c.calls| + 1
    ensures Covers(c, sym) || Mentions(a, sym) || Mentions(b, sym) ==> Covers(Push(c, op, a, b), sym)
  {
    hide Coherent, Covers;
    ForceCoherent(c, BinaryOn(op), [a, b]);
    if Covers(c, sym) || Mentions(a, sym) || Mentions(b, sym) {
      assert [a, b][0] == a && [a, b][1] == b;
      ForceCovers(c, BinaryOn(op), [a, b], sym);
    }
  }

  lemma ExtendShape(c: Computation, i: Index, sym: SymOperand)
    requires i.Element? && Coherent(c)
    ensures Sound(Extend(c, i)) && |Extend(c, i).c.calls| >= |c.calls|
    ensures Covers(c, sym) ==> Covers(Extend(c, i).c, sym)
    ensures i.sym == sym ==> Covers(Extend(c, i).c, sym) || Mentions(Extend(c, i).current, sym)
  {
    hide Coherent, Covers;
    var a := Symbolic(Word(i.o, i.width), i.sym);
    if i.width != PTR_BITS {
      ForceCoherent(c, ZExtB(ExtraBits(i.width, PTR_BITS)), [a]);
      if Covers(c, sym) || i.sym == sym {
        assert [a][0] == a;
        ForceCovers(c, ZExtB(ExtraBits(i.width, PTR_BITS)), [a], sym);
      }
    }
  }

  lemma AddIndexShape(ch: Chain, i: Index, sym: SymOperand)
    requires Sound(ch)
    ensures Sound(AddIndex(ch, i))
    ensures Covers(ch.c, sym) ==> Covers(AddIndex(ch, i).c, sym)
    ensures !Skipped(i) ==>
      AddIndex(ch, i).current == Plain(|AddIndex(ch, i).c.calls| - 1)
      && (Mentions(ch.current, sym) || (i.Element? && i.sym == sym) ==> Covers(AddIndex(ch, i).c, sym))
  {
    hide Coherent, Covers, Push, Extend;
    if Skipped(i) {
    } else if i.Member? {
      PushShape(ch.c, Add, Constant(i.offset), ch.current, sym);
    } else {
      var e := Extend(ch.c, i);
      ExtendShape(ch.c, i, sym);
      PushShape(e.c, Mul, e.current, Constant(i.size), sym);
      var s := Scale(ch.c, i);
      PushShape(s.c, Add, s.current, ch.current, sym);
    }
  }

  predicate UsedBy(sym: SymOperand, base: Base, indices: seq<Index>)
  {
    (sym == base.sym && exists k :: 0 <= k < |indices| && !Skipped(indices[k]))
    || exists k :: 0 <= k < |indices| && indices[k].Element? && !IsZero(indices[k]) && indices[k].sym == sym
  }

  lemma {:induction false} EmittedShape(base: Base, indices: seq<Index>, sym: SymOperand)
    ensures var ch := Emitted(base, indices);
      Sound(ch) && (UsedBy(sym, base, indices) ==> Covers(ch.c, sym))
      && (if forall k :: 0 <= k < |indices| ==> Skipped(indices[k])
          then ch == Chain(Computation([], []), Symbolic(Word(base.o, PTR_BITS), base.sym))
          else |ch.c.calls| >= 1 && ch.current == Plain(|ch.c.calls| - 1))
  {
    hide Coherent, Covers, AddIndex;
    if indices == [] {
      EmptyChain(Env(map[], map[], map[]));
    } else {
      var n := |indices| - 1;
      var before, i := indices[..n], indices[n];
      EmittedShape(base, before, sym);
      AddIndexShape(Emitted(base, before), i, sym);
      if Skipped(i) {
        SkippedStays(Emitted(base, before), i);
      }
      assert forall k :: 0 <= k < n ==> before[k] == indices[k];
    }
  }

  lemma SkippedStays(ch: Chain, i: Index)
    requires Skipped(i)
    ensures AddIndex(ch, i) == ch
  {
  }

  // ---------- nothing else does ----------

  lemma PushOnlyFrom(c: Computation, op: BinOp, a: CallArg, b: CallArg, syms: set<SymOperand>)
    requires Coherent(c) && OnlyFrom(c, syms)
    requires (a.Symbolic? ==> a.sym in syms) && (b.Symbolic? ==> b.sym in syms)
    ensures OnlyFrom(Push(c, op, a, b), syms)
  {
    hide Coherent, OnlyFrom;
    ForceOnlyFrom(c, BinaryOn(op), [a, b], syms);
  }

  lemma AddIndexOnlyFrom(ch: Chain, i: Index, syms: set<SymOperand>)
    requires Sound(ch) && OnlyFrom(ch.c, syms) && NullExpr in syms
    requires (ch.current.Symbolic? ==> ch.current.sym in syms) && (i.Element? && !IsZero(i) ==> i.sym in syms)
    ensures OnlyFrom(AddIndex(ch, i).c, syms)
  {
    hide Coherent, OnlyFrom, Push, Covers;
    if Skipped(i) {
    } else if i.Member? {
      PushOnlyFrom(ch.c, Add, Constant(i.offset), ch.current, syms);
    } else {
      var a, e := Symbolic(Word(i.o, i.width), i.sym), Extend(ch.c, i);
      ExtendShape(ch.c, i, i.sym);
      if i.width != PTR_BITS {
        ForceOnlyFrom(ch.c, ZExtB(ExtraBits(i.width, PTR_BITS)), [a], syms);
      }
      PushShape(e.c, Mul, e.current, Constant(i.size), i.sym);
      PushOnlyFrom(e.c, Mul, e.current, Constant(i.size), syms);
      var s := Scale(ch.c, i);
      PushOnlyFrom(s.c, Add, s.current, ch.current, syms);
    }
  }

  /** The operands that count: the null constant, the base, and the indices
      that are not zero. */
  function Operands(base: Base, indices: seq<Index>): (syms: set<SymOperand>)
  {
    {NullExpr, base.sym} + set i | i in indices && i.Element? && !IsZero(i) :: i.sym
  }

  lemma {:induction false} EmittedOnlyFrom(base: Base, indices: seq<Index>, syms: set<SymOperand>)
    requires Operands(base, indices) <= syms
    ensures OnlyFrom(Emitted(base, indices).c, syms)
  {
    hide Coherent, OnlyFrom, AddIndex, IsZero, Covers;
    if indices == [] {
      NothingFrom(syms);
    } else {
      var n := |indices| - 1;
      var i := indices[n];
      assert i in indices;
      assert forall x :: x in indices[..n] ==> x in indices;
      assert Operands(base, indices[..n]) <= Operands(base, indices);
      EmittedOnlyFrom(base, indices[..n], syms);
      EmittedShape(base, indices[..n], base.sym);
      assert i.Element? && !IsZero(i) ==> i.sym in Operands(base, indices);
      AddIndexOnlyFrom(Emitted(base, indices[..n]), i, syms);
    }
  }

  lemma NothingFrom(syms: set<SymOperand>)
    ensures OnlyFrom(Computation([], []), syms)
  {
  }

  // ---------- the visitor is correct for zero-extended indices ----------

  lemma ConcreteCovered(c: Computation, env: Env, sym: SymOperand)
    requires AllConcrete(c, env) && Covers(c, sym)
    ensures OperandExpr(env, sym).None?
  {
  }

  lemma {:induction false} Unchanged(indices: seq<Index>, env: Env, regs': map<nat, nat>, input: Expressions.Input)
    requires forall k :: 0 <= k < |indices| ==> IndexKnown(env, regs', input, indices[k])
    requires forall k :: 0 <= k < |indices| && indices[k].Element? && !IsZero(indices[k]) ==>
      OperandExpr(env, indices[k].sym).None?
    ensures SignedSum(indices, regs') == SignedSum(indices, env.regs)
  {
    hide Signed, Typed, OperandExpr, Pow2;
    if indices != [] {
      Unchanged(indices[..|indices| - 1], env, regs', input);
      assert IndexKnown(env, regs', input, indices[|indices| - 1]);
    }
  }

  lemma {:induction false} ZeroDisplacement(indices: seq<Index>, env: Env, regs': map<nat, nat>,
                                            input: Expressions.Input)
    requires forall k :: 0 <= k < |indices| ==> IndexKnown(env, regs', input, indices[k]) && IsZero(indices[k])
    ensures UnsignedSum(indices, regs') == 0
  {
    hide Known, Pow2;
    if indices != [] {
      ZeroDisplacement(indices[..|indices| - 1], env, regs', input);
      assert IndexKnown(env, regs', input, indices[|indices| - 1]) && IsZero(indices[|indices| - 1]);
    }
  }

  lemma ComputedMeaning(base: Base, indices: seq<Index>, env: Env, regs': map<nat, nat>, input: Expressions.Input,
                        k: nat)
    requires AllKnown(env, regs', input, base, indices) && k < |indices| && !IsZero(indices[k])
    ensures var c := Emitted(base, indices).c;
      WellFormed(c)
      && (AllConcrete(c, env) ==> forall sym :: UsedBy(sym, base, indices) ==> OperandExpr(env, sym).None?)
      && (!AllConcrete(c, env) ==>
            var e := Exec(Rewritten(c), env);
            e.Done? && e.e.Some? && HasType(e.e.value, PTR_BITS)
            && Eval(e.e.value, input) == Wrap(PTR_BITS, OpVal(regs', base.o) + UnsignedSum(indices, regs')))
  {
    hide AllConcrete, Emitted, Covers, Coherent, HasType, Eval, Exec, Rewritten, Wrap, Known, IndexKnown, UnsignedSum,
         OperandExpr;
    var ch := Emitted(base, indices);
    assert !Skipped(indices[k]);
    EmittedShape(base, indices, base.sym);
    assert UsedBy(base.sym, base, indices);
    HasInputs(ch.c, base.sym);
    EmittedMeaning(base, indices, env, regs', input);
    RewriteCorrect(ch.c, env);
    if AllConcrete(ch.c, env) {
      forall sym | UsedBy(sym, base, indices)
        ensures OperandExpr(env, sym).None?
      {
        EmittedShape(base, indices, sym);
        ConcreteCovered(ch.c, env, sym);
      }
    }
  }

  lemma SymbolicPointer(base: Base, indices: seq<Index>, env: Env, regs': map<nat, nat>, input: Expressions.Input,
                        k: nat)
    requires AllKnown(env, regs', input, base, indices) && k < |indices| && !IsZero(indices[k])
    requires OperandExpr(env, base.sym).Some?
    ensures AddressExpr(base, indices, env).Done? && AddressExpr(base, indices, env).e.Some?
  {
    hide Exec, Rewritten, AllConcrete, Emitted;
    assert !Skipped(indices[k]);
    assert UsedBy(base.sym, base, indices);
    ComputedMeaning(base, indices, env, regs', input, k);
  }

  lemma HasInputs(c: Computation, sym: SymOperand)
    requires Covers(c, sym)
    ensures c.inputs != []
  {
  }

  /** The visitor's expression is the address with every index zero-extended;
      without an expression the real address does not depend on the input. */
  lemma AddressCorrect(base: Base, indices: seq<Index>, env: Env, regs': map<nat, nat>, input: Expressions.Input)
    requires AllKnown(env, regs', input, base, indices)
    ensures AddressExpr(base, indices, env).Done?
    ensures var e := AddressExpr(base, indices, env).e;
      (e.Some? ==> HasType(e.value, PTR_BITS)
                   && Eval(e.value, input) == Wrap(PTR_BITS, OpVal(regs', base.o) + UnsignedSum(indices, regs')))
      && (e.None? ==> Address(base, indices, regs') == Address(base, indices, env.regs))
  {
    hide AllConcrete, Emitted, Covers, HasType, Eval, Exec, Rewritten, Wrap, UnsignedSum, SignedSum, Pow2;
    match Visited(base, indices) {
      case NoExpression =>
        Unchanged(indices, env, regs', input);
      case SameAsPointer =>
        ZeroDisplacement(indices, env, regs', input);
        PointerValue(env, regs', input, base);
        Unchanged(indices, env, regs', input);
      case Computed(c) =>
        var k :| 0 <= k < |indices| && !IsZero(indices[k]);
        ComputedMeaning(base, indices, env, regs', input, k);
        if AllConcrete(c, env) {
          RewriteCorrect(c, env);
          assert UsedBy(base.sym, base, indices) by { assert !Skipped(indices[k]); }
          forall k' | 0 <= k' < |indices| && indices[k'].Element? && !IsZero(indices[k'])
            ensures OperandExpr(env, indices[k'].sym).None?
          {
            assert UsedBy(indices[k'].sym, base, indices);
          }
          Unchanged(indices, env, regs', input);
        }
    }
  }

  lemma PointerValue(env: Env, regs': map<nat, nat>, input: Expressions.Input, base: Base)
    requires Known(env, regs', input, base.o, base.sym, PTR_BITS)
    ensures var e := OperandExpr(env, base.sym);
      e.Some? ==> HasType(e.value, PTR_BITS) && Eval(e.value, input) == Wrap(PTR_BITS, OpVal(regs', base.o))
  {
    hide Pow2, Eval, WellSorted;
    var e := OperandExpr(env, base.sym);
    if e.Some? {
      EvalRange(e.value, input);
      WrapSmall(PTR_BITS, OpVal(regs', base.o));
    }
  }

  // ---------- exactly when that is the real address ----------

  /** At run time the base and all indices that are not zero are concrete. */
  predicate NullOperands(base: Base, indices: seq<Index>, env: Env)
  {
    && OperandExpr(env, base.sym).None?
    && forall k :: 0 <= k < |indices| && indices[k].Element? && !IsZero(indices[k]) ==>
       OperandExpr(env, indices[k].sym).None?
  }

  lemma NullInputs(base: Base, indices: seq<Index>, env: Env)
    requires NullOperands(base, indices, env)
    ensures AllConcrete(Emitted(base, indices).c, env)
  {
    hide Emitted, IsZero, ExprOf;
    EmittedOnlyFrom(base, indices, Operands(base, indices));
  }

  /** The registered expression is null exactly when all its operands are. */
  lemma NullExactlyWhen(base: Base, indices: seq<Index>, env: Env, regs': map<nat, nat>, input: Expressions.Input)
    requires AllKnown(env, regs', input, base, indices)
    ensures AddressExpr(base, indices, env) == Done(None) <==> NullOperands(base, indices, env)
  {
    hide Emitted, Exec, Rewritten, AllConcrete, Covers, WellFormed;
    match Visited(base, indices) {
      case NoExpression =>
      case SameAsPointer =>
      case Computed(c) =>
        var k :| 0 <= k < |indices| && !IsZero(indices[k]);
        ComputedMeaning(base, indices, env, regs', input, k);
        RewriteCorrect(c, env);
        if NullOperands(base, indices, env) {
          NullInputs(base, indices, env);
        }
        if AllConcrete(c, env) {
          assert UsedBy(base.sym, base, indices) by { assert !Skipped(indices[k]); }
          forall k' | 0 <= k' < |indices| && indices[k'].Element? && !IsZero(indices[k'])
            ensures OperandExpr(env, indices[k'].sym).None?
          {
            assert UsedBy(indices[k'].sym, base, indices);
          }
        }
    }
  }

  lemma {:induction false} SumsDiffer(indices: seq<Index>, regs: map<nat, nat>)
    requires forall k :: 0 <= k < |indices| && indices[k].Element? ==>
      1 <= indices[k].width && OpVal(regs, indices[k].o) < Pow2(indices[k].width)
    ensures UnsignedSum(indices, regs) == SignedSum(indices, regs) + Excess(indices, regs)
  {
    hide Pow2, OpVal;
    if indices != [] {
      var n := |indices| - 1;
      SumsDiffer(indices[..n], regs);
      var i := indices[n];
      if i.Element? {
        SignedSplit(i.width, OpVal(regs, i.o), i.size);
      }
    }
  }

  lemma SignedSplit(w: nat, x: nat, size: nat)
    requires w >= 1 && x < Pow2(w)
    ensures x * size == Signed(w, x) * size + if Signed(w, x) < 0 then Pow2(w) * size else 0
  {
    SignedRange(w, x);
    if x >= Pow2(w - 1) {
      assert (x - Pow2(w)) * size == x * size - Pow2(w) * size;
    }
  }

  lemma WrapEqual(w: nat, x: int, d: int)
    ensures Wrap(w, x + d) == Wrap(w, x) <==> Wrap(w, d) == 0
  {
    var m := Pow2(w);
    var p := WrapQuotient(w, x);
    var q := WrapQuotient(w, d);
    var k := WrapQuotient(w, x + d);
    if Wrap(w, d) == 0 {
      WrapShift(w, x, q);
    }
    if Wrap(w, x + d) == Wrap(w, x) {
      assert d == (k - p) * m + 0;
      WrapIs(w, d, k - p, 0);
    }
  }

  /** Exactly when the expression stands for the address that the instruction
      computes: all operands are concrete, or the spurious displacement
      vanishes. */
  lemma AddressAgreesExactlyWhen(base: Base, indices: seq<Index>, env: Env, regs': map<nat, nat>,
                                 input: Expressions.Input)
    requires AllKnown(env, regs', input, base, indices)
    ensures var e := AddressExpr(base, indices, env);
      e.Done?
      && (Agree(Address(base, indices, env.regs), e.e, Address(base, indices, regs'), input)
          <==> NullOperands(base, indices, env) || Wrap(PTR_BITS, Excess(indices, regs')) == 0)
  {
    hide Emitted, Eval, Exec, Rewritten, Wrap, UnsignedSum, SignedSum, Pow2, AddressExpr, Excess, Typed, HasType,
         NullOperands;
    NullExactlyWhen(base, indices, env, regs', input);
    AddressCorrect(base, indices, env, regs', input);
    var e := AddressExpr(base, indices, env).e;
    if e.Some? {
      forall k | 0 <= k < |indices| && indices[k].Element?
        ensures OpVal(regs', indices[k].o) < Pow2(indices[k].width)
      {
        assert IndexKnown(env, regs', input, indices[k]);
        KnownRange(env, regs', input, indices[k].o, indices[k].sym, indices[k].width);
      }
      SumsDiffer(indices, regs');
      WrapEqual(PTR_BITS, OpVal(regs', base.o) + SignedSum(indices, regs'), Excess(indices, regs'));
    }
  }

  lemma KnownRange(env: Env, regs': map<nat, nat>, input: Expressions.Input, o: Operand, sym: SymOperand, w: nat)
    requires Known(env, regs', input, o, sym, w)
    ensures OpVal(regs', o) < Pow2(w)
  {
    hide Pow2, OperandExpr;
    CoerceAgree(OpVal(env.regs, o), OperandExpr(env, sym), OpVal(regs', o), w, input);
  }

  /** In particular it does when every narrow index is non-negative. */
  lemma {:induction false} NonNegativeIndices(indices: seq<Index>, regs: map<nat, nat>)
    requires forall k :: 0 <= k < |indices| && indices[k].Element? && indices[k].width != PTR_BITS ==>
      !Negative(indices[k], regs)
    ensures Wrap(PTR_BITS, Excess(indices, regs)) == 0
  {
    hide Pow2, Signed;
    if indices == [] {
      WrapSmall(PTR_BITS, 0);
    } else {
      var n := |indices| - 1;
      var i := indices[n];
      NonNegativeIndices(indices[..n], regs);
      if i.Element? && Negative(i, regs) {
        assert i.width == PTR_BITS;
        WrapShift(PTR_BITS, Excess(indices[..n], regs), i.size);
        assert Pow2(PTR_BITS) * i.size == i.size * Pow2(PTR_BITS);
      }
    }
  }

  /** A negative 32-bit index into an array of 4-byte elements. */
  const LAST_INT := Element(Const(0xFFFF_FFFF, 32), NullExpr, 32, 4)

  lemma LastIntExcess()
    ensures Negative(LAST_INT, map[]) && Wrap(PTR_BITS, Excess([LAST_INT], map[])) != 0
    ensures 0xFFFF_FFFF < Pow2(32)
  {
    Pow2Eight();
    assert Pow2(12) == 4096;
    assert Pow2(16) == 0x1_0000;
    assert Pow2(20) == 0x10_0000;
    assert Pow2(24) == 0x100_0000;
    assert Pow2(28) == 0x1000_0000;
    assert Pow2(31) == 0x8000_0000;
    assert Pow2(32) == 0x1_0000_0000;
    assert Pow2(35) == 0x8_0000_0000;
    Pow2Mono(35, 64);
    WrapSmall(PTR_BITS, 0x4_0000_0000);
  }

  /** With a symbolic pointer, that index makes the expression differ from the
      address on the very input of the recorded run. */
  lemma NegativeNarrowIndex()
    ensures var base, env := Base(Reg(0), SymVar(0)), Env(map[0 := Some(Integer(0, 64))], map[0 := 0], map[]);
      var e := AddressExpr(base, [LAST_INT], env);
      AllKnown(env, env.regs, [], base, [LAST_INT])
      && e.Done? && !Agree(Address(base, [LAST_INT], env.regs), e.e, Address(base, [LAST_INT], env.regs), [])
  {
    hide Wrap, Exec, Rewritten, Covers, Emitted, Excess, Pow2, UnsignedSum, SignedSum, AddressExpr, Coherent,
         AllConcrete;
    var base, env := Base(Reg(0), SymVar(0)), Env(map[0 := Some(Integer(0, 64))], map[0 := 0], map[]);
    LastIntExcess();
    IntegerNode(0, 64, []);
    assert [LAST_INT][0] == LAST_INT && !IsZero(LAST_INT);
    assert AllKnown(env, env.regs, [], base, [LAST_INT]) by {
      assert Known(env, env.regs, [], base.o, base.sym, PTR_BITS);
      assert IndexKnown(env, env.regs, [], LAST_INT);
    }
    SymbolicPointer(base, [LAST_INT], env, env.regs, [], 0);
    ExcessOfConstant(map[], env.regs);
    AddressAgreesExactlyWhen(base, [LAST_INT], env, env.regs, []);
  }

  lemma ExcessOfConstant(regs: map<nat, nat>, regs': map<nat, nat>)
    ensures Excess([LAST_INT], regs) == Excess([LAST_INT], regs')
  {
    assert [LAST_INT][..0] == [];
  }

  // ---------- the visitor's loop ----------

  /** `forceBuildRuntimeCall`, appended by `merge`. */
  method ForceBuildRuntimeCall(c: Computation, b: Builder, args: seq<CallArg>) returns (r: Computation)
    ensures r == Force(c, b, args) && |r.calls| == |c.calls| + 1
  {
    var functionArgs: seq<Arg> := [];
    for i := 0 to |args|
      invariant functionArgs == ArgsOf(args[..i])
    {
      functionArgs := functionArgs + [ArgOf(args[i])];
      assert functionArgs == ArgsOf(args[..i + 1]);
    }
    assert args[..|args|] == args;
    var inputs: seq<Use> := [];
    for i := 0 to |args|
      invariant inputs == UsesOf(args, |c.calls|, i)
    {
      if args[i].Symbolic? {
        inputs := inputs + [Use(args[i].source, |c.calls|, i)];
      }
    }
    r := Computation(c.calls + [Call(b, functionArgs)], c.inputs + inputs);
  }

  method VisitGetElementPtr(base: Base, indices: seq<Index>) returns (r: Registered)
    ensures r == Visited(base, indices)
  {
    hide Force;
    if base.sym.NullExpr? && forall k :: 0 <= k < |indices| ==> (indices[k].Element? ==> indices[k].sym.NullExpr?) {
      return NoExpression;
    }
    if forall k :: 0 <= k < |indices| ==> IsZero(indices[k]) {
      return SameAsPointer;
    }
    var c, currentAddress := Computation([], []), Symbolic(Word(base.o, PTR_BITS), base.sym);
    for n := 0 to |indices|
      invariant Chain(c, currentAddress) == Emitted(base, indices[..n])
    {
      var i := indices[n];
      assert indices[..n + 1][..n] == indices[..n];
      var contribution: CallArg;
      if i.Member? {
        contribution := Constant(i.offset);
      } else {
        if IsZero(i) {
          continue;
        }
        var index := Symbolic(Word(i.o, i.width), i.sym);
        if i.width != PTR_BITS {
          c := ForceBuildRuntimeCall(c, ZExtB(ExtraBits(i.width, PTR_BITS)), [index]);
          index := Plain(|c.calls| - 1);
        }
        c := ForceBuildRuntimeCall(c, BinaryOn(Mul), [index, Constant(i.size)]);
        contribution := Plain(|c.calls| - 1);
      }
      c := ForceBuildRuntimeCall(c, BinaryOn(Add), [contribution, currentAddress]);
      currentAddress := Plain(|c.calls| - 1);
    }
    assert indices[..|indices|] == indices;
    r := Computed(c);
  }
}
