/** One step of the recorded run, mirrored by one step of another run. */
module ReplaySteps {
  import opened BitVectors
  import opened Bytes
  import opened Expressions
  import opened Aggregates
  import opened Lifting
  import opened Programs
  import opened Replay
  import opened ArgumentSlots

  // ---------- registers ----------

  lemma SetKeeps(f: Func, regs: map<nat, nat>, exprs: map<nat, SymExpr>, regs': map<nat, nat>,
                 d: nat, v: nat, e: SymExpr, v': nat, input: Input)
    requires FrameTyped(f, regs, exprs) && FrameAgree(regs, exprs, regs', input)
    requires Agree(v, e, v', input) && v < Pow2(Width(f, d)) && Typed(e, Width(f, d))
    ensures FrameTyped(f, regs[d := v], exprs[d := e]) && FrameAgree(regs[d := v], exprs[d := e], regs'[d := v'], input)
  {
    hide Pow2, Agree, Typed, Width;
    forall r: nat
      ensures Lookup(regs[d := v], r) < Pow2(Width(f, r)) && Typed(ExprOf(exprs[d := e], r), Width(f, r))
      ensures Agree(Lookup(regs[d := v], r), ExprOf(exprs[d := e], r), Lookup(regs'[d := v'], r), input)
    {
      if r != d {
        assert Lookup(regs[d := v], r) == Lookup(regs, r);
        assert ExprOf(exprs[d := e], r) == ExprOf(exprs, r);
        assert Lookup(regs'[d := v'], r) == Lookup(regs', r);
      }
    }
  }

  /** Values for registers `ds` that agree and respect their widths. */
  ghost predicate ValuesFit(f: Func, ds: seq<nat>, vs: seq<nat>, es: seq<SymExpr>, vs': seq<nat>, input: Input)
  {
    && |ds| == |vs| == |es| == |vs'|
    && forall k {:trigger vs[k]} {:trigger ds[k]} :: 0 <= k < |ds| ==>
      Agree(vs[k], es[k], vs'[k], input) && vs[k] < Pow2(Width(f, ds[k])) && Typed(es[k], Width(f, ds[k]))
  }

  lemma {:induction false} AssignKeeps(f: Func, regs: map<nat, nat>, exprs: map<nat, SymExpr>, regs': map<nat, nat>,
                                       ds: seq<nat>, vs: seq<nat>, es: seq<SymExpr>, vs': seq<nat>, input: Input)
    requires FrameTyped(f, regs, exprs) && FrameAgree(regs, exprs, regs', input)
    requires ValuesFit(f, ds, vs, es, vs', input)
    ensures FrameTyped(f, Assign(regs, ds, vs), Assign(exprs, ds, es))
    ensures FrameAgree(Assign(regs, ds, vs), Assign(exprs, ds, es), Assign(regs', ds, vs'), input)
  {
    hide Pow2, Agree, Typed, Width, FrameTyped, FrameAgree;
    if ds != [] {
      var n := |ds| - 1;
      AssignKeeps(f, regs, exprs, regs', ds[..n], vs[..n], es[..n], vs'[..n], input);
      SetKeeps(f, Assign(regs, ds[..n], vs[..n]), Assign(exprs, ds[..n], es[..n]), Assign(regs', ds[..n], vs'[..n]),
               ds[n], vs[n], es[n], vs'[n], input);
    }
  }

  /** A frame with no registers set yet. */
  lemma EmptyFrame(f: Func, input: Input)
    ensures FrameTyped(f, map[], map[]) && FrameAgree(map[], map[], map[], input)
  {
  }

  // ---------- memory ----------

  ghost predicate BytesAgree(bs: seq<Byte>, es: seq<SymExpr>, bs': seq<Byte>, input: Input)
  {
    && |bs| == |es| == |bs'|
    && forall k {:trigger bs[k]} {:trigger bs'[k]} {:trigger es[k]} :: 0 <= k < |bs| ==>
      Agree(bs[k], es[k], bs'[k], input) && Typed(es[k], 8)
  }

  lemma PutKeeps(m: map<int, Byte>, sh: map<int, SymExpr>, m': map<int, Byte>, at: int,
                 bs: seq<Byte>, es: seq<SymExpr>, bs': seq<Byte>, input: Input)
    requires MemoryAgree(m, sh, m', input) && BytesAgree(bs, es, bs', input)
    ensures MemoryAgree(Put(m, at, bs), Put(sh, at, es), Put(m', at, bs'), input)
  {
    hide Agree, Typed, Put;
    forall a: int
      ensures Agree(ByteAt(Put(m, at, bs), a), ShadowAt(Put(sh, at, es), a), ByteAt(Put(m', at, bs'), a), input)
      ensures Typed(ShadowAt(Put(sh, at, es), a), 8)
    {
      PutAt(m, at, bs, a);
      PutAt(sh, at, es, a);
      PutAt(m', at, bs', a);
      if !(at <= a < at + |bs|) {
        assert ByteAt(Put(m', at, bs'), a) == ByteAt(m', a);
      }
    }
  }

  // ---------- effects of one instruction ----------

  ghost predicate EffectsRel(f: Func, i: Instr, e: Effect, t: SymEffect, e': Effect, input: Input)
  {
    && e'.at == e.at && e'.advance == e.advance
    && BytesAgree(e.bytes, t.shadow, e'.bytes, input)
    && var d := DestOf(i);
      (d.Some? ==>
       Agree(e.value, t.expr, e'.value, input) && e.value < Pow2(Width(f, d.value)) && Typed(t.expr, Width(f, d.value)))
  }

  lemma NoBytes(input: Input)
    ensures BytesAgree([], [], [], input)
  {
  }

  lemma BinEffect(p: Program, f: Func, input: Input, input': Input, c: Conc, s: Sym, i: Instr,
                  regs: map<nat, nat>, exprs: map<nat, SymExpr>, c': Conc, regs': map<nat, nat>)
    requires i.BinInst? && InstrOk(p, f, i)
    requires FrameTyped(f, regs, exprs) && FrameAgree(regs, exprs, regs', input')
    ensures EffectsRel(f, i, Perform(p, f, input, c, i, regs), Track(p, f, input, c, s, i, regs, exprs),
                       Perform(p, f, input', c', i, regs'), input')
  {
    hide Pow2, FrameTyped, FrameAgree, Agree, Typed, LiftBinary, ConcBinary, ValidWidth, BytesAgree;
    var w := Width(f, i.d);
    NoBytes(input');
    OperandAgree(f, i.a, w, regs, exprs, regs', input');
    OperandAgree(f, i.b', w, regs, exprs, regs', input');
    PositiveWidth(w);
    ConcBinaryRange(i.op, w, OpVal(regs, i.a), OpVal(regs, i.b'));
    BinaryAgree(i.op, w, OpVal(regs, i.a), OpExpr(exprs, i.a), OpVal(regs', i.a),
                OpVal(regs, i.b'), OpExpr(exprs, i.b'), OpVal(regs', i.b'), input');
  }

  lemma PositiveWidth(w: nat)
    requires ValidWidth(w)
    ensures w >= 1
  {
  }

  lemma CmpEffect(p: Program, f: Func, input: Input, input': Input, c: Conc, s: Sym, i: Instr,
                  regs: map<nat, nat>, exprs: map<nat, SymExpr>, c': Conc, regs': map<nat, nat>)
    requires i.CmpInst? && InstrOk(p, f, i)
    requires FrameTyped(f, regs, exprs) && FrameAgree(regs, exprs, regs', input')
    ensures EffectsRel(f, i, Perform(p, f, input, c, i, regs), Track(p, f, input, c, s, i, regs, exprs),
                       Perform(p, f, input', c', i, regs'), input')
  {
    hide Pow2, FrameTyped, FrameAgree, Agree, Typed, LiftCompare, CmpVal, ValidWidth, BytesAgree;
    var w := OpWidth(f, i.a);
    NoBytes(input');
    Pow2Eight();
    OperandAgree(f, i.a, w, regs, exprs, regs', input');
    OperandAgree(f, i.b', w, regs, exprs, regs', input');
    CompareAgree(i.pred, w, OpVal(regs, i.a), OpExpr(exprs, i.a), OpVal(regs', i.a),
                 OpVal(regs, i.b'), OpExpr(exprs, i.b'), OpVal(regs', i.b'), input');
  }

  lemma CastEffect(p: Program, f: Func, input: Input, input': Input, c: Conc, s: Sym, i: Instr,
                   regs: map<nat, nat>, exprs: map<nat, SymExpr>, c': Conc, regs': map<nat, nat>)
    requires i.CastInst? && InstrOk(p, f, i)
    requires FrameTyped(f, regs, exprs) && FrameAgree(regs, exprs, regs', input')
    ensures EffectsRel(f, i, Perform(p, f, input, c, i, regs), Track(p, f, input, c, s, i, regs, exprs),
                       Perform(p, f, input', c', i, regs'), input')
  {
    hide Pow2, FrameTyped, FrameAgree, Agree, Typed, LiftCast, ConcCast, BytesAgree;
    var w := OpWidth(f, i.a);
    NoBytes(input');
    OperandAgree(f, i.a, w, regs, exprs, regs', input');
    CastAgree(i.kind, w, Width(f, i.d), OpVal(regs, i.a), OpExpr(exprs, i.a), OpVal(regs', i.a), input');
  }

  lemma SelectEffect(p: Program, f: Func, input: Input, input': Input, c: Conc, s: Sym, i: Instr,
                     regs: map<nat, nat>, exprs: map<nat, SymExpr>, c': Conc, regs': map<nat, nat>)
    requires i.SelectInst? && InstrOk(p, f, i)
    requires FrameTyped(f, regs, exprs) && FrameAgree(regs, exprs, regs', input')
    requires (OpVal(regs', i.c) != 0) == (OpVal(regs, i.c) != 0)
    ensures EffectsRel(f, i, Perform(p, f, input, c, i, regs), Track(p, f, input, c, s, i, regs, exprs),
                       Perform(p, f, input', c', i, regs'), input')
  {
    hide Pow2, FrameTyped, FrameAgree, Agree, Typed, BytesAgree;
    NoBytes(input');
    OperandAgree(f, i.a, Width(f, i.d), regs, exprs, regs', input');
    OperandAgree(f, i.b', Width(f, i.d), regs, exprs, regs', input');
  }

  lemma ByteHolds(e: Expr, input: Input, b: Byte)
    requires HasType(e, 8) && Eval(e, input) == b
    ensures Holds(e, input, [b])
  {
    assert FromBytes([b]) == b;
  }

  lemma HeldByte(e: Expr, input: Input, b: Byte)
    requires Holds(e, input, [b])
    ensures Agree(b, Some(e), b, input) && HasType(e, 8) && Eval(e, input) == b
  {
    assert FromBytes([b]) == b;
  }

  lemma ByteExprsHold(m: map<int, Byte>, sh: map<int, SymExpr>, m': map<int, Byte>, at: int, n: nat, input: Input)
    requires MemoryAgree(m, sh, m', input)
    ensures HoldEach(ByteExprs(m, sh, at, n), input, ReadBytes(m', at, n))
  {
    hide Holds, HasType, Coerce, Pow2, Eval;
    Pow2Eight();
    forall k | 0 <= k < n
      ensures Holds(ByteExprs(m, sh, at, n)[k], input, [ReadBytes(m', at, n)[k]])
    {
      var a := at + k;
      CoerceAgree(ByteAt(m, a), ShadowAt(sh, a), ByteAt(m', a), 8, input);
      ByteHolds(Coerce(ShadowAt(sh, a), ByteAt(m, a), 8), input, ByteAt(m', a));
    }
  }

  lemma NullBytesSame(m: map<int, Byte>, sh: map<int, SymExpr>, m': map<int, Byte>, at: int, n: nat, input: Input)
    requires MemoryAgree(m, sh, m', input) && AllNull(ShadowBytes(sh, at, n))
    ensures ReadBytes(m', at, n) == ReadBytes(m, at, n)
  {
    forall k | 0 <= k < n
      ensures ReadBytes(m', at, n)[k] == ReadBytes(m, at, n)[k]
    {
      assert ShadowBytes(sh, at, n)[k].None?;
      assert ByteAt(m', at + k) == ByteAt(m, at + k);
    }
  }

  lemma StorableBytes(w: nat)
    requires Storable(w)
    ensures ByteCount(w) >= 1 && (w != 1 ==> w == 8 * ByteCount(w)) && (w == 1 ==> ByteCount(w) == 1)
  {
  }

  lemma LoadValueRange(w: nat, bs: seq<Byte>, littleEndian: bool)
    requires Storable(w) && |bs| == ByteCount(w)
    ensures LoadValue(w, bs, littleEndian) < Pow2(w)
  {
    hide Pow2;
    StorableBytes(w);
    FromBytesRange(Ordered(bs, littleEndian));
    Pow2Eight();
  }

  lemma HeldLoad(e: Expr, w: nat, bs: seq<Byte>, littleEndian: bool, input: Input)
    requires Storable(w) && |bs| == ByteCount(w) && Holds(e, input, Ordered(bs, littleEndian))
    ensures var r := if w == 1 then ByteToBool(e) else e;
      HasType(r, w) && Eval(r, input) == LoadValue(w, bs, littleEndian)
  {
    hide Pow2, FromBytes, ByteToBool, Eval;
    StorableBytes(w);
    if w == 1 {
      HeldVector(e, input, Ordered(bs, littleEndian));
      ByteToBoolNode(e, input);
      ConditionBit(ByteToBool(e), input);
    }
  }

  lemma ConditionBit(e: Expr, input: Input)
    requires IsCondition(e)
    ensures HasType(e, 1)
  {
    EvalRange(e, input);
  }

  /** The loaded expression evaluates to what the other run loads. */
  lemma LoadAgree(m: map<int, Byte>, sh: map<int, SymExpr>, m': map<int, Byte>, at: int, w: nat, littleEndian: bool,
                  input: Input)
    requires Storable(w) && MemoryAgree(m, sh, m', input)
    ensures var n := ByteCount(w);
      var e := LoadedExpr(ReadShadow(m, sh, at, n, littleEndian), w);
      Agree(LoadValue(w, ReadBytes(m, at, n), littleEndian), e, LoadValue(w, ReadBytes(m', at, n), littleEndian), input)
      && Typed(e, w)
  {
    hide Pow2, Holds, HoldEach, MemoryAgree, ByteExprs, LoadValue, ReadBytes, ByteToBool, Eval, AllNull, ShadowBytes,
         JoinBytes;
    StorableBytes(w);
    var n := ByteCount(w);
    if AllNull(ShadowBytes(sh, at, n)) {
      NullBytesSame(m, sh, m', at, n, input);
    } else {
      var es, bs' := ByteExprs(m, sh, at, n), ReadBytes(m', at, n);
      ByteExprsHold(m, sh, m', at, n, input);
      JoinHolds(es, littleEndian, input, bs');
      HeldLoad(JoinBytes(es, littleEndian), w, bs', littleEndian, input);
    }
  }

  lemma LoadEffect(p: Program, f: Func, input: Input, input': Input, c: Conc, s: Sym, i: Instr,
                   regs: map<nat, nat>, exprs: map<nat, SymExpr>, c': Conc, regs': map<nat, nat>)
    requires i.LoadInst? && InstrOk(p, f, i)
    requires MemoryAgree(c.memory, s.shadow, c'.memory, input')
    requires OpVal(regs', i.addr) == OpVal(regs, i.addr)
    ensures EffectsRel(f, i, Perform(p, f, input, c, i, regs), Track(p, f, input, c, s, i, regs, exprs),
                       Perform(p, f, input', c', i, regs'), input')
  {
    hide Pow2, Agree, Typed, BytesAgree, MemoryAgree, LoadValue, ReadBytes, ReadShadow, LoadedExpr, ByteCount;
    var w, at := Width(f, i.d), OpVal(regs, i.addr);
    NoBytes(input');
    LoadAgree(c.memory, s.shadow, c'.memory, at, w, p.littleEndian, input');
    LoadValueRange(w, ReadBytes(c.memory, at, ByteCount(w)), p.littleEndian);
  }

  lemma StoredValue(e: SymExpr, v: nat, v': nat, w: nat, input: Input) returns (r: Expr)
    requires Storable(w) && e.Some? && Typed(e, w) && Agree(v, e, v', input)
    ensures StoredExpr(e, w) == Some(r) && Holds(r, input, ToBytes(ByteCount(w), v'))
  {
    hide Pow2, FromBytes, ToBytes, Eval, WellSorted, Bits, IsBool, BoolToBit;
    StorableBytes(w);
    EvalRange(e.value, input);
    r := StoredExpr(e, w).value;
    if w == 1 {
      Pow2Eight();
      BoolToBitNode(e.value, input);
      ZExtNode(BoolToBit(e.value), 7, input);
    }
    Pow2Mono(w, 8 * ByteCount(w));
    FromTo(ByteCount(w), v');
  }

  lemma StoreAgree(e: SymExpr, v: nat, v': nat, w: nat, littleEndian: bool, input: Input)
    requires Storable(w) && Typed(e, w) && Agree(v, e, v', input)
    ensures var n := ByteCount(w);
      BytesAgree(Ordered(ToBytes(n, v), littleEndian), StoreShadow(StoredExpr(e, w), n, littleEndian),
                 Ordered(ToBytes(n, v'), littleEndian), input)
  {
    hide Pow2, Holds, HasType, StoredExpr, SplitByte, Ordered, ToBytes, Eval;
    var n := ByteCount(w);
    if e.Some? {
      var r := StoredValue(e, v, v', w, input);
      SplitAllHolds(r, littleEndian, input, ToBytes(n, v'));
      forall k | 0 <= k < n
        ensures Eval(SplitByte(r, n, k, littleEndian), input) == Ordered(ToBytes(n, v'), littleEndian)[k]
        ensures HasType(SplitByte(r, n, k, littleEndian), 8)
      {
        HeldByte(SplitAll(r, n, littleEndian)[k], input, Ordered(ToBytes(n, v'), littleEndian)[k]);
      }
    } else {
      NoStored(w);
    }
  }

  lemma NoStored(w: nat)
    ensures StoredExpr(None, w) == None
  {
  }

  lemma StoreEffect(p: Program, f: Func, input: Input, input': Input, c: Conc, s: Sym, i: Instr,
                    regs: map<nat, nat>, exprs: map<nat, SymExpr>, c': Conc, regs': map<nat, nat>)
    requires i.StoreInst? && InstrOk(p, f, i)
    requires FrameTyped(f, regs, exprs) && FrameAgree(regs, exprs, regs', input')
    requires OpVal(regs', i.addr) == OpVal(regs, i.addr)
    ensures EffectsRel(f, i, Perform(p, f, input, c, i, regs), Track(p, f, input, c, s, i, regs, exprs),
                       Perform(p, f, input', c', i, regs'), input')
  {
    hide Pow2, FrameTyped, FrameAgree, Agree, Typed, BytesAgree, StoreShadow, StoredExpr, ByteCount, ToBytes, Ordered;
    var w := OpWidth(f, i.v);
    OperandAgree(f, i.v, w, regs, exprs, regs', input');
    StoreAgree(OpExpr(exprs, i.v), OpVal(regs, i.v), OpVal(regs', i.v), w, p.littleEndian, input');
  }

  lemma MoveEffect(p: Program, f: Func, input: Input, input': Input, c: Conc, s: Sym, i: Instr,
                   regs: map<nat, nat>, exprs: map<nat, SymExpr>, c': Conc, regs': map<nat, nat>)
    requires i.MemMoveInst?
    requires MemoryAgree(c.memory, s.shadow, c'.memory, input')
    requires OpVal(regs', i.dst) == OpVal(regs, i.dst) && OpVal(regs', i.src) == OpVal(regs, i.src)
      && OpVal(regs', i.len) == OpVal(regs, i.len)
    ensures EffectsRel(f, i, Perform(p, f, input, c, i, regs), Track(p, f, input, c, s, i, regs, exprs),
                       Perform(p, f, input', c', i, regs'), input')
  {
    hide Pow2, Agree, Typed;
  }

  lemma SetEffect(p: Program, f: Func, input: Input, input': Input, c: Conc, s: Sym, i: Instr,
                  regs: map<nat, nat>, exprs: map<nat, SymExpr>, c': Conc, regs': map<nat, nat>)
    requires i.MemSetInst? && InstrOk(p, f, i)
    requires FrameTyped(f, regs, exprs) && FrameAgree(regs, exprs, regs', input')
    requires OpVal(regs', i.dst) == OpVal(regs, i.dst) && OpVal(regs', i.len) == OpVal(regs, i.len)
    ensures EffectsRel(f, i, Perform(p, f, input, c, i, regs), Track(p, f, input, c, s, i, regs, exprs),
                       Perform(p, f, input', c', i, regs'), input')
  {
    hide FrameTyped, FrameAgree, Typed, Eval, Pow2;
    Pow2Eight();
    OperandAgree(f, i.v, 8, regs, exprs, regs', input');
    CoerceAgree(OpVal(regs, i.v), OpExpr(exprs, i.v), OpVal(regs', i.v), 8, input');
  }

  /** If the instruction reads input, it gets as many bytes from either input. */
  predicate SameCount(i: Instr, regs: map<nat, nat>, offset: nat, input: Input, input': Input)
  {
    i.ReadInst? ==> ReadCount(input', offset, OpVal(regs, i.len)) == ReadCount(input, offset, OpVal(regs, i.len))
  }

  lemma ReadEffect(p: Program, f: Func, input: Input, input': Input, c: Conc, s: Sym, i: Instr,
                   regs: map<nat, nat>, exprs: map<nat, SymExpr>, c': Conc, regs': map<nat, nat>)
    requires i.ReadInst? && InstrOk(p, f, i) && FrameTyped(f, regs, exprs)
    requires c'.offset == c.offset && SameCount(i, regs, c.offset, input, input')
    requires OpVal(regs', i.buf) == OpVal(regs, i.buf) && OpVal(regs', i.len) == OpVal(regs, i.len)
    ensures EffectsRel(f, i, Perform(p, f, input, c, i, regs), Track(p, f, input, c, s, i, regs, exprs),
                       Perform(p, f, input', c', i, regs'), input')
  {
    hide FrameTyped, Pow2, EffectsRel, BytesAgree, Perform, Track;
    OperandRange(f, i.len, PTR_BITS, regs, exprs);
    var n := ReadCount(input, c.offset, OpVal(regs, i.len));
    var e, t, e' := Perform(p, f, input, c, i, regs), Track(p, f, input, c, s, i, regs, exprs),
        Perform(p, f, input', c', i, regs');
    ReadIs(p, f, input, c, i, regs);
    ReadIs(p, f, input', c', i, regs');
    TrackRead(p, f, input, c, s, i, regs, exprs);
    LabelsAgree(input, input', c.offset, n);
    ReadRelated(f, i, e, t, e', input');
  }

  function InputSlice(input: Input, offset: nat, n: nat): (bs: seq<Byte>)
    requires n > 0 ==> offset + n <= |input|
  {
    if n == 0 then [] else input[offset..offset + n]
  }

  lemma ReadIs(p: Program, f: Func, input: Input, c: Conc, i: Instr, regs: map<nat, nat>)
    requires i.ReadInst?
    ensures var n := ReadCount(input, c.offset, OpVal(regs, i.len));
      (n > 0 ==> c.offset + n <= |input|)
      && Perform(p, f, input, c, i, regs) == Effect(n, OpVal(regs, i.buf), InputSlice(input, c.offset, n), n)
  {
  }

  lemma TrackRead(p: Program, f: Func, input: Input, c: Conc, s: Sym, i: Instr, regs: map<nat, nat>,
                  exprs: map<nat, SymExpr>)
    requires i.ReadInst?
    ensures Track(p, f, input, c, s, i, regs, exprs)
      == SymEffect(None, InputBytes(c.offset, ReadCount(input, c.offset, OpVal(regs, i.len))))
  {
  }

  /** Labelled bytes are the bytes of the other input. */
  lemma LabelsAgree(input: Input, input': Input, offset: nat, n: nat)
    requires n > 0 ==> offset + n <= |input| && offset + n <= |input'|
    ensures BytesAgree(InputSlice(input, offset, n), InputBytes(offset, n), InputSlice(input', offset, n), input')
  {
    InputTyped(offset);
  }

  lemma ReadRelated(f: Func, i: Instr, e: Effect, t: SymEffect, e': Effect, input: Input)
    requires i.ReadInst? && Width(f, i.d) == PTR_BITS
    requires e'.at == e.at && e'.advance == e.advance && e'.value == e.value < Pow2(PTR_BITS) && t.expr == None
    requires BytesAgree(e.bytes, t.shadow, e'.bytes, input)
    ensures EffectsRel(f, i, e, t, e', input)
  {
    hide BytesAgree, Pow2;
  }

  lemma OperandRange(f: Func, o: Operand, w: nat, regs: map<nat, nat>, exprs: map<nat, SymExpr>)
    requires HasWidth(f, o, w) && FrameTyped(f, regs, exprs)
    ensures OpVal(regs, o) < Pow2(w)
  {
  }

  lemma InputTyped(k: nat)
    ensures HasType(InputByte(k), 8)
  {
  }

  // ---------- decisions that come out the same ----------

  lemma AddressesSame(regs: map<nat, nat>, regs': map<nat, nat>, os: seq<Operand>, k: nat)
    requires Unmoved(regs, regs', os) == Unmoved(regs, regs, os) && k < |os|
    ensures OpVal(regs', os[k]) == OpVal(regs, os[k])
  {
    assert Unmoved(regs, regs', os)[k] == Unmoved(regs, regs, os)[k];
  }

  lemma ConditionSame(p: Program, fr: Frame, fr': Frame)
    requires Outcomes(p, fr, fr') == Outcomes(p, fr, fr) && ConditionOf(WorkAt(p, fr)).Some?
    ensures var c := ConditionOf(WorkAt(p, fr)).value; (OpVal(fr'.regs, c) != 0) == (OpVal(fr.regs, c) != 0)
  {
    assert Outcomes(p, fr, fr')[0] == Outcomes(p, fr, fr)[0];
  }

  /** With the same outcomes, an instruction other than a call has matching
      effects in both runs. */
  lemma EffectsMatch(p: Program, fr: Frame, input: Input, input': Input, c: Conc, s: Sym, exprs: map<nat, SymExpr>,
                     c': Conc, fr': Frame)
    requires ProgramOk(p) && FrameRel(p, fr, exprs, fr', input') && Outcomes(p, fr, fr') == Outcomes(p, fr, fr)
    requires WorkAt(p, fr).Do? && !WorkAt(p, fr).i.CallInst?
    requires MemoryAgree(c.memory, s.shadow, c'.memory, input') && c'.offset == c.offset
    requires SameCount(WorkAt(p, fr).i, fr.regs, c.offset, input, input')
    ensures var f, i := p.funcs[fr.fn], WorkAt(p, fr).i;
      EffectsRel(f, i, Perform(p, f, input, c, i, fr.regs), Track(p, f, input, c, s, i, fr.regs, exprs),
                 Perform(p, f, input', c', i, fr'.regs), input')
  {
    hide Pow2, FrameTyped, FrameAgree, MemoryAgree, Perform, Track, InstrOk, EffectsRel, Unmoved, OpVal, WorkAt,
         SameCount;
    var f, w := p.funcs[fr.fn], WorkAt(p, fr);
    WorkOk(p, fr);
    var i := w.i;
    match i
    case BinInst(_, _, _, _) => BinEffect(p, f, input, input', c, s, i, fr.regs, exprs, c', fr'.regs);
    case CmpInst(_, _, _, _) => CmpEffect(p, f, input, input', c, s, i, fr.regs, exprs, c', fr'.regs);
    case CastInst(_, _, _) => CastEffect(p, f, input, input', c, s, i, fr.regs, exprs, c', fr'.regs);
    case SelectInst(_, _, _, _) =>
      ConditionSame(p, fr, fr');
      SelectEffect(p, f, input, input', c, s, i, fr.regs, exprs, c', fr'.regs);
    case LoadInst(_, _) =>
      AddressesSame(fr.regs, fr'.regs, Concretized(w), 0);
      LoadEffect(p, f, input, input', c, s, i, fr.regs, exprs, c', fr'.regs);
    case StoreInst(_, _) =>
      AddressesSame(fr.regs, fr'.regs, Concretized(w), 0);
      StoreEffect(p, f, input, input', c, s, i, fr.regs, exprs, c', fr'.regs);
    case MemMoveInst(_, _, _) =>
      AddressesSame(fr.regs, fr'.regs, Concretized(w), 0);
      AddressesSame(fr.regs, fr'.regs, Concretized(w), 1);
      AddressesSame(fr.regs, fr'.regs, Concretized(w), 2);
      MoveEffect(p, f, input, input', c, s, i, fr.regs, exprs, c', fr'.regs);
    case MemSetInst(_, _, _) =>
      AddressesSame(fr.regs, fr'.regs, Concretized(w), 0);
      AddressesSame(fr.regs, fr'.regs, Concretized(w), 1);
      SetEffect(p, f, input, input', c, s, i, fr.regs, exprs, c', fr'.regs);
    case ReadInst(_, _, _) =>
      AddressesSame(fr.regs, fr'.regs, Concretized(w), 0);
      AddressesSame(fr.regs, fr'.regs, Concretized(w), 1);
      ReadEffect(p, f, input, input', c, s, i, fr.regs, exprs, c', fr'.regs);
  }

  lemma {:induction false} SwitchSame(v: nat, v': nat, cases: seq<Case>, default: nat)
    requires forall k {:trigger cases[k]} :: 0 <= k < |cases| ==> (v' == cases[k].value) == (v == cases[k].value)
    ensures SwitchTarget(v', cases, default) == SwitchTarget(v, cases, default)
  {
    if cases != [] {
      assert (v' == cases[0].value) == (v == cases[0].value);
      forall k {:trigger cases[1..][k]} | 0 <= k < |cases[1..]|
        ensures (v' == cases[1..][k].value) == (v == cases[1..][k].value)
      {
        assert cases[1..][k] == cases[k + 1];
      }
      SwitchSame(v, v', cases[1..], default);
    }
  }

  lemma NextBlockSame(p: Program, fr: Frame, fr': Frame)
    requires Outcomes(p, fr, fr') == Outcomes(p, fr, fr)
    requires WorkAt(p, fr).End? && !WorkAt(p, fr).t.Return?
    ensures NextBlock(WorkAt(p, fr).t, fr'.regs) == NextBlock(WorkAt(p, fr).t, fr.regs)
  {
    hide WorkAt, OpVal;
    var t := WorkAt(p, fr).t;
    if t.Branch? {
      ConditionSame(p, fr, fr');
    } else if t.Switch? {
      forall k {:trigger t.cases[k]} | 0 <= k < |t.cases|
        ensures (OpVal(fr'.regs, t.v) == t.cases[k].value) == (OpVal(fr.regs, t.v) == t.cases[k].value)
      {
        assert CasesHit(fr'.regs, t.v, t.cases)[k] == CasesHit(fr.regs, t.v, t.cases)[k];
      }
      SwitchSame(OpVal(fr.regs, t.v), OpVal(fr'.regs, t.v), t.cases, t.default);
    }
  }

  // ---------- the stack ----------

  lemma ReplaceTop(p: Program, stack: seq<Frame>, exprs: seq<map<nat, SymExpr>>, stack': seq<Frame>,
                   fr: Frame, ex: map<nat, SymExpr>, fr': Frame, input: Input)
    requires StackRel(p, stack, exprs, stack', input) && stack != []
    requires FrameRel(p, fr, ex, fr', input) && fr.fn == stack[|stack| - 1].fn
    ensures var n := |stack| - 1; StackRel(p, stack[..n] + [fr], exprs[..n] + [ex], stack'[..n] + [fr'], input)
  {
    hide FrameRel, WorkAt;
  }

  lemma PushFrame(p: Program, stack: seq<Frame>, exprs: seq<map<nat, SymExpr>>, stack': seq<Frame>,
                  fr: Frame, ex: map<nat, SymExpr>, fr': Frame, input: Input)
    requires StackRel(p, stack, exprs, stack', input) && stack != []
    requires FrameRel(p, fr, ex, fr', input)
    requires var w := WorkAt(p, stack[|stack| - 1]); w.Do? && w.i.CallInst? && w.i.callee == fr.fn
    ensures StackRel(p, stack + [fr], exprs + [ex], stack' + [fr'], input)
  {
    hide FrameRel, WorkAt;
  }

  lemma PopFrame(p: Program, stack: seq<Frame>, exprs: seq<map<nat, SymExpr>>, stack': seq<Frame>, input: Input)
    requires StackRel(p, stack, exprs, stack', input) && stack != []
    ensures var n := |stack| - 1; StackRel(p, stack[..n], exprs[..n], stack'[..n], input)
  {
    hide FrameRel, WorkAt;
  }

  lemma SameWork(p: Program, fr: Frame, fr': Frame)
    requires SamePlace(fr, fr')
    ensures WorkAt(p, fr') == WorkAt(p, fr) && ResultOf(p, fr') == ResultOf(p, fr)
  {
  }

  // ---------- divisions that trap ----------

  /** The value that an operand of the recorded run has on `input`. */
  function Foreseen(e: SymExpr, v: nat, input: Input): (r: nat)
  {
    if e.Some? then Eval(e.value, input) else v
  }

  /** If the recorded run divides next, its operands do not trap on `input`. */
  predicate DivisionAlive(p: Program, fr: Frame, exprs: map<nat, SymExpr>, input: Input)
  {
    var w := WorkAt(p, fr);
    w.Do? && w.i.BinInst? ==>
      !DivisionTraps(w.i.op, OpWidth(FuncOf(p, fr.fn), w.i.a),
                     Foreseen(OpExpr(exprs, w.i.a), OpVal(fr.regs, w.i.a), input),
                     Foreseen(OpExpr(exprs, w.i.b'), OpVal(fr.regs, w.i.b'), input))
  }

  /** The other run's division traps exactly when that was foreseen. */
  lemma TrapForeseen(p: Program, fr: Frame, exprs: map<nat, SymExpr>, fr': Frame, input: Input)
    requires ProgramOk(p) && FrameRel(p, fr, exprs, fr', input) && WorkAt(p, fr).Do?
    ensures Traps(FuncOf(p, fr.fn), WorkAt(p, fr).i, fr'.regs) <==> !DivisionAlive(p, fr, exprs, input)
  {
    hide Pow2, Eval, FrameTyped, FrameAgree, WorkAt, DivisionTraps, HasWidth, Typed, ProgramOk;
    WorkOk(p, fr);
    var i := WorkAt(p, fr).i;
    if i.BinInst? {
      var f := p.funcs[fr.fn];
      OperandAgree(f, i.a, Width(f, i.d), fr.regs, exprs, fr'.regs, input);
      OperandAgree(f, i.b', Width(f, i.d), fr.regs, exprs, fr'.regs, input);
    }
  }

  // ---------- the four kinds of step ----------

  lemma PlainStep(p: Program, input: Input, input': Input, c: Conc, s: Sym, c': Conc)
    requires ProgramOk(p) && Rel(p, c, s, c', input')
    requires c.status.Running? && c.stack != [] && c'.stack != []
      && Outcomes(p, Top(c), Top(c')) == Outcomes(p, Top(c), Top(c))
    requires WorkAt(p, Top(c)).Do? && !WorkAt(p, Top(c)).i.CallInst?
    requires var f, i := FuncOf(p, Top(c).fn), WorkAt(p, Top(c)).i;
      !Traps(f, i, Top(c).regs) && SameCount(i, Top(c).regs, c.offset, input, input')
    requires |s.exprs| == |c.stack| && DivisionAlive(p, Top(c), s.exprs[|s.exprs| - 1], input')
    ensures Rel(p, CStep(p, input, c), SStep(p, input, c, s), CStep(p, input', c'), input')
  {
    hide Pow2, FrameTyped, FrameAgree, MemoryAgree, Perform, Track, BytesAgree, WorkAt, Traps, SameCount, DivisionAlive,
         StackRel, Put, Outcomes, ProgramOk, Agree, Typed;
    Lengths(p, c, s, c', input');
    var fr, exprs, fr', n := Top(c), s.exprs[|s.exprs| - 1], Top(c'), |c.stack| - 1;
    TopRel(p, c, s, c', input');
    SameWork(p, fr, fr');
    TrapForeseen(p, fr, exprs, fr', input');
    var f, i := p.funcs[fr.fn], WorkAt(p, fr).i;
    EffectsMatch(p, fr, input, input', c, s, exprs, c', fr');
    var e, t, e' := Perform(p, f, input, c, i, fr.regs), Track(p, f, input, c, s, i, fr.regs, exprs),
        Perform(p, f, input', c', i, fr'.regs);
    PutKeeps(c.memory, s.shadow, c'.memory, e.at, e.bytes, t.shadow, e'.bytes, input');
    if DestOf(i).Some? {
      SetKeeps(f, fr.regs, exprs, fr'.regs, DestOf(i).value, e.value, t.expr, e'.value, input');
    }
    ReplaceTop(p, c.stack, s.exprs, c'.stack,
               fr.(idx := fr.idx + 1, regs := SetDest(fr.regs, DestOf(i), e.value)),
               SetDest(exprs, DestOf(i), t.expr),
               fr'.(idx := fr'.idx + 1, regs := SetDest(fr'.regs, DestOf(i), e'.value)), input');
  }

  lemma Lengths(p: Program, c: Conc, s: Sym, c': Conc, input: Input)
    requires Rel(p, c, s, c', input)
    ensures |s.exprs| == |c.stack| == |c'.stack|
  {
    hide FrameRel, WorkAt;
  }

  lemma TopRel(p: Program, c: Conc, s: Sym, c': Conc, input: Input)
    requires Rel(p, c, s, c', input) && c.stack != []
    ensures |s.exprs| == |c.stack| == |c'.stack|
    ensures FrameRel(p, Top(c), s.exprs[|s.exprs| - 1], Top(c'), input)
    ensures SamePlace(Top(c), Top(c')) && Top(c).fn < |p.funcs|
  {
    hide WorkAt, FrameRel, MemoryAgree, Waiting;
    var n := |c.stack| - 1;
    assert FrameRel(p, c.stack[n], s.exprs[n], c'.stack[n], input);
    PlaceOf(p, c.stack[n], s.exprs[n], c'.stack[n], input);
  }

  lemma PlaceOf(p: Program, fr: Frame, exprs: map<nat, SymExpr>, fr': Frame, input: Input)
    requires FrameRel(p, fr, exprs, fr', input)
    ensures SamePlace(fr, fr') && fr.fn < |p.funcs|
  {
    hide FrameTyped, FrameAgree;
  }

  lemma JumpStep(p: Program, input: Input, input': Input, c: Conc, s: Sym, c': Conc)
    requires ProgramOk(p) && Rel(p, c, s, c', input')
    requires c.status.Running? && c.stack != [] && c'.stack != []
      && Outcomes(p, Top(c), Top(c')) == Outcomes(p, Top(c), Top(c))
    requires WorkAt(p, Top(c)).End? && !WorkAt(p, Top(c)).t.Return?
    ensures Rel(p, CStep(p, input, c), SStep(p, input, c, s), CStep(p, input', c'), input')
  {
    hide Pow2, FrameTyped, FrameAgree, MemoryAgree, WorkAt, StackRel, Outcomes, Assign, PhisOf, ProgramOk;
    Lengths(p, c, s, c', input');
    var fr, exprs, fr' := Top(c), s.exprs[|s.exprs| - 1], Top(c');
    TopRel(p, c, s, c', input');
    SameWork(p, fr, fr');
    NextBlockSame(p, fr, fr');
    var f, b := p.funcs[fr.fn], NextBlock(WorkAt(p, fr).t, fr.regs);
    var phis := PhisOf(f, b);
    var ds, os := PhiDests(phis), PhiOperands(phis, fr.blk);
    PhiValuesFit(p, fr.fn, b, fr.blk, fr.regs, exprs, fr'.regs, input');
    AssignKeeps(f, fr.regs, exprs, fr'.regs, ds, OpVals(fr.regs, os), OpExprs(exprs, os), OpVals(fr'.regs, os), input');
    ReplaceTop(p, c.stack, s.exprs, c'.stack, EnterBlock(p, fr, b), Assign(exprs, ds, OpExprs(exprs, os)),
               EnterBlock(p, fr', b), input');
  }

  lemma PhiValuesFit(p: Program, fn: nat, b: nat, from: nat, regs: map<nat, nat>, exprs: map<nat, SymExpr>,
                     regs': map<nat, nat>, input: Input)
    requires ProgramOk(p) && fn < |p.funcs|
    requires FrameTyped(p.funcs[fn], regs, exprs) && FrameAgree(regs, exprs, regs', input)
    ensures var phis := PhisOf(p.funcs[fn], b);
      var os := PhiOperands(phis, from);
      ValuesFit(p.funcs[fn], PhiDests(phis), OpVals(regs, os), OpExprs(exprs, os), OpVals(regs', os), input)
  {
    hide Pow2, FrameTyped, FrameAgree, HasWidth, Agree, Typed, InstrOk, EndOk;
    var f := p.funcs[fn];
    var phis := PhisOf(f, b);
    var os := PhiOperands(phis, from);
    forall k | 0 <= k < |phis|
      ensures HasWidth(f, os[k], Width(f, phis[k].d))
    {
      PhiOperandOk(p, fn, b, from, k);
    }
    forall k | 0 <= k < |phis|
      ensures Agree(OpVal(regs, os[k]), OpExpr(exprs, os[k]), OpVal(regs', os[k]), input)
      ensures OpVal(regs, os[k]) < Pow2(Width(f, phis[k].d)) && Typed(OpExpr(exprs, os[k]), Width(f, phis[k].d))
    {
      OperandAgree(f, os[k], Width(f, phis[k].d), regs, exprs, regs', input);
    }
  }

  lemma PhiOperandOk(p: Program, fn: nat, b: nat, from: nat, k: nat)
    requires ProgramOk(p) && fn < |p.funcs| && k < |PhisOf(p.funcs[fn], b)|
    ensures var phi := PhisOf(p.funcs[fn], b)[k]; HasWidth(p.funcs[fn], Incoming(phi, from), Width(p.funcs[fn], phi.d))
  {
    hide Pow2, InstrOk, EndOk, ValidWidth;
    var f := p.funcs[fn];
    var phi := PhisOf(f, b)[k];
    assert FuncOk(p, f);
    assert BlockOk(p, f, f.blocks[b]);
    assert PhiOk(f, phi);
    WidthOk(p, fn, phi.d);
  }

  lemma ArgumentsFit(p: Program, f: Func, i: Instr, regs: map<nat, nat>, exprs: map<nat, SymExpr>, regs': map<nat, nat>,
                     input: Input)
    requires i.CallInst? && InstrOk(p, f, i)
    requires FrameTyped(f, regs, exprs) && FrameAgree(regs, exprs, regs', input)
    ensures ValuesFit(p.funcs[i.callee], p.funcs[i.callee].params, OpVals(regs, i.args), OpExprs(exprs, i.args),
                      OpVals(regs', i.args), input)
  {
    hide Pow2, FrameTyped, FrameAgree, HasWidth, Agree, Typed;
    var g := p.funcs[i.callee];
    forall k | 0 <= k < |i.args|
      ensures Agree(OpVal(regs, i.args[k]), OpExpr(exprs, i.args[k]), OpVal(regs', i.args[k]), input)
      ensures OpVal(regs, i.args[k]) < Pow2(Width(g, g.params[k]))
        && Typed(OpExpr(exprs, i.args[k]), Width(g, g.params[k]))
    {
      OperandAgree(f, i.args[k], Width(g, g.params[k]), regs, exprs, regs', input);
    }
  }

  lemma CallStep(p: Program, input: Input, input': Input, c: Conc, s: Sym, c': Conc)
    requires ProgramOk(p) && Rel(p, c, s, c', input')
    requires c.status.Running? && c.stack != [] && c'.stack != []
    requires WorkAt(p, Top(c)).Do? && WorkAt(p, Top(c)).i.CallInst?
    ensures Rel(p, CStep(p, input, c), SStep(p, input, c, s), CStep(p, input', c'), input')
  {
    hide Pow2, FrameTyped, FrameAgree, MemoryAgree, WorkAt, StackRel, Outcomes, Assign, HasWidth, SetSlots, ProgramOk;
    Lengths(p, c, s, c', input');
    var fr, exprs, fr' := Top(c), s.exprs[|s.exprs| - 1], Top(c');
    TopRel(p, c, s, c', input');
    SameWork(p, fr, fr');
    WorkOk(p, fr);
    var i := WorkAt(p, fr).i;
    var g := p.funcs[i.callee];
    ArgumentsFit(p, p.funcs[fr.fn], i, fr.regs, exprs, fr'.regs, input');
    HandsOver(s.slots, OpExprs(exprs, i.args), |i.args|);
    assert OpExprs(exprs, i.args)[..|i.args|] == OpExprs(exprs, i.args);
    EmptyFrame(g, input');
    AssignKeeps(g, map[], map[], map[], g.params, OpVals(fr.regs, i.args), OpExprs(exprs, i.args),
                OpVals(fr'.regs, i.args), input');
    PushFrame(p, c.stack, s.exprs, c'.stack, NewFrame(p, i.callee, OpVals(fr.regs, i.args)),
              NewExprs(p, i.callee, SetSlots(s.slots, OpExprs(exprs, i.args))),
              NewFrame(p, i.callee, OpVals(fr'.regs, i.args)), input');
  }

  lemma ReturnFits(p: Program, caller: Frame, fr: Frame, exprs: map<nat, SymExpr>, fr': Frame, input: Input)
    requires ProgramOk(p) && FrameRel(p, fr, exprs, fr', input)
    requires var w := WorkAt(p, caller); w.Do? && w.i.CallInst? && w.i.callee == fr.fn
    requires WorkAt(p, fr).End? && WorkAt(p, fr).t.Return? && ResultOf(p, caller).Some?
    ensures var v, d := WorkAt(p, fr).t.val, ResultOf(p, caller).value;
      caller.fn < |p.funcs| && v.Some?
      && var w := Width(p.funcs[caller.fn], d);
      Agree(OpVal(fr.regs, v.value), OpExpr(exprs, v.value), OpVal(fr'.regs, v.value), input)
      && OpVal(fr.regs, v.value) < Pow2(w) && Typed(OpExpr(exprs, v.value), w)
  {
    hide Pow2, FrameTyped, FrameAgree, WorkAt, Agree, Typed, ProgramOk;
    WorkOk(p, fr);
    WorkOk(p, caller);
    var f, o := p.funcs[fr.fn], WorkAt(p, fr).t.val.value;
    OperandAgree(f, o, OpWidth(f, o), fr.regs, exprs, fr'.regs, input);
  }

  function ReturnValue(t: Terminator, regs: map<nat, nat>): (v: nat)
    requires t.Return?
  {
    if t.val.Some? then OpVal(regs, t.val.value) else 0
  }

  function ReturnExpr(t: Terminator, exprs: map<nat, SymExpr>, ret: SymExpr): (e: SymExpr)
    requires t.Return?
  {
    if t.val.Some? then OpExpr(exprs, t.val.value) else ret
  }

  lemma ReturnStack(p: Program, c: Conc, s: Sym, c': Conc, input: Input)
    requires ProgramOk(p) && Rel(p, c, s, c', input) && |c.stack| >= 2
    requires WorkAt(p, Top(c)).End? && WorkAt(p, Top(c)).t.Return?
    ensures |s.exprs| == |c.stack| == |c'.stack|
    ensures var n, t := |c.stack| - 1, WorkAt(p, Top(c)).t;
      StackRel(p, Resume(p, c.stack[..n], ReturnValue(t, Top(c).regs)),
               ResumeExprs(s.exprs[..n], ResultOf(p, c.stack[n - 1]), ReturnExpr(t, s.exprs[n], s.ret)),
               Resume(p, c'.stack[..n], ReturnValue(t, Top(c').regs)), input)
  {
    hide Pow2, FrameTyped, FrameAgree, MemoryAgree, WorkAt, StackRel, ProgramOk, Agree, Typed, ResultOf, OpVal, OpExpr,
         Width, Resume, ResumeExprs, FrameRel;
    Lengths(p, c, s, c', input);
    var n, t := |c.stack| - 1, WorkAt(p, Top(c)).t;
    TopRel(p, c, s, c', input);
    PopFrame(p, c.stack, s.exprs, c'.stack, input);
    CallerRel(p, c.stack, s.exprs, c'.stack, input);
    if ResultOf(p, c.stack[n - 1]).Some? {
      ReturnFits(p, c.stack[n - 1], Top(c), s.exprs[n], Top(c'), input);
    }
    ResumeRel(p, c.stack[..n], s.exprs[..n], c'.stack[..n],
              ReturnValue(t, Top(c).regs), ReturnExpr(t, s.exprs[n], s.ret), ReturnValue(t, Top(c').regs), input);
  }

  lemma ReturnStep(p: Program, input: Input, input': Input, c: Conc, s: Sym, c': Conc)
    requires ProgramOk(p) && Rel(p, c, s, c', input')
    requires c.status.Running? && c.stack != [] && c'.stack != []
    requires WorkAt(p, Top(c)).End? && WorkAt(p, Top(c)).t.Return?
    ensures Rel(p, CStep(p, input, c), SStep(p, input, c, s), CStep(p, input', c'), input')
  {
    hide Pow2, FrameTyped, FrameAgree, MemoryAgree, WorkAt, StackRel, ProgramOk, ResultOf, OpVal, OpExpr, Decisions,
         Pushed, Resume, ResumeExprs, FrameRel;
    Lengths(p, c, s, c', input');
    TopRel(p, c, s, c', input');
    SameWork(p, Top(c), Top(c'));
    if |c.stack| >= 2 {
      ReturnStack(p, c, s, c', input');
    }
  }

  lemma ResumeRel(p: Program, stack: seq<Frame>, exprs: seq<map<nat, SymExpr>>, stack': seq<Frame>,
                  v: nat, e: SymExpr, v': nat, input: Input)
    requires StackRel(p, stack, exprs, stack', input) && stack != []
    requires var fr := stack[|stack| - 1];
      fr.fn < |p.funcs|
      && var d := ResultOf(p, fr);
      d.Some? ==>
        Agree(v, e, v', input) && v < Pow2(Width(p.funcs[fr.fn], d.value)) && Typed(e, Width(p.funcs[fr.fn], d.value))
    ensures |exprs| == |stack| == |stack'|
    ensures StackRel(p, Resume(p, stack, v), ResumeExprs(exprs, ResultOf(p, stack[|stack| - 1]), e),
                     Resume(p, stack', v'), input)
  {
    hide Pow2, FrameTyped, FrameAgree, WorkAt, Agree, Typed, Width, ResultOf, Waiting;
    var n := |stack| - 1;
    var fr, ex, fr' := stack[n], exprs[n], stack'[n];
    assert FrameRel(p, fr, ex, fr', input);
    SameWork(p, fr, fr');
    var d := ResultOf(p, fr);
    if d.Some? {
      SetKeeps(p.funcs[fr.fn], fr.regs, ex, fr'.regs, d.value, v, e, v', input);
    }
    ReplaceTop(p, stack, exprs, stack', fr.(idx := fr.idx + 1, regs := SetDest(fr.regs, d, v)), SetDest(ex, d, e),
               fr'.(idx := fr'.idx + 1, regs := SetDest(fr'.regs, d, v')), input);
  }

  lemma CallerRel(p: Program, stack: seq<Frame>, exprs: seq<map<nat, SymExpr>>, stack': seq<Frame>, input: Input)
    requires StackRel(p, stack, exprs, stack', input) && |stack| >= 2
    ensures var n := |stack| - 1;
      |exprs| == |stack| == |stack'|
      && FrameRel(p, stack[n - 1], exprs[n - 1], stack'[n - 1], input) && stack[n - 1].fn < |p.funcs|
      && var w := WorkAt(p, stack[n - 1]); w.Do? && w.i.CallInst? && w.i.callee == stack[n].fn
  {
    hide WorkAt, FrameTyped, FrameAgree;
    assert stack[|stack| - 2] == stack[|stack| - 1 - 1];
  }
}
