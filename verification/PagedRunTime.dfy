/** The bookkeeping of the replayed programs keeps shadow memory as one map.
    Here the run-time calls of each instruction work on pages instead, and the
    pages go on showing that map. */
module PagedRunTime {
  import opened BitVectors
  import opened Bytes
  import opened Expressions
  import opened Lifting
  import opened Programs
  import opened Replay
  import opened ReplaySteps
  import opened Shadow
  import opened MemoryOps

  /** The pages show the same entries as the map. */
  ghost predicate ShowsAll(sh: map<int, SymExpr>, f: imap<nat, SymExpr>)
    requires Total(f)
  {
    forall a: nat {:trigger ShadowAt(sh, a)} {:trigger Entry(f, a)} :: ShadowAt(sh, a) == Entry(f, a)
  }

  lemma PutShows(sh: map<int, SymExpr>, f: imap<nat, SymExpr>, at: nat, es: seq<SymExpr>)
    requires Total(f) && ShowsAll(sh, f)
    ensures ShowsAll(Put(sh, at, es), Stored(f, at, es))
  {
    forall a: nat
      ensures ShadowAt(Put(sh, at, es), a) == Entry(Stored(f, at, es), a)
    {
      PutAt(sh, at, es, a);
      assert ShadowAt(sh, a) == Entry(f, a);
      assert Stored(f, at, es)[a] == StoredEntry(f, at, es, a);
    }
  }

  lemma PutNothing(sh: map<int, SymExpr>)
    ensures Put(sh, 0, []) == sh
  {
  }

  /** Moving entries is storing what was read before. */
  lemma MoveIsStore(sh: map<int, SymExpr>, f: imap<nat, SymExpr>, dest: nat, src: nat, n: nat)
    requires Total(f) && ShowsAll(sh, f)
    ensures Moved(f, dest, src, n) == Stored(f, dest, ShadowBytes(sh, src, n))
  {
    var es := ShadowBytes(sh, src, n);
    forall a: nat
      ensures MovedEntry(f, dest, src, n, a) == StoredEntry(f, dest, es, a)
    {
      if dest <= a < dest + n {
        assert es[a - dest] == ShadowAt(sh, src + (a - dest));
        assert ShadowAt(sh, src + (a - dest)) == Entry(f, src + (a - dest));
      }
    }
    assert forall a: nat :: Moved(f, dest, src, n)[a] == MovedEntry(f, dest, src, n, a);
    assert forall a: nat :: Stored(f, dest, es)[a] == StoredEntry(f, dest, es, a);
  }

  /** A read depends on the entries of its range only. */
  lemma ReadSame(m: map<int, Byte>, sh: map<int, SymExpr>, sh': map<int, SymExpr>, at: int, n: nat, littleEndian: bool)
    requires ShadowBytes(sh, at, n) == ShadowBytes(sh', at, n)
    ensures ReadShadow(m, sh, at, n, littleEndian) == ReadShadow(m, sh', at, n, littleEndian)
  {
    hide JoinBytes, ShadowAt;
    forall k | 0 <= k < n
      ensures ByteExprs(m, sh, at, n)[k] == ByteExprs(m, sh', at, n)[k]
    {
      assert ShadowBytes(sh, at, n)[k] == ShadowBytes(sh', at, n)[k];
    }
    assert ByteExprs(m, sh, at, n) == ByteExprs(m, sh', at, n);
  }

  lemma ViewShows(m: map<int, Byte>, sh: map<int, SymExpr>, f: imap<nat, SymExpr>, at: nat, n: nat, littleEndian: bool)
    requires Total(f) && ShowsAll(sh, f)
    ensures ReadShadow(m, View(f, at, n), at, n, littleEndian) == ReadShadow(m, sh, at, n, littleEndian)
  {
    hide ReadShadow, View;
    forall k | 0 <= k < n
      ensures ShadowBytes(View(f, at, n), at, n)[k] == ShadowBytes(sh, at, n)[k]
    {
      ViewAt(f, at, n, k);
      assert ShadowAt(sh, at + k) == Entry(f, at + k);
    }
    ReadSame(m, View(f, at, n), sh, at, n, littleEndian);
  }

  /** The run-time call of a load. */
  method CallReadMemory(m: ShadowMemory, p: Program, f: Func, input: Input, c: Conc, ghost s: Sym, i: Instr,
                        regs: map<nat, nat>, exprs: map<nat, SymExpr>) returns (e: SymExpr)
    requires i.LoadInst? && InstrOk(p, f, i) && m.Valid() && ShowsAll(s.shadow, m.Flat())
    ensures e == Track(p, f, input, c, s, i, regs, exprs).expr
  {
    hide ReadShadow, View, ShadowMemory.Flat, ShadowMemory.Valid, ShowsAll, Total, LoadedExpr;
    var w, addr := Width(f, i.d), OpVal(regs, i.addr);
    StorableBytes(w);
    ViewShows(c.memory, s.shadow, m.Flat(), addr, ByteCount(w), p.littleEndian);
    var data := ReadMemory(m, c.memory, addr, ByteCount(w), p.littleEndian);
    e := LoadedExpr(data, w);
  }

  /** The run-time call of an instruction that writes memory: the pages then
      show the shadow memory that the bookkeeping has after the instruction. */
  method CallWriter(m: ShadowMemory, p: Program, f: Func, input: Input, c: Conc, ghost s: Sym, i: Instr,
                    regs: map<nat, nat>, exprs: map<nat, SymExpr>)
    requires InstrOk(p, f, i) && m.Valid() && ShowsAll(s.shadow, m.Flat())
    modifies m, m.Repr
    ensures m.Valid() && fresh(m.Repr - old(m.Repr))
    ensures ShowsAll(Put(s.shadow, Perform(p, f, input, c, i, regs).at,
                         Track(p, f, input, c, s, i, regs, exprs).shadow), m.Flat())
  {
    hide ShadowMemory.Flat, ShadowMemory.Valid, ShowsAll, Total, Put, Stored, Moved, StoreShadow, ShadowBytes, ShadowAt,
         StoredExpr, ByteCount;
    PutNothing(s.shadow);
    match i {
      case StoreInst(v, addr) =>
        var w := OpWidth(f, v);
        StorableBytes(w);
        PutShows(s.shadow, m.Flat(), OpVal(regs, addr),
                 StoreShadow(StoredExpr(OpExpr(exprs, v), w), ByteCount(w), p.littleEndian));
        WriteMemory(m, OpVal(regs, addr), ByteCount(w), StoredExpr(OpExpr(exprs, v), w), p.littleEndian);
      case MemMoveInst(dst, src, len) =>
        MoveIsStore(s.shadow, m.Flat(), OpVal(regs, dst), OpVal(regs, src), OpVal(regs, len));
        PutShows(s.shadow, m.Flat(), OpVal(regs, dst), ShadowBytes(s.shadow, OpVal(regs, src), OpVal(regs, len)));
        MemMove(m, OpVal(regs, dst), OpVal(regs, src), OpVal(regs, len));
      case MemSetInst(dst, v, len) =>
        PutShows(s.shadow, m.Flat(), OpVal(regs, dst), Repeat(OpExpr(exprs, v), OpVal(regs, len)));
        assert Repeat(OpExpr(exprs, v), OpVal(regs, len)) == Track(p, f, input, c, s, i, regs, exprs).shadow;
        MemSet(m, OpVal(regs, dst), OpExpr(exprs, v), OpVal(regs, len));
      case ReadInst(_, buf, len) =>
        var n := ReadCount(input, c.offset, OpVal(regs, len));
        PutShows(s.shadow, m.Flat(), OpVal(regs, buf), InputBytes(c.offset, n));
        MakeSymbolic(m, OpVal(regs, buf), n, c.offset);
      case _ =>
        NoShadow(p, f, input, c, s, i, regs, exprs);
    }
  }

  lemma NoShadow(p: Program, f: Func, input: Input, c: Conc, s: Sym, i: Instr, regs: map<nat, nat>,
                 exprs: map<nat, SymExpr>)
    requires !i.StoreInst? && !i.MemMoveInst? && !i.MemSetInst? && !i.ReadInst?
    ensures Perform(p, f, input, c, i, regs).at == 0 && Track(p, f, input, c, s, i, regs, exprs).shadow == []
  {
  }

  // ---------- whole runs on pages ----------

  /** The bookkeeping apart from shadow memory. */
  function Bare(s: Sym): (r: Sym)
  {
    s.(shadow := map[])
  }

  predicate IsLoad(p: Program, c: Conc)
  {
    c.status.Running? && c.stack != [] && WorkAt(p, Top(c)).Do? && WorkAt(p, Top(c)).i.LoadInst?
  }

  predicate IsWriter(p: Program, c: Conc)
  {
    c.status.Running? && c.stack != [] && WorkAt(p, Top(c)).Do? && !WorkAt(p, Top(c)).i.CallInst?
    && !Traps(FuncOf(p, Top(c).fn), WorkAt(p, Top(c)).i, Top(c).regs)
  }

  /** Only a load needs shadow memory for the rest of the bookkeeping. */
  lemma BareStep(p: Program, input: Input, c: Conc, s: Sym)
    requires |s.exprs| == |c.stack| && !IsLoad(p, c)
    ensures Bare(SStep(p, input, c, Bare(s))) == Bare(SStep(p, input, c, s))
  {
    hide WorkAt, Perform, Put, Pushed, Decisions, Assign, SetSlots, Traps;
    if c.status.Running? && c.stack != [] && WorkAt(p, Top(c)).Do? {
      var fr := Top(c);
      TrackBare(p, FuncOf(p, fr.fn), input, c, s, WorkAt(p, fr).i, fr.regs, s.exprs[|s.exprs| - 1]);
    }
  }

  lemma TrackBare(p: Program, f: Func, input: Input, c: Conc, s: Sym, i: Instr, regs: map<nat, nat>,
                  exprs: map<nat, SymExpr>)
    requires !i.LoadInst?
    ensures Track(p, f, input, c, Bare(s), i, regs, exprs).expr == Track(p, f, input, c, s, i, regs, exprs).expr
  {
  }

  /** A load's bookkeeping, given the expression that was read. */
  function LoadStep(p: Program, c: Conc, bare: Sym, e: SymExpr): (r: Sym)
    requires IsLoad(p, c) && |bare.exprs| == |c.stack|
  {
    var n := |bare.exprs| - 1;
    var exprs := bare.exprs[n];
    bare.(exprs := bare.exprs[..n] + [SetDest(exprs, DestOf(WorkAt(p, Top(c)).i), e)],
          path := bare.path + Pushed(Decisions(p, Top(c), exprs)))
  }

  lemma LoadsMatch(p: Program, input: Input, c: Conc, s: Sym)
    requires |s.exprs| == |c.stack| && IsLoad(p, c)
    ensures var fr := Top(c);
      var e := Track(p, FuncOf(p, fr.fn), input, c, s, WorkAt(p, fr).i, fr.regs, s.exprs[|s.exprs| - 1]).expr;
      LoadStep(p, c, Bare(s), e) == Bare(SStep(p, input, c, s))
  {
    hide WorkAt, Perform, Track, Put, Pushed, Decisions;
  }

  /** Shadow memory changes in the steps that write, and there as the writer's
      effect says. */
  lemma ShadowStep(p: Program, input: Input, c: Conc, s: Sym)
    requires |s.exprs| == |c.stack|
    ensures !IsWriter(p, c) ==> SStep(p, input, c, s).shadow == s.shadow
    ensures IsWriter(p, c) ==>
      var fr := Top(c);
      var f, i := FuncOf(p, fr.fn), WorkAt(p, fr).i;
      SStep(p, input, c, s).shadow
      == Put(s.shadow, Perform(p, f, input, c, i, fr.regs).at,
             Track(p, f, input, c, s, i, fr.regs, s.exprs[|s.exprs| - 1]).shadow)
  {
    hide WorkAt, Perform, Track, Put, Pushed, Decisions, Assign, SetSlots, Traps;
  }

  /** One step of the run time: shadow memory is in the pages only. */
  method StepPaged(m: ShadowMemory, p: Program, input: Input, c: Conc, bare: Sym, ghost s: Sym) returns (bare': Sym)
    requires ProgramOk(p) && m.Valid() && ShowsAll(s.shadow, m.Flat())
    requires |s.exprs| == |c.stack| && bare == Bare(s)
    modifies m, m.Repr
    ensures m.Valid() && fresh(m.Repr - old(m.Repr))
    ensures bare' == Bare(SStep(p, input, c, s)) && ShowsAll(SStep(p, input, c, s).shadow, m.Flat())
  {
    hide WorkAt, SStep, Perform, Track, ShadowMemory.Flat, ShadowMemory.Valid, ShowsAll, Total, ProgramOk, Traps,
         InstrOk, LoadStep;
    ShadowStep(p, input, c, s);
    if IsLoad(p, c) {
      var fr := Top(c);
      WorkOk(p, fr);
      LoadsMatch(p, input, c, s);
      var e := CallReadMemory(m, p, FuncOf(p, fr.fn), input, c, s, WorkAt(p, fr).i, fr.regs,
                              bare.exprs[|bare.exprs| - 1]);
      bare' := LoadStep(p, c, bare, e);
    } else {
      BareStep(p, input, c, s);
      bare' := Bare(SStep(p, input, c, bare));
    }
    if IsWriter(p, c) {
      var fr := Top(c);
      WorkOk(p, fr);
      CallWriter(m, p, FuncOf(p, fr.fn), input, c, s, WorkAt(p, fr).i, fr.regs, bare.exprs[|bare.exprs| - 1]);
    }
  }

  /** A run of the program with its shadow memory on pages, from an empty one.
      It keeps exactly the bookkeeping of the replay theorems: their shadow
      memory is what the pages show. */
  method RunPaged(p: Program, input: Input, memory: map<int, Byte>, n: nat)
    returns (m: ShadowMemory, c: Conc, bare: Sym)
    requires ProgramOk(p)
    ensures m.Valid() && ShowsAll(Run(p, input, memory, n).s.shadow, m.Flat())
    ensures c == Run(p, input, memory, n).c && bare == Bare(Run(p, input, memory, n).s)
  {
    hide CStep, SStep, ShadowMemory.Flat, ShadowMemory.Valid, ShowsAll, Total, ProgramOk;
    m := new ShadowMemory();
    c, bare := InitConc(memory), Bare(InitSym());
    NothingShown(m);
    for k := 0 to n
      invariant m.Valid() && fresh(m) && fresh(m.Repr)
      invariant ShowsAll(Run(p, input, memory, k).s.shadow, m.Flat())
      invariant c == Run(p, input, memory, k).c && bare == Bare(Run(p, input, memory, k).s)
    {
      bare := StepPaged(m, p, input, c, bare, Run(p, input, memory, k).s);
      c := CStep(p, input, c);
    }
  }

  lemma NothingShown(m: ShadowMemory)
    requires m.Valid() && m.pages == map[]
    ensures ShowsAll(map[], m.Flat())
  {
    m.NoPage();
  }
}
