/** Inputs that satisfy a path condition and yet do not replay the run. */
module ReplayExamples {
  import opened BitVectors
  import opened Bytes
  import opened Expressions
  import opened Programs
  import opened Replay
  import opened ReplayTheorems

  /** Read one byte to address 0, load it, and divide 10 by it. */
  function Body(): (instrs: seq<Instr>)
  {
    [ReadInst(0, Const(0, 64), Const(1, 64)), LoadInst(1, Const(0, 64)), BinInst(2, UDiv, Const(10, 8), Reg(1))]
  }

  function Divider(): (p: Program)
  {
    Program([Func([], map[0 := 64, 1 := 8, 2 := 8], None, [Block([], Body(), Return(None))])], true)
  }

  lemma DividerOk()
    ensures ProgramOk(Divider())
  {
    hide InstrOk, Pow2;
    var p := Divider();
    var f := p.funcs[0];
    Pow2Mono(1, 64);
    Pow2Eight();
    InstructionsOk(p, f);
    assert BlockOk(p, f, f.blocks[0]);
    assert FuncOk(p, f);
  }

  lemma InstructionsOk(p: Program, f: Func)
    requires f.widths == map[0 := 64, 1 := 8, 2 := 8] && 10 < Pow2(8) && 1 < Pow2(64)
    ensures InstrOk(p, f, Body()[0]) && InstrOk(p, f, Body()[1]) && InstrOk(p, f, Body()[2])
  {
    hide Pow2;
    assert OpWidth(f, Const(0, 64)) == 64 && OpWidth(f, Const(1, 64)) == 64;
  }

  lemma NothingPushed(ds: seq<Decision>)
    requires |ds| <= 2 && forall k :: 0 <= k < |ds| ==> ds[k].expr.None?
    ensures Pushed(ds) == []
  {
    if |ds| == 2 {
      assert ds[..1][..0] == [];
      assert Pushed(ds[..1]) == [];
    }
  }

  /** One instruction of a run in its only frame. */
  lemma OneStep(p: Program, input: Input, memory: map<int, Byte>, n: nat, fr: Frame, exprs: map<nat, SymExpr>, i: Instr)
    requires var st := Run(p, input, memory, n);
      st.c.status.Running? && st.c.stack == [fr] && st.s.exprs == [exprs]
    requires WorkAt(p, fr) == Do(i) && !i.CallInst?
    ensures var st, st', f := Run(p, input, memory, n), Run(p, input, memory, n + 1), FuncOf(p, fr.fn);
      if Traps(f, i, fr.regs) then st' == State(st.c.(status := Trapped), st.s)
      else
        var e, t := Perform(p, f, input, st.c, i, fr.regs), Track(p, f, input, st.c, st.s, i, fr.regs, exprs);
        st'.c == Conc(Running, [fr.(idx := fr.idx + 1, regs := SetDest(fr.regs, DestOf(i), e.value))],
                      Put(st.c.memory, e.at, e.bytes), st.c.offset + e.advance)
        && st'.s == st.s.(exprs := [SetDest(exprs, DestOf(i), t.expr)], shadow := Put(st.s.shadow, e.at, t.shadow),
                          path := st.s.path + Pushed(Decisions(p, fr, exprs)))
  {
    hide CStep, SStep;
    var st := Run(p, input, memory, n);
    ConcStep(p, input, st.c, fr, i);
    SymStep(p, input, st.c, st.s, fr, exprs, i);
  }

  lemma ConcStep(p: Program, input: Input, c: Conc, fr: Frame, i: Instr)
    requires c.status.Running? && c.stack == [fr] && WorkAt(p, fr) == Do(i) && !i.CallInst?
    ensures var e := Perform(p, FuncOf(p, fr.fn), input, c, i, fr.regs);
      CStep(p, input, c) == if Traps(FuncOf(p, fr.fn), i, fr.regs) then c.(status := Trapped)
        else Conc(Running, [fr.(idx := fr.idx + 1, regs := SetDest(fr.regs, DestOf(i), e.value))],
                  Put(c.memory, e.at, e.bytes), c.offset + e.advance)
  {
    hide WorkAt, Perform, Put, Traps, DestOf;
    assert Top(c) == fr && c.stack[..0] == [];
  }

  lemma SymStep(p: Program, input: Input, c: Conc, s: Sym, fr: Frame, exprs: map<nat, SymExpr>, i: Instr)
    requires c.status.Running? && c.stack == [fr] && s.exprs == [exprs] && WorkAt(p, fr) == Do(i) && !i.CallInst?
    ensures var e, t :=
              Perform(p, FuncOf(p, fr.fn), input, c, i, fr.regs),
                Track(p, FuncOf(p, fr.fn), input, c, s, i, fr.regs, exprs);
      SStep(p, input, c, s) == if Traps(FuncOf(p, fr.fn), i, fr.regs) then s
        else s.(exprs := [SetDest(exprs, DestOf(i), t.expr)], shadow := Put(s.shadow, e.at, t.shadow),
                path := s.path + Pushed(Decisions(p, fr, exprs)))
  {
    hide WorkAt, Perform, Track, Put, Pushed, Decisions, Traps, DestOf;
    assert Top(c) == fr && s.exprs[..0] == [] && s.exprs[0] == exprs;
  }

  lemma PutOne<T>(m: map<int, T>, at: int, v: T)
    ensures Put(m, at, [v]) == m[at := v]
  {
    assert [v][..0] == [];
  }

  function At(idx: nat, regs: map<nat, nat>): (fr: Frame)
  {
    Frame(0, 0, idx, regs)
  }

  lemma Next(idx: nat, regs: map<nat, nat>, exprs: map<nat, SymExpr>)
    requires idx < 3
    ensures WorkAt(Divider(), At(idx, regs)) == Do(Body()[idx])
    ensures Pushed(Decisions(Divider(), At(idx, regs), exprs)) == []
  {
    hide Pushed;
    NothingPushed(Decisions(Divider(), At(idx, regs), exprs));
  }

  lemma ReadWorks(input: Input)
    requires |input| >= 1
    ensures var p, c, s, i := Divider(), InitConc(map[]), InitSym(), Body()[0];
      Perform(p, p.funcs[0], input, c, i, map[]) == Effect(1, 0, [input[0]], 1)
      && Track(p, p.funcs[0], input, c, s, i, map[], map[]) == SymEffect(None, [Some(InputByte(0))])
  {
    var p, c, s, i := Divider(), InitConc(map[]), InitSym(), Body()[0];
    assert Perform(p, p.funcs[0], input, c, i, map[]).bytes == [input[0]];
    assert Track(p, p.funcs[0], input, c, s, i, map[], map[]).shadow == [Some(InputByte(0))];
  }

  lemma AfterRead(input: Input)
    requires |input| >= 1
    ensures var st := Run(Divider(), input, map[], 1);
      st.c == Conc(Running, [At(1, map[0 := 1])], map[0 := input[0]], 1)
      && st.s == Sym([map[0 := None]], map[0 := Some(InputByte(0))], map[], None, [])
  {
    hide Perform, Track, CStep, SStep, WorkAt, Decisions, Pushed, Put;
    var p := Divider();
    assert Run(p, input, map[], 0) == State(InitConc(map[]), InitSym());
    Next(0, map[], map[]);
    OneStep(p, input, map[], 0, At(0, map[]), map[], Body()[0]);
    ReadWorks(input);
    PutOne(map[], 0, input[0]);
    PutOne(map[], 0, Some(InputByte(0)));
  }

  lemma LoadWorks(input: Input, c: Conc, s: Sym, regs: map<nat, nat>, exprs: map<nat, SymExpr>)
    requires |input| >= 1 && c.memory == map[0 := input[0]] && s.shadow == map[0 := Some(InputByte(0))]
    ensures var p, i := Divider(), Body()[1];
      var e, t := Perform(p, p.funcs[0], input, c, i, regs), Track(p, p.funcs[0], input, c, s, i, regs, exprs);
      e == Effect(input[0], 0, [], 0) && t == SymEffect(Some(InputByte(0)), [])
  {
    hide ReadBytes, LoadValue, ReadShadow;
    LoadedByte(c.memory, s.shadow, input[0]);
  }

  lemma LoadedByte(m: map<int, Byte>, sh: map<int, SymExpr>, b: Byte)
    requires 0 in m && m[0] == b && 0 in sh && sh[0] == Some(InputByte(0))
    ensures LoadValue(8, ReadBytes(m, 0, 1), true) == b
    ensures ReadShadow(m, sh, 0, 1, true) == Some(InputByte(0))
  {
    assert ReadBytes(m, 0, 1) == [b];
    assert Reverse([b]) == [b] by { assert [b][1..] == []; }
    assert FromBytes([b]) == b by { assert [b][..0] == []; }
    assert ShadowBytes(sh, 0, 1)[0].Some?;
    assert ByteExprs(m, sh, 0, 1) == [InputByte(0)];
  }

  lemma AfterLoad(input: Input)
    requires |input| >= 1
    ensures var st := Run(Divider(), input, map[], 2);
      st.c == Conc(Running, [At(2, map[0 := 1, 1 := input[0] as nat])], map[0 := input[0]], 1)
      && st.s == Sym([map[0 := None, 1 := Some(InputByte(0))]], map[0 := Some(InputByte(0))], map[], None, [])
  {
    hide Perform, Track, CStep, SStep, WorkAt, Decisions, Pushed, Run;
    AfterRead(input);
    var p := Divider();
    var st := Run(p, input, map[], 1);
    Next(1, map[0 := 1], map[0 := None]);
    OneStep(p, input, map[], 1, At(1, map[0 := 1]), map[0 := None], Body()[1]);
    LoadWorks(input, st.c, st.s, map[0 := 1], map[0 := None]);
  }

  lemma AfterDivision(input: Input)
    requires |input| >= 1
    ensures var st := Run(Divider(), input, map[], 3);
      st.s.path == [] && (st.c.status.Trapped? <==> input[0] == 0)
  {
    hide Perform, Track, CStep, SStep, WorkAt, Decisions, Pushed, Run, Put;
    AfterLoad(input);
    var regs, exprs: map<nat, SymExpr> := map[0 := 1, 1 := input[0] as nat], map[0 := None, 1 := Some(InputByte(0))];
    Next(2, regs, exprs);
    OneStep(Divider(), input, map[], 2, At(2, regs), exprs, Body()[2]);
  }

  /** The run that divides by the byte 1 pushes nothing, so every input
      satisfies its path condition; on the byte 0 the division traps. */
  lemma ZeroDivisorTraps()
    ensures var p := Divider();
      ProgramOk(p) && !CRun(p, [1], map[], 3).status.Trapped? && PathSat(Run(p, [1], map[], 3).s.path, [0])
      && CRun(p, [0], map[], 3).status.Trapped? && !DivisorsAlive(p, [1], map[], 3, [0])
  {
    hide CStep, SStep, ProgramOk, StackRel, DivisorsAlive, Run;
    DividerOk();
    AfterDivision([1]);
    AfterDivision([0]);
    SameLengthAlike(Divider(), [1], map[], 3, [0]);
    ReplaySoundness(Divider(), [1], map[], 3, [0]);
  }

  /** On the empty input the read delivers nothing, and the runs part. */
  lemma ShorterInputParts()
    ensures var p := Divider();
      PathSat(Run(p, [1], map[], 1).s.path, []) && !ReadsAlike(p, [1], map[], 1, []) && !RelAt(p, [1], map[], 1, [])
  {
    hide CStep, SStep, ProgramOk, StackRel, WorkAt, Obeys, Decisions, Pushed;
    DividerOk();
    AfterRead([1]);
    var p, c, s := Divider(), InitConc(map[]), InitSym();
    assert CRun(p, [1], map[], 0) == c;
    Next(0, map[], map[]);
    NothingAsked();
    InitRel(p, map[], []);
    StepRel(p, [1], [], c, s, c);
  }

  lemma NothingAsked()
    ensures Obeys(NextDecisions(Divider(), State(InitConc(map[]), InitSym())), [])
  {
    var ds := Decisions(Divider(), At(0, map[]), map[]);
    Next(0, map[], map[]);
    PushedObey(ds, []);
  }
}
