/** Whole runs: the path condition holds for the run that recorded it, every
    input that satisfies it replays the run unless a division on it would trap,
    and an input that flips one constraint takes the other side there. */
module ReplayTheorems {
  import opened BitVectors
  import opened Expressions
  import opened Lifting
  import opened Programs
  import opened Replay
  import opened ReplaySteps

  predicate Satisfied(k: Constraint, input: Input)
  {
    Truth(k.expr, input) <==> k.taken
  }

  predicate PathSat(path: seq<Constraint>, input: Input)
  {
    forall k :: 0 <= k < |path| ==> Satisfied(path[k], input)
  }

  /** The input makes every decision come out as recorded. */
  predicate Obeys(ds: seq<Decision>, input: Input)
  {
    forall k :: 0 <= k < |ds| && ds[k].expr.Some? ==> (Truth(ds[k].expr.value, input) <==> ds[k].taken)
  }

  lemma {:induction false} PushedObey(ds: seq<Decision>, input: Input)
    ensures PathSat(Pushed(ds), input) <==> Obeys(ds, input)
  {
    hide Truth;
    if ds != [] {
      var n := |ds| - 1;
      PushedObey(ds[..n], input);
      var last := if ds[n].expr.Some? then [Constraint(ds[n].expr.value, ds[n].taken)] else [];
      assert Pushed(ds) == Pushed(ds[..n]) + last;
      PathSatAppend(Pushed(ds[..n]), last, input);
      assert forall k :: 0 <= k < n ==> ds[..n][k] == ds[k];
      if last != [] {
        assert PathSat(last, input) <==> Satisfied(last[0], input);
      }
    }
  }

  lemma PathSatAppend(a: seq<Constraint>, b: seq<Constraint>, input: Input)
    ensures PathSat(a + b, input) <==> PathSat(a, input) && PathSat(b, input)
  {
    hide Satisfied;
    if PathSat(a + b, input) {
      forall k | 0 <= k < |a| ensures Satisfied(a[k], input) { assert (a + b)[k] == a[k]; }
      forall k | 0 <= k < |b| ensures Satisfied(b[k], input) { assert (a + b)[|a| + k] == b[k]; }
    }
  }

  /** The decisions that the next step of the run makes. */
  function NextDecisions(p: Program, st: State): (ds: seq<Decision>)
    requires |st.s.exprs| == |st.c.stack|
  {
    if st.c.status.Running? && st.c.stack != [] then Decisions(p, Top(st.c), st.s.exprs[|st.s.exprs| - 1]) else []
  }

  lemma StepPath(p: Program, input: Input, c: Conc, s: Sym)
    requires |s.exprs| == |c.stack| && !CStep(p, input, c).status.Trapped?
    ensures SStep(p, input, c, s).path == s.path + Pushed(NextDecisions(p, State(c, s)))
  {
    hide Perform, Track, WorkAt, Put, SetSlots, Assign;
    if c.status.Running? && c.stack != [] {
      var w := WorkAt(p, Top(c));
      if (w.Do? && w.i.CallInst?) || (w.End? && w.t.Return?) {
        QuietWork(p, Top(c), s.exprs[|s.exprs| - 1]);
      }
    }
  }

  lemma QuietWork(p: Program, fr: Frame, exprs: map<nat, SymExpr>)
    requires var w := WorkAt(p, fr); (w.Do? && w.i.CallInst?) || (w.End? && w.t.Return?)
    ensures Decisions(p, fr, exprs) == []
  {
    hide WorkAt;
  }

  /** An obedient input has the recorded outcomes. */
  lemma ObeyOutcomes(p: Program, fr: Frame, exprs: map<nat, SymExpr>, fr': Frame, input: Input)
    requires ProgramOk(p) && FrameRel(p, fr, exprs, fr', input) && Obeys(Decisions(p, fr, exprs), input)
    ensures Outcomes(p, fr, fr') == Outcomes(p, fr, fr)
  {
    hide FrameRel, Decisions, Outcomes, Truth, ProgramOk;
    DecisionsPredict(p, fr, exprs, fr', input);
    var ds := Decisions(p, fr, exprs);
    forall k | 0 <= k < |ds|
      ensures Outcomes(p, fr, fr')[k] == Outcomes(p, fr, fr)[k]
    {
      assert Predicts(ds[k], Outcomes(p, fr, fr)[k], Outcomes(p, fr, fr')[k], input);
    }
  }

  // ---------- what the recorded run foretells ----------

  predicate StepAlive(p: Program, st: State, input: Input)
    requires |st.s.exprs| == |st.c.stack|
  {
    st.c.status.Running? && st.c.stack != [] ==> DivisionAlive(p, Top(st.c), st.s.exprs[|st.s.exprs| - 1], input)
  }

  /** If the recorded run reads next, `input'` delivers as many bytes. */
  predicate ReadAlike(p: Program, c: Conc, input: Input, input': Input)
  {
    c.status.Running? && c.stack != [] && WorkAt(p, Top(c)).Do? ==>
      SameCount(WorkAt(p, Top(c)).i, Top(c).regs, c.offset, input, input')
  }

  /** No division of the first `n` recorded steps would trap on `input'`. */
  predicate DivisorsAlive(p: Program, input: Input, memory: map<int, Byte>, n: nat, input': Input)
  {
    forall k {:trigger Run(p, input, memory, k)} :: 0 <= k < n ==> StepAlive(p, Run(p, input, memory, k), input')
  }

  /** Every read of the first `n` recorded steps delivers as many bytes from
      `input'`. */
  predicate ReadsAlike(p: Program, input: Input, memory: map<int, Byte>, n: nat, input': Input)
  {
    forall k {:trigger CRun(p, input, memory, k)} :: 0 <= k < n ==>
      ReadAlike(p, CRun(p, input, memory, k), input, input')
  }

  /** Inputs of the same length are alike for every run. */
  lemma SameLengthAlike(p: Program, input: Input, memory: map<int, Byte>, n: nat, input': Input)
    requires |input'| == |input|
    ensures ReadsAlike(p, input, memory, n, input')
  {
    hide CRun;
  }

  /** A read that delivers another number of bytes moves the input position
      elsewhere. */
  lemma ReadApart(p: Program, input: Input, input': Input, c: Conc, s: Sym, c': Conc)
    requires Rel(p, c, s, c', input') && |s.exprs| == |c.stack| && !ReadAlike(p, c, input, input')
    requires Outcomes(p, Top(c), Top(c')) == Outcomes(p, Top(c), Top(c))
    ensures CStep(p, input', c').offset != CStep(p, input, c).offset
  {
    hide WorkAt, StackRel, MemoryAgree, FrameRel, Outcomes;
    TopRel(p, c, s, c', input');
    SameWork(p, Top(c), Top(c'));
    var w := WorkAt(p, Top(c));
    LengthSame(p, Top(c), Top(c'));
    ReadOffset(p, input, c);
    ReadOffset(p, input', c');
  }

  lemma LengthSame(p: Program, fr: Frame, fr': Frame)
    requires Outcomes(p, fr, fr') == Outcomes(p, fr, fr) && WorkAt(p, fr).Do? && WorkAt(p, fr).i.ReadInst?
    ensures OpVal(fr'.regs, WorkAt(p, fr).i.len) == OpVal(fr.regs, WorkAt(p, fr).i.len)
  {
    hide WorkAt;
    AddressesSame(fr.regs, fr'.regs, Concretized(WorkAt(p, fr)), 1);
  }

  lemma ReadOffset(p: Program, input: Input, c: Conc)
    requires c.status.Running? && c.stack != [] && WorkAt(p, Top(c)).Do? && WorkAt(p, Top(c)).i.ReadInst?
    ensures CStep(p, input, c).offset
      == c.offset + ReadCount(input, c.offset, OpVal(Top(c).regs, WorkAt(p, Top(c)).i.len))
  {
    hide WorkAt, Put;
  }

  /** One step of related states on an obedient input. The states stay related
      if the division is alive and the read is alike; a dead division traps,
      and an unlike read breaks the relation. */
  lemma StepRel(p: Program, input: Input, input': Input, c: Conc, s: Sym, c': Conc)
    requires ProgramOk(p) && Rel(p, c, s, c', input')
    requires |s.exprs| == |c.stack| && Obeys(NextDecisions(p, State(c, s)), input')
    requires !CStep(p, input, c).status.Trapped?
    ensures StepAlive(p, State(c, s), input') && ReadAlike(p, c, input, input') ==>
      Rel(p, CStep(p, input, c), SStep(p, input, c, s), CStep(p, input', c'), input')
    ensures !StepAlive(p, State(c, s), input') ==> CStep(p, input', c').status.Trapped?
    ensures !ReadAlike(p, c, input, input') ==> CStep(p, input', c').offset != CStep(p, input, c).offset
  {
    hide Perform, Track, WorkAt, Put, SetSlots, Assign, StackRel, MemoryAgree, Obeys, Decisions, Outcomes, FrameRel,
         Pushed, ProgramOk, Traps, DivisionAlive, SameCount;
    Lengths(p, c, s, c', input');
    if c.status.Running? && c.stack != [] {
      var w := WorkAt(p, Top(c));
      TopRel(p, c, s, c', input');
      FrameSame(p, Top(c), s.exprs[|s.exprs| - 1], Top(c'), input');
      ObeyOutcomes(p, Top(c), s.exprs[|s.exprs| - 1], Top(c'), input');
      if !ReadAlike(p, c, input, input') {
        ReadApart(p, input, input', c, s, c');
      }
      match w
      case Stuck =>
      case Do(i) =>
        TrapForeseen(p, Top(c), s.exprs[|s.exprs| - 1], Top(c'), input');
        SamePlaces(Top(c), Top(c'), p, s.exprs[|s.exprs| - 1], input');
        if i.CallInst? {
          CallStep(p, input, input', c, s, c');
          CallsAreAlive(p, Top(c), s.exprs[|s.exprs| - 1], input');
        } else if DivisionAlive(p, Top(c), s.exprs[|s.exprs| - 1], input') && ReadAlike(p, c, input, input') {
          PlainStep(p, input, input', c, s, c');
        }
      case End(t) =>
        EndsAreAlive(p, Top(c), s.exprs[|s.exprs| - 1], input');
        if t.Return? {
          ReturnStep(p, input, input', c, s, c');
        } else {
          JumpStep(p, input, input', c, s, c');
        }
    }
  }

  lemma SamePlaces(fr: Frame, fr': Frame, p: Program, exprs: map<nat, SymExpr>, input: Input)
    requires FrameRel(p, fr, exprs, fr', input)
    ensures fr'.fn == fr.fn
  {
  }

  lemma CallsAreAlive(p: Program, fr: Frame, exprs: map<nat, SymExpr>, input: Input)
    requires WorkAt(p, fr).Do? && WorkAt(p, fr).i.CallInst?
    ensures DivisionAlive(p, fr, exprs, input)
  {
    hide WorkAt;
  }

  lemma EndsAreAlive(p: Program, fr: Frame, exprs: map<nat, SymExpr>, input: Input)
    requires WorkAt(p, fr).End?
    ensures DivisionAlive(p, fr, exprs, input)
  {
    hide WorkAt;
  }

  lemma FrameSame(p: Program, fr: Frame, exprs: map<nat, SymExpr>, fr': Frame, input: Input)
    requires FrameRel(p, fr, exprs, fr', input)
    ensures WorkAt(p, fr') == WorkAt(p, fr)
  {
  }

  lemma InitRel(p: Program, memory: map<int, Byte>, input: Input)
    requires ProgramOk(p)
    ensures Rel(p, InitConc(memory), InitSym(), InitConc(memory), input)
  {
    hide FrameTyped, FrameAgree, FuncOk;
    EmptyFrame(p.funcs[0], input);
  }

  lemma TrapStays(p: Program, input: Input, c: Conc)
    requires c.status.Trapped?
    ensures CStep(p, input, c).status.Trapped?
  {
  }

  /** The paths of a run only grow. */
  lemma PathGrows(p: Program, input: Input, memory: map<int, Byte>, n: nat)
    requires !CRun(p, input, memory, n + 1).status.Trapped?
    ensures var st := Run(p, input, memory, n);
      Run(p, input, memory, n + 1).s.path == st.s.path + Pushed(NextDecisions(p, st))
  {
    hide CStep, SStep, NextDecisions, Pushed;
    var st := Run(p, input, memory, n);
    StepPath(p, input, st.c, st.s);
  }

  /** Replay soundness. An input that satisfies the pushed constraints, and on
      which the recorded reads deliver as many bytes, reaches step by step the
      same control points, and each register and memory byte then is its
      expression evaluated on that input, or the unchanged concrete value,
      exactly when no recorded division is foreseen to trap on it. If one is,
      the run on that input has trapped. */
  lemma {:induction false} ReplaySoundness(p: Program, input: Input, memory: map<int, Byte>, n: nat, input': Input)
    requires ProgramOk(p) && !CRun(p, input, memory, n).status.Trapped?
    requires PathSat(Run(p, input, memory, n).s.path, input') && ReadsAlike(p, input, memory, n, input')
    ensures Rel(p, CRun(p, input, memory, n), Run(p, input, memory, n).s, CRun(p, input', memory, n), input')
      <==> DivisorsAlive(p, input, memory, n, input')
    ensures !DivisorsAlive(p, input, memory, n, input') ==> CRun(p, input', memory, n).status.Trapped?
  {
    hide CStep, SStep, NextDecisions, Pushed, ProgramOk, PathSat, Obeys, StackRel, MemoryAgree, StepAlive, ReadAlike;
    if n == 0 {
      InitRel(p, memory, input');
    } else {
      var st, c' := Run(p, input, memory, n - 1), CRun(p, input', memory, n - 1);
      Untrapped(p, input, memory, n - 1);
      PathGrows(p, input, memory, n - 1);
      PathSatAppend(st.s.path, Pushed(NextDecisions(p, st)), input');
      PushedObey(NextDecisions(p, st), input');
      ReplaySoundness(p, input, memory, n - 1, input');
      if DivisorsAlive(p, input, memory, n - 1, input') {
        StepRel(p, input, input', st.c, st.s, c');
      } else {
        TrapStays(p, input', c');
      }
    }
  }

  /** The constraints of a shorter run come first. */
  lemma {:induction false} PathPrefix(p: Program, input: Input, memory: map<int, Byte>, k: nat, n: nat)
    requires k <= n && !CRun(p, input, memory, n).status.Trapped?
    ensures !CRun(p, input, memory, k).status.Trapped?
    ensures Run(p, input, memory, k).s.path <= Run(p, input, memory, n).s.path
    decreases n
  {
    hide CStep, SStep, NextDecisions, Pushed;
    if k < n {
      Untrapped(p, input, memory, n - 1);
      PathGrows(p, input, memory, n - 1);
      PathPrefix(p, input, memory, k, n - 1);
    }
  }

  /** Without any assumption on reads: an input that satisfies the constraints
      is related to the recorded run at every step exactly when all its
      divisions are alive and all its reads are alike. */
  lemma ReplayExactlyWhen(p: Program, input: Input, memory: map<int, Byte>, n: nat, input': Input)
    requires ProgramOk(p) && !CRun(p, input, memory, n).status.Trapped?
    requires PathSat(Run(p, input, memory, n).s.path, input')
    ensures (forall k :: 0 <= k <= n ==> RelAt(p, input, memory, k, input'))
      <==> DivisorsAlive(p, input, memory, n, input') && ReadsAlike(p, input, memory, n, input')
  {
    hide CStep, SStep, NextDecisions, Pushed, ProgramOk, Obeys, Rel, StepAlive, ReadAlike, CRun;
    if DivisorsAlive(p, input, memory, n, input') && ReadsAlike(p, input, memory, n, input') {
      forall k | 0 <= k <= n
        ensures RelAt(p, input, memory, k, input')
      {
        PathPrefix(p, input, memory, k, n);
        ReplaySoundness(p, input, memory, k, input');
      }
    }
    if forall k :: 0 <= k <= n ==> RelAt(p, input, memory, k, input') {
      forall k | 0 <= k < n
        ensures StepAlive(p, Run(p, input, memory, k), input') && ReadAlike(p, CRun(p, input, memory, k), input, input')
      {
        assert RelAt(p, input, memory, k, input') && RelAt(p, input, memory, k + 1, input');
        StepTold(p, input, memory, n, k, input');
      }
    }
  }

  ghost predicate RelAt(p: Program, input: Input, memory: map<int, Byte>, k: nat, input': Input)
  {
    Rel(p, CRun(p, input, memory, k), Run(p, input, memory, k).s, CRun(p, input', memory, k), input')
  }

  lemma StepTold(p: Program, input: Input, memory: map<int, Byte>, n: nat, k: nat, input': Input)
    requires ProgramOk(p) && k < n && !CRun(p, input, memory, n).status.Trapped?
    requires PathSat(Run(p, input, memory, n).s.path, input')
    requires RelAt(p, input, memory, k, input') && RelAt(p, input, memory, k + 1, input')
    ensures StepAlive(p, Run(p, input, memory, k), input') && ReadAlike(p, CRun(p, input, memory, k), input, input')
  {
    hide CStep, SStep, NextDecisions, Pushed, ProgramOk, Obeys, StackRel, MemoryAgree, StepAlive, ReadAlike, PathSat;
    var st, c' := Run(p, input, memory, k), CRun(p, input', memory, k);
    PathPrefix(p, input, memory, k + 1, n);
    PathSatPrefix(Run(p, input, memory, k + 1).s.path, Run(p, input, memory, n).s.path, input');
    PathGrows(p, input, memory, k);
    PathSatAppend(st.s.path, Pushed(NextDecisions(p, st)), input');
    PushedObey(NextDecisions(p, st), input');
    StepRel(p, input, input', st.c, st.s, c');
  }

  lemma PathSatPrefix(a: seq<Constraint>, b: seq<Constraint>, input: Input)
    requires a <= b && PathSat(b, input)
    ensures PathSat(a, input)
  {
    hide Satisfied;
    assert b == a + b[|a|..];
    PathSatAppend(a, b[|a|..], input);
  }

  lemma Untrapped(p: Program, input: Input, memory: map<int, Byte>, n: nat)
    requires !CRun(p, input, memory, n + 1).status.Trapped?
    ensures !CRun(p, input, memory, n).status.Trapped?
  {
    if CRun(p, input, memory, n).status.Trapped? {
      TrapStays(p, input, CRun(p, input, memory, n));
    }
  }

  lemma ObeysItself(p: Program, fr: Frame, exprs: map<nat, SymExpr>, input: Input)
    requires ProgramOk(p) && FrameRel(p, fr, exprs, fr, input)
    ensures Obeys(Decisions(p, fr, exprs), input)
  {
    hide FrameRel, Decisions, Outcomes, Truth, ProgramOk;
    DecisionsPredict(p, fr, exprs, fr, input);
    var ds := Decisions(p, fr, exprs);
    forall k | 0 <= k < |ds| && ds[k].expr.Some?
      ensures Truth(ds[k].expr.value, input) <==> ds[k].taken
    {
      assert Predicts(ds[k], Outcomes(p, fr, fr)[k], Outcomes(p, fr, fr)[k], input);
    }
  }

  lemma ObeysNext(p: Program, st: State, input: Input)
    requires ProgramOk(p) && |st.s.exprs| == |st.c.stack| && Rel(p, st.c, st.s, st.c, input)
    ensures Obeys(NextDecisions(p, st), input)
  {
    hide FrameRel, Decisions, ProgramOk, StackRel, MemoryAgree, Obeys;
    if st.c.status.Running? && st.c.stack != [] {
      TopRel(p, st.c, st.s, st.c, input);
      ObeysItself(p, Top(st.c), st.s.exprs[|st.s.exprs| - 1], input);
    } else {
      NothingToObey(input);
    }
  }

  lemma NothingToObey(input: Input)
    ensures Obeys([], input)
  {
  }

  /** The path condition always holds for the input that produced it, and every
      expression evaluates to the concrete value it is attached to. */
  lemma {:induction false} PathConditionHolds(p: Program, input: Input, memory: map<int, Byte>, n: nat)
    requires ProgramOk(p) && !CRun(p, input, memory, n).status.Trapped?
    ensures PathSat(Run(p, input, memory, n).s.path, input)
    ensures Rel(p, CRun(p, input, memory, n), Run(p, input, memory, n).s, CRun(p, input, memory, n), input)
  {
    hide CStep, SStep, NextDecisions, Pushed, Rel, ProgramOk, Obeys, Satisfied;
    if n == 0 {
      InitRel(p, memory, input);
    } else {
      var st := Run(p, input, memory, n - 1);
      Untrapped(p, input, memory, n - 1);
      PathConditionHolds(p, input, memory, n - 1);
      ObeysNext(p, st, input);
      PathGrows(p, input, memory, n - 1);
      PathSatAppend(st.s.path, Pushed(NextDecisions(p, st)), input);
      PushedObey(NextDecisions(p, st), input);
      StepRel(p, input, input, st.c, st.s, st.c);
    }
  }

  /** The relation, spelled out for one register and one memory byte. */
  lemma RelMeans(p: Program, c: Conc, s: Sym, c': Conc, input: Input, k: nat, r: nat, a: int)
    requires Rel(p, c, s, c', input) && k < |c.stack|
    ensures |c'.stack| == |c.stack| == |s.exprs| && SamePlace(c.stack[k], c'.stack[k])
    ensures var e := ExprOf(s.exprs[k], r);
      Lookup(c'.stack[k].regs, r) == if e.Some? then Eval(e.value, input) else Lookup(c.stack[k].regs, r)
    ensures var e := ShadowAt(s.shadow, a);
      ByteAt(c'.memory, a) == if e.Some? then Eval(e.value, input) else ByteAt(c.memory, a)
  {
    hide Eval, WorkAt, FrameTyped, Typed;
    assert FrameRel(p, c.stack[k], s.exprs[k], c'.stack[k], input);
    assert Agree(Lookup(c.stack[k].regs, r), ExprOf(s.exprs[k], r), Lookup(c'.stack[k].regs, r), input);
    assert Agree(ByteAt(c.memory, a), ShadowAt(s.shadow, a), ByteAt(c'.memory, a), input);
  }

  lemma {:induction false} PushedIndex(ds: seq<Decision>, k: nat) returns (j: nat)
    requires k < |Pushed(ds)|
    ensures j < |ds| && ds[j].expr == Some(Pushed(ds)[k].expr) && ds[j].taken == Pushed(ds)[k].taken
    ensures Pushed(ds[..j]) == Pushed(ds)[..k]
  {
    var n := |ds| - 1;
    if k < |Pushed(ds[..n])| {
      j := PushedIndex(ds[..n], k);
      assert ds[..n][..j] == ds[..j];
    } else {
      j := n;
    }
  }

  /** Divergence. Take the constraint that the step after `n` pushes at
      position `k` of its own constraints. An input that satisfies everything
      before it and violates it follows the run up to that step, and there its
      outcome for that very decision is the opposite one, exactly when no
      division before is foreseen to trap; otherwise it has trapped. */
  lemma Divergence(p: Program, input: Input, memory: map<int, Byte>, n: nat, k: nat, input': Input) returns (j: nat)
    requires ProgramOk(p) && !CRun(p, input, memory, n).status.Trapped?
    requires var st := Run(p, input, memory, n);
      k < |Pushed(NextDecisions(p, st))|
      && PathSat(st.s.path + Pushed(NextDecisions(p, st))[..k], input')
      && !Satisfied(Pushed(NextDecisions(p, st))[k], input')
    requires ReadsAlike(p, input, memory, n, input')
    ensures DivisorsAlive(p, input, memory, n, input') <==> DivergesAt(p, input, memory, n, j, input')
    ensures !DivisorsAlive(p, input, memory, n, input') ==> CRun(p, input', memory, n).status.Trapped?
  {
    hide CStep, SStep, Pushed, ProgramOk, Obeys, PathSat, FrameRel, StackRel, MemoryAgree, Decisions, Outcomes, Truth,
         DivisorsAlive;
    var st, c' := Run(p, input, memory, n), CRun(p, input', memory, n);
    var ds := NextDecisions(p, st);
    PathSatAppend(st.s.path, Pushed(ds)[..k], input');
    ReplaySoundness(p, input, memory, n, input');
    j := PushedIndex(ds, k);
    if DivisorsAlive(p, input, memory, n, input') {
      SomethingPushed(ds, k);
      Lengths(p, st.c, st.s, c', input');
      TopRel(p, st.c, st.s, c', input');
      var fr, exprs, fr' := Top(st.c), st.s.exprs[|st.s.exprs| - 1], Top(c');
      DecisionsPredict(p, fr, exprs, fr', input');
      assert Predicts(ds[j], Outcomes(p, fr, fr)[j], Outcomes(p, fr, fr')[j], input');
      PushedObey(ds[..j], input');
      PrefixOutcomes(p, fr, exprs, fr', input', j);
      assert Outcomes(p, fr, fr')[..j] == Outcomes(p, fr, fr)[..j];
    }
  }

  /** After `n` steps the runs are related, and there the run on `input'` makes
      decision `j` differently, after making all earlier ones alike. */
  ghost predicate DivergesAt(p: Program, input: Input, memory: map<int, Byte>, n: nat, j: nat, input': Input)
  {
    var c, c' := CRun(p, input, memory, n), CRun(p, input', memory, n);
    RelAt(p, input, memory, n, input') && c.stack != [] && c'.stack != []
    && var os, os' := Outcomes(p, Top(c), Top(c)), Outcomes(p, Top(c), Top(c'));
    j < |os| == |os'| && os'[j] != os[j] && os'[..j] == os[..j]
  }

  lemma SomethingPushed(ds: seq<Decision>, k: nat)
    requires k < |Pushed(ds)|
    ensures ds != []
  {
  }

  lemma PrefixOutcomes(p: Program, fr: Frame, exprs: map<nat, SymExpr>, fr': Frame, input: Input, j: nat)
    requires ProgramOk(p) && FrameRel(p, fr, exprs, fr', input)
    requires j <= |Decisions(p, fr, exprs)| && Obeys(Decisions(p, fr, exprs)[..j], input)
    ensures |Decisions(p, fr, exprs)| == |Outcomes(p, fr, fr)| == |Outcomes(p, fr, fr')|
    ensures forall i :: 0 <= i < j ==> Outcomes(p, fr, fr')[i] == Outcomes(p, fr, fr)[i]
  {
    hide FrameRel, Decisions, Outcomes, Truth, ProgramOk;
    DecisionsPredict(p, fr, exprs, fr', input);
    var ds := Decisions(p, fr, exprs);
    forall i | 0 <= i < j
      ensures Outcomes(p, fr, fr')[i] == Outcomes(p, fr, fr)[i]
    {
      assert ds[..j][i] == ds[i];
      assert Predicts(ds[i], Outcomes(p, fr, fr)[i], Outcomes(p, fr, fr')[i], input);
    }
  }

  /** At a two-way branch the opposite outcome is the other successor. */
  lemma BranchDiverges(p: Program, input: Input, memory: map<int, Byte>, n: nat, input': Input)
    requires ProgramOk(p) && !CRun(p, input, memory, n).status.Trapped?
    requires var st := Run(p, input, memory, n);
      st.c.status.Running? && st.c.stack != []
      && WorkAt(p, Top(st.c)).End? && WorkAt(p, Top(st.c)).t.Branch?
      && |Pushed(NextDecisions(p, st))| == 1 && PathSat(st.s.path, input')
      && !Satisfied(Pushed(NextDecisions(p, st))[0], input')
    requires ReadsAlike(p, input, memory, n, input')
    ensures var c, c' := CRun(p, input, memory, n), CRun(p, input', memory, n);
      var t := WorkAt(p, Top(c)).t;
      if DivisorsAlive(p, input, memory, n, input') then
        c'.stack != [] && WorkAt(p, Top(c')) == WorkAt(p, Top(c))
        && {NextBlock(t, Top(c).regs), NextBlock(t, Top(c').regs)} == {t.ifTrue, t.ifFalse}
      else c'.status.Trapped?
  {
    hide CStep, SStep, Pushed, ProgramOk, PathSat, FrameRel, StackRel, MemoryAgree, Decisions, WorkAt, Satisfied, OpVal,
         DivisorsAlive, ReadsAlike;
    var st := Run(p, input, memory, n);
    var c, c' := CRun(p, input, memory, n), CRun(p, input', memory, n);
    assert st.s.path + Pushed(NextDecisions(p, st))[..0] == st.s.path;
    var j := Divergence(p, input, memory, n, 0, input');
    if DivisorsAlive(p, input, memory, n, input') {
      TopRel(p, c, st.s, c', input');
      FrameSame(p, Top(c), st.s.exprs[|st.s.exprs| - 1], Top(c'), input');
      assert j == 0;
    }
  }
}
