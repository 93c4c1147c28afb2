/** The computations of extractvalue and insertvalue: conversions between
    Booleans and bytes around the access to a member. */
module ValueChains {
  import opened Expressions
  import opened Aggregates
  import opened Lifting
  import opened Programs
  import opened ShortCircuit
  import opened AddressChains
  import opened CallChains
  import opened CastChains
  import opened StructLayout
  import opened MemberAccess

  /** A member as the expression of a value of `w` bits. */
  function FromMember(e: Expr, w: nat): (r: Expr)
  {
    if w == 1 then BitToBool(Extract(e, 0, 0)) else e
  }

  /** The expression of a value of `w` bits as a bit vector of whole bytes. */
  function ToMember(e: Expr, w: nat): (r: Expr)
  {
    if w == 1 then ZExt(BoolToBit(e), 7) else e
  }

  /** `m` is the type of values of `w` bits: a Boolean, or whole bytes that can
      be swapped where that is asked for. */
  predicate MemberWidth(m: Type, w: nat)
  {
    if w == 1 then m == Scalar(1)
    else w == 8 * StoreSize(m) > 0 && (m.Scalar? ==> m.bytes == 1 || m.bytes % 2 == 0)
  }

  // ---------- extractvalue ----------

  function ExtractBuilder(t: Type, path: seq<nat>, littleEndian: bool): (b: Builder)
    requires PathOk(t, path)
    ensures Arity(b) == 1
  {
    var m := MemberType(t, path);
    ExtractB(UsedOffset(t, path), StoreSize(m), IsLittle(m, littleEndian))
  }

  function ExtractCalls(id: nat, sym: SymOperand, t: Type, path: seq<nat>, w: nat, littleEndian: bool): (c: Computation)
    requires PathOk(t, path)
  {
    var bits := Force(Nothing(), ExtractBuilder(t, path, littleEndian), [Symbolic(Aggregate(id), sym)]);
    if w == 1 then Force(Force(bits, TruncB(1), [Plain(0)]), BitToBoolB, [Plain(1)]) else bits
  }

  lemma ExtractApplies(e: Expr, t: Type, path: seq<nat>, littleEndian: bool, env: Env)
    requires Placed(t) && PathOk(t, path) && StoreSize(MemberType(t, path)) > 0 && Fills(e, t)
    ensures Apply(ExtractBuilder(t, path, littleEndian), env, [e]) == ExtractAt(e, t, path, littleEndian)
  {
    hide Bits, ExtractExpr, Placed, StoreSize, UsedOffset, MemberType, WellSorted, IsBool;
    MemberInside(e, t, path);
  }

  /** The rewritten computation gives the member of a symbolic aggregate. */
  lemma ExtractIsLift(id: nat, sym: SymOperand, t: Type, path: seq<nat>, w: nat, littleEndian: bool, env: Env)
    requires Placed(t) && PathOk(t, path) && StoreSize(MemberType(t, path)) > 0
    requires OperandExpr(env, sym).Some? ==> Fills(OperandExpr(env, sym).value, t)
    ensures var c, e := ExtractCalls(id, sym, t, path, w, littleEndian), OperandExpr(env, sym);
      WellFormed(c)
      && Exec(Rewritten(c), env)
         == Done(if e.None? then None else Some(FromMember(ExtractAt(e.value, t, path, littleEndian), w)))
  {
    hide Builds, Force, OperandExpr, Exec, Rewritten, Fills, ExtractBuilder, ExtractAt, Placed;
    var b, c, e := ExtractBuilder(t, path, littleEndian), ExtractCalls(id, sym, t, path, w, littleEndian),
        OperandExpr(env, sym);
    FirstOn(b, Aggregate(id), sym, env);
    var bits := Force(Nothing(), b, [Symbolic(Aggregate(id), sym)]);
    var member := Apply(b, env, [Given(env, e, Aggregate(id))]);
    if e.Some? {
      ExtractApplies(e.value, t, path, littleEndian, env);
    }
    var done := [member];
    if w == 1 {
      NextOn(bits, TruncB(1), env, done, 0, {sym});
      done := done + [Extract(member, 0, 0)];
      NextOn(Force(bits, TruncB(1), [Plain(0)]), BitToBoolB, env, done, 1, {sym});
      done := done + [BitToBool(Extract(member, 0, 0))];
    }
    Finish(c, env, done, {sym});
  }

  // ---------- insertvalue ----------

  function InsertBuilder(t: Type, path: seq<nat>, littleEndian: bool): (b: Builder)
    requires PathOk(t, path)
    ensures Arity(b) == 2
  {
    InsertB(UsedOffset(t, path), IsLittle(MemberType(t, path), littleEndian))
  }

  /** A Boolean is converted only if it has an expression at compile time. */
  predicate Converts(sym: SymOperand, w: nat)
  {
    w == 1 && sym.SymVar?
  }

  function InsertCalls(id: nat, sym: SymOperand, s: Source, symO: SymOperand, t: Type, path: seq<nat>, w: nat,
                       littleEndian: bool): (c: Computation)
    requires PathOk(t, path)
  {
    var b, target, value := InsertBuilder(t, path, littleEndian), Symbolic(Aggregate(id), sym), Symbolic(s, symO);
    if Converts(symO, w)
    then Force(Force(Force(Nothing(), BoolToBitB, [value]), ZExtB(7), [Plain(0)]), b, [target, Plain(1)])
    else Force(Nothing(), b, [target, value])
  }

  /** What the insertion receives for the value `e`. */
  function Piece(e: Expr, symO: SymOperand, w: nat): (r: Expr)
  {
    if Converts(symO, w) then ToMember(e, w) else e
  }

  lemma PairOn(c: Computation, b: Builder, x: CallArg, y: CallArg, env: Env, done: seq<Expr>, syms: set<SymOperand>)
    requires Builds(c, env, done, syms) && ArgsFit(c, b, [x, y])
    ensures Builds(Force(c, b, [x, y]), env, done + [Apply(b, env, [ArgValue(x, env, done), ArgValue(y, env, done)])],
                   syms + ArgSyms([x, y]))
  {
    hide Builds, Apply, ArgValue, ArgSyms, ArgsFit;
    Then(c, b, [x, y], env, done, syms);
    assert ArgValues([x, y], env, done) == [ArgValue(x, env, done), ArgValue(y, env, done)];
  }

  lemma ConvertedBuilds(s: Source, symO: SymOperand, env: Env, e: Expr)
    requires e == Given(env, OperandExpr(env, symO), s)
    ensures Builds(Force(Force(Nothing(), BoolToBitB, [Symbolic(s, symO)]), ZExtB(7), [Plain(0)]), env,
                   [BoolToBit(e), ToMember(e, 1)], {symO})
  {
    hide Builds, OperandExpr, Given, Force;
    FirstOn(BoolToBitB, s, symO, env);
    var done := [BoolToBit(e)];
    NextOn(Force(Nothing(), BoolToBitB, [Symbolic(s, symO)]), ZExtB(7), env, done, 0, {symO});
    assert done + [ToMember(e, 1)] == [BoolToBit(e), ToMember(e, 1)];
  }

  lemma PairSyms(s: Source, sym: SymOperand, s': Source, symO: SymOperand)
    ensures {symO} + ArgSyms([Symbolic(s, sym), Plain(1)]) == {sym, symO}
    ensures {} + ArgSyms([Symbolic(s, sym), Symbolic(s', symO)]) == {sym, symO}
  {
    var args, pair := [Symbolic(s, sym), Plain(1)], [Symbolic(s, sym), Symbolic(s', symO)];
    assert args[0].sym == sym && pair[0].sym == sym && pair[1].sym == symO;
  }

  lemma InsertBuilds(id: nat, sym: SymOperand, s: Source, symO: SymOperand, t: Type, path: seq<nat>, w: nat,
                     littleEndian: bool, env: Env)
    returns (done: seq<Expr>)
    requires PathOk(t, path)
    ensures Builds(InsertCalls(id, sym, s, symO, t, path, w, littleEndian), env, done, {sym, symO}) && done != []
    ensures var target, e := Given(env, OperandExpr(env, sym), Aggregate(id)), Given(env, OperandExpr(env, symO), s);
      done[|done| - 1] == Apply(InsertBuilder(t, path, littleEndian), env, [target, Piece(e, symO, w)])
  {
    hide Builds, Force, OperandExpr, Given, InsertBuilder, ToMember, Apply, ArgSyms;
    var b, target, value := InsertBuilder(t, path, littleEndian), Symbolic(Aggregate(id), sym), Symbolic(s, symO);
    var into, e := Given(env, OperandExpr(env, sym), Aggregate(id)), Given(env, OperandExpr(env, symO), s);
    PairSyms(Aggregate(id), sym, s, symO);
    if Converts(symO, w) {
      ConvertedBuilds(s, symO, env, e);
      var before := [BoolToBit(e), ToMember(e, 1)];
      var c := Force(Force(Nothing(), BoolToBitB, [value]), ZExtB(7), [Plain(0)]);
      BuildsSize(c, env, before, {symO});
      PairOn(c, b, target, Plain(1), env, before, {symO});
      done := before + [Apply(b, env, [into, ToMember(e, 1)])];
    } else {
      Start(env);
      PairOn(Nothing(), b, target, value, env, [], {});
      done := [] + [Apply(b, env, [into, e])];
    }
  }

  /** The operands are of the types that the instruction gives them. */
  predicate OperandsFit(target: Expr, e: Expr, t: Type, path: seq<nat>, w: nat)
    requires PathOk(t, path)
  {
    Placed(t) && Fills(target, t) && MemberWidth(MemberType(t, path), w) && HasType(e, w)
  }

  lemma MemberPiece(e: Expr, m: Type, w: nat, littleEndian: bool, input: Input)
    requires MemberWidth(m, w) && HasType(e, w)
    ensures Fills(ToMember(e, w), m) && CanSwap(ToMember(e, w), m, littleEndian)
    ensures Eval(ToMember(e, w), input) == Eval(e, input)
  {
    hide Eval, WellSorted;
    if w == 1 {
      BooleanPiece(e, input);
    }
  }

  lemma BooleanPiece(e: Expr, input: Input)
    requires HasType(e, 1)
    ensures IsVector(ToMember(e, 1)) && Bits(ToMember(e, 1)) == 8 && Eval(ToMember(e, 1), input) == Eval(e, input) <= 1
  {
    hide Eval;
    BoolToBitNode(e, input);
    ZExtNode(BoolToBit(e), 7, input);
    EvalRange(e, input);
  }

  lemma ConvertedAdmitted(target: Expr, e: Expr, t: Type, path: seq<nat>, w: nat, littleEndian: bool, env: Env)
    requires PathOk(t, path) && OperandsFit(target, e, t, path, w)
    ensures Fills(ToMember(e, w), MemberType(t, path)) && CanSwap(ToMember(e, w), MemberType(t, path), littleEndian)
    ensures Admits(InsertBuilder(t, path, littleEndian), [target, ToMember(e, w)])
    ensures Apply(InsertBuilder(t, path, littleEndian), env, [target, ToMember(e, w)])
         == InsertAt(target, ToMember(e, w), t, path, littleEndian)
  {
    hide Bits, WellSorted, IsBool, Fills, CanSwap, ToMember, Insertable, InsertExpr, UsedOffset, Placed, HasType;
    MemberPiece(e, MemberType(t, path), w, littleEndian, []);
    MemberInsertable(target, ToMember(e, w), t, path, littleEndian);
  }

  /** The assertions of the insertion hold unless the value is a Boolean that
      has no expression at compile time: it is not converted to a byte. */
  lemma InsertAdmittedExactlyWhen(target: Expr, e: Expr, symO: SymOperand, t: Type, path: seq<nat>, w: nat,
                                  littleEndian: bool)
    requires PathOk(t, path) && OperandsFit(target, e, t, path, w)
    ensures Admits(InsertBuilder(t, path, littleEndian), [target, Piece(e, symO, w)]) <==> !(w == 1 && symO.NullExpr?)
  {
    ConvertedAdmitted(target, e, t, path, w, littleEndian, Env(map[], map[], map[]));
  }

  /** The constant true, inserted into a symbolic structure of one byte. */
  lemma BooleanRejected(littleEndian: bool)
    ensures var t, env := Struct([Field(0, Scalar(1))], 1), Env(map[0 := Some(InputByte(0))], map[], map[]);
      var target, e := Given(env, OperandExpr(env, SymVar(0)), Aggregate(0)), Given(env, None, Word(Const(1, 1), 1));
      PathOk(t, [0]) && OperandsFit(target, e, t, [0], 1)
      && !Admits(InsertBuilder(t, [0], littleEndian), [target, Piece(e, NullExpr, 1)])
  {
    var t := Struct([Field(0, Scalar(1))], 1);
    assert PathOk(Child(t, 0), [0][1..]);
    assert MemberType(Child(t, 0), [0][1..]) == Scalar(1);
    InsertAdmittedExactlyWhen(InputByte(0), BoolConst(true), NullExpr, t, [0], 1, littleEndian);
  }

  lemma PieceConverted(e: Expr, symO: SymOperand, w: nat)
    requires !(w == 1 && symO.NullExpr?)
    ensures Piece(e, symO, w) == ToMember(e, w)
  {
  }

  /** The rewritten computation inserts the converted value into the aggregate,
      with constants for whichever of the two is concrete. */
  lemma InsertIsLift(id: nat, sym: SymOperand, s: Source, symO: SymOperand, t: Type, path: seq<nat>, w: nat,
                     littleEndian: bool, env: Env)
    requires PathOk(t, path) && !(w == 1 && symO.NullExpr?)
    requires OperandsFit(Given(env, OperandExpr(env, sym), Aggregate(id)), Given(env, OperandExpr(env, symO), s), t,
                         path, w)
    ensures var target, e := Given(env, OperandExpr(env, sym), Aggregate(id)), Given(env, OperandExpr(env, symO), s);
      var c := InsertCalls(id, sym, s, symO, t, path, w, littleEndian);
      WellFormed(c)
      && Fills(ToMember(e, w), MemberType(t, path)) && CanSwap(ToMember(e, w), MemberType(t, path), littleEndian)
      && Exec(Rewritten(c), env)
         == Done(if OperandExpr(env, sym).None? && OperandExpr(env, symO).None? then None
                 else Some(InsertAt(target, ToMember(e, w), t, path, littleEndian)))
  {
    hide Builds, OperandExpr, Exec, Rewritten, Given, Fills, CanSwap, ToMember, InsertBuilder, InsertAt, Placed, Apply,
         InsertCalls,
         MemberWidth, HasType, WellFormed;
    var target, e := Given(env, OperandExpr(env, sym), Aggregate(id)), Given(env, OperandExpr(env, symO), s);
    var done := InsertBuilds(id, sym, s, symO, t, path, w, littleEndian, env);
    ConvertedAdmitted(target, e, t, path, w, littleEndian, env);
    PieceConverted(e, symO, w);
    Finish(InsertCalls(id, sym, s, symO, t, path, w, littleEndian), env, done, {sym, symO});
  }

  /** What insertvalue puts into a member, extractvalue takes out of it. */
  lemma InsertedValue(target: Expr, e: Expr, t: Type, path: seq<nat>, w: nat, littleEndian: bool, input: Input)
    requires PathOk(t, path) && OperandsFit(target, e, t, path, w)
    ensures Fills(ToMember(e, w), MemberType(t, path)) && CanSwap(ToMember(e, w), MemberType(t, path), littleEndian)
    ensures var r := InsertAt(target, ToMember(e, w), t, path, littleEndian);
      Fills(r, t) && Eval(FromMember(ExtractAt(r, t, path, littleEndian), w), input) == Eval(e, input)
  {
    hide ToMember, Fills, CanSwap, InsertAt, ExtractAt, Placed, HasType;
    MemberPiece(e, MemberType(t, path), w, littleEndian, input);
    InsertMember(target, ToMember(e, w), t, path, littleEndian, input);
    if w == 1 {
      var r := InsertAt(target, ToMember(e, w), t, path, littleEndian);
      ExtractFills(r, t, path, littleEndian);
      BooleanBack(ExtractAt(r, t, path, littleEndian), e, MemberType(t, path), input);
    }
  }

  lemma BooleanBack(b: Expr, e: Expr, m: Type, input: Input)
    requires Fills(b, m) && m == Scalar(1) && HasType(e, 1) && Eval(b, input) == Eval(e, input)
    ensures Eval(FromMember(b, 1), input) == Eval(e, input)
  {
    hide Eval;
    BooleanPiece(e, input);
    ByteToBoolNode(b, input);
  }
}
