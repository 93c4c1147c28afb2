/** Run-time values with an optional expression attached, and the expressions
    that instrumented instructions attach to their results. */
module Lifting {
  import opened BitVectors
  import opened Bytes
  import opened Expressions
  import opened Aggregates

  /** The widths for which a constant expression of the same width can be made. */
  predicate ValidWidth(w: nat)
  {
    1 <= w <= 64 || w == 128
  }

  function Quotient(v: nat, m: int): (q: nat)
    requires m >= 1
  {
    v / m
  }

  /** `createValueExpression` on integers and pointers. */
  function ValueExpr(v: nat, w: nat): (e: Expr)
  {
    if w == 1 then BoolConst(v != 0)
    else if w <= 64 then Integer(v, w)
    else Concat(Integer(Quotient(v, Pow2(64)), 64), Integer(Wrap(64, v), 64))
  }

  predicate HasType(e: Expr, w: nat)
  {
    WellSorted(e) && Bits(e) == w && (IsBool(e) <==> w == 1)
  }

  predicate Typed(e: SymExpr, w: nat)
  {
    e.Some? ==> HasType(e.value, w)
  }

  lemma WideConstant(v: nat, input: Input)
    requires v < Pow2(128)
    ensures HasType(ValueExpr(v, 128), 128) && Eval(ValueExpr(v, 128), input) == v
  {
    hide Pow2;
    Pow2Add(64, 64);
    var m := Pow2(64);
    var q := Quotient(v, m);
    assert v == q * m + v % m;
    QuotientBound(q, m, m, v);
    IntegerNode(q, 64, input);
    IntegerNode(Wrap(64, v), 64, input);
    ConcatNode(Integer(q, 64), Integer(Wrap(64, v), 64), input);
  }

  lemma QuotientBound(q: int, k: int, m: int, v: int)
    requires m >= 1 && q * m <= v < k * m
    ensures q < k
  {
    if q >= k {
      MulMono(m, k, q);
    }
  }

  lemma ValueExprCorrect(v: nat, w: nat, input: Input)
    requires ValidWidth(w) && v < Pow2(w)
    ensures HasType(ValueExpr(v, w), w) && Eval(ValueExpr(v, w), input) == v
  {
    hide Pow2;
    if w == 1 {
      Pow2Eight();
    } else if w == 128 {
      WideConstant(v, input);
    } else {
      IntegerNode(v, w, input);
    }
  }

  /** The expression for a value: its own, or a constant when it is concrete. */
  function Coerce(e: SymExpr, v: nat, w: nat): (r: Expr)
  {
    if e.Some? then e.value else ValueExpr(v, w)
  }

  /** On input `input` the value that was `v` in the recorded run is `v'`: the
      value of its expression, or unchanged if it has none. */
  predicate Agree(v: nat, e: SymExpr, v': nat, input: Input)
  {
    v' == if e.Some? then Eval(e.value, input) else v
  }

  lemma CoerceAgree(v: nat, e: SymExpr, v': nat, w: nat, input: Input)
    requires ValidWidth(w) && v < Pow2(w) && Typed(e, w) && Agree(v, e, v', input)
    ensures HasType(Coerce(e, v, w), w) && Eval(Coerce(e, v, w), input) == v'
    ensures v' < Pow2(w)
  {
    hide Pow2, Eval, WellSorted, IsBool, Bits;
    if e.None? {
      ValueExprCorrect(v, w, input);
    } else {
      EvalRange(e.value, input);
    }
  }

  /** Machine semantics of a binary operator; the logical operators on `i1`. */
  function ConcBinary(op: BinOp, w: nat, x: nat, y: nat): (r: nat)
  {
    if w == 1 then BitwiseBit(op, x == 1, y == 1) else BinVal(op, w, x, y)
  }

  function BinaryExpr(op: BinOp, w: nat, a: Expr, b: Expr): (e: Expr)
  {
    if w == 1 then BoolBinary(op, a, b) else Binary(op, a, b)
  }

  /** Null when both inputs are null; otherwise a formula over both. */
  function LiftBinary(op: BinOp, w: nat, ex: SymExpr, x: nat, ey: SymExpr, y: nat): (e: SymExpr)
  {
    if ex.None? && ey.None? then None
    else Some(BinaryExpr(op, w, Coerce(ex, x, w), Coerce(ey, y, w)))
  }

  function LiftCompare(p: Pred, w: nat, ex: SymExpr, x: nat, ey: SymExpr, y: nat): (e: SymExpr)
  {
    if ex.None? && ey.None? then None
    else Some(Compare(p, Coerce(ex, x, w), Coerce(ey, y, w)))
  }

  datatype Cast = ZExtCast | SExtCast | TruncCast

  function ConcCast(k: Cast, from: nat, to: nat, x: nat): (r: nat)
  {
    match k
    case ZExtCast => x
    case SExtCast => Wrap(to, Signed(from, x))
    case TruncCast => Wrap(to, x)
  }

  function CastExpr(k: Cast, from: nat, to: nat, e: Expr): (r: Expr)
    requires to >= 1
  {
    match k
    case TruncCast => if to == 1 then ByteToBool(e) else Extract(e, to - 1, 0)
    case _ =>
      var bits := if from == 1 then BoolToBit(e) else e;
      if k.ZExtCast? then ZExt(bits, ExtraBits(from, to)) else SExt(bits, ExtraBits(from, to))
  }

  function ExtraBits(from: nat, to: nat): (n: nat)
  {
    if to <= from then 0 else to - from
  }

  function LiftCast(k: Cast, from: nat, to: nat, ex: SymExpr): (e: SymExpr)
    requires to >= 1
  {
    if ex.None? then None else Some(CastExpr(k, from, to, ex.value))
  }

  predicate BinaryAllowed(op: BinOp, w: nat)
  {
    ValidWidth(w) && (w == 1 ==> op.And? || op.Or? || op.Xor?)
  }

  predicate CompareAllowed(p: Pred, w: nat)
  {
    ValidWidth(w) && (w == 1 ==> p.Eq? || p.Ne?)
  }

  predicate CastAllowed(k: Cast, from: nat, to: nat)
  {
    ValidWidth(from) && ValidWidth(to) && if k.TruncCast? then to < from else from < to
  }

  lemma ConcBinaryRange(op: BinOp, w: nat, x: nat, y: nat)
    requires w >= 1
    ensures ConcBinary(op, w, x, y) < Pow2(w)
  {
    Pow2Eight();
  }

  lemma BinaryAgree(op: BinOp, w: nat, x: nat, ex: SymExpr, x': nat, y: nat, ey: SymExpr, y': nat, input: Input)
    requires BinaryAllowed(op, w) && x < Pow2(w) && y < Pow2(w) && Typed(ex, w) && Typed(ey, w)
    requires Agree(x, ex, x', input) && Agree(y, ey, y', input)
    ensures Agree(ConcBinary(op, w, x, y), LiftBinary(op, w, ex, x, ey, y), ConcBinary(op, w, x', y'), input)
    ensures Typed(LiftBinary(op, w, ex, x, ey, y), w)
  {
    hide Pow2, Coerce, BinVal, BitwiseBit;
    CoerceAgree(x, ex, x', w, input);
    CoerceAgree(y, ey, y', w, input);
    BinaryExprValue(op, w, Coerce(ex, x, w), Coerce(ey, y, w), input);
  }

  lemma BinaryExprValue(op: BinOp, w: nat, a: Expr, b: Expr, input: Input)
    requires BinaryAllowed(op, w) && HasType(a, w) && HasType(b, w)
    ensures HasType(BinaryExpr(op, w, a, b), w)
    ensures Eval(BinaryExpr(op, w, a, b), input) == ConcBinary(op, w, Eval(a, input), Eval(b, input))
  {
    hide Pow2, BinVal, BitwiseBit;
  }

  lemma CompareAgree(p: Pred, w: nat, x: nat, ex: SymExpr, x': nat, y: nat, ey: SymExpr, y': nat, input: Input)
    requires CompareAllowed(p, w) && x < Pow2(w) && y < Pow2(w) && Typed(ex, w) && Typed(ey, w)
    requires Agree(x, ex, x', input) && Agree(y, ey, y', input)
    ensures Agree(BitOf(CmpVal(p, w, x, y)), LiftCompare(p, w, ex, x, ey, y), BitOf(CmpVal(p, w, x', y')), input)
    ensures Typed(LiftCompare(p, w, ex, x, ey, y), 1)
  {
    hide Pow2, Coerce, CmpVal;
    CoerceAgree(x, ex, x', w, input);
    CoerceAgree(y, ey, y', w, input);
    CompareExprValue(p, w, Coerce(ex, x, w), Coerce(ey, y, w), input);
  }

  lemma CompareExprValue(p: Pred, w: nat, a: Expr, b: Expr, input: Input)
    requires CompareAllowed(p, w) && HasType(a, w) && HasType(b, w)
    ensures HasType(Compare(p, a, b), 1)
    ensures Eval(Compare(p, a, b), input) == BitOf(CmpVal(p, w, Eval(a, input), Eval(b, input)))
  {
    hide Pow2, CmpVal;
  }

  lemma TruncValue(e: Expr, from: nat, to: nat, input: Input)
    requires HasType(e, from) && 1 <= to < from
    ensures HasType(CastExpr(TruncCast, from, to, e), to)
    ensures Eval(CastExpr(TruncCast, from, to, e), input) == Wrap(to, Eval(e, input))
  {
    hide WellSorted, Bits, IsBool, Eval, Wrap, Pow2, BitToBool;
    ExtractNode(e, to - 1, 0, input);
    Pow2One();
    if to == 1 {
      BitToBoolNode(Extract(e, 0, 0), input);
      Pow2Eight();
      EvalRange(BitToBool(Extract(e, 0, 0)), input);
    }
  }

  lemma ExtendValue(k: Cast, e: Expr, from: nat, to: nat, input: Input)
    requires HasType(e, from) && from < to && !k.TruncCast?
    ensures HasType(CastExpr(k, from, to, e), to)
    ensures Eval(CastExpr(k, from, to, e), input) == ConcCast(k, from, to, Eval(e, input))
  {
    hide WellSorted, Bits, IsBool, Eval, Wrap, Pow2, BoolToBit, Signed;
    var bits := if from == 1 then BoolToBit(e) else e;
    EvalRange(e, input);
    if from == 1 {
      Pow2Eight();
      BoolToBitNode(e, input);
    }
    ZExtNode(bits, to - from, input);
    SExtNode(bits, to - from, input);
  }

  lemma CastAgree(k: Cast, from: nat, to: nat, x: nat, ex: SymExpr, x': nat, input: Input)
    requires CastAllowed(k, from, to) && x < Pow2(from) && Typed(ex, from) && Agree(x, ex, x', input)
    ensures Agree(ConcCast(k, from, to, x), LiftCast(k, from, to, ex), ConcCast(k, from, to, x'), input)
    ensures Typed(LiftCast(k, from, to, ex), to) && ConcCast(k, from, to, x) < Pow2(to)
  {
    hide WellSorted, Bits, IsBool, Eval, Wrap, Pow2, CastExpr, Signed;
    if ex.Some? {
      if k.TruncCast? {
        TruncValue(ex.value, from, to, input);
      } else {
        ExtendValue(k, ex.value, from, to, input);
      }
    }
    if from < to {
      Pow2Mono(from, to);
    }
  }

  // ---------- bytes of memory ----------

  /** The formula that `_sym_read_memory` accumulates from the bytes at
      increasing addresses. */
  function JoinBytes(es: seq<Expr>, littleEndian: bool): (e: Expr)
    requires es != []
  {
    var n := |es| - 1;
    if n == 0 then es[0]
    else if littleEndian then Concat(es[n], JoinBytes(es[..n], littleEndian))
    else Concat(JoinBytes(es[..n], littleEndian), es[n])
  }

  /** The byte that `_sym_write_memory` puts at address `i` of `length`. */
  function SplitByte(e: Expr, length: nat, i: nat, littleEndian: bool): (r: Expr)
    requires i < length
  {
    if littleEndian then Extract(e, 8 * (i + 1) - 1, 8 * i)
    else Extract(e, (length - i) * 8 - 1, (length - i - 1) * 8)
  }

  /** Each expression holds the byte at its position. */
  ghost predicate HoldEach(es: seq<Expr>, input: Input, bs: seq<Byte>)
  {
    |es| == |bs| && forall i :: 0 <= i < |es| ==> Holds(es[i], input, [bs[i]])
  }

  lemma {:induction false} JoinHolds(es: seq<Expr>, littleEndian: bool, input: Input, bs: seq<Byte>)
    requires es != [] && HoldEach(es, input, bs)
    ensures Holds(JoinBytes(es, littleEndian), input, Ordered(bs, littleEndian))
  {
    hide Holds;
    var n := |es| - 1;
    assert bs == bs[..n] + [bs[n]];
    if n == 0 {
      assert bs == [bs[0]] == Reverse([bs[0]]);
    } else {
      JoinHolds(es[..n], littleEndian, input, bs[..n]);
      if littleEndian {
        ConcatHolds(es[n], JoinBytes(es[..n], littleEndian), input, [bs[n]], Reverse(bs[..n]));
        ReverseSnoc(bs[..n], bs[n]);
      } else {
        ConcatHolds(JoinBytes(es[..n], littleEndian), es[n], input, bs[..n], [bs[n]]);
      }
    }
  }

  lemma {:induction false} ReverseIndex(bs: seq<Byte>, i: nat)
    requires i < |bs|
    ensures Reverse(bs)[i] == bs[|bs| - 1 - i]
  {
    if i < |bs| - 1 {
      ReverseIndex(bs[1..], i);
    }
  }

  lemma SplitHolds(e: Expr, i: nat, littleEndian: bool, input: Input, bs: seq<Byte>)
    requires Holds(e, input, bs) && i < |bs|
    ensures Holds(SplitByte(e, |bs|, i, littleEndian), input, [Ordered(bs, littleEndian)[i]])
  {
    hide Holds, Bits;
    HoldsSize(e, input, bs);
    if littleEndian {
      var j := |bs| - 1 - i;
      SliceHolds(e, j, j + 1, input, bs);
      assert bs[j..j + 1] == [bs[j]];
      ReverseIndex(bs, i);
    } else {
      SliceHolds(e, i, i + 1, input, bs);
      assert bs[i..i + 1] == [bs[i]];
    }
  }

  function SplitAll(e: Expr, length: nat, littleEndian: bool): (es: seq<Expr>)
    ensures |es| == length
  {
    seq(length, i requires 0 <= i < length => SplitByte(e, length, i, littleEndian))
  }

  lemma SplitAllHolds(e: Expr, littleEndian: bool, input: Input, bs: seq<Byte>)
    requires Holds(e, input, bs)
    ensures HoldEach(SplitAll(e, |bs|, littleEndian), input, Ordered(bs, littleEndian))
  {
    hide Holds, Ordered, SplitByte;
    forall i | 0 <= i < |bs|
      ensures Holds(SplitAll(e, |bs|, littleEndian)[i], input, [Ordered(bs, littleEndian)[i]])
    {
      SplitHolds(e, i, littleEndian, input, bs);
    }
  }
}
