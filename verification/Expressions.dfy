/** Symbolic expressions and their meaning under a program input.

    A Boolean is a one-bit value that is 0 or 1; `IsBool` keeps track of the
    separate Boolean sort that the simple backend's solver insists on. */
module Expressions {
  import opened BitVectors

  datatype Option<+T> = None | Some(value: T)

  type Input = seq<Byte>

  datatype BinOp = Add | Sub | Mul | UDiv | SDiv | URem | SRem
                 | Shl | LShr | AShr | And | Or | Xor

  datatype Pred = Eq | Ne | Ult | Ule | Ugt | Uge | Slt | Sle | Sgt | Sge

  datatype Expr =
    | InputByte(offset: nat)
    | Integer(value: nat, bits: nat)
    | BoolConst(b: bool)
    | Binary(op: BinOp, a: Expr, b': Expr)
    | BoolBinary(op: BinOp, a: Expr, b': Expr)
    | Compare(pred: Pred, a: Expr, b': Expr)
    | LNot(a: Expr)
    | Ite(cond: Expr, a: Expr, b': Expr)
    | Concat(a: Expr, b': Expr)
    | Extract(a: Expr, hi: nat, lo: nat)
    | SExt(a: Expr, extra: nat)
    | ZExt(a: Expr, extra: nat)

  type SymExpr = Option<Expr>

  function Bits(e: Expr): (n: nat)
  {
    match e
    case InputByte(_) => 8
    case Integer(_, bits) => bits
    case BoolConst(_) => 1
    case Binary(_, a, _) => Bits(a)
    case BoolBinary(_, _, _) => 1
    case Compare(_, _, _) => 1
    case LNot(_) => 1
    case Ite(_, a, _) => Bits(a)
    case Concat(a, b) => Bits(a) + Bits(b)
    case Extract(_, hi, lo) => if lo <= hi then hi - lo + 1 else 0
    case SExt(a, extra) => Bits(a) + extra
    case ZExt(a, extra) => Bits(a) + extra
  }

  predicate IsBool(e: Expr)
  {
    match e
    case BoolConst(_) => true
    case BoolBinary(_, _, _) => true
    case Compare(_, _, _) => true
    case LNot(_) => true
    case Ite(_, a, _) => IsBool(a)
    case _ => false
  }

  /** The sort rules that the solver enforces on every builder call. */
  predicate WellSorted(e: Expr)
  {
    match e
    case InputByte(_) => true
    case Integer(_, bits) => bits >= 1
    case BoolConst(_) => true
    case Binary(_, a, b) =>
      WellSorted(a) && WellSorted(b) && !IsBool(a) && !IsBool(b) && Bits(a) == Bits(b)
    case BoolBinary(op, a, b) =>
      WellSorted(a) && WellSorted(b) && IsBool(a) && IsBool(b) && (op.And? || op.Or? || op.Xor?)
    case Compare(p, a, b) =>
      WellSorted(a) && WellSorted(b) && Bits(a) == Bits(b) && IsBool(a) == IsBool(b)
      && (IsBool(a) ==> p.Eq? || p.Ne?)
    case LNot(a) => WellSorted(a) && IsBool(a)
    case Ite(c, a, b) =>
      WellSorted(c) && WellSorted(a) && WellSorted(b)
      && IsBool(c) && IsBool(a) == IsBool(b) && Bits(a) == Bits(b)
    case Concat(a, b) => WellSorted(a) && WellSorted(b) && !IsBool(a) && !IsBool(b)
    case Extract(a, hi, lo) => WellSorted(a) && !IsBool(a) && lo <= hi < Bits(a)
    case SExt(a, _) => WellSorted(a) && !IsBool(a)
    case ZExt(a, _) => WellSorted(a) && !IsBool(a)
  }

  function TruncDiv(a: int, b: int): (q: int)
    requires b != 0
  {
    if a >= 0 then a / b else -((-a) / b)
  }

  function BitwiseBit(op: BinOp, x: bool, y: bool): (r: nat)
    ensures r < 2
  {
    if (match op case And => x && y case Or => x || y case _ => x != y) then 1 else 0
  }

  function Bitwise(op: BinOp, w: nat, x: nat, y: nat): (r: nat)
    ensures r < Pow2(w)
  {
    if w == 0 then 0
    else 2 * Bitwise(op, w - 1, x / 2, y / 2) + BitwiseBit(op, x % 2 == 1, y % 2 == 1)
  }

  /** The SMT-LIB meaning of the binary operators at width `w`. */
  function BinVal(op: BinOp, w: nat, x: nat, y: nat): (r: nat)
    ensures r < Pow2(w)
  {
    match op
    case Add => Wrap(w, x + y)
    case Sub => Wrap(w, x - y)
    case Mul => Wrap(w, x * y)
    case UDiv => if y == 0 then Pow2(w) - 1 else Wrap(w, x / y)
    case URem => if y == 0 then Wrap(w, x) else Wrap(w, x % y)
    case SDiv =>
      var a, b := Signed(w, x), Signed(w, y);
      if b == 0 then Wrap(w, if a < 0 then 1 else -1) else Wrap(w, TruncDiv(a, b))
    case SRem =>
      var a, b := Signed(w, x), Signed(w, y);
      if b == 0 then Wrap(w, x) else Wrap(w, a - b * TruncDiv(a, b))
    case Shl => if y >= w then 0 else Wrap(w, x * Pow2(y))
    case LShr => if y >= w then 0 else Wrap(w, x / Pow2(y))
    case AShr => if y >= w then Wrap(w, if Signed(w, x) < 0 then -1 else 0) else Wrap(w, Signed(w, x) / Pow2(y))
    case _ => Bitwise(op, w, x, y)
  }

  predicate CmpVal(p: Pred, w: nat, x: int, y: int)
  {
    match p
    case Eq => x == y
    case Ne => x != y
    case Ult => x < y
    case Ule => x <= y
    case Ugt => x > y
    case Uge => x >= y
    case Slt => Signed(w, x) < Signed(w, y)
    case Sle => Signed(w, x) <= Signed(w, y)
    case Sgt => Signed(w, x) > Signed(w, y)
    case Sge => Signed(w, x) >= Signed(w, y)
  }

  function BitOf(b: bool): (r: nat)
  {
    if b then 1 else 0
  }

  function ExtractVal(x: nat, hi: nat, lo: nat): (r: nat)
    ensures lo <= hi ==> r < Pow2(hi - lo + 1)
  {
    if lo <= hi then Wrap(hi - lo + 1, x / Pow2(lo)) else 0
  }

  function Eval(e: Expr, input: Input): (v: nat)
  {
    match e
    case InputByte(k) => if k < |input| then input[k] else 0
    case Integer(n, bits) => Wrap(bits, n)
    case BoolConst(b) => BitOf(b)
    case Binary(op, a, b) => BinVal(op, Bits(a), Eval(a, input), Eval(b, input))
    case BoolBinary(op, a, b) => BitwiseBit(op, Eval(a, input) == 1, Eval(b, input) == 1)
    case Compare(p, a, b) => BitOf(CmpVal(p, Bits(a), Eval(a, input), Eval(b, input)))
    case LNot(a) => BitOf(Eval(a, input) == 0)
    case Ite(c, a, b) => if Eval(c, input) != 0 then Eval(a, input) else Eval(b, input)
    case Concat(a, b) => Eval(a, input) * Pow2(Bits(b)) + Eval(b, input)
    case Extract(a, hi, lo) => ExtractVal(Eval(a, input), hi, lo)
    case SExt(a, extra) => Wrap(Bits(a) + extra, Signed(Bits(a), Eval(a, input)))
    case ZExt(a, extra) => Eval(a, input)
  }

  predicate Truth(e: Expr, input: Input)
  {
    Eval(e, input) != 0
  }

  lemma ConcatRange(wa: nat, wb: nat, x: nat, y: nat)
    requires x < Pow2(wa) && y < Pow2(wb)
    ensures x * Pow2(wb) + y < Pow2(wa + wb)
  {
    Pow2Add(wa, wb);
    assert (Pow2(wa) - x) * Pow2(wb) >= Pow2(wb) by { MulGap(Pow2(wa) - x, Pow2(wb)); }
    assert (Pow2(wa) - x) * Pow2(wb) == Pow2(wa) * Pow2(wb) - x * Pow2(wb);
  }

  /** A well-sorted expression denotes a bit vector of its own width. */
  lemma {:induction false} EvalRange(e: Expr, input: Input)
    requires WellSorted(e)
    ensures Eval(e, input) < Pow2(Bits(e))
    ensures Bits(e) >= 1
    ensures IsBool(e) ==> Bits(e) == 1
  {
    Pow2Eight();
    match e
    case InputByte(_) =>
    case Integer(_, _) =>
    case BoolConst(_) =>
    case Binary(_, a, b) => EvalRange(a, input);
    case BoolBinary(_, a, b) =>
    case Compare(_, a, b) =>
    case LNot(a) =>
    case Ite(c, a, b) => EvalRange(a, input); EvalRange(b, input);
    case Concat(a, b) =>
      EvalRange(a, input); EvalRange(b, input);
      ConcatRange(Bits(a), Bits(b), Eval(a, input), Eval(b, input));
    case Extract(a, hi, lo) =>
    case SExt(a, extra) => EvalRange(a, input);
    case ZExt(a, extra) => EvalRange(a, input); Pow2Mono(Bits(a), Bits(e));
  }

  /** A bit vector, as opposed to a Boolean. */
  predicate IsVector(e: Expr)
  {
    WellSorted(e) && !IsBool(e)
  }

  /** Two bit vectors of the same width. */
  predicate SameWidth(a: Expr, b: Expr)
  {
    IsVector(a) && IsVector(b) && Bits(a) == Bits(b)
  }

  predicate IsCondition(e: Expr)
  {
    WellSorted(e) && IsBool(e)
  }

  /** One unfolding of the sort rules and of the meaning, node by node. */
  lemma BinaryNode(op: BinOp, a: Expr, b: Expr, input: Input)
    requires SameWidth(a, b)
    ensures SameWidth(Binary(op, a, b), a)
    ensures Eval(Binary(op, a, b), input) == BinVal(op, Bits(a), Eval(a, input), Eval(b, input))
  {
  }

  lemma CompareNode(p: Pred, a: Expr, b: Expr, input: Input)
    requires SameWidth(a, b)
    ensures IsCondition(Compare(p, a, b)) && Bits(Compare(p, a, b)) == 1
    ensures Eval(Compare(p, a, b), input) == BitOf(CmpVal(p, Bits(a), Eval(a, input), Eval(b, input)))
  {
  }

  lemma IteNode(c: Expr, a: Expr, b: Expr, input: Input)
    requires IsCondition(c) && SameWidth(a, b)
    ensures SameWidth(Ite(c, a, b), a)
    ensures Eval(Ite(c, a, b), input) == if Eval(c, input) != 0 then Eval(a, input) else Eval(b, input)
  {
  }

  lemma IntegerNode(n: nat, w: nat, input: Input)
    requires w >= 1 && n < Pow2(w)
    ensures IsVector(Integer(n, w)) && Bits(Integer(n, w)) == w && Eval(Integer(n, w), input) == n
  {
    WrapSmall(w, n);
  }

  lemma ZExtNode(a: Expr, extra: nat, input: Input)
    requires IsVector(a)
    ensures IsVector(ZExt(a, extra)) && Bits(ZExt(a, extra)) == Bits(a) + extra
    ensures Eval(ZExt(a, extra), input) == Eval(a, input)
  {
  }

  lemma SExtNode(a: Expr, extra: nat, input: Input)
    requires IsVector(a)
    ensures IsVector(SExt(a, extra)) && Bits(SExt(a, extra)) == Bits(a) + extra
    ensures Eval(SExt(a, extra), input) == Wrap(Bits(a) + extra, Signed(Bits(a), Eval(a, input)))
  {
  }

  lemma ExtractNode(a: Expr, hi: nat, lo: nat, input: Input)
    requires IsVector(a) && lo <= hi < Bits(a)
    ensures IsVector(Extract(a, hi, lo)) && Bits(Extract(a, hi, lo)) == hi - lo + 1
    ensures Eval(Extract(a, hi, lo), input) == ExtractVal(Eval(a, input), hi, lo)
  {
  }

  lemma ConcatNode(a: Expr, b: Expr, input: Input)
    requires IsVector(a) && IsVector(b)
    ensures IsVector(Concat(a, b)) && Bits(Concat(a, b)) == Bits(a) + Bits(b)
    ensures Eval(Concat(a, b), input) == Eval(a, input) * Pow2(Bits(b)) + Eval(b, input)
  {
  }

  /** `_sym_build_bit_to_bool` on a present expression. */
  function BitToBool(e: Expr): (r: Expr)
  {
    Compare(Ne, e, Integer(0, Bits(e)))
  }

  lemma BitToBoolNode(e: Expr, input: Input)
    requires IsVector(e)
    ensures IsCondition(BitToBool(e)) && Eval(BitToBool(e), input) == BitOf(Eval(e, input) != 0)
  {
    EvalRange(e, input);
    IntegerNode(0, Bits(e), input);
  }

  /** A Boolean read from memory: one bit of the byte, as a truth value. */
  function ByteToBool(e: Expr): (r: Expr)
  {
    BitToBool(Extract(e, 0, 0))
  }

  lemma ByteToBoolNode(e: Expr, input: Input)
    requires IsVector(e) && Bits(e) == 8
    ensures IsCondition(ByteToBool(e)) && Eval(ByteToBool(e), input) == Eval(e, input) % 2
  {
    ExtractNode(e, 0, 0, input);
    BitToBoolNode(Extract(e, 0, 0), input);
    assert Pow2(0) == 1 && Pow2(1) == 2;
  }

  /** `_sym_build_bool_to_bit` on a present expression. */
  function BoolToBit(e: Expr): (r: Expr)
  {
    Ite(e, Integer(1, 1), Integer(0, 1))
  }

  lemma BoolToBitNode(e: Expr, input: Input)
    requires IsCondition(e)
    ensures IsVector(BoolToBit(e)) && Bits(BoolToBit(e)) == 1
    ensures Eval(BoolToBit(e), input) == BitOf(Eval(e, input) != 0)
  {
    IntegerNode(1, 1, input);
    IntegerNode(0, 1, input);
  }
}
