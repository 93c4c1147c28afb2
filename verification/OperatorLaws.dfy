/** What the operators of expressions mean, bit by bit and in integer
    arithmetic: the laws that the SMT-LIB theory FixedSizeBitVectors and the
    instructions of the LLVM Language Reference promise. */
module OperatorLaws {
  import opened BitVectors
  import opened Expressions
  import opened Lifting

  /** Bit `i` of the two's complement representation. */
  predicate BitAt(x: int, i: nat)
  {
    x / Pow2(i) % 2 == 1
  }

  // ---------- bits ----------

  lemma HalfThenDivide(x: int, p: int)
    requires p >= 1
    ensures x / (2 * p) == x / 2 / p
  {
    var h := x / 2;
    var q, r := h / p, h % p;
    assert x == 2 * h + x % 2 && h == q * p + r;
    assert q * (2 * p) == 2 * (q * p);
    DivModUnique(x, 2 * p, q, 2 * r + x % 2);
  }

  lemma BitNext(x: int, i: nat)
    ensures BitAt(x, i + 1) <==> BitAt(x / 2, i)
  {
    HalfThenDivide(x, Pow2(i));
  }

  lemma BitZero(x: int)
    ensures BitAt(x, 0) <==> x % 2 == 1
  {
  }

  /** Dividing by a power of two shifts the bits down. */
  lemma {:induction false} BitsDown(x: int, k: nat, i: nat)
    ensures BitAt(x / Pow2(k), i) <==> BitAt(x, i + k)
    decreases k
  {
    hide BitAt;
    if k == 0 {
      Over1(x);
    } else {
      HalfThenDivide(x, Pow2(k - 1));
      BitsDown(x / 2, k - 1, i);
      BitNext(x, i + k - 1);
    }
  }

  lemma Over1(x: int)
    ensures x / Pow2(0) == x
  {
  }

  /** Multiplying by a power of two shifts the bits up. */
  lemma {:induction false} BitsUp(x: int, k: nat, i: nat)
    ensures BitAt(x * Pow2(k), i) <==> i >= k && BitAt(x, i - k)
    decreases k
  {
    hide BitAt;
    if k == 0 {
      assert x * Pow2(0) == x;
    } else {
      var z := x * Pow2(k - 1);
      assert x * Pow2(k) == 2 * z;
      if i == 0 {
        BitZero(2 * z);
      } else {
        BitNext(2 * z, i - 1);
        BitsUp(x, k - 1, i - 1);
      }
    }
  }

  lemma WrapHalf(w: nat, x: int)
    requires w >= 1
    ensures Wrap(w, x) % 2 == x % 2 && Wrap(w, x) / 2 == Wrap(w - 1, x / 2)
  {
    var p, h := Pow2(w - 1), x / 2;
    var q, r := h / p, h % p;
    assert x == 2 * h + x % 2 && h == q * p + r;
    assert q * (2 * p) == 2 * (q * p);
    WrapIs(w, x, q, 2 * r + x % 2);
  }

  /** Wrapping keeps the low bits. */
  lemma {:induction false} BitsKept(w: nat, x: int, i: nat)
    requires i < w
    ensures BitAt(Wrap(w, x), i) <==> BitAt(x, i)
  {
    hide BitAt, Wrap;
    WrapHalf(w, x);
    if i == 0 {
      BitZero(x);
      BitZero(Wrap(w, x));
    } else {
      BitNext(x, i - 1);
      BitNext(Wrap(w, x), i - 1);
      BitsKept(w - 1, x / 2, i - 1);
    }
  }

  lemma NoHighBit(x: nat, i: nat)
    requires x < Pow2(i)
    ensures !BitAt(x, i)
  {
    DivModUnique(x, Pow2(i), 0, x);
  }

  /** The sign is the top bit, and repeats above it. */
  lemma SignBits(w: nat, x: nat, i: nat)
    requires w >= 1 && x < Pow2(w)
    ensures BitAt(Signed(w, x), i) <==> BitAt(x, if i < w then i else w - 1)
    ensures BitAt(x, w - 1) <==> Signed(w, x) < 0
  {
    var s, p := Signed(w, x), Pow2(w - 1);
    SignedRange(w, x);
    if s >= 0 {
      DivModUnique(x, p, 0, x);
    } else {
      DivModUnique(x, p, 1, x - p);
    }
    if i < w {
      BitsKept(w, s, i);
    } else {
      Pow2Mono(w, i);
      DivModUnique(s, Pow2(i), if s >= 0 then 0 else -1, if s >= 0 then s else s + Pow2(i));
    }
  }

  /** Numbers with the same bits are equal. */
  lemma {:induction false} SameBits(w: nat, x: nat, y: nat)
    requires x < Pow2(w) && y < Pow2(w) && forall i :: 0 <= i < w ==> (BitAt(x, i) <==> BitAt(y, i))
    ensures x == y
  {
    hide BitAt;
    if w > 0 {
      BitZero(x);
      BitZero(y);
      forall i | 0 <= i < w - 1
        ensures BitAt(x / 2, i) <==> BitAt(y / 2, i)
      {
        BitNext(x, i);
        BitNext(y, i);
      }
      assert BitAt(x, 0) <==> BitAt(y, 0);
      SameBits(w - 1, x / 2, y / 2);
    }
  }

  // ---------- the logical operators and shifts ----------

  lemma {:induction false} BitwiseAt(op: BinOp, w: nat, x: nat, y: nat, i: nat)
    requires i < w
    ensures BitAt(Bitwise(op, w, x, y), i) <==> BitwiseBit(op, BitAt(x, i), BitAt(y, i)) == 1
  {
    hide BitAt, BitwiseBit;
    var r := Bitwise(op, w, x, y);
    if i == 0 {
      BitZero(x);
      BitZero(y);
      BitZero(r);
    } else {
      BitwiseAt(op, w - 1, x / 2, y / 2, i - 1);
      BitNext(x, i - 1);
      BitNext(y, i - 1);
      BitNext(r, i - 1);
    }
  }

  /** The logical operators work bit by bit. */
  lemma LogicalBits(w: nat, x: nat, y: nat, i: nat)
    requires i < w
    ensures BitAt(BinVal(And, w, x, y), i) <==> BitAt(x, i) && BitAt(y, i)
    ensures BitAt(BinVal(Or, w, x, y), i) <==> BitAt(x, i) || BitAt(y, i)
    ensures BitAt(BinVal(Xor, w, x, y), i) <==> BitAt(x, i) != BitAt(y, i)
  {
    hide BitAt;
    BitwiseAt(And, w, x, y, i);
    BitwiseAt(Or, w, x, y, i);
    BitwiseAt(Xor, w, x, y, i);
  }

  /** Shifts move the bits; the arithmetic one repeats the sign. */
  lemma ShiftBits(w: nat, x: nat, y: nat, i: nat)
    requires i < w && x < Pow2(w)
    ensures BitAt(BinVal(Shl, w, x, y), i) <==> i >= y && BitAt(x, i - y)
    ensures BitAt(BinVal(LShr, w, x, y), i) <==> i + y < w && BitAt(x, i + y)
    ensures BitAt(BinVal(AShr, w, x, y), i) <==> BitAt(x, if i + y < w then i + y else w - 1)
  {
    hide BitAt, Wrap, Signed;
    var s := Signed(w, x);
    SignBits(w, x, i + y);
    if y < w {
      BitsKept(w, x * Pow2(y), i);
      BitsUp(x, y, i);
      BitsKept(w, x / Pow2(y), i);
      BitsDown(x, y, i);
      if i + y >= w {
        Pow2Mono(w, i + y);
        NoHighBit(x, i + y);
      }
      BitsKept(w, s / Pow2(y), i);
      BitsDown(s, y, i);
    } else {
      NoBits(i);
      BitsKept(w, -1, i);
      BitsKept(w, 0, i);
    }
  }

  lemma NoBits(i: nat)
    ensures !BitAt(0, i) && BitAt(-1, i)
  {
    DivModUnique(0, Pow2(i), 0, 0);
    DivModUnique(-1, Pow2(i), -1, Pow2(i) - 1);
  }

  // ---------- arithmetic ----------

  /** Sums, differences and products are right modulo two to the width. */
  lemma ArithmeticLaws(w: nat, x: nat, y: nat) returns (j: int, k: int, l: int)
    ensures BinVal(Add, w, x, y) + j * Pow2(w) == x + y
    ensures BinVal(Sub, w, x, y) + k * Pow2(w) == x - y
    ensures BinVal(Mul, w, x, y) + l * Pow2(w) == x * y
  {
    j := WrapQuotient(w, x + y);
    k := WrapQuotient(w, x - y);
    l := WrapQuotient(w, x * y);
  }

  /** Unsigned division: the quotient leaves a remainder below the divisor. By
      zero, every bit of the quotient is set and the dividend remains. */
  lemma UnsignedDivision(w: nat, x: nat, y: nat)
    requires x < Pow2(w) && y < Pow2(w)
    ensures y != 0 ==> x == y * BinVal(UDiv, w, x, y) + BinVal(URem, w, x, y) && BinVal(URem, w, x, y) < y
    ensures y == 0 ==> BinVal(UDiv, w, x, y) == Pow2(w) - 1 && BinVal(URem, w, x, y) == x
  {
    WrapSmall(w, x);
    if y != 0 {
      QuotientSmaller(x, y);
      WrapSmall(w, x / y);
      WrapSmall(w, x % y);
    }
  }

  lemma QuotientSmaller(x: nat, y: nat)
    requires y > 0
    ensures 0 <= x / y <= x && x == y * (x / y) + x % y && x % y <= x
  {
    MulMono(x / y, 1, y);
  }

  /** The quotient of the absolute values, with the sign of the product. */
  lemma TruncDivIs(a: int, b: int)
    requires b != 0
    ensures TruncDiv(a, b) == if (a < 0) == (b < 0) then Abs(a) / Abs(b) else -(Abs(a) / Abs(b))
  {
    if b < 0 {
      DivideByNegative(Abs(a), b);
    }
  }

  lemma TruncatedDivision(a: int, b: int)
    requires b != 0
    ensures var q := TruncDiv(a, b);
      var r := a - b * q;
      Abs(r) < Abs(b) && (r == 0 || (r < 0 <==> a < 0)) && Abs(q) <= Abs(a)
      && (Abs(b) != 1 && a != 0 ==> Abs(q) < Abs(a)) && (Abs(b) == 1 ==> q == a * b)
  {
    hide TruncDiv;
    TruncDivIs(a, b);
    AbsDivision(Abs(a), Abs(b));
    var q: int := Abs(a) / Abs(b);
    Negated(b, q);
  }

  lemma AbsDivision(m: nat, d: nat)
    requires d > 0
    ensures m == d * (m / d) + m % d && 0 <= m % d < d && 0 <= m / d <= m && (d > 1 && m > 0 ==> m / d < m)
  {
    QuotientSmaller(m, d);
    if d > 1 {
      MulMono(m / d, 2, d);
    }
  }

  lemma Negated(b: int, q: int)
    ensures b * -q == -(b * q) && -b * q == -(b * q) && -b * -q == b * q
  {
  }

  function Abs(x: int): (r: nat)
  {
    if x < 0 then -x else x
  }

  lemma DivideByNegative(a: int, b: int)
    requires a >= 0 && b < 0
    ensures a / b == -(a / -b)
  {
    var q, r := a / -b, a % -b;
    assert a == q * -b + r && q * -b == -q * b;
    EuclideanUnique(a, b, -q, r);
  }

  lemma EuclideanUnique(a: int, b: int, q: int, r: int)
    requires b < 0 && a == q * b + r && 0 <= r < -b
    ensures a / b == q
  {
    var q', r' := a / b, a % b;
    assert q' * b == -q' * -b && q * b == -q * -b;
    QuotientUnique(-b, -q', r', -q, r);
  }

  /** Signed division truncates toward zero: the remainder is smaller than the
      divisor and has the sign of the dividend. It holds unless the quotient
      does not fit, which is only so for the least number by -1. */
  lemma SignedDivision(w: nat, x: nat, y: nat)
    requires w >= 1 && x < Pow2(w) && y < Pow2(w) && y != 0
    requires !(x == Pow2(w - 1) && y == Pow2(w) - 1)
    ensures var a, b := Signed(w, x), Signed(w, y);
      var q, r := Signed(w, BinVal(SDiv, w, x, y)), Signed(w, BinVal(SRem, w, x, y));
      a == b * q + r && Abs(r) < Abs(b) && (r == 0 || (r < 0 <==> a < 0))
  {
    hide Wrap, TruncDiv;
    var a, b := Signed(w, x), Signed(w, y);
    SignedRange(w, x);
    SignedRange(w, y);
    TruncatedDivision(a, b);
    assert Pow2(w) == 2 * Pow2(w - 1);
    SignedOfWrap(w, TruncDiv(a, b));
    SignedOfWrap(w, a - b * TruncDiv(a, b));
  }

  /** Signed division by zero, and the one quotient that does not fit. */
  lemma SignedDivisionEdges(w: nat, x: nat)
    requires w >= 1 && x < Pow2(w)
    ensures BinVal(SDiv, w, x, 0) == (if Signed(w, x) < 0 then 1 else Pow2(w) - 1) && BinVal(SRem, w, x, 0) == x
    ensures BinVal(SDiv, w, Pow2(w - 1), Pow2(w) - 1) == Pow2(w - 1)
    ensures BinVal(SRem, w, Pow2(w - 1), Pow2(w) - 1) == 0
  {
    var least := Pow2(w - 1);
    WrapSmall(w, x);
    WrapSmall(w, least);
    WrapSmall(w, 0);
    WrapIs(w, -1, -1, Pow2(w) - 1);
    if w > 1 {
      WrapSmall(w, 1);
    }
    TruncatedDivision(-least, -1);
  }

  // ---------- comparisons ----------

  /** Some bit decides: it is set in `y` only, and all higher bits agree. */
  ghost predicate LessByBits(w: nat, x: nat, y: nat)
  {
    exists i :: 0 <= i < w && Decides(w, x, y, i)
  }

  predicate Decides(w: nat, x: nat, y: nat, i: nat)
  {
    !BitAt(x, i) && BitAt(y, i) && forall j :: i < j < w ==> (BitAt(x, j) <==> BitAt(y, j))
  }

  lemma DecidesNext(w: nat, x: nat, y: nat, i: nat)
    requires w >= 1
    ensures Decides(w, x, y, i + 1) <==> Decides(w - 1, x / 2, y / 2, i)
  {
    hide BitAt;
    BitNext(x, i);
    BitNext(y, i);
    forall j | 0 <= j
      ensures BitAt(x, j + 1) <==> BitAt(x / 2, j)
      ensures BitAt(y, j + 1) <==> BitAt(y / 2, j)
    {
      BitNext(x, j);
      BitNext(y, j);
    }
    if Decides(w, x, y, i + 1) {
      forall j | i < j < w - 1
        ensures BitAt(x / 2, j) <==> BitAt(y / 2, j)
      {
        assert BitAt(x, j + 1) <==> BitAt(y, j + 1);
      }
    }
    if Decides(w - 1, x / 2, y / 2, i) {
      forall j | i + 1 < j < w
        ensures BitAt(x, j) <==> BitAt(y, j)
      {
        assert BitAt(x / 2, j - 1) <==> BitAt(y / 2, j - 1);
        BitNext(x, j - 1);
        BitNext(y, j - 1);
      }
    }
  }

  lemma {:induction false} LessMeansBits(w: nat, x: nat, y: nat)
    requires x < Pow2(w) && y < Pow2(w)
    ensures x < y <==> LessByBits(w, x, y)
  {
    hide BitAt, Decides;
    if w > 0 {
      LessMeansBits(w - 1, x / 2, y / 2);
      LowBitDecides(w, x, y);
      if i :| 0 <= i < w && Decides(w, x, y, i) {
        if i > 0 {
          DecidesNext(w, x, y, i - 1);
        }
      }
      if LessByBits(w - 1, x / 2, y / 2) {
        HigherBitDecides(w, x, y);
      }
    }
  }

  lemma HigherBitDecides(w: nat, x: nat, y: nat)
    requires w >= 1 && LessByBits(w - 1, x / 2, y / 2)
    ensures LessByBits(w, x, y)
  {
    hide BitAt, Decides;
    var v, x', y' := w - 1, x / 2, y / 2;
    var i :| 0 <= i < v && Decides(v, x', y', i);
    DecidesNext(w, x, y, i);
  }

  lemma LowBitDecides(w: nat, x: nat, y: nat)
    requires w >= 1 && x < Pow2(w) && y < Pow2(w)
    ensures Decides(w, x, y, 0) <==> x / 2 == y / 2 && x % 2 < y % 2
  {
    hide BitAt;
    BitZero(x);
    BitZero(y);
    if Decides(w, x, y, 0) {
      forall i | 0 <= i < w - 1
        ensures BitAt(x / 2, i) <==> BitAt(y / 2, i)
      {
        BitNext(x, i);
        BitNext(y, i);
        assert BitAt(x, i + 1) <==> BitAt(y, i + 1);
      }
      SameBits(w - 1, x / 2, y / 2);
    }
    if x / 2 == y / 2 {
      forall j | 0 < j < w
        ensures BitAt(x, j) <==> BitAt(y, j)
      {
        BitNext(x, j - 1);
        BitNext(y, j - 1);
      }
    }
  }

  /** Equality is equality of all bits; the unsigned order is decided by the
      highest bit that differs, the signed one by the sign first. */
  lemma OrderLaws(w: nat, x: nat, y: nat)
    requires w >= 1 && x < Pow2(w) && y < Pow2(w)
    ensures CmpVal(Eq, w, x, y) <==> forall i :: 0 <= i < w ==> (BitAt(x, i) <==> BitAt(y, i))
    ensures CmpVal(Ult, w, x, y) <==> LessByBits(w, x, y)
    ensures CmpVal(Slt, w, x, y) <==>
      if BitAt(x, w - 1) == BitAt(y, w - 1) then LessByBits(w, x, y) else BitAt(x, w - 1)
  {
    hide BitAt, LessByBits;
    LessMeansBits(w, x, y);
    SignBits(w, x, 0);
    SignBits(w, y, 0);
    if forall i :: 0 <= i < w ==> (BitAt(x, i) <==> BitAt(y, i)) {
      SameBits(w, x, y);
    }
    SignedRange(w, x);
    SignedRange(w, y);
  }

  /** The other predicates follow from equality and the strict orders. */
  lemma PredicateLaws(w: nat, x: nat, y: nat)
    ensures CmpVal(Ne, w, x, y) <==> !CmpVal(Eq, w, x, y)
    ensures CmpVal(Ugt, w, x, y) <==> CmpVal(Ult, w, y, x)
    ensures CmpVal(Uge, w, x, y) <==> !CmpVal(Ult, w, x, y)
    ensures CmpVal(Ule, w, x, y) <==> !CmpVal(Ult, w, y, x)
    ensures CmpVal(Sgt, w, x, y) <==> CmpVal(Slt, w, y, x)
    ensures CmpVal(Sge, w, x, y) <==> !CmpVal(Slt, w, x, y)
    ensures CmpVal(Sle, w, x, y) <==> !CmpVal(Slt, w, y, x)
  {
  }

  // ---------- the other nodes ----------

  /** Extraction, concatenation and extension move bits. */
  lemma NodeBits(a: Expr, b: Expr, hi: nat, lo: nat, extra: nat, i: nat, input: Input)
    requires IsVector(a) && IsVector(b) && lo <= hi < Bits(a)
    ensures i <= hi - lo ==> (BitAt(Eval(Extract(a, hi, lo), input), i) <==> BitAt(Eval(a, input), i + lo))
    ensures BitAt(Eval(Concat(a, b), input), i)
      <==> if i < Bits(b) then BitAt(Eval(b, input), i) else BitAt(Eval(a, input), i - Bits(b))
    ensures BitAt(Eval(ZExt(a, extra), input), i) <==> i < Bits(a) && BitAt(Eval(a, input), i)
    ensures i < Bits(a) + extra ==>
      (BitAt(Eval(SExt(a, extra), input), i) <==> BitAt(Eval(a, input), if i < Bits(a) then i else Bits(a) - 1))
  {
    hide Eval, WellSorted, IsBool, BitAt, Wrap, Signed, Pow2;
    var x, y, wa, wb := Eval(a, input), Eval(b, input), Bits(a), Bits(b);
    EvalRange(a, input);
    EvalRange(b, input);
    ExtractNode(a, hi, lo, input);
    if i <= hi - lo {
      BitsKept(hi - lo + 1, x / Pow2(lo), i);
      BitsDown(x, lo, i);
    }
    ConcatNode(a, b, input);
    WrapIs(wb, x * Pow2(wb) + y, x, y);
    DivModUnique(x * Pow2(wb) + y, Pow2(wb), x, y);
    if i < wb {
      BitsKept(wb, x * Pow2(wb) + y, i);
    } else {
      BitsDown(x * Pow2(wb) + y, wb, i - wb);
    }
    ZExtNode(a, extra, input);
    if i >= wa {
      Pow2Mono(wa, i);
      NoHighBit(x, i);
    }
    SExtNode(a, extra, input);
    if i < wa + extra {
      BitsKept(wa + extra, Signed(wa, x), i);
      SignBits(wa, x, i);
    }
  }

  /** The Boolean builders are the connectives, and the logical operators of
      one bit. */
  lemma BooleanNodes(a: Expr, b: Expr, input: Input)
    requires IsCondition(a) && IsCondition(b)
    ensures Truth(BoolBinary(And, a, b), input) <==> Truth(a, input) && Truth(b, input)
    ensures Truth(BoolBinary(Or, a, b), input) <==> Truth(a, input) || Truth(b, input)
    ensures Truth(BoolBinary(Xor, a, b), input) <==> Truth(a, input) != Truth(b, input)
    ensures Truth(LNot(a), input) <==> !Truth(a, input)
    ensures Truth(Compare(Eq, a, b), input) <==> (Truth(a, input) <==> Truth(b, input))
    ensures Truth(Compare(Ne, a, b), input) <==> Truth(a, input) != Truth(b, input)
  {
    EvalRange(a, input);
    EvalRange(b, input);
    Pow2Eight();
  }

  lemma OneBitLogic(op: BinOp, x: nat, y: nat)
    requires x < 2 && y < 2 && (op.And? || op.Or? || op.Xor?)
    ensures ConcBinary(op, 1, x, y) == BinVal(op, 1, x, y)
  {
    assert Bitwise(op, 0, x / 2, y / 2) == 0;
  }

  /** Casts keep the unsigned value, the signed value, or the low bits. */
  lemma CastLaws(from: nat, to: nat, x: nat, i: nat)
    requires 1 <= from && x < Pow2(from)
    ensures ConcCast(ZExtCast, from, to, x) == x
    ensures from < to ==> Signed(to, ConcCast(SExtCast, from, to, x)) == Signed(from, x)
    ensures i < to ==> (BitAt(ConcCast(TruncCast, from, to, x), i) <==> BitAt(x, i))
  {
    hide BitAt, Wrap, Pow2;
    if from < to {
      SignedRange(from, x);
      Pow2Mono(from - 1, to - 1);
      SignedOfWrap(to, Signed(from, x));
    }
    if i < to {
      BitsKept(to, x, i);
    }
  }
}
