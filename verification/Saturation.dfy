/** Integers with saturation: the composite expressions built from the
    primitive builders, and the clamped true results that the section
    "Saturation Arithmetic Intrinsics" of the LLVM Language Reference asks for. */
module Saturation {
  import opened BitVectors
  import opened Expressions

  function SignedValue(e: Expr, input: Input): (s: int)
  {
    Signed(Bits(e), Eval(e, input))
  }

  function MinSigned(w: nat): (m: int)
  {
    if w == 0 then 0 else -Pow2(w - 1)
  }

  function MaxSigned(w: nat): (m: int)
  {
    if w == 0 then 0 else Pow2(w - 1) - 1
  }

  function Clamp(lo: int, hi: int, x: int): (r: int)
  {
    if x < lo then lo else if x > hi then hi else x
  }

  function Distance(x: int, y: int): (d: nat)
  {
    if x < y then y - x else x - y
  }

  /** No number between the limits is nearer. */
  lemma ClampNearest(lo: int, hi: int, x: int, y: int)
    requires lo <= y <= hi
    ensures var r := Clamp(lo, hi, x);
      lo <= r <= hi && Distance(x, r) <= Distance(x, y)
  {
  }

  /** The widths for which the 64-bit literals of the helpers are defined. */
  predicate HelperWidth(w: nat)
  {
    1 <= w < 64
  }

  function BuildMinSignedInt(bits: nat): (e: Expr)
    requires HelperWidth(bits)
  {
    Integer(Pow2(bits - 1), bits)
  }

  function BuildMaxSignedInt(bits: nat): (e: Expr)
    requires HelperWidth(bits)
  {
    var mask := Pow2(bits) - 1;
    Integer(mask / 2, bits)
  }

  function BuildMaxUnsignedInt(bits: nat): (e: Expr)
    requires HelperWidth(bits)
  {
    var mask := Pow2(bits) - 1;
    Integer(mask, bits)
  }

  lemma LimitValues(w: nat, input: Input)
    requires HelperWidth(w)
    ensures IsVector(BuildMinSignedInt(w)) && Bits(BuildMinSignedInt(w)) == w
    ensures IsVector(BuildMaxSignedInt(w)) && Bits(BuildMaxSignedInt(w)) == w
    ensures IsVector(BuildMaxUnsignedInt(w)) && Bits(BuildMaxUnsignedInt(w)) == w
    ensures SignedValue(BuildMinSignedInt(w), input) == MinSigned(w)
    ensures SignedValue(BuildMaxSignedInt(w), input) == MaxSigned(w)
    ensures Eval(BuildMaxUnsignedInt(w), input) == Pow2(w) - 1
  {
    IntegerNode(Pow2(w - 1), w, input);
    IntegerNode(Pow2(w - 1) - 1, w, input);
    IntegerNode(Pow2(w) - 1, w, input);
  }

  /** A wider signed type keeps the value. */
  lemma SignedWiden(w: nat, extra: nat, s: int)
    requires w >= 1 && -Pow2(w - 1) <= s < Pow2(w - 1)
    ensures -Pow2(w + extra - 1) <= s < Pow2(w + extra - 1)
    ensures Signed(w + extra, Wrap(w + extra, s)) == s
  {
    Pow2Mono(w - 1, w + extra - 1);
    SignedOfWrap(w + extra, s);
  }

  lemma SExtValue(e: Expr, extra: nat, input: Input)
    requires IsVector(e)
    ensures IsVector(SExt(e, extra)) && Bits(SExt(e, extra)) == Bits(e) + extra && Bits(e) >= 1
    ensures SignedValue(SExt(e, extra), input) == SignedValue(e, input)
    ensures Eval(SExt(e, extra), input) == Wrap(Bits(e) + extra, SignedValue(e, input))
    ensures MinSigned(Bits(e)) <= SignedValue(e, input) <= MaxSigned(Bits(e))
  {
    EvalRange(e, input);
    SignedRange(Bits(e), Eval(e, input));
    SignedWiden(Bits(e), extra, SignedValue(e, input));
  }

  /** Wrapping a sum, difference or product of bit vectors forgets whether
      they were read as signed. */
  lemma WrapOfSigned(w: nat, x: nat, y: nat)
    requires w >= 1 && x < Pow2(w) && y < Pow2(w)
    ensures Wrap(w, x + y) == Wrap(w, Signed(w, x) + Signed(w, y))
    ensures Wrap(w, x - y) == Wrap(w, Signed(w, x) - Signed(w, y))
    ensures Wrap(w, x * y) == Wrap(w, Signed(w, x) * Signed(w, y))
  {
    SignedRange(w, x);
    SignedRange(w, y);
    WrapAdd(w, Signed(w, x), Signed(w, y));
    WrapMul(w, Signed(w, x), Signed(w, y));
  }

  /** One extra bit holds every signed sum and difference exactly. */
  lemma ExtendedSum(w: nat, s: int, t: int)
    requires w >= 1 && MinSigned(w) <= s <= MaxSigned(w) && MinSigned(w) <= t <= MaxSigned(w)
    ensures Signed(w + 1, Wrap(w + 1, Wrap(w + 1, s) + Wrap(w + 1, t))) == s + t
    ensures Signed(w + 1, Wrap(w + 1, Wrap(w + 1, s) - Wrap(w + 1, t))) == s - t
  {
    hide Wrap, Signed;
    assert Pow2(w) == 2 * Pow2(w - 1);
    WrapAdd(w + 1, s, t);
    SignedOfWrap(w + 1, s + t);
    SignedOfWrap(w + 1, s - t);
  }

  function BuildSignedSat(op: BinOp, a: Expr, b: Expr): (e: Expr)
    requires HelperWidth(Bits(a))
  {
    var bits := Bits(a);
    var min := BuildMinSignedInt(bits);
    var max := BuildMaxSignedInt(bits);
    var wide := Binary(op, SExt(a, 1), SExt(b, 1));
    Ite(Compare(Sle, wide, SExt(min, 1)),
        min,
        Ite(Compare(Sge, wide, SExt(max, 1)), max, Binary(op, a, b)))
  }

  function BuildSAddSat(a: Expr, b: Expr): (e: Expr)
    requires HelperWidth(Bits(a))
  {
    BuildSignedSat(Add, a, b)
  }

  function BuildSSubSat(a: Expr, b: Expr): (e: Expr)
    requires HelperWidth(Bits(a))
  {
    BuildSignedSat(Sub, a, b)
  }

  /** The extended operation computes the exact signed result. */
  lemma WideValue(op: BinOp, a: Expr, b: Expr, input: Input)
    requires SameWidth(a, b) && (op.Add? || op.Sub?)
    ensures var wide := Binary(op, SExt(a, 1), SExt(b, 1));
      IsVector(wide) && Bits(wide) == Bits(a) + 1
      && SignedValue(wide, input) == Exact(op, SignedValue(a, input), SignedValue(b, input))
  {
    hide Eval, Bits, WellSorted, IsBool, Wrap, Pow2, MinSigned, MaxSigned;
    SExtValue(a, 1, input);
    SExtValue(b, 1, input);
    BinaryNode(op, SExt(a, 1), SExt(b, 1), input);
    ExtendedSum(Bits(a), SignedValue(a, input), SignedValue(b, input));
  }

  function Exact(op: BinOp, s: int, t: int): (r: int)
  {
    if op.Add? then s + t else s - t
  }

  /** The plain operation computes it too when it fits. */
  lemma NarrowValue(op: BinOp, a: Expr, b: Expr, input: Input)
    requires SameWidth(a, b) && (op.Add? || op.Sub?)
    ensures SameWidth(Binary(op, a, b), a)
    ensures Eval(Binary(op, a, b), input) == Wrap(Bits(a), Exact(op, SignedValue(a, input), SignedValue(b, input)))
    ensures var exact := Exact(op, SignedValue(a, input), SignedValue(b, input));
      MinSigned(Bits(a)) <= exact <= MaxSigned(Bits(a)) ==> SignedValue(Binary(op, a, b), input) == exact
  {
    hide Eval, Bits, WellSorted, IsBool, Wrap, Pow2;
    var w, exact := Bits(a), Exact(op, SignedValue(a, input), SignedValue(b, input));
    EvalRange(a, input);
    EvalRange(b, input);
    BinaryNode(op, a, b, input);
    WrapOfSigned(w, Eval(a, input), Eval(b, input));
    if MinSigned(w) <= exact <= MaxSigned(w) {
      SignedOfWrap(w, exact);
    }
  }

  /** Signed saturating addition and subtraction clamp the exact result. */
  lemma SignedSatCorrect(op: BinOp, a: Expr, b: Expr, input: Input)
    requires SameWidth(a, b) && HelperWidth(Bits(a)) && (op.Add? || op.Sub?)
    ensures SameWidth(BuildSignedSat(op, a, b), a)
    ensures SignedValue(BuildSignedSat(op, a, b), input)
      == Clamp(MinSigned(Bits(a)), MaxSigned(Bits(a)), Exact(op, SignedValue(a, input), SignedValue(b, input)))
  {
    hide Eval, Bits, WellSorted, IsBool, Wrap, Pow2, MinSigned, MaxSigned, BuildMinSignedInt, BuildMaxSignedInt, Signed,
         BinVal;
    var w := Bits(a);
    var min, max := BuildMinSignedInt(w), BuildMaxSignedInt(w);
    var wide, narrow := Binary(op, SExt(a, 1), SExt(b, 1)), Binary(op, a, b);
    LimitValues(w, input);
    SExtValue(min, 1, input);
    SExtValue(max, 1, input);
    WideValue(op, a, b, input);
    NarrowValue(op, a, b, input);
    CompareNode(Sle, wide, SExt(min, 1), input);
    CompareNode(Sge, wide, SExt(max, 1), input);
    IteNode(Compare(Sge, wide, SExt(max, 1)), max, narrow, input);
    IteNode(Compare(Sle, wide, SExt(min, 1)), min, Ite(Compare(Sge, wide, SExt(max, 1)), max, narrow), input);
  }

  lemma SAddSatCorrect(a: Expr, b: Expr, input: Input)
    requires SameWidth(a, b) && HelperWidth(Bits(a))
    ensures SameWidth(BuildSAddSat(a, b), a)
    ensures SignedValue(BuildSAddSat(a, b), input)
      == Clamp(MinSigned(Bits(a)), MaxSigned(Bits(a)), SignedValue(a, input) + SignedValue(b, input))
  {
    hide Eval, Bits, WellSorted, IsBool, BuildSignedSat, MinSigned, MaxSigned, Signed;
    SignedSatCorrect(Add, a, b, input);
  }

  lemma SSubSatCorrect(a: Expr, b: Expr, input: Input)
    requires SameWidth(a, b) && HelperWidth(Bits(a))
    ensures SameWidth(BuildSSubSat(a, b), a)
    ensures SignedValue(BuildSSubSat(a, b), input)
      == Clamp(MinSigned(Bits(a)), MaxSigned(Bits(a)), SignedValue(a, input) - SignedValue(b, input))
  {
    hide Eval, Bits, WellSorted, IsBool, BuildSignedSat, MinSigned, MaxSigned, Signed;
    SignedSatCorrect(Sub, a, b, input);
  }

  function BuildUAddSat(a: Expr, b: Expr): (e: Expr)
    requires HelperWidth(Bits(a))
  {
    var bits := Bits(a);
    var addZext := Binary(Add, ZExt(a, 1), ZExt(b, 1));
    Ite(BitToBool(Extract(addZext, bits, bits)), BuildMaxUnsignedInt(bits), Binary(Add, a, b))
  }

  function BuildUSubSat(a: Expr, b: Expr): (e: Expr)
  {
    Ite(Compare(Uge, a, b), Binary(Sub, a, b), Integer(0, Bits(a)))
  }

  /** The bit just above a `w`-bit number. */
  lemma TopBit(w: nat, z: nat)
    requires z < Pow2(w + 1)
    ensures ExtractVal(z, w, w) == if z >= Pow2(w) then 1 else 0
  {
    assert Pow2(1) == 2;
    if z >= Pow2(w) {
      DivModUnique(z, Pow2(w), 1, z - Pow2(w));
      WrapSmall(1, 1);
    } else {
      DivModUnique(z, Pow2(w), 0, z);
      WrapSmall(1, 0);
    }
  }

  lemma CarryBit(op: BinOp, a: Expr, b: Expr, input: Input)
    requires SameWidth(a, b) && (op.Add? || op.Sub?)
    ensures var bit := Extract(Binary(op, ZExt(a, 1), ZExt(b, 1)), Bits(a), Bits(a));
      IsVector(bit) && Bits(bit) == 1
      && Eval(bit, input) == BitOf(!(0 <= Exact(op, Eval(a, input), Eval(b, input)) < Pow2(Bits(a))))
  {
    hide Eval, Bits, WellSorted, IsBool, Wrap, ExtractVal;
    var w, exact := Bits(a), Exact(op, Eval(a, input), Eval(b, input));
    EvalRange(a, input);
    EvalRange(b, input);
    ZExtNode(a, 1, input);
    ZExtNode(b, 1, input);
    var wide := Binary(op, ZExt(a, 1), ZExt(b, 1));
    BinaryNode(op, ZExt(a, 1), ZExt(b, 1), input);
    ExtractNode(wide, w, w, input);
    if exact >= 0 {
      WrapSmall(w + 1, exact);
      TopBit(w, exact);
    } else {
      WrapIs(w + 1, exact, -1, exact + Pow2(w + 1));
      TopBit(w, exact + Pow2(w + 1));
    }
  }

  lemma UAddSatCorrect(a: Expr, b: Expr, input: Input)
    requires SameWidth(a, b) && HelperWidth(Bits(a))
    ensures SameWidth(BuildUAddSat(a, b), a)
    ensures Eval(BuildUAddSat(a, b), input) == Clamp(0, Pow2(Bits(a)) - 1, Eval(a, input) + Eval(b, input))
  {
    hide Eval, Bits, WellSorted, IsBool, Wrap, BuildMaxUnsignedInt, BitToBool;
    var w, x, y := Bits(a), Eval(a, input), Eval(b, input);
    var bit := Extract(Binary(Add, ZExt(a, 1), ZExt(b, 1)), w, w);
    CarryBit(Add, a, b, input);
    BitToBoolNode(bit, input);
    LimitValues(w, input);
    BinaryNode(Add, a, b, input);
    IteNode(BitToBool(bit), BuildMaxUnsignedInt(w), Binary(Add, a, b), input);
    if x + y < Pow2(w) {
      WrapSmall(w, x + y);
    }
  }

  /** Unsigned saturating subtraction needs no limit literal: any width will do. */
  lemma USubSatCorrect(a: Expr, b: Expr, input: Input)
    requires SameWidth(a, b)
    ensures SameWidth(BuildUSubSat(a, b), a)
    ensures Eval(BuildUSubSat(a, b), input) == Clamp(0, Pow2(Bits(a)) - 1, Eval(a, input) - Eval(b, input))
  {
    hide Eval, Bits, WellSorted, IsBool, Wrap;
    var w, x, y := Bits(a), Eval(a, input), Eval(b, input);
    EvalRange(a, input);
    EvalRange(b, input);
    IntegerNode(0, w, input);
    CompareNode(Uge, a, b, input);
    BinaryNode(Sub, a, b, input);
    IteNode(Compare(Uge, a, b), Binary(Sub, a, b), Integer(0, w), input);
    if x >= y {
      WrapSmall(w, x - y);
    }
  }

  /** Does shifting back an arithmetic shift miss the original? */
  function BuildShiftLeftOverflow(a: Expr, b: Expr): (e: Expr)
  {
    Compare(Ne, Binary(AShr, Binary(Shl, a, b), b), a)
  }

  function BuildSShlSat(a: Expr, b: Expr): (e: Expr)
    requires HelperWidth(Bits(a))
  {
    var bits := Bits(a);
    Ite(BuildShiftLeftOverflow(a, b),
        Ite(BitToBool(Extract(a, bits - 1, bits - 1)), BuildMinSignedInt(bits), BuildMaxSignedInt(bits)),
        Binary(Shl, a, b))
  }

  /** The shifted value, read as signed and shifted back, is the original
      exactly when the true product fits. */
  lemma ShiftBack(w: nat, s: int, k: nat)
    requires w >= 1 && k < w && MinSigned(w) <= s <= MaxSigned(w)
    ensures var t := Signed(w, Wrap(w, s * Pow2(k)));
      MinSigned(w) <= t / Pow2(k) <= MaxSigned(w)
      && (t / Pow2(k) == s <==> MinSigned(w) <= s * Pow2(k) <= MaxSigned(w))
      && (t / Pow2(k) == s ==> t == s * Pow2(k))
  {
    var m := Pow2(k);
    var v := Wrap(w, s * m);
    var t := Signed(w, v);
    SignedRange(w, v);
    DivRange(t, m, MinSigned(w), MaxSigned(w));
    if MinSigned(w) <= s * m <= MaxSigned(w) {
      SignedOfWrap(w, s * m);
      DivModUnique(s * m, m, s, 0);
    }
    if t / m == s {
      var q := ShiftMultiple(w, s, k);
      DivModUnique(t, m, q, 0);
    }
  }

  lemma DivRange(t: int, m: int, lo: int, hi: int)
    requires m >= 1 && lo <= t <= hi && lo <= 0 <= hi
    ensures lo <= t / m <= hi
  {
    var q := t / m;
    if q >= 0 {
      MulGe(q, m);
    } else {
      MulGe(-q - 1, m);
      assert (-q - 1) * m == -(q * m) - m;
    }
  }

  lemma MulGe(q: int, m: int)
    requires q >= 0 && m >= 1
    ensures q * m >= q
  {
    assert q * m == q * (m - 1) + q;
    assert q * (m - 1) >= 0;
  }

  /** The wrapped shift is a multiple of the shift factor, read signed or not. */
  lemma ShiftMultiple(w: nat, s: int, k: nat) returns (q: int)
    requires w >= 1 && k < w
    ensures Signed(w, Wrap(w, s * Pow2(k))) == q * Pow2(k)
  {
    var p := WrapQuotient(w, s * Pow2(k));
    Pow2Add(w - k, k);
    Factor(s, p, Pow2(w - k), Pow2(k));
    Factor(s, p + 1, Pow2(w - k), Pow2(k));
    q := if Wrap(w, s * Pow2(k)) < Pow2(w - 1) then s - p * Pow2(w - k) else s - (p + 1) * Pow2(w - k);
  }

  lemma Factor(s: int, p: int, r: int, m: int)
    ensures s * m - p * (r * m) == (s - p * r) * m
  {
  }

  /** A shift amount of at least the width pushes every bit out. */
  lemma BigShift(w: nat, s: int, k: nat)
    requires w >= 1 && k >= w && MinSigned(w) <= s <= MaxSigned(w)
    ensures s == 0 ==> s * Pow2(k) == 0
    ensures s > 0 ==> s * Pow2(k) > MaxSigned(w)
    ensures s < 0 ==> s * Pow2(k) < MinSigned(w)
  {
    Pow2Mono(w, k);
    if s > 0 {
      MulGap(s, Pow2(k));
    } else if s < 0 {
      MulGap(-s, Pow2(k));
      assert (-s) * Pow2(k) == -(s * Pow2(k));
    }
  }

  lemma SignBit(w: nat, x: nat)
    requires w >= 1 && x < Pow2(w)
    ensures ExtractVal(x, w - 1, w - 1) != 0 <==> Signed(w, x) < 0
  {
    TopBit(w - 1, x);
  }

  lemma ShlValue(w: nat, x: nat, k: nat)
    requires w >= 1 && x < Pow2(w) && k < w
    ensures BinVal(Shl, w, x, k) == Wrap(w, Signed(w, x) * Pow2(k))
  {
    hide Wrap, Pow2;
    if Signed(w, x) != x {
      ShiftModulus(x, Pow2(w), Pow2(k));
      WrapShift(w, x * Pow2(k), -Pow2(k));
    }
  }

  lemma ShiftModulus(x: int, p: int, m: int)
    ensures (x - p) * m == x * m + (-m) * p
  {
  }

  /** The overflow test: shifting back misses the original exactly when the
      true product does not fit, for every shift amount. */
  lemma ShiftOverflowTest(w: nat, x: nat, k: nat)
    requires w >= 1 && x < Pow2(w)
    ensures var shifted := BinVal(Shl, w, x, k);
      var exact := Signed(w, x) * Pow2(k);
      (BinVal(AShr, w, shifted, k) == x <==> MinSigned(w) <= exact <= MaxSigned(w))
      && (MinSigned(w) <= exact <= MaxSigned(w) ==> Signed(w, shifted) == exact)
  {
    hide Pow2;
    var s := Signed(w, x);
    SignedRange(w, x);
    Pow2Mono(0, w - 1);
    if k < w {
      ShlValue(w, x, k);
      ShiftBack(w, s, k);
      var t := Signed(w, Wrap(w, s * Pow2(k)));
      SignedOfWrap(w, t / Pow2(k));
    } else {
      BigShift(w, s, k);
      assert Signed(w, 0) == 0 by { Pow2Mono(0, w - 1); }
      WrapSmall(w, 0);
    }
  }

  /** The true result of a signed left shift. */
  function ShiftExact(a: Expr, b: Expr, input: Input): (r: int)
  {
    SignedValue(a, input) * Pow2(Eval(b, input))
  }

  predicate Fits(w: nat, s: int)
  {
    MinSigned(w) <= s <= MaxSigned(w)
  }

  lemma ShiftOverflowNode(a: Expr, b: Expr, input: Input)
    requires SameWidth(a, b)
    ensures IsCondition(BuildShiftLeftOverflow(a, b)) && SameWidth(Binary(Shl, a, b), a)
    ensures Eval(BuildShiftLeftOverflow(a, b), input) == BitOf(!Fits(Bits(a), ShiftExact(a, b, input)))
    ensures Fits(Bits(a), ShiftExact(a, b, input)) ==> SignedValue(Binary(Shl, a, b), input) == ShiftExact(a, b, input)
  {
    hide Eval, Bits, WellSorted, IsBool, Wrap, Pow2, BinVal, Signed, MinSigned, MaxSigned;
    EvalRange(a, input);
    ShiftOverflowTest(Bits(a), Eval(a, input), Eval(b, input));
    BinaryNode(Shl, a, b, input);
    BinaryNode(AShr, Binary(Shl, a, b), b, input);
    CompareNode(Ne, Binary(AShr, Binary(Shl, a, b), b), a, input);
  }

  lemma SignNode(a: Expr, b: Expr, input: Input)
    requires IsVector(a)
    ensures Bits(a) >= 1
    ensures var sign := BitToBool(Extract(a, Bits(a) - 1, Bits(a) - 1));
      IsCondition(sign) && (Eval(sign, input) != 0 <==> ShiftExact(a, b, input) < 0)
  {
    hide Eval, Bits, WellSorted, IsBool, Pow2, Signed, BitToBool, ExtractVal;
    var w := Bits(a);
    EvalRange(a, input);
    ExtractNode(a, w - 1, w - 1, input);
    BitToBoolNode(Extract(a, w - 1, w - 1), input);
    SignBit(w, Eval(a, input));
    ProductSign(SignedValue(a, input), Pow2(Eval(b, input)));
  }

  /** Signed saturating shift-left clamps the true product, for every shift
      amount, including those at or above the width. */
  lemma SShlSatCorrect(a: Expr, b: Expr, input: Input)
    requires SameWidth(a, b) && HelperWidth(Bits(a))
    ensures SameWidth(BuildSShlSat(a, b), a)
    ensures SignedValue(BuildSShlSat(a, b), input)
      == Clamp(MinSigned(Bits(a)), MaxSigned(Bits(a)), SignedValue(a, input) * Pow2(Eval(b, input)))
  {
    hide Eval, Bits, WellSorted, IsBool, Pow2, BuildMinSignedInt, BuildMaxSignedInt, BitToBool, Signed,
         BuildShiftLeftOverflow;
    var w := Bits(a);
    var min, max := BuildMinSignedInt(w), BuildMaxSignedInt(w);
    var sign := BitToBool(Extract(a, w - 1, w - 1));
    ShiftOverflowNode(a, b, input);
    SignNode(a, b, input);
    LimitValues(w, input);
    IteNode(sign, min, max, input);
    IteNode(BuildShiftLeftOverflow(a, b), Ite(sign, min, max), Binary(Shl, a, b), input);
  }

  lemma ProductSign(s: int, m: int)
    requires m >= 1
    ensures s < 0 ==> s * m < 0
    ensures s >= 0 ==> s * m >= 0
  {
  }

  /** Unsigned saturating shift-left shares the signed overflow test. */
  function BuildUShlSat(a: Expr, b: Expr): (e: Expr)
    requires HelperWidth(Bits(a))
  {
    Ite(BuildShiftLeftOverflow(a, b), BuildMaxUnsignedInt(Bits(a)), Binary(Shl, a, b))
  }

  /** When the unsigned builder gives the unsigned clamp: for a shift by zero;
      for an operand without the top bit, unless the true result has the top
      bit set and nothing above it; for an operand with the top bit, unless
      the signed product still fits. */
  predicate UShlFine(w: nat, x: nat, k: nat)
  {
    k == 0
    || if Signed(w, x) >= 0 then x * Pow2(k) <= MaxSigned(w) || x * Pow2(k) >= Pow2(w)
       else !Fits(w, Signed(w, x) * Pow2(k))
  }

  function UShlValue(w: nat, x: nat, k: nat): (r: int)
  {
    if Fits(w, Signed(w, x) * Pow2(k)) then BinVal(Shl, w, x, k) else Pow2(w) - 1
  }

  lemma EvenProduct(x: int, k: nat)
    requires k >= 1
    ensures (x * Pow2(k)) % 2 == 0 && Pow2(k) >= 2
  {
    var h := Pow2(k - 1);
    assert x * (2 * h) == 2 * (x * h);
    Pow2Mono(1, k);
    Pow2Eight();
  }

  lemma UShlNonNegative(w: nat, x: nat, k: nat)
    requires w >= 1 && x < Pow2(w) && Signed(w, x) >= 0 && k >= 1
    ensures UShlValue(w, x, k) == Clamp(0, Pow2(w) - 1, x * Pow2(k))
      <==> x * Pow2(k) <= MaxSigned(w) || x * Pow2(k) >= Pow2(w)
  {
    hide BinVal;
    ShiftOverflowTest(w, x, k);
    EvenProduct(x, k);
    EvenProduct(1, w);
    ProductSign(x, Pow2(k));
  }

  lemma UShlNegative(w: nat, x: nat, k: nat)
    requires w >= 1 && x < Pow2(w) && Signed(w, x) < 0 && k >= 1
    ensures UShlValue(w, x, k) == Clamp(0, Pow2(w) - 1, x * Pow2(k)) <==> !Fits(w, Signed(w, x) * Pow2(k))
  {
    hide BinVal;
    var s, m := Signed(w, x), Pow2(k);
    ShiftOverflowTest(w, x, k);
    EvenProduct(s, k);
    ProductSign(s, m);
    assert x * m >= Pow2(w) by {
      MulMono(x, 2, m);
    }
  }

  lemma UShlZero(w: nat, x: nat)
    requires w >= 1 && x < Pow2(w)
    ensures UShlValue(w, x, 0) == Clamp(0, Pow2(w) - 1, x * Pow2(0))
  {
    SignedRange(w, x);
    WrapSmall(w, x);
  }

  lemma UShlValueExactlyWhen(w: nat, x: nat, k: nat)
    requires w >= 1 && x < Pow2(w)
    ensures UShlValue(w, x, k) == Clamp(0, Pow2(w) - 1, x * Pow2(k)) <==> UShlFine(w, x, k)
  {
    hide UShlValue, Fits;
    if k == 0 {
      UShlZero(w, x);
    } else if Signed(w, x) >= 0 {
      UShlNonNegative(w, x, k);
    } else {
      UShlNegative(w, x, k);
    }
  }

  /** Unsigned saturating shift-left is the unsigned clamp in exactly those
      cases. */
  lemma UShlSatExactlyWhen(a: Expr, b: Expr, input: Input)
    requires SameWidth(a, b) && HelperWidth(Bits(a))
    ensures SameWidth(BuildUShlSat(a, b), a)
    ensures Eval(BuildUShlSat(a, b), input) == Clamp(0, Pow2(Bits(a)) - 1, Eval(a, input) * Pow2(Eval(b, input)))
      <==> UShlFine(Bits(a), Eval(a, input), Eval(b, input))
  {
    hide Eval, Bits, WellSorted, IsBool, Pow2, BuildMaxUnsignedInt, Signed, BuildShiftLeftOverflow, Fits, UShlFine;
    var w := Bits(a);
    EvalRange(a, input);
    ShiftOverflowNode(a, b, input);
    BinaryNode(Shl, a, b, input);
    LimitValues(w, input);
    IteNode(BuildShiftLeftOverflow(a, b), BuildMaxUnsignedInt(w), Binary(Shl, a, b), input);
    UShlValueExactlyWhen(w, Eval(a, input), Eval(b, input));
  }

  /** 0x40 shifted left by one is 0x80 in eight bits, but saturates. */
  lemma UShlSatSaturatesEarly()
    ensures var a, b := Integer(0x40, 8), Integer(1, 8);
      Eval(BuildUShlSat(a, b), []) == 0xFF && Clamp(0, 0xFF, Eval(a, []) * Pow2(Eval(b, []))) == 0x80
  {
    hide BuildMaxUnsignedInt, BuildShiftLeftOverflow;
    var a, b := Integer(0x40, 8), Integer(1, 8);
    Pow2Eight();
    IntegerNode(0x40, 8, []);
    IntegerNode(1, 8, []);
    ShiftOverflowNode(a, b, []);
    LimitValues(8, []);
    IteNode(BuildShiftLeftOverflow(a, b), BuildMaxUnsignedInt(8), Binary(Shl, a, b), []);
  }
}
