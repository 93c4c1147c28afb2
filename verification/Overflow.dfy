/** Arithmetic with overflow: the flag each builder computes and the
    in-memory layout of the pair it returns, after the section "Arithmetic
    with Overflow Intrinsics" of the LLVM Language Reference. */
module Overflow {
  import opened BitVectors
  import opened Bytes
  import opened Expressions
  import opened Aggregates
  import opened Saturation

  /** The one-bit value that the builders compare with the Boolean true. */
  function EqualsTrue(bit: Expr): (e: Expr)
  {
    Compare(Eq, bit, Integer(1, 1))
  }

  function AddSubFlag(op: BinOp, a: Expr, b: Expr, isSigned: bool): (e: Expr)
  {
    if isSigned then
      Compare(Ne, Binary(op, SExt(a, 1), SExt(b, 1)), SExt(Binary(op, a, b), 1))
    else
      EqualsTrue(Extract(Binary(op, ZExt(a, 1), ZExt(b, 1)), Bits(a), Bits(a)))
  }

  function MulFlag(a: Expr, b: Expr, isSigned: bool): (e: Expr)
  {
    var bits := Bits(a);
    if isSigned then
      Compare(Ne, Binary(Mul, SExt(a, bits), SExt(b, bits)), SExt(Binary(Mul, a, b), bits))
    else if bits == 0 then BoolConst(false)
    else
      EqualsTrue(Extract(Binary(Mul, ZExt(a, bits), ZExt(b, bits)), 2 * bits - 1, 2 * bits - 1))
  }

  function Flag(op: BinOp, a: Expr, b: Expr, isSigned: bool): (e: Expr)
  {
    if op.Mul? then MulFlag(a, b, isSigned) else AddSubFlag(op, a, b, isSigned)
  }

  /** The unbounded result, on operands read as signed or as unsigned. */
  function TrueResult(op: BinOp, a: Expr, b: Expr, isSigned: bool, input: Input): (r: int)
  {
    var x := if isSigned then SignedValue(a, input) else Eval(a, input);
    var y := if isSigned then SignedValue(b, input) else Eval(b, input);
    match op case Add => x + y case Sub => x - y case _ => x * y
  }

  predicate FitsIn(w: nat, isSigned: bool, r: int)
  {
    if isSigned then MinSigned(w) <= r <= MaxSigned(w) else 0 <= r < Pow2(w)
  }

  predicate IsOverflowOp(op: BinOp)
  {
    op.Add? || op.Sub? || op.Mul?
  }

  lemma EqualsTrueNode(bit: Expr, input: Input)
    requires IsVector(bit) && Bits(bit) == 1
    ensures IsCondition(EqualsTrue(bit))
    ensures Eval(EqualsTrue(bit), input) == BitOf(Eval(bit, input) != 0)
  {
    EvalRange(bit, input);
    Pow2Eight();
    IntegerNode(1, 1, input);
  }

  /** Sign-extending the wrapped result gives the wide result back exactly
      when the true result fits. */
  lemma WideDiffers(w: nat, extra: nat, r: int)
    requires w >= 1 && MinSigned(w + extra) <= r <= MaxSigned(w + extra)
    ensures Wrap(w + extra, r) != Wrap(w + extra, Signed(w, Wrap(w, r))) <==> !FitsIn(w, true, r)
  {
    hide Wrap, Signed;
    var t := Signed(w, Wrap(w, r));
    SignedRange(w, Wrap(w, r));
    SignedWiden(w, extra, t);
    SignedOfWrap(w + extra, r);
    if FitsIn(w, true, r) {
      SignedOfWrap(w, r);
    }
  }

  lemma NarrowMul(a: Expr, b: Expr, input: Input)
    requires SameWidth(a, b)
    ensures SameWidth(Binary(Mul, a, b), a)
    ensures Eval(Binary(Mul, a, b), input) == Wrap(Bits(a), SignedValue(a, input) * SignedValue(b, input))
    ensures Eval(Binary(Mul, a, b), input) == Wrap(Bits(a), Eval(a, input) * Eval(b, input))
  {
    hide Eval, Bits, WellSorted, IsBool, Wrap;
    EvalRange(a, input);
    EvalRange(b, input);
    BinaryNode(Mul, a, b, input);
    WrapOfSigned(Bits(a), Eval(a, input), Eval(b, input));
  }

  /** Every operation returns the true result modulo two to the width. */
  lemma ResultWraps(op: BinOp, a: Expr, b: Expr, isSigned: bool, input: Input)
    requires SameWidth(a, b) && IsOverflowOp(op)
    ensures SameWidth(Binary(op, a, b), a)
    ensures Eval(Binary(op, a, b), input) == Wrap(Bits(a), TrueResult(op, a, b, isSigned, input))
  {
    hide Eval, Bits, WellSorted, IsBool, Wrap;
    if op.Mul? {
      NarrowMul(a, b, input);
    } else {
      NarrowValue(op, a, b, input);
      BinaryNode(op, a, b, input);
    }
  }

  lemma SignedAddSubFlag(op: BinOp, a: Expr, b: Expr, input: Input)
    requires SameWidth(a, b) && (op.Add? || op.Sub?)
    ensures IsCondition(AddSubFlag(op, a, b, true))
    ensures Eval(AddSubFlag(op, a, b, true), input) == BitOf(!FitsIn(Bits(a), true, TrueResult(op, a, b, true, input)))
  {
    hide Eval, Bits, WellSorted, IsBool, Wrap, Signed, Pow2, FitsIn;
    var w, r := Bits(a), TrueResult(op, a, b, true, input);
    var wide, narrow := Binary(op, SExt(a, 1), SExt(b, 1)), Binary(op, a, b);
    SExtValue(a, 1, input);
    SExtValue(b, 1, input);
    WideValue(op, a, b, input);
    ResultWraps(op, a, b, true, input);
    SExtNode(narrow, 1, input);
    EvalRange(wide, input);
    SignedRange(w + 1, Eval(wide, input));
    CompareNode(Ne, wide, SExt(narrow, 1), input);
    WideDiffers(w, 1, r);
  }

  lemma UnsignedAddSubFlag(op: BinOp, a: Expr, b: Expr, input: Input)
    requires SameWidth(a, b) && (op.Add? || op.Sub?)
    ensures IsCondition(AddSubFlag(op, a, b, false))
    ensures Eval(AddSubFlag(op, a, b, false), input)
      == BitOf(!FitsIn(Bits(a), false, TrueResult(op, a, b, false, input)))
  {
    hide Eval, Bits, WellSorted, IsBool;
    CarryBit(op, a, b, input);
    EqualsTrueNode(Extract(Binary(op, ZExt(a, 1), ZExt(b, 1)), Bits(a), Bits(a)), input);
  }

  /** Twice the width holds every signed product. */
  lemma ProductRange(w: nat, s: int, t: int)
    requires w >= 1 && MinSigned(w) <= s <= MaxSigned(w) && MinSigned(w) <= t <= MaxSigned(w)
    ensures MinSigned(2 * w) <= s * t <= MaxSigned(2 * w)
  {
    hide Pow2;
    var h := Pow2(w - 1);
    Pow2Add(w - 1, w - 1);
    Pow2Mono(w - 1 + w - 1, 2 * w - 1);
    SquareBound(s, t, h);
  }

  lemma SquareBound(s: int, t: int, h: int)
    requires h >= 1 && -h <= s <= h && -h <= t <= h
    ensures -(h * h) <= s * t <= h * h
  {
    if s >= 0 {
      MulMono(s, t, h);
      MulMono(s, -t, h);
      MulMono(h, s, h);
    } else {
      MulMono(-s, t, h);
      MulMono(-s, -t, h);
      MulMono(h, -s, h);
    }
  }

  lemma SignedMulFlag(a: Expr, b: Expr, input: Input)
    requires SameWidth(a, b)
    ensures IsCondition(MulFlag(a, b, true))
    ensures Eval(MulFlag(a, b, true), input) == BitOf(!FitsIn(Bits(a), true, TrueResult(Mul, a, b, true, input)))
  {
    hide Eval, Bits, WellSorted, IsBool, Wrap, Signed, Pow2, FitsIn, MinSigned, MaxSigned;
    var w, s, t := Bits(a), SignedValue(a, input), SignedValue(b, input);
    var wa, wb, narrow := SExt(a, w), SExt(b, w), Binary(Mul, a, b);
    SExtValue(a, w, input);
    SExtValue(b, w, input);
    NarrowMul(wa, wb, input);
    ResultWraps(Mul, a, b, true, input);
    SExtNode(narrow, w, input);
    CompareNode(Ne, Binary(Mul, wa, wb), SExt(narrow, w), input);
    ProductRange(w, s, t);
    WideDiffers(w, w, s * t);
  }

  lemma UnsignedProductRange(w: nat, x: nat, y: nat)
    requires x < Pow2(w) && y < Pow2(w)
    ensures 0 <= x * y < Pow2(2 * w)
  {
    hide Pow2;
    var m := Pow2(w);
    Pow2Add(w, w);
    MulMono(x, y, m);
    MulMono(m, x, m - 1);
    assert m * (m - 1) < m * m;
  }

  /** The unsigned product flag looks at the top bit of the wide product only. */
  lemma UnsignedMulFlag(a: Expr, b: Expr, input: Input)
    requires SameWidth(a, b)
    ensures Bits(a) >= 1 && IsCondition(MulFlag(a, b, false))
    ensures Eval(MulFlag(a, b, false), input) == BitOf(Eval(a, input) * Eval(b, input) >= Pow2(2 * Bits(a) - 1))
  {
    hide Eval, Bits, WellSorted, IsBool, Wrap, Pow2, ExtractVal;
    var w, x, y := Bits(a), Eval(a, input), Eval(b, input);
    var wide := Binary(Mul, ZExt(a, w), ZExt(b, w));
    EvalRange(a, input);
    EvalRange(b, input);
    var top := 2 * w - 1;
    ZExtNode(a, w, input);
    ZExtNode(b, w, input);
    BinaryNode(Mul, ZExt(a, w), ZExt(b, w), input);
    UnsignedProductRange(w, x, y);
    WrapSmall(2 * w, x * y);
    ExtractNode(wide, top, top, input);
    TopBit(top, x * y);
    EqualsTrueNode(Extract(wide, top, top), input);
  }

  /** Addition and subtraction, signed or not, and signed multiplication raise
      the flag exactly when the true result does not fit. */
  lemma FlagExact(op: BinOp, a: Expr, b: Expr, isSigned: bool, input: Input)
    requires SameWidth(a, b) && IsOverflowOp(op) && (op.Mul? ==> isSigned)
    ensures IsCondition(Flag(op, a, b, isSigned))
    ensures Eval(Flag(op, a, b, isSigned), input)
      == BitOf(!FitsIn(Bits(a), isSigned, TrueResult(op, a, b, isSigned, input)))
  {
    hide Eval, Bits, WellSorted, IsBool, FitsIn, AddSubFlag, MulFlag, TrueResult;
    if op.Mul? {
      SignedMulFlag(a, b, input);
    } else if isSigned {
      SignedAddSubFlag(op, a, b, input);
    } else {
      UnsignedAddSubFlag(op, a, b, input);
    }
  }

  /** Unsigned multiplication agrees with the true overflow exactly when the
      product is outside `[2^n, 2^(2n-1))`; inside, the flag is missing. */
  lemma UnsignedMulExactWhen(a: Expr, b: Expr, input: Input)
    requires SameWidth(a, b)
    ensures Bits(a) >= 1
    ensures var product := Eval(a, input) * Eval(b, input);
      Eval(Flag(Mul, a, b, false), input) == BitOf(!FitsIn(Bits(a), false, product))
      <==> !(Pow2(Bits(a)) <= product < Pow2(2 * Bits(a) - 1))
  {
    hide Eval, Bits, WellSorted, IsBool, MulFlag, Pow2;
    UnsignedMulFlag(a, b, input);
    Pow2Mono(Bits(a), 2 * Bits(a) - 1);
    assert Eval(a, input) * Eval(b, input) >= 0;
  }

  function OverflowByte(overflow: Expr): (e: Expr)
  {
    ZExt(BoolToBit(overflow), 7)
  }

  /** `{iN, i1}` as it lies in memory, with the flag padded to the width of
      the integer. */
  function BuildOverflowResult(result: Expr, overflow: Expr, littleEndian: bool): (e: Expr)
    requires WholeBytes(result) && Bits(result) > 0
  {
    var resultMem := if littleEndian then BswapExpr(result) else result;
    var flag := OverflowByte(overflow);
    if Bits(result) == 8 then Concat(resultMem, flag)
    else
      var padding := ZeroBytesExpr(Size(result) - 1);
      Concat(resultMem, if littleEndian then Concat(flag, padding) else Concat(padding, flag))
  }

  /** The byte string of the little-endian result: the value, the flag, padding. */
  lemma OverflowResultHolds(result: Expr, overflow: Expr, input: Input, bs: seq<Byte>)
    requires Holds(result, input, bs) && |bs| >= 2 && IsCondition(overflow)
    ensures Bits(result) > 0
    ensures Holds(BuildOverflowResult(result, overflow, true), input,
                  Reverse(bs) + ([BitOf(Eval(overflow, input) != 0)] + Zeros(|bs| - 1)))
  {
    hide Eval, WellSorted, IsBool, Holds, Size, Bits, BoolToBit, BswapExpr, ZeroBytesExpr;
    HoldsSize(result, input, bs);
    BswapHolds(result, input, bs);
    FlagByteHolds(overflow, input);
    var flag, padding := OverflowByte(overflow), ZeroBytesExpr(|bs| - 1);
    ZeroBytesHolds(|bs| - 1, input);
    var fs := [BitOf(Eval(overflow, input) != 0)];
    ConcatHolds(flag, padding, input, fs, Zeros(|bs| - 1));
    ConcatHolds(BswapExpr(result), Concat(flag, padding), input, Reverse(bs), fs + Zeros(|bs| - 1));
  }

  lemma FlagByteHolds(overflow: Expr, input: Input)
    requires IsCondition(overflow)
    ensures Holds(OverflowByte(overflow), input, [BitOf(Eval(overflow, input) != 0)])
  {
    BoolToBitNode(overflow, input);
    ZExtNode(BoolToBit(overflow), 7, input);
    assert FromBytes([BitOf(Eval(overflow, input) != 0)]) == BitOf(Eval(overflow, input) != 0);
  }

  lemma PairSlices(front: seq<Byte>, f: Byte, rest: seq<Byte>)
    ensures var all := front + ([f] + rest);
      all[0..0 + |front|] == front && all[|front|..|front| + 1] == [f]
  {
  }

  /** In the little-endian layout, extraction at the two member offsets gives
      back the wrapped result and the flag. */
  lemma OverflowMembers(result: Expr, overflow: Expr, input: Input)
    requires IsVector(result) && Swappable(result) && IsCondition(overflow)
    ensures var pair := BuildOverflowResult(result, overflow, true);
      Bits(pair) == 2 * Bits(result)
      && Eval(ExtractExpr(pair, 0, Size(result), true), input) == Eval(result, input)
      && var flagByte := ExtractExpr(pair, Size(result), 1, true);
      IsVector(flagByte) && Bits(flagByte) == 8
      && Eval(flagByte, input) == BitOf(Eval(overflow, input) != 0)
  {
    hide Eval, WellSorted, IsBool, Bits, Holds, Size, BuildOverflowResult, ExtractExpr, Reverse, FromBytes;
    var pair := BuildOverflowResult(result, overflow, true);
    var bs := HoldsSome(result, input, Size(result));
    var f := BitOf(Eval(overflow, input) != 0);
    var all := Reverse(bs) + ([f] + Zeros(|bs| - 1));
    HoldsSize(result, input, bs);
    OverflowResultHolds(result, overflow, input, bs);
    HoldsSize(pair, input, all);
    ExtractHolds(pair, 0, |bs|, true, input, all);
    PairSlices(Reverse(bs), f, Zeros(|bs| - 1));
    ReverseTwice(bs);
    HoldsEval(ExtractExpr(pair, 0, |bs|, true), result, input, bs);
    ExtractHolds(pair, |bs|, 1, true, input, all);
    OneByte(ExtractExpr(pair, |bs|, 1, true), input, f);
  }

  lemma BigSlices(bs: seq<Byte>, f: Byte, n: nat)
    requires |bs| == n >= 2
    ensures var all := bs + (Zeros(n - 1) + [f]);
      all[0..n] == bs && all[n..n + 1] == [0] && all[2 * n - 1..2 * n - 1 + 1] == [f]
  {
  }

  /** The byte string of a big-endian result: the value, padding, the flag. */
  lemma BigResultHolds(result: Expr, overflow: Expr, input: Input, bs: seq<Byte>)
    requires Holds(result, input, bs) && |bs| >= 2 && IsCondition(overflow)
    ensures Bits(result) > 0
    ensures Holds(BuildOverflowResult(result, overflow, false), input,
                  bs + (Zeros(|bs| - 1) + [BitOf(Eval(overflow, input) != 0)]))
  {
    hide Eval, WellSorted, IsBool, Holds, Size, Bits, BoolToBit, BswapExpr, ZeroBytesExpr;
    HoldsSize(result, input, bs);
    FlagByteHolds(overflow, input);
    var flag, padding := OverflowByte(overflow), ZeroBytesExpr(|bs| - 1);
    ZeroBytesHolds(|bs| - 1, input);
    var fs := [BitOf(Eval(overflow, input) != 0)];
    ConcatHolds(padding, flag, input, Zeros(|bs| - 1), fs);
    ConcatHolds(result, Concat(padding, flag), input, bs, Zeros(|bs| - 1) + fs);
  }

  lemma SingleByte(e: Expr, input: Input, f: Byte)
    requires Holds(e, input, [f])
    ensures IsVector(e) && Bits(e) == 8 && Eval(e, input) == f
  {
    assert FromBytes([f]) == f;
  }

  /** In the big-endian layout the flag is the last byte of the pair; the byte
      behind the value, where the member of type i1 is read, is padding. */
  lemma BigEndianMembers(result: Expr, overflow: Expr, input: Input)
    requires IsVector(result) && WholeBytes(result) && Size(result) >= 2 && IsCondition(overflow)
    ensures var pair, n := BuildOverflowResult(result, overflow, false), Size(result);
      Bits(pair) == 2 * Bits(result)
      && Eval(ExtractExpr(pair, 0, n, false), input) == Eval(result, input)
      && Eval(ExtractExpr(pair, n, 1, false), input) == 0
      && Eval(ExtractExpr(pair, 2 * n - 1, 1, false), input) == BitOf(Eval(overflow, input) != 0)
  {
    hide Eval, WellSorted, IsBool, Bits, Holds, Size, BuildOverflowResult, ExtractExpr, FromBytes;
    var pair := BuildOverflowResult(result, overflow, false);
    var bs := HoldsSome(result, input, Size(result));
    var n, f := |bs|, BitOf(Eval(overflow, input) != 0);
    var all := bs + (Zeros(n - 1) + [f]);
    HoldsSize(result, input, bs);
    BigResultHolds(result, overflow, input, bs);
    HoldsSize(pair, input, all);
    BigSlices(bs, f, n);
    ExtractHolds(pair, 0, n, false, input, all);
    HoldsEval(ExtractExpr(pair, 0, n, false), result, input, bs);
    ExtractHolds(pair, n, 1, false, input, all);
    SingleByte(ExtractExpr(pair, n, 1, false), input, 0);
    ExtractHolds(pair, 2 * n - 1, 1, false, input, all);
    SingleByte(ExtractExpr(pair, 2 * n - 1, 1, false), input, f);
  }

  /** For results of two bytes and more the flag that is read in big-endian
      layout is right exactly when nothing overflowed. */
  lemma BigEndianFlagExactlyWhen(result: Expr, overflow: Expr, input: Input)
    requires IsVector(result) && WholeBytes(result) && Size(result) >= 2 && IsCondition(overflow)
    ensures var pair, n := BuildOverflowResult(result, overflow, false), Size(result);
      8 * (n + 1) <= Bits(pair)
      && (Eval(ExtractExpr(pair, n, 1, false), input) == BitOf(Truth(overflow, input)) <==> !Truth(overflow, input))
  {
    hide Eval, WellSorted, IsBool, BuildOverflowResult, ExtractExpr;
    BigEndianMembers(result, overflow, input);
  }

  /** `_sym_build_add_overflow` and its siblings for sub and mul. */
  function BuildWithOverflow(op: BinOp, a: Expr, b: Expr, isSigned: bool, littleEndian: bool): (e: Expr)
    requires Swappable(Binary(op, a, b))
  {
    BuildOverflowResult(Binary(op, a, b), Flag(op, a, b, isSigned), littleEndian)
  }

  /** End to end, in little-endian layout: the first member of the pair is the
      true result modulo two to the width; the second, truncated to one bit,
      is set exactly on overflow (for unsigned multiplication, exactly when
      the product reaches the top bit of the double width). */
  lemma WithOverflowCorrect(op: BinOp, a: Expr, b: Expr, isSigned: bool, input: Input)
    requires SameWidth(a, b) && IsOverflowOp(op) && Swappable(Binary(op, a, b))
    ensures var pair := BuildWithOverflow(op, a, b, isSigned, true);
      var n, r := Size(Binary(op, a, b)), TrueResult(op, a, b, isSigned, input);
      Bits(a) == 8 * n && Bits(pair) == 2 * Bits(a)
      && Eval(ExtractExpr(pair, 0, n, true), input) == Wrap(Bits(a), r)
      && Eval(ByteToBool(ExtractExpr(pair, n, 1, true)), input)
         == BitOf(if op.Mul? && !isSigned then r >= Pow2(2 * Bits(a) - 1) else !FitsIn(Bits(a), isSigned, r))
  {
    hide Eval, WellSorted, IsBool, Holds, BuildOverflowResult, ExtractExpr, FitsIn, MulFlag, AddSubFlag, Wrap, Pow2;
    ResultWraps(op, a, b, isSigned, input);
    if op.Mul? && !isSigned {
      UnsignedMulFlag(a, b, input);
    } else {
      FlagExact(op, a, b, isSigned, input);
    }
    OverflowMembers(Binary(op, a, b), Flag(op, a, b, isSigned), input);
    var pair := BuildWithOverflow(op, a, b, isSigned, true);
    ByteToBoolNode(ExtractExpr(pair, Size(Binary(op, a, b)), 1, true), input);
  }

  lemma SixteenBits(n: nat)
    requires n < 0x1_0000
    ensures SameWidth(Integer(n, 16), Integer(n, 16)) && Bits(Integer(n, 16)) == 16 && Eval(Integer(n, 16), []) == n
    ensures Pow2(16) == 0x1_0000 && Pow2(31) > 0x1_0000
  {
    Pow2Eight();
    Pow2Add(8, 8);
    IntegerNode(n, 16, []);
    Pow2Mono(17, 31);
    Pow2Add(16, 1);
  }

  lemma SixteenSwappable(a: Expr)
    requires IsVector(a) && Bits(a) == 16
    ensures Swappable(Binary(Mul, a, a)) && Size(Binary(Mul, a, a)) == 2
  {
    hide WellSorted, IsBool;
  }

  lemma ThirtyTwoBits(pair: Expr)
    requires Bits(pair) == 32
    ensures WholeBytes(pair) && Size(pair) == 4
  {
  }

  /** 0x100 * 0x100 does not fit into sixteen bits, but the pair says that the
      product is 0 and that nothing overflowed. */
  lemma UnsignedMulMissesOverflow() returns (a: Expr, pair: Expr)
    ensures a == Integer(0x100, 16) && SameWidth(a, a) && Bits(a) == 16
    ensures Swappable(Binary(Mul, a, a)) && pair == BuildWithOverflow(Mul, a, a, false, true)
    ensures !FitsIn(Bits(a), false, TrueResult(Mul, a, a, false, []))
    ensures WholeBytes(pair) && Size(pair) == 4
    ensures Eval(ExtractExpr(pair, 0, 2, true), []) == 0
    ensures Eval(ByteToBool(ExtractExpr(pair, 2, 1, true)), []) == 0
  {
    hide Eval, Pow2, BuildWithOverflow, ExtractExpr, Swappable, Size, WholeBytes, WellSorted, IsBool, Bits, ByteToBool;
    a := Integer(0x100, 16);
    SixteenBits(0x100);
    SixteenSwappable(a);
    pair := BuildWithOverflow(Mul, a, a, false, true);
    WithOverflowCorrect(Mul, a, a, false, []);
    ThirtyTwoBits(pair);
    WrapIs(16, 0x1_0000, 1, 0);
  }

  lemma OneByte(e: Expr, input: Input, f: Byte)
    requires Holds(e, input, Reverse([f]))
    ensures IsVector(e) && Bits(e) == 8 && Eval(e, input) == f
  {
    assert Reverse([f]) == [f];
    assert FromBytes([f]) == f;
  }
}
