/** Building, taking apart and byte-swapping the single wide bit vector that
    stands for an aggregate. */
module Aggregates {
  import opened BitVectors
  import opened Bytes
  import opened Expressions

  function Size(e: Expr): (n: nat)
  {
    Bits(e) / 8
  }

  /** `e` has no partial byte. */
  predicate WholeBytes(e: Expr)
  {
    Bits(e) == 8 * Size(e)
  }

  /** Under `input`, `e` is the bit vector whose bytes are `bs`, most
      significant byte first. */
  ghost predicate Holds(e: Expr, input: Input, bs: seq<Byte>)
  {
    && WellSorted(e) && !IsBool(e)
    && Bits(e) == 8 * |bs|
    && Eval(e, input) == FromBytes(bs)
  }

  /** Every well-sorted bit vector of whole bytes holds a byte string. */
  lemma HoldsSome(e: Expr, input: Input, n: nat) returns (bs: seq<Byte>)
    requires WellSorted(e) && !IsBool(e) && Bits(e) == 8 * n
    ensures Holds(e, input, bs) && |bs| == n >= 1
  {
    bs := ToBytes(n, Eval(e, input));
    EvalRange(e, input);
    FromTo(n, Eval(e, input));
  }

  lemma HoldsSize(e: Expr, input: Input, bs: seq<Byte>)
    requires Holds(e, input, bs)
    ensures Bits(e) == 8 * |bs| && Size(e) == |bs| && WholeBytes(e)
  {
  }

  lemma HeldVector(e: Expr, input: Input, bs: seq<Byte>)
    requires Holds(e, input, bs)
    ensures IsVector(e) && Bits(e) == 8 * |bs| && Eval(e, input) == FromBytes(bs)
  {
  }

  lemma ConcatHolds(a: Expr, b: Expr, input: Input, bs: seq<Byte>, cs: seq<Byte>)
    requires Holds(a, input, bs) && Holds(b, input, cs)
    ensures Holds(Concat(a, b), input, bs + cs)
  {
    hide Pow2;
    FromBytesAppend(bs, cs);
  }

  /** The bits of bytes `[from, to)`, counting from the most significant byte. */
  function Slice(e: Expr, from: nat, to: nat): (r: Expr)
    requires from < to && 8 * to <= Bits(e)
  {
    Extract(e, Bits(e) - from * 8 - 1, Bits(e) - to * 8)
  }

  lemma SliceHolds(e: Expr, from: nat, to: nat, input: Input, bs: seq<Byte>)
    requires Holds(e, input, bs) && from < to <= |bs|
    ensures Holds(Slice(e, from, to), input, bs[from..to])
  {
    hide Pow2, FromBytes;
    assert bs == bs[..from] + bs[from..to] + bs[to..];
    MiddleBytes(bs[..from], bs[from..to], bs[to..]);
  }

  /** The result of the accumulating loop of `BuildExtract`. */
  function ExtractLittle(e: Expr, offset: nat, length: nat): (r: Expr)
    requires length >= 1 && 8 * (offset + length) <= Bits(e)
  {
    if length == 1 then Slice(e, offset, offset + 1)
    else Concat(Slice(e, offset + length - 1, offset + length), ExtractLittle(e, offset, length - 1))
  }

  function ExtractExpr(e: Expr, offset: nat, length: nat, littleEndian: bool): (r: Expr)
    requires length >= 1 && 8 * (offset + length) <= Bits(e)
  {
    if littleEndian then ExtractLittle(e, offset, length) else Slice(e, offset, offset + length)
  }

  /** Bytes as memory orders them for a value of the given byte order. */
  function Ordered(bs: seq<Byte>, littleEndian: bool): (r: seq<Byte>)
    ensures |r| == |bs|
  {
    if littleEndian then Reverse(bs) else bs
  }

  lemma {:induction false} ExtractLittleHolds(e: Expr, offset: nat, length: nat, input: Input, bs: seq<Byte>)
    requires Holds(e, input, bs) && length >= 1 && offset + length <= |bs|
    ensures Holds(ExtractLittle(e, offset, length), input, Reverse(bs[offset..offset + length]))
  {
    hide Holds, Bits;
    HoldsSize(e, input, bs);
    var last := offset + length - 1;
    SliceHolds(e, last, last + 1, input, bs);
    assert bs[last..last + 1] == [bs[last]] == Reverse([bs[last]]);
    if length > 1 {
      ExtractLittleHolds(e, offset, length - 1, input, bs);
      ConcatHolds(Slice(e, last, last + 1), ExtractLittle(e, offset, length - 1), input,
                  [bs[last]], Reverse(bs[offset..last]));
      assert bs[offset..last + 1] == bs[offset..last] + [bs[last]];
      ReverseSnoc(bs[offset..last], bs[last]);
    }
  }

  /** Extraction reads the requested bytes, in the requested byte order. */
  lemma ExtractHolds(e: Expr, offset: nat, length: nat, littleEndian: bool, input: Input, bs: seq<Byte>)
    requires Holds(e, input, bs) && length >= 1 && offset + length <= |bs|
    ensures Holds(ExtractExpr(e, offset, length, littleEndian), input,
                  Ordered(bs[offset..offset + length], littleEndian))
  {
    if littleEndian {
      ExtractLittleHolds(e, offset, length, input, bs);
    } else {
      SliceHolds(e, offset, offset + length, input, bs);
    }
  }

  /** The widths that the byte swap accepts; they are whole bytes too. */
  predicate Swappable(e: Expr)
  {
    WholeBytes(e) && Size(e) % 2 == 0 && Size(e) > 0
  }

  function BswapExpr(e: Expr): (r: Expr)
    requires WholeBytes(e) && Bits(e) > 0
  {
    ExtractExpr(e, 0, Size(e), true)
  }

  lemma BswapHolds(e: Expr, input: Input, bs: seq<Byte>)
    requires Holds(e, input, bs) && bs != []
    ensures Holds(BswapExpr(e), input, Reverse(bs))
  {
    hide Holds, Bits, Size, Reverse;
    HoldsSize(e, input, bs);
    ExtractLittleHolds(e, 0, |bs|, input, bs);
    assert bs[0..|bs|] == bs;
  }

  /** Swapping twice gives back the value. */
  lemma BswapInvolution(e: Expr, input: Input)
    requires WellSorted(e) && !IsBool(e) && Swappable(e)
    ensures Bits(BswapExpr(e)) == Bits(e) && Bits(BswapExpr(BswapExpr(e))) == Bits(e)
    ensures Eval(BswapExpr(BswapExpr(e)), input) == Eval(e, input)
  {
    var bs := HoldsSome(e, input, Size(e));
    BswapHolds(e, input, bs);
    BswapHolds(BswapExpr(e), input, Reverse(bs));
    ReverseTwice(bs);
  }

  /** The piece in the byte order in which memory holds it. */
  function NewPiece(piece: Expr, littleEndian: bool): (r: Expr)
    requires WholeBytes(piece)
  {
    if littleEndian && Bits(piece) > 8 then BswapExpr(piece) else piece
  }

  function InsertExpr(target: Expr, piece: Expr, offset: nat, littleEndian: bool): (r: Expr)
    requires WholeBytes(target) && WholeBytes(piece)
    requires 8 * offset + Bits(piece) <= Bits(target)
  {
    Splice(target, NewPiece(piece, littleEndian), offset, offset + Size(piece))
  }

  /** `piece` between the bytes of `target` before `from` and those after `to`. */
  function Splice(target: Expr, piece: Expr, from: nat, to: nat): (r: Expr)
    requires from <= to && 8 * to <= Bits(target) && WholeBytes(target)
  {
    var withBefore := if from == 0 then piece else Concat(Slice(target, 0, from), piece);
    var size := Size(target);
    if to == size then withBefore else Concat(withBefore, Slice(target, to, size))
  }

  lemma NewPieceHolds(piece: Expr, littleEndian: bool, input: Input, cs: seq<Byte>)
    requires Holds(piece, input, cs) && cs != []
    ensures Holds(NewPiece(piece, littleEndian), input, Ordered(cs, littleEndian))
  {
    BswapHolds(piece, input, cs);
    if |cs| == 1 {
      assert Reverse(cs) == cs;
    }
  }

  lemma SpliceHolds(target: Expr, piece: Expr, from: nat, input: Input, bs: seq<Byte>, cs: seq<Byte>)
    requires Holds(target, input, bs) && Holds(piece, input, cs) && from + |cs| <= |bs|
    ensures Holds(Splice(target, piece, from, from + |cs|), input, bs[..from] + cs + bs[from + |cs|..])
  {
    hide Holds, Bits, Size;
    HoldsSize(target, input, bs);
    var to := from + |cs|;
    var withBefore := if from == 0 then piece else Concat(Slice(target, 0, from), piece);
    var before := bs[..from] + cs;
    assert Holds(withBefore, input, before) by {
      if from > 0 {
        SliceHolds(target, 0, from, input, bs);
        assert bs[0..from] == bs[..from];
        ConcatHolds(Slice(target, 0, from), piece, input, bs[..from], cs);
      } else {
        assert before == cs;
      }
    }
    if to < |bs| {
      SliceHolds(target, to, |bs|, input, bs);
      assert bs[to..|bs|] == bs[to..];
      ConcatHolds(withBefore, Slice(target, to, |bs|), input, before, bs[to..]);
    } else {
      assert before + bs[to..] == before;
    }
  }

  /** Insertion replaces exactly the bytes of the piece. */
  lemma InsertHolds(target: Expr, piece: Expr, offset: nat, littleEndian: bool, input: Input,
                    bs: seq<Byte>, cs: seq<Byte>)
    requires Holds(target, input, bs) && Holds(piece, input, cs)
    requires cs != [] && offset + |cs| <= |bs|
    ensures Holds(InsertExpr(target, piece, offset, littleEndian), input,
                  bs[..offset] + Ordered(cs, littleEndian) + bs[offset + |cs|..])
  {
    hide Bits, Size, Holds, WholeBytes, NewPiece, Splice, Ordered;
    HoldsSize(target, input, bs);
    HoldsSize(piece, input, cs);
    NewPieceHolds(piece, littleEndian, input, cs);
    SpliceHolds(target, NewPiece(piece, littleEndian), offset, input, bs, Ordered(cs, littleEndian));
  }

  /** The operands that the assertions of the insertion admit. */
  predicate Insertable(target: Expr, piece: Expr, offset: nat, littleEndian: bool)
  {
    && WellSorted(target) && !IsBool(target) && WholeBytes(target)
    && WellSorted(piece) && !IsBool(piece) && WholeBytes(piece)
    && 8 * offset + Bits(piece) <= Bits(target)
    && (littleEndian && Bits(piece) > 8 ==> Swappable(piece))
  }

  /** The bytes of the target, of the piece, and of the result. */
  lemma InsertBytes(target: Expr, piece: Expr, offset: nat, littleEndian: bool, input: Input)
    returns (bs: seq<Byte>, cs: seq<Byte>, all: seq<Byte>)
    requires Insertable(target, piece, offset, littleEndian)
    ensures Holds(target, input, bs) && Holds(piece, input, cs) && |cs| >= 1 && offset + |cs| <= |bs|
    ensures Bits(piece) == 8 * |cs| && Size(piece) == |cs| && Bits(target) == 8 * |bs|
    ensures all == bs[..offset] + Ordered(cs, littleEndian) + bs[offset + |cs|..] && |all| == |bs|
    ensures Holds(InsertExpr(target, piece, offset, littleEndian), input, all)
  {
    hide Eval, FromBytes, Pow2, InsertExpr, Reverse;
    bs := HoldsSome(target, input, Size(target));
    cs := HoldsSome(piece, input, Size(piece));
    all := bs[..offset] + Ordered(cs, littleEndian) + bs[offset + |cs|..];
    InsertHolds(target, piece, offset, littleEndian, input, bs, cs);
  }

  lemma HoldsEval(e: Expr, f: Expr, input: Input, bs: seq<Byte>)
    requires Holds(e, input, bs) && Holds(f, input, bs)
    ensures Bits(e) == Bits(f) && Eval(e, input) == Eval(f, input)
  {
  }

  /** Extracting what was inserted, at the same place and in the same byte
      order, gives back its value, and the aggregate keeps its width. */
  lemma InsertThenExtract(target: Expr, piece: Expr, offset: nat, littleEndian: bool, input: Input)
    requires Insertable(target, piece, offset, littleEndian)
    ensures Bits(piece) >= 8
    ensures var r := InsertExpr(target, piece, offset, littleEndian);
      Bits(r) == Bits(target)
      && Bits(ExtractExpr(r, offset, Size(piece), littleEndian)) == Bits(piece)
      && Eval(ExtractExpr(r, offset, Size(piece), littleEndian), input) == Eval(piece, input)
  {
    hide Bits, Size, WholeBytes, Holds, InsertExpr, ExtractExpr, Reverse;
    var bs, cs, all := InsertBytes(target, piece, offset, littleEndian, input);
    var r := InsertExpr(target, piece, offset, littleEndian);
    HoldsSize(r, input, all);
    ExtractHolds(r, offset, |cs|, littleEndian, input, all);
    assert all[offset..offset + |cs|] == Ordered(cs, littleEndian);
    ReverseTwice(cs);
    HoldsEval(piece, ExtractExpr(r, offset, |cs|, littleEndian), input, cs);
  }

  lemma SplicedElsewhere(bs: seq<Byte>, mid: seq<Byte>, from: nat, lo: nat, hi: nat)
    requires from + |mid| <= |bs| && lo <= hi <= |bs|
    requires hi <= from || from + |mid| <= lo
    ensures (bs[..from] + mid + bs[from + |mid|..])[lo..hi] == bs[lo..hi]
  {
  }

  /** Extraction from a range that the insertion does not touch is unaffected. */
  lemma InsertKeepsDisjoint(target: Expr, piece: Expr, offset: nat, littleEndian: bool,
                            from: nat, length: nat, readLittle: bool, input: Input)
    requires Insertable(target, piece, offset, littleEndian)
    requires length >= 1 && 8 * (from + length) <= Bits(target)
    requires from + length <= offset || 8 * offset + Bits(piece) <= 8 * from
    ensures var r := InsertExpr(target, piece, offset, littleEndian);
      Bits(r) == Bits(target)
      && Eval(ExtractExpr(r, from, length, readLittle), input)
         == Eval(ExtractExpr(target, from, length, readLittle), input)
  {
    hide Bits, Size, WholeBytes, Holds, InsertExpr, ExtractExpr, Ordered, Reverse;
    var bs, cs, all := InsertBytes(target, piece, offset, littleEndian, input);
    var r := InsertExpr(target, piece, offset, littleEndian);
    HoldsSize(r, input, all);
    SplicedElsewhere(bs, Ordered(cs, littleEndian), offset, from, from + length);
    ExtractHolds(r, from, length, readLittle, input, all);
    ExtractHolds(target, from, length, readLittle, input, bs);
    HoldsEval(ExtractExpr(r, from, length, readLittle), ExtractExpr(target, from, length, readLittle), input,
              Ordered(bs[from..from + length], readLittle));
  }

  function ZeroBytesExpr(length: nat): (r: Expr)
  {
    if length <= 1 then Integer(0, 8) else Concat(ZeroBytesExpr(length - 1), Integer(0, 8))
  }

  lemma {:induction false} ZeroBytesHolds(length: nat, input: Input)
    requires length >= 1
    ensures Holds(ZeroBytesExpr(length), input, Zeros(length))
  {
    if length == 1 {
      Pow2Eight();
      ZerosValue(1);
    } else {
      ZeroBytesHolds(length - 1, input);
      ZeroBytesHolds(1, input);
      ConcatHolds(ZeroBytesExpr(length - 1), Integer(0, 8), input, Zeros(length - 1), Zeros(1));
      assert Zeros(length) == Zeros(length - 1) + Zeros(1);
    }
  }
}

/** The builders themselves, as loops and statements over an accumulator. */
module AggregateBuilders {
  import opened Expressions
  import opened Aggregates

  method BuildExtract(e: Expr, offset: nat, length: nat, littleEndian: bool) returns (r: Expr)
    requires WholeBytes(e) && length >= 1 && 8 * (offset + length) <= Bits(e)
    ensures r == ExtractExpr(e, offset, length, littleEndian)
  {
    var totalBits := Bits(e);
    if littleEndian {
      r := Extract(e, totalBits - offset * 8 - 1, totalBits - offset * 8 - 8);
      for i := 1 to length
        invariant r == ExtractLittle(e, offset, i)
      {
        r := Concat(Extract(e, totalBits - (offset + i) * 8 - 1, totalBits - (offset + i + 1) * 8), r);
      }
    } else {
      r := Extract(e, totalBits - offset * 8 - 1, totalBits - (offset + length) * 8);
    }
  }

  method BuildBswap(e: Expr) returns (r: Expr)
    requires Swappable(e)
    ensures r == BswapExpr(e)
  {
    r := BuildExtract(e, 0, Size(e), true);
  }

  method BuildInsert(target: Expr, piece: Expr, offset: nat, littleEndian: bool) returns (r: Expr)
    requires WholeBytes(target) && WholeBytes(piece)
    requires 8 * offset + Bits(piece) <= Bits(target)
    requires littleEndian && Bits(piece) > 8 ==> Swappable(piece)
    ensures r == InsertExpr(target, piece, offset, littleEndian)
  {
    hide Bits, Size, Slice, Swappable, BswapExpr, ExtractLittle;
    var bitsToInsert := Bits(piece);
    var end := offset + Size(piece);
    var newPiece := piece;
    if littleEndian && bitsToInsert > 8 {
      newPiece := BuildBswap(piece);
    }
    r := newPiece;
    if offset != 0 {
      var beforeInsert := BuildExtract(target, 0, offset, false);
      r := Concat(beforeInsert, newPiece);
    }
    var afterLen := Size(target) - offset - Size(piece);
    if afterLen != 0 {
      var afterInsert := BuildExtract(target, end, afterLen, false);
      r := Concat(r, afterInsert);
    }
  }

  method BuildZeroBytes(length: nat) returns (r: Expr)
    requires length >= 1
    ensures r == ZeroBytesExpr(length)
  {
    var zeroByte := Integer(0, 8);
    r := zeroByte;
    for i := 1 to length
      invariant r == ZeroBytesExpr(i)
    {
      r := Concat(r, zeroByte);
    }
  }
}
