/** What reading back from shadow memory means. */
module MemoryLaws {
  import opened BitVectors
  import opened Bytes
  import opened Expressions
  import opened Aggregates
  import opened Lifting
  import opened Programs
  import opened Replay
  import opened ReplaySteps

  lemma {:induction false} ReverseAppend(a: seq<Byte>, b: seq<Byte>)
    ensures Reverse(a + b) == Reverse(b) + Reverse(a)
  {
    if a == [] {
      assert a + b == b;
    } else {
      ReverseAppend(a[1..], b);
      assert (a + b)[1..] == a[1..] + b;
    }
  }

  lemma ReverseParts(a: seq<Byte>, b: seq<Byte>, c: seq<Byte>)
    ensures Reverse(a + b + c) == Reverse(c) + (Reverse(b) + Reverse(a))
  {
    hide Reverse;
    ReverseAppend(a + b, c);
    ReverseAppend(a, b);
  }

  lemma MiddlePart(x: seq<Byte>, y: seq<Byte>, z: seq<Byte>, i: nat, j: nat)
    requires i == |x| && j == |x| + |y|
    ensures i <= j <= |x + (y + z)| && (x + (y + z))[i..j] == y
  {
  }

  lemma ReverseMiddle(a: seq<Byte>, b: seq<Byte>, c: seq<Byte>, i: nat, j: nat)
    requires i == |c| && j == |c| + |b|
    ensures Reverse(Reverse(a + b + c)[i..j]) == b
  {
    hide Reverse;
    ReverseParts(a, b, c);
    MiddlePart(Reverse(c), Reverse(b), Reverse(a), i, j);
    ReverseTwice(b);
  }

  /** The bits that the bytes at `[lo, hi)` of an `n`-byte value hold. */
  function Part(v: nat, n: nat, lo: nat, hi: nat, littleEndian: bool): (r: nat)
    requires lo < hi <= n
  {
    if littleEndian then ExtractVal(v, 8 * hi - 1, 8 * lo)
    else ExtractVal(v, 8 * (n - lo) - 1, 8 * (n - hi))
  }

  lemma MiddleIsPart(a: seq<Byte>, b: seq<Byte>, c: seq<Byte>)
    requires b != []
    ensures FromBytes(b) == ExtractVal(FromBytes(a + b + c), 8 * (|c| + |b|) - 1, 8 * |c|)
  {
    hide Pow2, FromBytes;
    MiddleBytes(a, b, c);
  }

  lemma SliceIsPart(bs: seq<Byte>, from: nat, to: nat)
    requires from < to <= |bs|
    ensures FromBytes(bs[from..to]) == ExtractVal(FromBytes(bs), 8 * (|bs| - from) - 1, 8 * (|bs| - to))
  {
    hide Pow2, FromBytes, ExtractVal;
    assert bs == bs[..from] + bs[from..to] + bs[to..];
    MiddleIsPart(bs[..from], bs[from..to], bs[to..]);
  }

  lemma PartOfLittle(a: seq<Byte>, b: seq<Byte>, c: seq<Byte>, i: nat, j: nat)
    requires b != [] && i == |c| && j == |c| + |b|
    ensures FromBytes(Reverse(Reverse(a + b + c)[i..j])) == ExtractVal(FromBytes(a + b + c), 8 * j - 1, 8 * i)
  {
    hide Pow2, FromBytes, Reverse, ExtractVal;
    ReverseMiddle(a, b, c, i, j);
    MiddleIsPart(a, b, c);
  }

  lemma ReversedParts(bs: seq<Byte>, a: seq<Byte>, b: seq<Byte>, c: seq<Byte>, i: nat, j: nat)
    requires bs == a + b + c && b != [] && i == |c| && j == |c| + |b|
    ensures FromBytes(Reverse(Reverse(bs)[i..j])) == ExtractVal(FromBytes(bs), 8 * j - 1, 8 * i)
  {
    hide Pow2, FromBytes, Reverse, ExtractVal;
    PartOfLittle(a, b, c, i, j);
  }

  lemma ThreeParts(bs: seq<Byte>, from: nat, to: nat) returns (a: seq<Byte>, b: seq<Byte>, c: seq<Byte>)
    requires from <= to <= |bs|
    ensures bs == a + b + c && |a| == from && |b| == to - from && |c| == |bs| - to
  {
    a, b, c := bs[..from], bs[from..to], bs[to..];
  }

  lemma ReversedIsPart(bs: seq<Byte>, i: nat, j: nat)
    requires i < j <= |bs|
    ensures FromBytes(Reverse(Reverse(bs)[i..j])) == ExtractVal(FromBytes(bs), 8 * j - 1, 8 * i)
  {
    hide Pow2, FromBytes, Reverse, ExtractVal;
    var a, b, c := ThreeParts(bs, |bs| - j, |bs| - i);
    ReversedParts(bs, a, b, c, i, j);
  }

  lemma PartOfBytes(bs: seq<Byte>, lo: nat, hi: nat, littleEndian: bool)
    requires lo < hi <= |bs|
    ensures FromBytes(Ordered(Ordered(bs, littleEndian)[lo..hi], littleEndian))
      == Part(FromBytes(bs), |bs|, lo, hi, littleEndian)
  {
    hide Pow2, FromBytes, Reverse, ExtractVal;
    if littleEndian {
      ReversedIsPart(bs, lo, hi);
    } else {
      SliceIsPart(bs, lo, hi);
    }
  }

  lemma ShadowBytesAt(sh: map<int, SymExpr>, at: int, n: nat, k: nat)
    requires k < n
    ensures ShadowBytes(sh, at, n)[k] == ShadowAt(sh, at + k)
  {
  }

  lemma PutShadow(sh: map<int, SymExpr>, at: int, es: seq<SymExpr>, k: nat)
    requires k < |es|
    ensures ShadowAt(Put(sh, at, es), at + k) == es[k]
  {
    PutAt(sh, at, es, at + k);
  }

  /** Write an expression, read any part of it back: exactly the matching bits,
      in either byte order, whatever was in memory before. */
  lemma WriteThenRead(m: map<int, Byte>, sh: map<int, SymExpr>, at: int, e: Expr, n: nat,
                      lo: nat, hi: nat, littleEndian: bool, input: Input)
    requires IsVector(e) && Bits(e) == 8 * n && lo < hi <= n
    ensures var r := ReadShadow(m, Put(sh, at, StoreShadow(Some(e), n, littleEndian)), at + lo, hi - lo, littleEndian);
      r.Some? && IsVector(r.value) && Bits(r.value) == 8 * (hi - lo)
      && Eval(r.value, input) == Part(Eval(e, input), n, lo, hi, littleEndian)
  {
    hide Pow2, Eval, WellSorted, IsBool, Bits, Holds, Put, ShadowAt, FromBytes, SplitByte, Ordered, JoinBytes,
         ExtractVal, Part;
    var bs := HoldsSome(e, input, n);
    HeldVector(e, input, bs);
    var es, ordered := SplitAll(e, n, littleEndian), Ordered(bs, littleEndian);
    SplitAllHolds(e, littleEndian, input, bs);
    var stored := StoreShadow(Some(e), n, littleEndian);
    var sh' := Put(sh, at, stored);
    var rs := ByteExprs(m, sh', at + lo, hi - lo);
    forall k | 0 <= k < hi - lo
      ensures rs[k] == es[lo + k]
      ensures ShadowAt(sh', at + lo + k).Some?
    {
      PutShadow(sh, at, stored, lo + k);
      assert stored[lo + k] == Some(SplitByte(e, n, lo + k, littleEndian));
      assert at + (lo + k) == at + lo + k;
      assert rs[k] == Coerce(ShadowAt(sh', at + lo + k), ByteAt(m, at + lo + k), 8);
    }
    ShadowBytesAt(sh', at + lo, hi - lo, 0);
    PutShadow(sh, at, stored, lo + 0);
    assert at + (lo + 0) == at + lo + 0;
    var part := ordered[lo..hi];
    assert HoldEach(rs, input, part);
    JoinHolds(rs, littleEndian, input, part);
    HeldVector(JoinBytes(rs, littleEndian), input, Ordered(part, littleEndian));
    PartOfBytes(bs, lo, hi, littleEndian);
  }

  /** A read is null exactly when every byte is concrete; otherwise, with
      symbolic and concrete bytes mixed, it evaluates to the bytes that memory
      holds in the run on `input`. */
  lemma ReadMeansMemory(m: map<int, Byte>, sh: map<int, SymExpr>, m': map<int, Byte>, at: int, n: nat,
                        littleEndian: bool, input: Input)
    requires MemoryAgree(m, sh, m', input) && n > 0
    ensures var r := ReadShadow(m, sh, at, n, littleEndian);
      (r.None? <==> forall a: int :: at <= a < at + n ==> ShadowAt(sh, a).None?)
      && (r.Some? ==> IsVector(r.value) && Bits(r.value) == 8 * n
                      && Eval(r.value, input) == FromBytes(Ordered(ReadBytes(m', at, n), littleEndian)))
  {
    hide Pow2, Eval, WellSorted, IsBool, Bits, Holds, FromBytes, Ordered, JoinBytes, MemoryAgree, HoldEach, ReadBytes,
         ByteExprs;
    if AllNull(ShadowBytes(sh, at, n)) {
      forall a: int | at <= a < at + n
        ensures ShadowAt(sh, a).None?
      {
        assert ShadowBytes(sh, at, n)[a - at].None?;
      }
    } else {
      var es, bs := ByteExprs(m, sh, at, n), ReadBytes(m', at, n);
      ByteExprsHold(m, sh, m', at, n, input);
      JoinHolds(es, littleEndian, input, bs);
      HeldVector(JoinBytes(es, littleEndian), input, Ordered(bs, littleEndian));
    }
  }

  // ---------- filling with an expression of another width ----------

  lemma {:induction false} JoinWidth(es: seq<Expr>, w: nat, littleEndian: bool)
    requires es != [] && forall k :: 0 <= k < |es| ==> Bits(es[k]) == w
    ensures Bits(JoinBytes(es, littleEndian)) == |es| * w
  {
    hide Bits;
    var n := |es| - 1;
    if n > 0 {
      JoinWidth(es[..n], w, littleEndian);
      ConcatWidth(es[n], JoinBytes(es[..n], littleEndian));
      assert (n + 1) * w == n * w + w;
    }
  }

  lemma ConcatWidth(a: Expr, b: Expr)
    ensures Bits(Concat(a, b)) == Bits(Concat(b, a)) == Bits(a) + Bits(b)
  {
  }

  /** Every byte of a filled region gets the fill expression as it is. Reading
      the region back gives an expression of the right width exactly when the
      fill expression is a byte. */
  lemma FilledExactlyWhen(m: map<int, Byte>, sh: map<int, SymExpr>, at: int, e: Expr, n: nat, littleEndian: bool)
    requires n > 0
    ensures var r := ReadShadow(m, Put(sh, at, Repeat(Some(e), n)), at, n, littleEndian);
      r.Some? && Bits(r.value) == n * Bits(e) && (Bits(r.value) == 8 * n <==> Bits(e) == 8)
  {
    hide Bits, Put, ShadowAt, JoinBytes;
    var es := Repeat(Some(e), n);
    var sh' := Put(sh, at, es);
    var rs := ByteExprs(m, sh', at, n);
    forall k | 0 <= k < n
      ensures rs[k] == e && ShadowBytes(sh', at, n)[k] == Some(e)
    {
      PutShadow(sh, at, es, k);
      assert es[k] == Some(e);
      assert rs[k] == Coerce(ShadowAt(sh', at + k), ByteAt(m, at + k), 8);
    }
    assert ShadowBytes(sh', at, n)[0].Some?;
    JoinWidth(rs, Bits(e), littleEndian);
    SameFactor(n, Bits(e));
  }

  lemma SameFactor(n: nat, w: nat)
    requires n > 0
    ensures n * w == 8 * n <==> w == 8
  {
    if w > 8 {
      MulGap(w - 8, n);
      assert n * w == (w - 8) * n + 8 * n;
    } else if w < 8 {
      MulGap(8 - w, n);
      assert 8 * n == (8 - w) * n + n * w;
    }
  }

  /** The character that the C function memset takes is an int: two bytes filled
      with it read back as an expression of 64 bits. */
  lemma IntegerFillWidens(c: Expr)
    requires Bits(c) == 32
    ensures var r := ReadShadow(map[], Put(map[], 0, Repeat(Some(c), 2)), 0, 2, true);
      r.Some? && Bits(r.value) == 64
  {
    FilledExactlyWhen(map[], map[], 0, c, 2, true);
  }
}
