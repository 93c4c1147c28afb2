/** Access to members of symbolic aggregates: the offset that the pass computes
    for an index path, and what insertvalue and extractvalue do there. */
module MemberAccess {
  import opened Expressions
  import opened Aggregates
  import opened StructLayout

  /** Displacements of array elements are computed in 32 bits. */
  const Wrap: nat := 0x1_0000_0000

  function UsedChildOffset(t: Type, i: nat): (r: nat)
    requires HasChild(t, i)
  {
    if t.Array? then ChildOffset(t, i) % Wrap else ChildOffset(t, i)
  }

  /** The offset that the pass computes. */
  function UsedOffset(t: Type, path: seq<nat>): (r: nat)
    requires PathOk(t, path)
    decreases path
  {
    if path == [] then 0 else UsedChildOffset(t, path[0]) + UsedOffset(Child(t, path[0]), path[1..])
  }

  /** Every array level of the path displaces by less than 4 GiB. */
  predicate Near(t: Type, path: seq<nat>)
    requires PathOk(t, path)
    decreases path
  {
    path == [] || ((t.Array? ==> ChildOffset(t, path[0]) < Wrap) && Near(Child(t, path[0]), path[1..]))
  }

  /** The computed offset is that of the member exactly when no array level
      wraps around; otherwise it is too small. */
  lemma {:induction false} OffsetExactlyWhen(t: Type, path: seq<nat>)
    requires PathOk(t, path)
    ensures UsedOffset(t, path) <= MemberOffset(t, path)
    ensures UsedOffset(t, path) == MemberOffset(t, path) <==> Near(t, path)
    decreases path
  {
    hide ChildOffset, HasChild;
    if path != [] {
      OffsetExactlyWhen(Child(t, path[0]), path[1..]);
    }
  }

  lemma FirstLevel(t: Type, path: seq<nat>)
    requires PathOk(t, path) && path != []
    ensures MemberOffset(t, path) >= ChildOffset(t, path[0])
  {
  }

  /** No offset wraps within an aggregate of at most 4 GiB. */
  lemma {:induction false} SmallIsNear(t: Type, path: seq<nat>)
    requires Placed(t) && PathOk(t, path) && StoreSize(t) <= Wrap && StoreSize(MemberType(t, path)) > 0
    ensures Near(t, path)
    decreases path
  {
    hide Placed, StoreSize, ChildOffset, HasChild;
    MemberFits(t, path);
    if path != [] {
      FirstLevel(t, path);
      ChildPlaced(t, path[0]);
      ChildFits(t, path[0]);
      SmallIsNear(Child(t, path[0]), path[1..]);
    }
  }

  /** The second of two elements of 4 GiB each gets the offset of the first. */
  lemma FarElement()
    ensures var t := Array(2, Wrap, Scalar(Wrap));
      Placed(t) && PathOk(t, [1]) && !Near(t, [1]) && UsedOffset(t, [1]) == 0 && MemberOffset(t, [1]) == Wrap
  {
    var t := Array(2, Wrap, Scalar(Wrap));
    assert PathOk(Child(t, 1), [1][1..]);
    assert UsedOffset(Child(t, 1), [1][1..]) == 0 && MemberOffset(Child(t, 1), [1][1..]) == 0;
  }

  // ---------- insertion and extraction ----------

  /** `e` is a bit vector as wide as the store size of `t`. */
  predicate Fills(e: Expr, t: Type)
  {
    WellSorted(e) && !IsBool(e) && Bits(e) == 8 * StoreSize(t) && StoreSize(t) > 0
  }

  /** A byte swap is asked for at widths that it accepts only. */
  predicate CanSwap(piece: Expr, m: Type, littleEndian: bool)
  {
    IsLittle(m, littleEndian) && StoreSize(m) > 1 ==> Swappable(piece)
  }

  /** The constant that replaces a null structure is an aggregate of its type. */
  lemma EncodedFills(v: Value, t: Type, littleEndian: bool)
    requires t.Struct? && LayoutOk(t) && HasShape(v, t)
    ensures Placed(t) && Encode(v, t, littleEndian).Some? && Fills(Encode(v, t, littleEndian).value, t)
  {
    hide WellSorted, IsBool, Bits, Encode, LayoutOk, HasShape, Placed;
    LayoutPlaced(t);
    StructFacts(t);
    EncodedWidth(v, t, littleEndian);
  }

  lemma MemberInside(whole: Expr, t: Type, path: seq<nat>)
    requires Placed(t) && PathOk(t, path) && Fills(whole, t)
    ensures 8 * (UsedOffset(t, path) + StoreSize(MemberType(t, path))) <= Bits(whole)
  {
    hide Placed, WellSorted, IsBool, Bits, StoreSize;
    MemberFits(t, path);
    OffsetExactlyWhen(t, path);
  }

  /** The value of a member, in its own byte order. */
  function ExtractAt(whole: Expr, t: Type, path: seq<nat>, littleEndian: bool): (r: Expr)
    requires Placed(t) && PathOk(t, path) && Fills(whole, t) && StoreSize(MemberType(t, path)) > 0
  {
    var m := MemberType(t, path);
    MemberInside(whole, t, path);
    ExtractExpr(whole, UsedOffset(t, path), StoreSize(m), IsLittle(m, littleEndian))
  }

  /** It fills the member's type. */
  lemma ExtractFills(whole: Expr, t: Type, path: seq<nat>, littleEndian: bool)
    requires Placed(t) && PathOk(t, path) && Fills(whole, t) && StoreSize(MemberType(t, path)) > 0
    ensures Fills(ExtractAt(whole, t, path, littleEndian), MemberType(t, path))
  {
    hide Placed, WellSorted, IsBool, Bits, StoreSize, ExtractExpr, Eval, Holds, UsedOffset;
    var m, o := MemberType(t, path), UsedOffset(t, path);
    MemberInside(whole, t, path);
    var bs := HoldsSome(whole, [], StoreSize(t));
    ExtractHolds(whole, o, StoreSize(m), IsLittle(m, littleEndian), [], bs);
    HeldVector(ExtractAt(whole, t, path, littleEndian), [],
               Ordered(bs[o..o + StoreSize(m)], IsLittle(m, littleEndian)));
  }

  lemma PieceFacts(piece: Expr, m: Type, littleEndian: bool)
    requires Fills(piece, m) && CanSwap(piece, m, littleEndian)
    ensures WellSorted(piece) && !IsBool(piece) && WholeBytes(piece)
    ensures Size(piece) == StoreSize(m) > 0 && Bits(piece) == 8 * StoreSize(m)
    ensures IsLittle(m, littleEndian) && Bits(piece) > 8 ==> Swappable(piece)
  {
    hide WellSorted, IsBool, Bits, StoreSize;
  }

  lemma MemberInsertable(target: Expr, piece: Expr, t: Type, path: seq<nat>, littleEndian: bool)
    requires Placed(t) && PathOk(t, path) && Fills(target, t)
    requires Fills(piece, MemberType(t, path)) && CanSwap(piece, MemberType(t, path), littleEndian)
    ensures Insertable(target, piece, UsedOffset(t, path), IsLittle(MemberType(t, path), littleEndian))
  {
    hide Placed, WellSorted, IsBool, Bits, StoreSize, CanSwap, Swappable;
    PieceFacts(piece, MemberType(t, path), littleEndian);
    MemberInside(target, t, path);
  }

  /** The aggregate with a new member. */
  function InsertAt(target: Expr, piece: Expr, t: Type, path: seq<nat>, littleEndian: bool): (r: Expr)
    requires Placed(t) && PathOk(t, path) && Fills(target, t)
    requires Fills(piece, MemberType(t, path)) && CanSwap(piece, MemberType(t, path), littleEndian)
  {
    MemberInsertable(target, piece, t, path, littleEndian);
    InsertExpr(target, piece, UsedOffset(t, path), IsLittle(MemberType(t, path), littleEndian))
  }

  lemma InsertedShape(target: Expr, piece: Expr, offset: nat, littleEndian: bool)
    requires Insertable(target, piece, offset, littleEndian)
    ensures WellSorted(InsertExpr(target, piece, offset, littleEndian))
    ensures !IsBool(InsertExpr(target, piece, offset, littleEndian))
    ensures Bits(InsertExpr(target, piece, offset, littleEndian)) == Bits(target)
  {
    hide WellSorted, IsBool, Bits, InsertExpr, Eval, Holds, Ordered, Size, WholeBytes;
    var bs, cs, all := InsertBytes(target, piece, offset, littleEndian, []);
    HeldVector(InsertExpr(target, piece, offset, littleEndian), [], all);
  }

  /** The result of an insertion is an aggregate of the same type. */
  lemma InsertFills(target: Expr, piece: Expr, t: Type, path: seq<nat>, littleEndian: bool)
    requires Placed(t) && PathOk(t, path) && Fills(target, t)
    requires Fills(piece, MemberType(t, path)) && CanSwap(piece, MemberType(t, path), littleEndian)
    ensures Fills(InsertAt(target, piece, t, path, littleEndian), t)
  {
    hide Placed, WellSorted, IsBool, Bits, StoreSize, CanSwap, InsertExpr, Insertable;
    MemberInsertable(target, piece, t, path, littleEndian);
    InsertedShape(target, piece, UsedOffset(t, path), IsLittle(MemberType(t, path), littleEndian));
  }

  /** What is inserted at an index path is extracted there again. */
  lemma InsertMember(target: Expr, piece: Expr, t: Type, path: seq<nat>, littleEndian: bool, input: Input)
    requires Placed(t) && PathOk(t, path) && Fills(target, t)
    requires Fills(piece, MemberType(t, path)) && CanSwap(piece, MemberType(t, path), littleEndian)
    ensures var r := InsertAt(target, piece, t, path, littleEndian);
      Fills(r, t) && Eval(ExtractAt(r, t, path, littleEndian), input) == Eval(piece, input)
  {
    hide Bits, InsertExpr, ExtractExpr, Eval, Insertable, Size, StoreSize, Placed, WellSorted, IsBool, CanSwap;
    var m := MemberType(t, path);
    MemberInsertable(target, piece, t, path, littleEndian);
    PieceFacts(piece, m, littleEndian);
    InsertFills(target, piece, t, path, littleEndian);
    InsertThenExtract(target, piece, UsedOffset(t, path), IsLittle(m, littleEndian), input);
  }

  /** The paths part at some level, so neither member contains the other. */
  predicate Diverge(p: seq<nat>, q: seq<nat>)
  {
    p != [] && q != [] && (p[0] != q[0] || Diverge(p[1..], q[1..]))
  }

  /** Members at diverging paths do not overlap. */
  lemma {:induction false} MembersApart(t: Type, p: seq<nat>, q: seq<nat>)
    requires Placed(t) && PathOk(t, p) && PathOk(t, q) && Diverge(p, q)
    ensures MemberOffset(t, p) + StoreSize(MemberType(t, p)) <= MemberOffset(t, q)
         || MemberOffset(t, q) + StoreSize(MemberType(t, q)) <= MemberOffset(t, p)
    decreases p
  {
    hide Placed, StoreSize, ChildOffset, HasChild;
    ChildPlaced(t, p[0]);
    ChildPlaced(t, q[0]);
    if p[0] == q[0] {
      MembersApart(Child(t, p[0]), p[1..], q[1..]);
    } else {
      MemberFits(Child(t, p[0]), p[1..]);
      MemberFits(Child(t, q[0]), q[1..]);
      ChildFits(t, if p[0] < q[0] then p[0] else q[0]);
    }
  }

  /** Insertion at one path leaves the members at diverging paths alone. */
  lemma InsertElsewhere(target: Expr, piece: Expr, t: Type, path: seq<nat>, other: seq<nat>,
                        littleEndian: bool, input: Input)
    requires Placed(t) && PathOk(t, path) && Fills(target, t)
    requires Fills(piece, MemberType(t, path)) && CanSwap(piece, MemberType(t, path), littleEndian)
    requires PathOk(t, other) && StoreSize(MemberType(t, other)) > 0 && Diverge(path, other)
    requires Near(t, path) && Near(t, other)
    ensures var r := InsertAt(target, piece, t, path, littleEndian);
      Fills(r, t)
      && Eval(ExtractAt(r, t, other, littleEndian), input) == Eval(ExtractAt(target, t, other, littleEndian), input)
  {
    hide Bits, InsertExpr, ExtractExpr, Eval, Insertable, Size, StoreSize, Placed, WellSorted, IsBool, CanSwap,
         UsedOffset, MemberOffset;
    var m, m' := MemberType(t, path), MemberType(t, other);
    MemberInsertable(target, piece, t, path, littleEndian);
    PieceFacts(piece, m, littleEndian);
    InsertFills(target, piece, t, path, littleEndian);
    OffsetExactlyWhen(t, path);
    OffsetExactlyWhen(t, other);
    MembersApart(t, path, other);
    MemberInside(target, t, other);
    InsertKeepsDisjoint(target, piece, UsedOffset(t, path), IsLittle(m, littleEndian), UsedOffset(t, other),
                        StoreSize(m'), IsLittle(m', littleEndian), input);
  }
}

/** The loop that adds up the offset of an index path. */
module MemberOffsets {
  import opened StructLayout
  import opened MemberAccess

  method AggregateMemberOffset(t: Type, path: seq<nat>) returns (offset: nat)
    requires PathOk(t, path)
    ensures offset == UsedOffset(t, path)
    ensures offset == MemberOffset(t, path) <==> Near(t, path)
  {
    OffsetExactlyWhen(t, path);
    offset := 0;
    var indexed := t;
    for i := 0 to |path|
      invariant PathOk(indexed, path[i..])
      invariant offset + UsedOffset(indexed, path[i..]) == UsedOffset(t, path)
    {
      assert path[i..][0] == path[i] && path[i..][1..] == path[i + 1..];
      if indexed.Struct? {
        offset := offset + indexed.fields[path[i]].offset;
        indexed := indexed.fields[path[i]].ty;
      } else {
        var elementSize := indexed.stride % Wrap;
        WrappedFactor(indexed.stride, path[i]);
        offset := offset + elementSize * path[i] % Wrap;
        indexed := indexed.elem;
      }
    }
  }

  lemma WrappedFactor(size: nat, index: nat)
    ensures size % Wrap * index % Wrap == size * index % Wrap
  {
    var q, r := size / Wrap, size % Wrap;
    assert size * index == r * index + q * index * Wrap;
    WholeWraps(r * index, q * index);
  }

  lemma {:induction false} WholeWraps(n: nat, k: nat)
    ensures (n + k * Wrap) % Wrap == n % Wrap
  {
    if k > 0 {
      WholeWraps(n, k - 1);
      assert n + k * Wrap == n + (k - 1) * Wrap + Wrap;
    }
  }
}

/** The encoding of a structure is what stores of its members would leave in
    memory. */
module StructImages {
  import opened Bytes
  import opened Expressions
  import opened Aggregates
  import opened StructLayout
  import opened StepLaws

  /** Byte `j` of the scalar at an index path is the byte that a store of it puts
      at address `j`. */
  lemma ImageIsStored(v: Value, t: Type, path: seq<nat>, j: nat, littleEndian: bool)
    requires LayoutOk(t) && HasShape(v, t) && PathOk(t, path)
    requires MemberType(t, path).Scalar? && j < StoreSize(MemberType(t, path))
    ensures var n, o, m := StoreSize(MemberType(t, path)), MemberOffset(t, path), Member(v, t, path);
      m.Num? && o + n <= |Image(v, t, littleEndian)|
      && Image(v, t, littleEndian)[o + j] == ByteOf(m.v, n, j, littleEndian)
  {
    hide LayoutOk, HasShape, Image, ByteOf, MemberOffset, MemberType, Member;
    var m, o := MemberType(t, path), MemberOffset(t, path);
    MemberImage(v, t, path, littleEndian);
    ScalarFacts(Member(v, t, path), m);
    ScalarImage(Member(v, t, path), m, j, littleEndian);
    assert Image(v, t, littleEndian)[o..o + StoreSize(m)][j] == Image(v, t, littleEndian)[o + j];
  }

  lemma ScalarImage(v: Value, t: Type, j: nat, littleEndian: bool)
    requires t.Scalar? && LayoutOk(t) && HasShape(v, t) && j < t.bytes
    ensures v.Num? && Image(v, t, littleEndian)[j] == ByteOf(v.v, t.bytes, j, littleEndian)
  {
    hide ByteOf, Ordered;
    OrderedAt(ToBytes(t.bytes, v.v), v.v, j, littleEndian);
  }
}
