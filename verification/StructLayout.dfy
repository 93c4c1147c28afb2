/** Structures in registers: one wide expression laid out like memory, and the
    extraction of members from it. */
module StructLayout {
  import opened BitVectors
  import opened Bytes
  import opened Expressions
  import opened Aggregates
  import opened Lifting

  /** Types whose layout the target fixes; sizes, offsets and the distance of
      array elements in bytes. */
  datatype Type = Scalar(bytes: nat) | Struct(fields: seq<Field>, size: nat)
                | Array(count: nat, stride: nat, elem: Type)

  datatype Field = Field(offset: nat, ty: Type)

  datatype Value = Num(v: nat) | Record(members: seq<Value>)

  function StoreSize(t: Type): (n: nat)
  {
    match t case Scalar(n) => n case Struct(_, n) => n case Array(count, stride, _) => count * stride
  }

  /** The end of the part that the first `n` fields occupy. */
  function End(fields: seq<Field>, n: nat): (r: nat)
    requires n <= |fields|
  {
    if n == 0 then 0 else fields[n - 1].offset + StoreSize(fields[n - 1].ty)
  }

  /** The types of constant expressions: scalars of one byte or an even number
      of bytes; structures that are not empty, with their fields in order and
      without overlap. There are none for arrays. */
  predicate LayoutOk(t: Type)
  {
    match t
    case Scalar(n) => n == 1 || n == 2 || n == 4 || n == 6 || n == 8 || n == 16
    case Struct(fields, size) =>
      && size > 0 && End(fields, |fields|) <= size
      && (forall i :: 0 <= i < |fields| ==> End(fields, i) <= fields[i].offset)
      && (forall i :: 0 <= i < |fields| ==> LayoutOk(fields[i].ty))
    case Array(_, _, _) => false
  }

  predicate HasShape(v: Value, t: Type)
  {
    match t
    case Scalar(n) => v.Num? && v.v < Pow2(8 * n)
    case Struct(fields, _) =>
      && v.Record? && |v.members| == |fields|
      && (forall i :: 0 <= i < |fields| ==> HasShape(v.members[i], fields[i].ty))
    case Array(_, _, _) => false
  }

  lemma NoArray(t: Type)
    requires LayoutOk(t)
    ensures !t.Array?
  {
  }

  /** The layout of any aggregate in a register: parts in order, without
      overlap and within the whole. */
  predicate Placed(t: Type)
  {
    match t
    case Scalar(n) => n > 0
    case Struct(fields, size) =>
      && End(fields, |fields|) <= size
      && (forall i :: 0 <= i < |fields| ==> End(fields, i) <= fields[i].offset)
      && (forall i :: 0 <= i < |fields| ==> Placed(fields[i].ty))
    case Array(_, stride, elem) => StoreSize(elem) <= stride && Placed(elem)
  }

  lemma {:induction false} LayoutPlaced(t: Type)
    requires LayoutOk(t)
    ensures Placed(t)
  {
    if t.Struct? {
      forall i | 0 <= i < |t.fields|
        ensures Placed(t.fields[i].ty)
      {
        LayoutPlaced(t.fields[i].ty);
      }
    }
  }

  lemma StructFacts(t: Type)
    requires t.Struct? && LayoutOk(t)
    ensures t.size > 0 && End(t.fields, |t.fields|) <= t.size
  {
  }

  lemma FieldFacts(t: Type, i: nat)
    requires t.Struct? && LayoutOk(t) && i < |t.fields|
    ensures LayoutOk(t.fields[i].ty) && End(t.fields, i) <= t.fields[i].offset
  {
  }

  lemma ShapeFacts(v: Value, t: Type, i: nat)
    requires t.Struct? && HasShape(v, t) && i < |t.fields|
    ensures v.Record? && |v.members| == |t.fields| && HasShape(v.members[i], t.fields[i].ty)
  {
  }

  lemma ScalarFacts(v: Value, t: Type)
    requires t.Scalar? && HasShape(v, t)
    ensures v.Num? && v.v < Pow2(8 * t.bytes)
  {
  }

  /** Only scalars have a byte order; aggregates are already memory images. */
  predicate IsLittle(t: Type, littleEndian: bool)
  {
    t.Scalar? && littleEndian
  }

  function Append(e: SymExpr, next: Expr): (r: SymExpr)
  {
    Some(if e.Some? then Concat(e.value, next) else next)
  }

  function Pad(e: SymExpr, n: nat): (r: SymExpr)
  {
    if n > 0 then Append(e, ZeroBytesExpr(n)) else e
  }

  // ---------- the encoding ----------

  function Encode(v: Value, t: Type, littleEndian: bool): (e: SymExpr)
    requires LayoutOk(t) && HasShape(v, t)
    decreases t, 1, 0
  {
    match t
    case Scalar(n) => Some(ValueExpr(v.v, 8 * n))
    case Struct(fields, size) =>
      Pad(EncodeFields(v, t, |fields|, littleEndian), size - End(fields, |fields|))
  }

  /** A member in the byte order of memory. */
  function MemoryOrder(e: SymExpr, t: Type, littleEndian: bool): (r: SymExpr)
  {
    if IsLittle(t, littleEndian) && StoreSize(t) > 1 && e.Some? && WholeBytes(e.value) && Bits(e.value) > 0
    then Some(BswapExpr(e.value))
    else e
  }

  function EncodeFields(v: Value, t: Type, n: nat, littleEndian: bool): (e: SymExpr)
    requires t.Struct? && LayoutOk(t) && HasShape(v, t) && n <= |t.fields|
    decreases t, 0, n
  {
    if n == 0 then None
    else
      var f := t.fields[n - 1];
      var before := Pad(EncodeFields(v, t, n - 1, littleEndian), f.offset - End(t.fields, n - 1));
      var element := MemoryOrder(Encode(v.members[n - 1], f.ty, littleEndian), f.ty, littleEndian);
      if element.Some? then Append(before, element.value) else before
  }

  /** The bytes of a value in memory, with zeros for the padding. */
  ghost function Image(v: Value, t: Type, littleEndian: bool): (bs: seq<Byte>)
    requires LayoutOk(t) && HasShape(v, t)
    ensures |bs| == StoreSize(t)
    decreases t, 1, 0
  {
    match t
    case Scalar(n) => Ordered(ToBytes(n, v.v), littleEndian)
    case Struct(fields, size) =>
      ImageFields(v, t, |fields|, littleEndian) + Zeros(size - End(fields, |fields|))
  }

  ghost function ImageFields(v: Value, t: Type, n: nat, littleEndian: bool): (bs: seq<Byte>)
    requires t.Struct? && LayoutOk(t) && HasShape(v, t) && n <= |t.fields|
    ensures |bs| == End(t.fields, n)
    decreases t, 0, n
  {
    if n == 0 then []
    else
      var f := t.fields[n - 1];
      ImageFields(v, t, n - 1, littleEndian) + Zeros(f.offset - End(t.fields, n - 1))
      + Image(v.members[n - 1], f.ty, littleEndian)
  }

  /** An optional expression holds a possibly empty byte string. */
  ghost predicate HoldsOpt(e: SymExpr, input: Input, bs: seq<Byte>)
  {
    if e.None? then bs == [] else Holds(e.value, input, bs)
  }

  lemma AppendHolds(e: SymExpr, next: Expr, input: Input, bs: seq<Byte>, cs: seq<Byte>)
    requires HoldsOpt(e, input, bs) && Holds(next, input, cs)
    ensures HoldsOpt(Append(e, next), input, bs + cs)
  {
    hide Holds;
    if e.Some? {
      ConcatHolds(e.value, next, input, bs, cs);
    } else {
      assert bs + cs == cs;
    }
  }

  lemma PadHolds(e: SymExpr, n: nat, input: Input, bs: seq<Byte>)
    requires HoldsOpt(e, input, bs)
    ensures HoldsOpt(Pad(e, n), input, bs + Zeros(n))
  {
    hide Holds, HoldsOpt;
    if n > 0 {
      ZeroBytesHolds(n, input);
      AppendHolds(e, ZeroBytesExpr(n), input, bs, Zeros(n));
    } else {
      assert bs + Zeros(n) == bs;
    }
  }

  /** A scalar's own expression is its value; in memory order it is the image. */
  lemma ScalarHolds(n: nat, v: nat, input: Input)
    requires LayoutOk(Scalar(n)) && v < Pow2(8 * n)
    ensures Holds(ValueExpr(v, 8 * n), input, ToBytes(n, v))
  {
    hide Pow2, FromBytes, ToBytes, ValueExpr;
    ValueExprCorrect(v, 8 * n, input);
    FromTo(n, v);
  }

  lemma MemoryOrderHolds(e: Expr, t: Type, littleEndian: bool, input: Input, bs: seq<Byte>)
    requires Holds(e, input, bs) && |bs| == StoreSize(t) > 0
    ensures MemoryOrder(Some(e), t, littleEndian).Some?
    ensures Holds(MemoryOrder(Some(e), t, littleEndian).value, input, Ordered(bs, IsLittle(t, littleEndian)))
  {
    hide Holds, Bits, Size, Reverse, BswapExpr;
    HoldsSize(e, input, bs);
    BswapHolds(e, input, bs);
    if |bs| == 1 {
      OneReversed(bs);
    }
  }

  lemma OneReversed(bs: seq<Byte>)
    requires |bs| == 1
    ensures Reverse(bs) == bs
  {
  }

  lemma SizePositive(t: Type)
    requires LayoutOk(t)
    ensures StoreSize(t) > 0
  {
  }

  /** The bytes an encoded value holds: a structure is its memory image, a
      scalar its value. */
  ghost function Held(v: Value, t: Type, littleEndian: bool): (bs: seq<Byte>)
    requires LayoutOk(t) && HasShape(v, t)
    ensures |bs| == StoreSize(t)
  {
    if t.Scalar? then ToBytes(t.bytes, v.v) else Image(v, t, littleEndian)
  }

  lemma StructHeld(v: Value, t: Type, littleEndian: bool)
    requires t.Struct? && LayoutOk(t) && HasShape(v, t)
    ensures Held(v, t, littleEndian) == Image(v, t, littleEndian)
  {
  }

  lemma HeldOrdered(v: Value, t: Type, littleEndian: bool)
    requires LayoutOk(t) && HasShape(v, t)
    ensures Ordered(Held(v, t, littleEndian), IsLittle(t, littleEndian)) == Image(v, t, littleEndian)
  {
  }

  lemma {:induction false} EncodeHolds(v: Value, t: Type, littleEndian: bool, input: Input)
    requires LayoutOk(t) && HasShape(v, t)
    ensures Encode(v, t, littleEndian).Some?
    ensures Holds(Encode(v, t, littleEndian).value, input, Held(v, t, littleEndian))
    decreases t, 1, 0
  {
    hide Holds, ToBytes, ValueExpr, EncodeFields, ImageFields, Pad, Pow2, End;
    if t.Scalar? {
      ScalarHolds(t.bytes, v.v, input);
    } else {
      var fields := t.fields;
      FieldsHold(v, t, |fields|, littleEndian, input);
      PadHolds(EncodeFields(v, t, |fields|, littleEndian), t.size - End(fields, |fields|), input,
               ImageFields(v, t, |fields|, littleEndian));
    }
  }

  lemma {:induction false} FieldsHold(v: Value, t: Type, n: nat, littleEndian: bool, input: Input)
    requires t.Struct? && LayoutOk(t) && HasShape(v, t) && n <= |t.fields|
    ensures HoldsOpt(EncodeFields(v, t, n, littleEndian), input, ImageFields(v, t, n, littleEndian))
    decreases t, 0, n
  {
    hide Holds, Encode, Image, Held, Pad, MemoryOrder, Ordered, Append, LayoutOk, HasShape, End, IsLittle;
    if n > 0 {
      FieldFacts(t, n - 1);
      ShapeFacts(v, t, n - 1);
      var f, m := t.fields[n - 1], v.members[n - 1];
      FieldsHold(v, t, n - 1, littleEndian, input);
      var before, bs := EncodeFields(v, t, n - 1, littleEndian), ImageFields(v, t, n - 1, littleEndian);
      var gap := f.offset - End(t.fields, n - 1);
      PadHolds(before, gap, input, bs);
      SizePositive(f.ty);
      EncodeHolds(m, f.ty, littleEndian, input);
      var e := Encode(m, f.ty, littleEndian);
      MemoryOrderHolds(e.value, f.ty, littleEndian, input, Held(m, f.ty, littleEndian));
      HeldOrdered(m, f.ty, littleEndian);
      AppendHolds(Pad(before, gap), MemoryOrder(e, f.ty, littleEndian).value, input,
                  bs + Zeros(gap), Image(m, f.ty, littleEndian));
    }
  }

  // ---------- members ----------

  predicate HasChild(t: Type, i: nat)
  {
    (t.Struct? && i < |t.fields|) || (t.Array? && i < t.count)
  }

  function Child(t: Type, i: nat): (r: Type)
    requires HasChild(t, i)
    ensures r < t
  {
    if t.Struct? then t.fields[i].ty else t.elem
  }

  function ChildOffset(t: Type, i: nat): (r: nat)
    requires HasChild(t, i)
  {
    if t.Struct? then t.fields[i].offset else t.stride * i
  }

  predicate PathOk(t: Type, path: seq<nat>)
  {
    path == [] || (HasChild(t, path[0]) && PathOk(Child(t, path[0]), path[1..]))
  }

  function MemberType(t: Type, path: seq<nat>): (r: Type)
    requires PathOk(t, path)
    decreases path
  {
    if path == [] then t else MemberType(Child(t, path[0]), path[1..])
  }

  function MemberOffset(t: Type, path: seq<nat>): (r: nat)
    requires PathOk(t, path)
    decreases path
  {
    if path == [] then 0 else ChildOffset(t, path[0]) + MemberOffset(Child(t, path[0]), path[1..])
  }

  function Member(v: Value, t: Type, path: seq<nat>): (r: Value)
    requires PathOk(t, path) && HasShape(v, t)
    ensures HasShape(r, MemberType(t, path))
    decreases path
  {
    if path == [] then v else Member(v.members[path[0]], t.fields[path[0]].ty, path[1..])
  }

  lemma ChildPlaced(t: Type, i: nat)
    requires Placed(t) && HasChild(t, i)
    ensures Placed(Child(t, i))
    ensures t.Struct? ==> End(t.fields, i) <= t.fields[i].offset && End(t.fields, |t.fields|) <= t.size
    ensures t.Array? ==> StoreSize(t.elem) <= t.stride
  {
  }

  lemma {:induction false} EndsGrow(t: Type, i: nat, j: nat)
    requires t.Struct? && Placed(t) && i <= j <= |t.fields|
    ensures End(t.fields, i) <= End(t.fields, j)
  {
    hide Placed;
    if i < j {
      EndsGrow(t, i, j - 1);
      ChildPlaced(t, j - 1);
    }
  }

  /** A part lies within the whole and before the parts that follow it. */
  lemma ChildFits(t: Type, i: nat)
    requires Placed(t) && HasChild(t, i)
    ensures ChildOffset(t, i) + StoreSize(Child(t, i)) <= StoreSize(t)
    ensures forall j :: i < j && HasChild(t, j) ==> ChildOffset(t, i) + StoreSize(Child(t, i)) <= ChildOffset(t, j)
  {
    hide Placed;
    ChildPlaced(t, i);
    if t.Struct? {
      EndsGrow(t, i + 1, |t.fields|);
      forall j | i < j < |t.fields|
        ensures End(t.fields, i + 1) <= t.fields[j].offset
      {
        EndsGrow(t, i + 1, j);
        ChildPlaced(t, j);
      }
    } else {
      StrideGrows(t.stride, i + 1, t.count);
      forall j | i < j < t.count
        ensures t.stride * (i + 1) <= t.stride * j
      {
        StrideGrows(t.stride, i + 1, j);
      }
    }
  }

  lemma StrideGrows(stride: nat, i: nat, j: nat)
    requires i <= j
    ensures stride * i <= stride * j
  {
    assert stride * j == stride * i + stride * (j - i);
  }

  lemma {:induction false} MemberFits(t: Type, path: seq<nat>)
    requires Placed(t) && PathOk(t, path)
    ensures Placed(MemberType(t, path))
    ensures MemberOffset(t, path) + StoreSize(MemberType(t, path)) <= StoreSize(t)
    decreases path
  {
    hide Placed, StoreSize, ChildOffset, HasChild, Child;
    if path != [] {
      ChildPlaced(t, path[0]);
      ChildFits(t, path[0]);
      MemberFits(Child(t, path[0]), path[1..]);
    }
  }

  lemma {:induction false} MemberOk(t: Type, path: seq<nat>)
    requires LayoutOk(t) && PathOk(t, path)
    ensures LayoutOk(MemberType(t, path))
    ensures MemberOffset(t, path) + StoreSize(MemberType(t, path)) <= StoreSize(t)
    decreases path
  {
    hide LayoutOk, End, StoreSize;
    NoArray(t);
    LayoutPlaced(t);
    MemberFits(t, path);
    if path != [] {
      FieldFacts(t, path[0]);
      MemberOk(t.fields[path[0]].ty, path[1..]);
    }
  }

  /** Each field's image lies at its offset. */
  lemma {:induction false} FieldImage(v: Value, t: Type, n: nat, i: nat, littleEndian: bool)
    requires t.Struct? && LayoutOk(t) && HasShape(v, t) && i < n <= |t.fields|
    ensures v.Record? && i < |v.members| && HasShape(v.members[i], t.fields[i].ty) && LayoutOk(t.fields[i].ty)
    ensures var f := t.fields[i];
      f.offset + StoreSize(f.ty) <= End(t.fields, n)
      && ImageFields(v, t, n, littleEndian)[f.offset..f.offset + StoreSize(f.ty)]
         == Image(v.members[i], f.ty, littleEndian)
    decreases n
  {
    hide Image, HasShape, LayoutOk, End, StoreSize, Placed;
    FieldFacts(t, n - 1);
    ShapeFacts(v, t, n - 1);
    FieldFacts(t, i);
    ShapeFacts(v, t, i);
    LayoutPlaced(t);
    EndsGrow(t, i + 1, n);
    EndOf(t.fields, n);
    EndOf(t.fields, i + 1);
    var f, last := t.fields[i], t.fields[n - 1];
    var before, gap := ImageFields(v, t, n - 1, littleEndian), Zeros(last.offset - End(t.fields, n - 1));
    var element := Image(v.members[n - 1], last.ty, littleEndian);
    if i < n - 1 {
      FieldImage(v, t, n - 1, i, littleEndian);
      SliceOfFirst(before, gap, element, f.offset, f.offset + StoreSize(f.ty));
    } else {
      LastSlice(before + gap, element);
    }
  }

  lemma EndOf(fields: seq<Field>, n: nat)
    requires 0 < n <= |fields|
    ensures End(fields, n) == fields[n - 1].offset + StoreSize(fields[n - 1].ty)
  {
  }

  lemma SliceOfFirst(a: seq<Byte>, b: seq<Byte>, c: seq<Byte>, lo: nat, hi: nat)
    requires lo <= hi <= |a|
    ensures (a + b + c)[lo..hi] == a[lo..hi]
  {
  }

  lemma LastSlice(a: seq<Byte>, b: seq<Byte>)
    ensures (a + b)[|a|..|a| + |b|] == b
  {
  }

  lemma {:induction false} MemberImage(v: Value, t: Type, path: seq<nat>, littleEndian: bool)
    requires LayoutOk(t) && HasShape(v, t) && PathOk(t, path)
    ensures LayoutOk(MemberType(t, path))
    ensures var o, m := MemberOffset(t, path), MemberType(t, path);
      o + StoreSize(m) <= StoreSize(t)
      && Image(v, t, littleEndian)[o..o + StoreSize(m)] == Image(Member(v, t, path), m, littleEndian)
    decreases path
  {
    hide LayoutOk, HasShape, Image, StoreSize, End;
    NoArray(t);
    MemberOk(t, path);
    if path == [] {
      assert Image(v, t, littleEndian)[0..0 + StoreSize(t)] == Image(v, t, littleEndian);
    } else {
      OneLevel(v, t, path[0], littleEndian);
      var f, o := t.fields[path[0]], MemberOffset(t.fields[path[0]].ty, path[1..]);
      MemberImage(v.members[path[0]], f.ty, path[1..], littleEndian);
      SubSlice(Image(v, t, littleEndian), f.offset, StoreSize(f.ty), o, StoreSize(MemberType(t, path)));
    }
  }

  lemma OneLevel(v: Value, t: Type, i: nat, littleEndian: bool)
    requires t.Struct? && LayoutOk(t) && HasShape(v, t) && i < |t.fields|
    ensures v.Record? && i < |v.members| && HasShape(v.members[i], t.fields[i].ty) && LayoutOk(t.fields[i].ty)
    ensures var f := t.fields[i];
      f.offset + StoreSize(f.ty) <= StoreSize(t)
      && Image(v, t, littleEndian)[f.offset..f.offset + StoreSize(f.ty)] == Image(v.members[i], f.ty, littleEndian)
  {
    hide ImageFields, LayoutOk, HasShape, End;
    StructFacts(t);
    FieldImage(v, t, |t.fields|, i, littleEndian);
    var all := ImageFields(v, t, |t.fields|, littleEndian);
    var f := t.fields[i];
    SliceOfPrefix(all, Zeros(t.size - End(t.fields, |t.fields|)), f.offset, f.offset + StoreSize(f.ty));
  }

  /** All bytes of a structure's image that belong to no field are zero. */
  lemma PaddingIsZero(v: Value, t: Type, a: nat, littleEndian: bool)
    requires t.Struct? && LayoutOk(t) && HasShape(v, t) && a < t.size
    requires forall i :: 0 <= i < |t.fields| ==> !InField(t.fields[i], a)
    ensures Image(v, t, littleEndian)[a] == 0
  {
    hide ImageFields, LayoutOk, HasShape, End, InField;
    StructFacts(t);
    var n := |t.fields|;
    if a < End(t.fields, n) {
      PaddingBefore(v, t, n, a, littleEndian);
    }
  }

  predicate InField(f: Field, a: nat)
  {
    f.offset <= a < f.offset + StoreSize(f.ty)
  }

  lemma {:induction false} PaddingBefore(v: Value, t: Type, n: nat, a: nat, littleEndian: bool)
    requires t.Struct? && LayoutOk(t) && HasShape(v, t) && n <= |t.fields| && a < End(t.fields, n)
    requires forall i :: 0 <= i < |t.fields| ==> !InField(t.fields[i], a)
    ensures ImageFields(v, t, n, littleEndian)[a] == 0
  {
    hide LayoutOk, HasShape, Image;
    FieldFacts(t, n - 1);
    ShapeFacts(v, t, n - 1);
    assert !InField(t.fields[n - 1], a);
    if a < End(t.fields, n - 1) {
      PaddingBefore(v, t, n - 1, a, littleEndian);
    }
  }

  lemma SliceOfPrefix(a: seq<Byte>, b: seq<Byte>, lo: nat, hi: nat)
    requires lo <= hi <= |a|
    ensures (a + b)[lo..hi] == a[lo..hi]
  {
  }

  lemma SubSlice(bs: seq<Byte>, a: nat, n: nat, o: nat, k: nat)
    requires a + n <= |bs| && o + k <= n
    ensures bs[a..a + n][o..o + k] == bs[a + o..a + o + k]
  {
    var left, right := bs[a..a + n][o..o + k], bs[a + o..a + o + k];
    forall i | 0 <= i < k
      ensures left[i] == right[i]
    {
      assert bs[a..a + n][o + i] == bs[a + (o + i)];
    }
  }

  /** The width of an encoded structure. */
  lemma EncodedWidth(v: Value, t: Type, littleEndian: bool)
    requires LayoutOk(t) && HasShape(v, t)
    ensures Encode(v, t, littleEndian).Some?
    ensures WellSorted(Encode(v, t, littleEndian).value) && !IsBool(Encode(v, t, littleEndian).value)
      && Bits(Encode(v, t, littleEndian).value) == 8 * StoreSize(t)
  {
    hide Encode, Held, Eval, FromBytes, WellSorted, Bits, IsBool, Holds;
    EncodeHolds(v, t, littleEndian, []);
    HeldVector(Encode(v, t, littleEndian).value, [], Held(v, t, littleEndian));
  }

  /** Extracting any member of an encoded structure, at the offset of its
      index path and in its own byte order, gives exactly the expression value
      of that member: the number itself for a scalar, the encoding for a
      nested structure. */
  lemma ExtractMember(v: Value, t: Type, path: seq<nat>, littleEndian: bool, input: Input)
    requires t.Struct? && LayoutOk(t) && HasShape(v, t) && PathOk(t, path)
    ensures LayoutOk(MemberType(t, path)) && StoreSize(MemberType(t, path)) > 0
    ensures Encode(v, t, littleEndian).Some? && Encode(Member(v, t, path), MemberType(t, path), littleEndian).Some?
    ensures var whole, m := Encode(v, t, littleEndian).value, MemberType(t, path);
      8 * (MemberOffset(t, path) + StoreSize(m)) <= Bits(whole)
      && var r := ExtractExpr(whole, MemberOffset(t, path), StoreSize(m), IsLittle(m, littleEndian));
      Bits(r) == 8 * StoreSize(m)
      && Eval(r, input) == Eval(Encode(Member(v, t, path), m, littleEndian).value, input)
      && (m.Scalar? ==> Eval(r, input) == Member(v, t, path).v)
  {
    hide Holds, Bits, Eval, Encode, ExtractExpr, Reverse, FromBytes, Pow2, HasShape, LayoutOk, ToBytes, Image, Held,
         Size, WholeBytes, MemberType, MemberOffset, Member;
    var m, o := MemberType(t, path), MemberOffset(t, path);
    EncodeHolds(v, t, littleEndian, input);
    StructHeld(v, t, littleEndian);
    MemberImage(v, t, path, littleEndian);
    SizePositive(m);
    var whole := Encode(v, t, littleEndian).value;
    HoldsSize(whole, input, Image(v, t, littleEndian));
    ExtractHolds(whole, o, StoreSize(m), IsLittle(m, littleEndian), input, Image(v, t, littleEndian));
    var member := Member(v, t, path);
    EncodeHolds(member, m, littleEndian, input);
    HeldOrdered(member, m, littleEndian);
    ReverseOrdered(Held(member, m, littleEndian), IsLittle(m, littleEndian));
    var r := ExtractExpr(whole, o, StoreSize(m), IsLittle(m, littleEndian));
    HoldsEval(r, Encode(member, m, littleEndian).value, input, Held(member, m, littleEndian));
    HoldsSize(r, input, Held(member, m, littleEndian));
    if m.Scalar? {
      ScalarValue(member, m, littleEndian, input);
    }
  }

  lemma ReverseOrdered(bs: seq<Byte>, littleEndian: bool)
    ensures Ordered(Ordered(bs, littleEndian), littleEndian) == bs
  {
    ReverseTwice(bs);
  }

  lemma ScalarValue(v: Value, t: Type, littleEndian: bool, input: Input)
    requires t.Scalar? && LayoutOk(t) && HasShape(v, t)
    ensures Eval(Encode(v, t, littleEndian).value, input) == v.v
  {
    hide Pow2, ValueExpr;
    ValueExprCorrect(v.v, 8 * t.bytes, input);
  }
}

/** The loops by which the pass builds the encoding and finds the offset. */
module StructBuilders {
  import opened Expressions
  import opened Aggregates
  import opened Lifting
  import opened StructLayout

  method CreateValueExpression(v: Value, t: Type, littleEndian: bool) returns (e: SymExpr)
    requires LayoutOk(t) && HasShape(v, t)
    ensures e == Encode(v, t, littleEndian)
    decreases t
  {
    hide LayoutOk, HasShape, Bits;
    if t.Scalar? {
      ScalarFacts(v, t);
      return Some(ValueExpr(v.v, 8 * t.bytes));
    }
    NoArray(t);
    StructFacts(t);
    var offset := 0;
    e := None;
    for i := 0 to |t.fields|
      invariant offset == End(t.fields, i) && e == EncodeFields(v, t, i, littleEndian)
    {
      FieldFacts(t, i);
      ShapeFacts(v, t, i);
      var f := t.fields[i];
      var padding := f.offset - offset;
      if padding > 0 {
        e := Append(e, ZeroBytesExpr(padding));
      }
      var elementExpr := CreateValueExpression(v.members[i], f.ty, littleEndian);
      EncodedWidth(v.members[i], f.ty, littleEndian);
      if IsLittle(f.ty, littleEndian) && StoreSize(f.ty) > 1 {
        elementExpr := Some(BswapExpr(elementExpr.value));
      }
      e := Append(e, elementExpr.value);
      offset := f.offset + StoreSize(f.ty);
    }
    var finalPadding := t.size - offset;
    if finalPadding > 0 {
      e := Append(e, ZeroBytesExpr(finalPadding));
    }
  }
}
