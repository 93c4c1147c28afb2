/** Byte strings as the bridge between one wide bit vector and memory: the
    most significant byte comes first. */
module Bytes {
  import opened BitVectors

  function FromBytes(bs: seq<Byte>): (v: nat)
  {
    if bs == [] then 0 else FromBytes(bs[..|bs| - 1]) * 256 + bs[|bs| - 1]
  }

  function ToBytes(n: nat, v: nat): (bs: seq<Byte>)
    ensures |bs| == n
  {
    if n == 0 then [] else ToBytes(n - 1, v / 256) + [v % 256]
  }

  function Reverse(bs: seq<Byte>): (r: seq<Byte>)
    ensures |r| == |bs|
  {
    if bs == [] then [] else Reverse(bs[1..]) + [bs[0]]
  }

  lemma {:induction false} ReverseSnoc(bs: seq<Byte>, x: Byte)
    ensures Reverse(bs + [x]) == [x] + Reverse(bs)
  {
    if bs != [] {
      ReverseSnoc(bs[1..], x);
      assert (bs + [x])[1..] == bs[1..] + [x];
    }
  }

  function Repeat<T>(x: T, n: nat): (s: seq<T>)
    ensures |s| == n
  {
    seq(n, _ => x)
  }

  function Zeros(n: nat): (bs: seq<Byte>)
    ensures |bs| == n
    ensures forall i :: 0 <= i < n ==> bs[i] == 0
  {
    seq(n, _ => 0)
  }

  lemma {:induction false} FromBytesRange(bs: seq<Byte>)
    ensures FromBytes(bs) < Pow2(8 * |bs|)
  {
    if bs != [] {
      FromBytesRange(bs[..|bs| - 1]);
      Pow2Byte(|bs| - 1);
    }
  }

  lemma {:induction false} FromTo(n: nat, v: nat)
    requires v < Pow2(8 * n)
    ensures FromBytes(ToBytes(n, v)) == v
  {
    if n > 0 {
      Pow2Byte(n - 1);
      FromTo(n - 1, v / 256);
      assert ToBytes(n, v)[..n - 1] == ToBytes(n - 1, v / 256);
    }
  }

  lemma {:induction false} FromBytesAppend(a: seq<Byte>, b: seq<Byte>)
    ensures FromBytes(a + b) == FromBytes(a) * Pow2(8 * |b|) + FromBytes(b)
  {
    hide Pow2;
    if b == [] {
      assert a + b == a;
      Pow2One();
    } else {
      var init, last := b[..|b| - 1], b[|b| - 1];
      assert (a + b)[..|a + b| - 1] == a + init;
      FromBytesAppend(a, init);
      Pow2Byte(|init|);
      AppendByte(FromBytes(a), Pow2(8 * |init|), FromBytes(init), last);
    }
  }

  lemma Pow2One()
    ensures Pow2(0) == 1
  {
  }

  lemma AppendByte(x: int, p: int, y: int, last: int)
    ensures (x * p + y) * 256 + last == x * (256 * p) + (y * 256 + last)
  {
  }

  /** The bits of `a + b + c` that hold `b`. */
  lemma MiddleBytes(a: seq<Byte>, b: seq<Byte>, c: seq<Byte>)
    ensures Wrap(8 * |b|, FromBytes(a + b + c) / Pow2(8 * |c|)) == FromBytes(b)
  {
    FromBytesRange(c);
    FromBytesAppend(a + b, c);
    DivModUnique(FromBytes(a + b + c), Pow2(8 * |c|), FromBytes(a + b), FromBytes(c));
    FromBytesRange(b);
    FromBytesAppend(a, b);
    DivModUnique(FromBytes(a + b), Pow2(8 * |b|), FromBytes(a), FromBytes(b));
  }

  lemma {:induction false} ZerosValue(n: nat)
    ensures FromBytes(Zeros(n)) == 0
  {
    if n > 0 {
      ZerosValue(n - 1);
      assert Zeros(n)[..n - 1] == Zeros(n - 1);
    }
  }

  lemma {:induction false} ReverseTwice(bs: seq<Byte>)
    ensures Reverse(Reverse(bs)) == bs
  {
    if bs != [] {
      ReverseTwice(bs[1..]);
      ReverseSnoc(Reverse(bs[1..]), bs[0]);
    }
  }
}
