/** The wrappers of the input functions: they follow the position of the
    symbolic input and label what is read with the offset it came from. */
module InputTracking {
  import opened Bytes
  import opened BitVectors
  import opened Expressions
  import opened Programs
  import opened Shadow
  import opened MemoryOps

  const OFFSET_BITS := 64
  const EOF := -1

  /** An open file: its position, and a byte that was pushed back, if any. */
  class FileStream {
    const file: Input
    var pos: nat
    var pushed: seq<Byte>

    predicate Valid()
      reads this
    {
      |pushed| <= 1 && |file| < Pow2(63) && pos < Pow2(63)
    }

    /** The position as the program sees it; indeterminate if it is negative. */
    function Tell(): (p: int)
      reads this
    {
      pos - |pushed|
    }

    /** What reading to the end would give. */
    function Pending(): (bs: seq<Byte>)
      reads this
    {
      pushed + if pos <= |file| then file[pos..] else []
    }

    /** A pushed-back byte is the one that was read there. */
    predicate Faithful()
      reads this
    {
      pushed == [] || (0 < pos <= |file| && pushed == [file[pos - 1]])
    }

    lemma PendingIsFile()
      requires Valid() && Faithful()
      ensures Tell() >= 0 && Pending() == if Tell() <= |file| then file[Tell()..] else []
    {
      if pushed != [] {
        assert file[pos - 1..] == [file[pos - 1]] + file[pos..];
      }
    }

    constructor (file: Input)
      requires |file| < Pow2(63)
      ensures Valid() && Faithful() && this.file == file && pos == 0 && pushed == []
    {
      this.file := file;
      pos, pushed := 0, [];
    }

    /** The native read of at most `n` bytes. */
    method Take(n: nat) returns (bs: seq<Byte>)
      requires Valid()
      modifies this
      ensures Valid() && |bs| == Min(n, |old(Pending())|) && bs == old(Pending())[..|bs|]
      ensures Tell() == old(Tell()) + |bs| && Pending() == old(Pending())[|bs|..]
      ensures old(Faithful()) ==> Faithful()
      ensures bs != [] ==> pushed == []
    {
      bs := Pending()[..Min(n, |Pending()|)];
      var fromFile := if bs == [] then 0 else |bs| - |pushed|;
      if bs != [] {
        pushed := [];
      }
      pos := pos + fromFile;
      assert pos <= |file| || fromFile == 0;
    }

    /** Seeking forgets a pushed-back byte; it fails for a bad position. */
    method Seek(target: int) returns (ok: bool)
      requires Valid()
      modifies this
      ensures Valid() && ok == (0 <= target < Pow2(63))
      ensures ok ==> pos == target && pushed == []
      ensures !ok ==> pos == old(pos) && pushed == old(pushed)
    {
      ok := 0 <= target < Pow2(63);
      if ok {
        pos, pushed := target, [];
      }
    }

    /** One byte can be pushed back: any character but EOF, converted. */
    method PushBack(c: int) returns (result: int)
      requires Valid()
      modifies this
      ensures Valid() && pos == old(pos)
      ensures result == if c != EOF && old(pushed) == [] then c % 256 else EOF
      ensures pushed == if result != EOF then [c % 256] else old(pushed)
    {
      if c == EOF || pushed != [] {
        return EOF;
      }
      pushed := [c % 256];
      result := c % 256;
    }
  }

  /** Every byte labelled with an offset has the value that the file has there,
      and so has the test case that new inputs are derived from. */
  ghost predicate LabelsTrue(f: imap<nat, SymExpr>, concrete: map<int, Byte>, inputs: seq<Byte>, file: Input)
    requires Total(f)
  {
    forall a: nat, k: nat {:trigger f[a], InputByte(k)} :: f[a] == Some(InputByte(k)) ==>
      k < |file| && k < |inputs| && inputs[k] == file[k] == ByteAt(concrete, a)
  }

  predicate Keeps(before: seq<Byte>, after: seq<Byte>, file: Input)
  {
    |before| <= |after| && forall k :: 0 <= k < |before| && k < |file| && before[k] == file[k] ==> after[k] == before[k]
  }

  lemma KeepsItself(inputs: seq<Byte>, file: Input)
    ensures Keeps(inputs, inputs, file)
  {
  }

  lemma LabelsStored(f: imap<nat, SymExpr>, concrete: map<int, Byte>, inputs: seq<Byte>, file: Input,
                     buf: nat, offset: nat, bs: seq<Byte>, inputs': seq<Byte>)
    requires Total(f) && LabelsTrue(f, concrete, inputs, file)
    requires bs != [] ==> offset + |bs| <= |file| && bs == file[offset..offset + |bs|] && offset + |bs| <= |inputs'|
    requires Keeps(inputs, inputs', file)
    requires forall k :: 0 <= k < |bs| ==> inputs'[offset + k] == bs[k]
    ensures LabelsTrue(Stored(f, buf, InputBytes(offset, |bs|)), Put(concrete, buf, bs), inputs', file)
  {
    var g, concrete' := Stored(f, buf, InputBytes(offset, |bs|)), Put(concrete, buf, bs);
    forall a: nat, k: nat | g[a] == Some(InputByte(k))
      ensures k < |file| && k < |inputs'| && inputs'[k] == file[k] == ByteAt(concrete', a)
    {
      PutAt(concrete, buf, bs, a);
      assert g[a] == StoredEntry(f, buf, InputBytes(offset, |bs|), a);
      if buf <= a < buf + |bs| {
        assert k == offset + (a - buf);
        assert inputs'[offset + (a - buf)] == bs[a - buf];
      }
    }
  }

  lemma LabelsErased(f: imap<nat, SymExpr>, concrete: map<int, Byte>, inputs: seq<Byte>, file: Input, buf: nat,
                     bs: seq<Byte>)
    requires Total(f) && LabelsTrue(f, concrete, inputs, file)
    ensures LabelsTrue(Stored(f, buf, Repeat(None, |bs|)), Put(concrete, buf, bs), inputs, file)
  {
    var g, concrete' := Stored(f, buf, Repeat(None, |bs|)), Put(concrete, buf, bs);
    forall a: nat, k: nat | g[a] == Some(InputByte(k))
      ensures k < |file| && k < |inputs| && inputs[k] == file[k] == ByteAt(concrete', a)
    {
      PutAt(concrete, buf, bs, a);
      assert g[a] == StoredEntry(f, buf, Repeat(None, |bs|), a);
    }
  }

  /** `pushInputByte`, for the bytes of a region in order. */
  method PushInputBytes(inputs: seq<Byte>, offset: nat, bs: seq<Byte>, ghost file: Input) returns (r: seq<Byte>)
    requires bs != [] ==> offset + |bs| <= |file| && bs == file[offset..offset + |bs|]
    ensures Keeps(inputs, r, file) && (bs != [] ==> offset + |bs| <= |r|)
    ensures forall k :: 0 <= k < |bs| ==> r[offset + k] == bs[k]
  {
    r := inputs;
    for i := 0 to |bs|
      invariant Keeps(inputs, r, file) && (i > 0 ==> offset + i <= |r|)
      invariant forall k :: 0 <= k < i ==> r[offset + k] == bs[k]
    {
      if |r| <= offset + i {
        r := r + Zeros(offset + i + 1 - |r|);
      }
      assert bs[i] == file[offset + i];
      r := r[offset + i := bs[i]];
    }
  }

  class InputWrappers {
    const memory: ShadowMemory
    /** The stream behind the input file descriptor. */
    const input: FileStream
    var concrete: map<int, Byte>
    var inputOffset: nat
    var inputs: seq<Byte>

    constructor (memory: ShadowMemory, input: FileStream, concrete: map<int, Byte>)
      requires memory.Valid() && memory.pages == map[]
      requires input.Valid() && input.pos == 0 && input.pushed == []
      ensures Valid() && this.memory == memory && this.input == input && inputOffset == 0
    {
      this.memory, this.input, this.concrete := memory, input, concrete;
      inputOffset, inputs := 0, [];
      new;
      memory.NoPage();
    }

    ghost predicate Labelled()
      requires memory.Valid()
      reads this, memory, memory.Repr
    {
      LabelsTrue(memory.Flat(), concrete, inputs, input.file)
    }

    ghost predicate InStep()
      reads this, input
    {
      inputOffset == input.Tell()
    }

    /** The tracked offset is the position of the stream, and all labels are
        true. */
    ghost predicate Valid()
      reads this, memory, memory.Repr, input
    {
      memory.Valid() && input.Valid() && input.Faithful() && InStep() && Labelled()
    }

    /** read on the symbolic input: the bytes from the current position arrive
        in the buffer, each labelled with its offset in the file. */
    method ReadInput(buf: nat, n: nat) returns (result: nat)
      requires Valid()
      modifies this, memory, memory.Repr, input
      ensures Valid() && result == |Arriving(input.file, old(inputOffset), n)|
        && inputOffset == old(inputOffset) + result
      ensures concrete == Put(old(concrete), buf, Arriving(input.file, old(inputOffset), n))
      ensures memory.Flat() == Stored(old(memory.Flat()), buf, InputBytes(old(inputOffset), result))
    {
      hide ShadowMemory.Flat, ShadowMemory.At, ShadowMemory.Valid, Stored, InputBytes, LabelsTrue, Put, Total, Keeps,
           Pow2;
      input.PendingIsFile();
      var bs := input.Take(n);
      result := |bs|;
      TakenIsArriving(input.file, inputOffset, n, bs);
      FromPending(input.file, inputOffset, bs);
      LabelWith(buf, bs);
    }

    /** What every wrapper does with bytes of the input that it has read. */
    method LabelWith(buf: nat, bs: seq<Byte>)
      requires memory.Valid() && input.Valid() && Labelled()
      requires bs != [] ==> inputOffset + |bs| <= |input.file| && bs == input.file[inputOffset..inputOffset + |bs|]
      modifies this, memory, memory.Repr
      ensures memory.Valid() && Labelled() && fresh(memory.Repr - old(memory.Repr))
      ensures inputOffset == old(inputOffset) + |bs| && concrete == Put(old(concrete), buf, bs)
      ensures memory.Flat() == Stored(old(memory.Flat()), buf, InputBytes(old(inputOffset), |bs|))
    {
      hide ShadowMemory.Flat, ShadowMemory.At, ShadowMemory.Valid, Stored, InputBytes, LabelsTrue, Put, Total, Keeps,
           Pow2;
      var inputs' := PushInputBytes(inputs, inputOffset, bs, input.file);
      LabelsStored(memory.Flat(), concrete, inputs, input.file, buf, inputOffset, bs, inputs');
      MakeSymbolic(memory, buf, |bs|, inputOffset);
      inputs := inputs';
      concrete := Put(concrete, buf, bs);
      inputOffset := inputOffset + |bs|;
    }

    /** read on any other descriptor: stale labels are erased. */
    method ReadOther(buf: nat, bs: seq<Byte>)
      requires Valid()
      modifies this, memory, memory.Repr
      ensures Valid() && inputOffset == old(inputOffset) && concrete == Put(old(concrete), buf, bs)
      ensures memory.Flat() == Stored(old(memory.Flat()), buf, Repeat(None, |bs|))
    {
      hide ShadowMemory.Flat, ShadowMemory.At, ShadowMemory.Valid, Stored, LabelsTrue, Put, Total, ConcreteRange,
           FileStream.Faithful, Pow2;
      LabelsErased(memory.Flat(), concrete, inputs, input.file, buf, bs);
      concrete := Put(concrete, buf, bs);
      var isConcrete := IsConcrete(memory, buf, |bs|);
      if isConcrete {
        StoredNulls(memory.Flat(), buf, |bs|);
      } else {
        Fill(memory, buf, |bs|, None);
      }
    }

    /** lseek and fseek, to the position that the arguments amount to. */
    method SeekInput(target: int) returns (ok: bool)
      requires Valid()
      modifies this`inputOffset, input
      ensures Valid() && ok == (0 <= target < Pow2(63))
      ensures inputOffset == if ok then target else old(inputOffset)
    {
      hide Pow2;
      ok := input.Seek(target);
      if ok {
        inputOffset := input.Tell();
      }
    }

    method RewindInput()
      requires Valid()
      modifies this`inputOffset, input
      ensures Valid() && inputOffset == 0
    {
      hide ShadowMemory.Flat, ShadowMemory.At, ShadowMemory.Valid, LabelsTrue, Total, Pow2;
      var ok := input.Seek(0);
      inputOffset := 0;
    }

    /** fread counts whole elements. It stays in step exactly when the bytes
        that were left made up whole elements. */
    method FReadInput(ptr: nat, size: nat, nmemb: nat) returns (result: nat)
      requires Valid()
      modifies this, memory, memory.Repr, input
      ensures var arriving := Arriving(input.file, old(inputOffset), size * nmemb);
        && result == Elements(size, |arriving|) && concrete == Put(old(concrete), ptr, arriving)
        && memory.Valid()
           && memory.Flat() == Stored(old(memory.Flat()), ptr, InputBytes(old(inputOffset), Counted(size, |arriving|)))
        && inputOffset == old(inputOffset) + Counted(size, |arriving|) && input.Tell() == old(inputOffset) + |arriving|
        && (InStep() <==> NoRemainder(size, |arriving|))
        && (InStep() ==> Valid())
    {
      hide ShadowMemory.Flat, ShadowMemory.At, ShadowMemory.Valid, Stored, InputBytes, LabelsTrue, Put, Total, Keeps,
           Pow2, Elements, Counted, NoRemainder, Arriving;
      input.PendingIsFile();
      var most := size * nmemb;
      var bs := input.Take(most);
      TakenIsArriving(input.file, inputOffset, most, bs);
      WholeElements(size, nmemb, |bs|);
      result := Elements(size, |bs|);
      LabelFront(ptr, bs, Counted(size, |bs|));
    }

    /** Only the first `labelled` bytes of what arrived in the buffer count. */
    method LabelFront(ptr: nat, bs: seq<Byte>, labelled: nat)
      requires memory.Valid() && input.Valid() && Labelled() && labelled <= |bs|
      requires bs == Arriving(input.file, inputOffset, |bs|)
      modifies this, memory, memory.Repr
      ensures memory.Valid() && fresh(memory.Repr - old(memory.Repr))
      ensures inputOffset == old(inputOffset) + labelled && concrete == Put(old(concrete), ptr, bs)
      ensures memory.Flat() == Stored(old(memory.Flat()), ptr, InputBytes(old(inputOffset), labelled))
      ensures labelled == |bs| ==> Labelled()
    {
      hide ShadowMemory.Flat, ShadowMemory.At, ShadowMemory.Valid, Stored, InputBytes, LabelsTrue, Put, Total, Keeps,
           Pow2;
      var front := bs[..labelled];
      FrontArrives(input.file, inputOffset, bs, labelled);
      var filled := Put(concrete, ptr, bs);
      LabelWith(ptr, front);
      assert labelled == |bs| ==> front == bs;
      concrete := filled;
    }

    /** getc: the value comes with the label of the position it was read at. */
    method GetC() returns (result: int, expr: SymExpr)
      requires Valid()
      modifies this, input
      ensures Valid()
      ensures old(inputOffset) < |input.file| ==>
        (result == input.file[old(inputOffset)] && inputOffset == old(inputOffset) + 1
         && expr == Some(ZExt(InputByte(old(inputOffset)), 24)) && Eval(expr.value, input.file) == result
         && input.pushed == [] && old(inputOffset) < |inputs| && inputs[old(inputOffset)] == result)
      ensures old(inputOffset) >= |input.file| ==> result == EOF && expr == None && inputOffset == old(inputOffset)
      ensures Keeps(old(inputs), inputs, input.file)
    {
      hide ShadowMemory.Flat, ShadowMemory.At, ShadowMemory.Valid, LabelsTrue, Total, Keeps, Pow2;
      input.PendingIsFile();
      var bs := input.Take(1);
      FromPending(input.file, inputOffset, bs);
      if bs == [] {
        KeepsItself(inputs, input.file);
        return EOF, None;
      }
      result := bs[0];
      var symbolic := GetInputByte(bs[0]);
      expr := Some(ZExt(symbolic, 24));
    }

    /** The label of the current position, which advances. */
    method GetInputByte(c: Byte) returns (e: Expr)
      requires memory.Valid() && input.Valid() && Labelled()
      requires inputOffset < |input.file| && c == input.file[inputOffset]
      modifies this
      ensures memory.Valid() && Labelled()
      ensures e == InputByte(old(inputOffset)) && inputOffset == old(inputOffset) + 1
      ensures Keeps(old(inputs), inputs, input.file) && old(inputOffset) < |inputs| && inputs[old(inputOffset)] == c
    {
      hide ShadowMemory.Flat, ShadowMemory.At, ShadowMemory.Valid, LabelsTrue, Total, Keeps, Pow2;
      var inputs' := PushInputBytes(inputs, inputOffset, [c], input.file);
      LabelsKept(memory.Flat(), concrete, inputs, input.file, inputs');
      inputs := inputs';
      e := InputByte(inputOffset);
      inputOffset := inputOffset + 1;
    }

    /** ungetc: if it succeeds, the state stays valid exactly when the byte is
        the one that was just read. */
    method UngetC(c: int, cExpr: SymExpr) returns (result: int, expr: SymExpr)
      requires Valid()
      modifies this`inputOffset, input
      ensures result == (if c != EOF && old(input.pushed) == [] then c % 256 else EOF) && expr == cExpr
      ensures result == EOF ==> Valid() && inputOffset == old(inputOffset)
      ensures result != EOF ==> inputOffset == Wrap(OFFSET_BITS, old(inputOffset) - 1)
      ensures result != EOF ==> input.pos == old(input.pos) && input.pushed == [c % 256] && memory.Valid()
      ensures result != EOF ==>
        (Valid() <==> 0 < old(inputOffset) <= |input.file| && c % 256 == input.file[old(inputOffset) - 1])
    {
      hide ShadowMemory.Flat, ShadowMemory.At, ShadowMemory.Valid, LabelsTrue, Total, Pow2;
      result := input.PushBack(c);
      expr := cExpr;
      if result != EOF {
        Decremented(inputOffset);
        inputOffset := Wrap(OFFSET_BITS, inputOffset - 1);
      }
    }
  }

  /** Five bytes, read in elements of four: the stream is at the end, the
      tracked offset after the first element. */
  method PartialElementFallsBehind() returns (w: InputWrappers)
    ensures w.memory.Valid() && w.inputOffset == 4 && w.input.Tell() == 5 && !w.InStep()
  {
    hide ShadowMemory.Flat, ShadowMemory.At, ShadowMemory.Valid, LabelsTrue, Stored, InputBytes, Put, Pow2;
    Pow2Small();
    var memory := new ShadowMemory();
    var input := new FileStream([1, 2, 3, 4, 5]);
    w := new InputWrappers(memory, input, map[]);
    var result := w.FReadInput(0, 4, 2);
    assert |Arriving(w.input.file, 0, 8)| == 5 && result == 1;
  }

  /** A byte other than the one that was read: the offset is right, but the
      next byte read there is not the file's. */
  method OtherBytePushedBack() returns (w: InputWrappers)
    ensures w.memory.Valid() && w.InStep() && !w.Valid() && w.input.pushed == [8] && w.input.file == [7]
  {
    hide ShadowMemory.Flat, ShadowMemory.At, ShadowMemory.Valid, LabelsTrue, Pow2;
    Pow2Small();
    var memory := new ShadowMemory();
    var input := new FileStream([7]);
    w := new InputWrappers(memory, input, map[]);
    var c, expr := w.GetC();
    var before := w.inputOffset;
    c, expr := w.UngetC(8, None);
    Decremented(before);
  }

  lemma Pow2Small()
    ensures 5 < Pow2(63)
  {
    Pow2Eight();
    Pow2Mono(7, 63);
  }

  lemma Decremented(offset: nat)
    requires offset < Pow2(63)
    ensures Wrap(OFFSET_BITS, offset - 1) == if offset > 0 then offset - 1 else Pow2(64) - 1
  {
    Pow2Mono(63, 64);
    if offset > 0 {
      WrapSmall(64, offset - 1);
    } else {
      WrapIs(64, -1, -1, Pow2(64) - 1);
    }
  }

  /** How many elements `got` bytes make up. */
  function Elements(size: nat, got: nat): (n: nat)
  {
    if size == 0 then 0 else got / size
  }

  /** The bytes of those elements. */
  function Counted(size: nat, got: nat): (n: nat)
  {
    Elements(size, got) * size
  }

  /** The count is the largest number of elements that fit. */
  lemma ElementsFit(size: nat, got: nat)
    requires size > 0
    ensures Elements(size, got) * size <= got < (Elements(size, got) + 1) * size
    ensures Counted(size, got) == Elements(size, got) * size
    ensures NoRemainder(size, got) <==> got == Elements(size, got) * size
  {
    var q := got / size;
    assert got == q * size + got % size;
    assert (q + 1) * size == q * size + size;
  }

  predicate NoRemainder(size: nat, got: nat)
  {
    size == 0 || got % size == 0
  }

  lemma WholeElements(size: nat, nmemb: nat, got: nat)
    requires got <= size * nmemb
    ensures Counted(size, got) <= got
    ensures Counted(size, got) == got <==> NoRemainder(size, got)
  {
  }

  lemma LabelsKept(f: imap<nat, SymExpr>, concrete: map<int, Byte>, inputs: seq<Byte>, file: Input, inputs': seq<Byte>)
    requires Total(f) && LabelsTrue(f, concrete, inputs, file) && Keeps(inputs, inputs', file)
    ensures LabelsTrue(f, concrete, inputs', file)
  {
  }

  lemma TakenIsArriving(file: Input, t: nat, n: nat, bs: seq<Byte>)
    requires var pending := if t <= |file| then file[t..] else []; |bs| == Min(n, |pending|) && bs == pending[..|bs|]
    ensures bs == Arriving(file, t, n) == Arriving(file, t, |bs|)
  {
  }

  /** The bytes that a read of `n` gets at position `t`. */
  function Arriving(file: Input, t: nat, n: nat): (bs: seq<Byte>)
  {
    if t < |file| then file[t..t + Min(n, |file| - t)] else []
  }

  /** What arrives is the file from the position on, as much as is wanted and
      left. */
  lemma ArrivingMeans(file: Input, t: nat, n: nat)
    ensures var bs := Arriving(file, t, n);
      && |bs| <= n && (|bs| < n ==> t + |bs| >= |file|) && (bs != [] ==> t + |bs| <= |file|)
      && forall j :: 0 <= j < |bs| ==> bs[j] == file[t + j]
  {
  }

  lemma FrontArrives(file: Input, t: nat, bs: seq<Byte>, n: nat)
    requires bs == Arriving(file, t, |bs|) && n <= |bs|
    ensures bs[..n] != [] ==> t + n <= |file| && bs[..n] == file[t..t + n]
  {
  }

  lemma FromPending(file: Input, t: nat, bs: seq<Byte>)
    requires var pending := if t <= |file| then file[t..] else []; |bs| <= |pending| && bs == pending[..|bs|]
    ensures bs != [] ==> t + |bs| <= |file| && bs == file[t..t + |bs|]
  {
  }
}
