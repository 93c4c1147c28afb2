/** The run-time's operations on shadow memory: each is a loop over page
    iterators, proved against the flat map that the pages stand for. */
module MemoryOps {
  import opened Bytes
  import opened BitVectors
  import opened Expressions
  import opened Lifting
  import opened Programs
  import opened Shadow

  ghost function Entry(f: imap<nat, SymExpr>, a: nat): (e: SymExpr)
    requires Total(f)
  {
    f[a]
  }

  ghost function MovedEntry(f: imap<nat, SymExpr>, dest: nat, src: nat, n: nat, a: nat): (e: SymExpr)
    requires Total(f)
  {
    if dest <= a < dest + n then f[a - dest + src] else f[a]
  }

  /** Simultaneous assignment of the entries at `src..src + n` to `dest`. */
  ghost function Moved(f: imap<nat, SymExpr>, dest: nat, src: nat, n: nat): (g: imap<nat, SymExpr>)
    requires Total(f)
    ensures Total(g)
  {
    imap a: nat {:trigger MovedEntry(f, dest, src, n, a)} | true :: MovedEntry(f, dest, src, n, a)
  }

  ghost function StoredEntry(f: imap<nat, SymExpr>, dest: nat, es: seq<SymExpr>, a: nat): (e: SymExpr)
    requires Total(f)
  {
    if dest <= a < dest + |es| then es[a - dest] else f[a]
  }

  /** `es` at `dest` and the following addresses. */
  ghost function Stored(f: imap<nat, SymExpr>, dest: nat, es: seq<SymExpr>): (g: imap<nat, SymExpr>)
    requires Total(f)
    ensures Total(g)
  {
    imap a: nat {:trigger StoredEntry(f, dest, es, a)} | true :: StoredEntry(f, dest, es, a)
  }

  lemma MovedNone(f: imap<nat, SymExpr>, dest: nat, src: nat)
    requires Total(f)
    ensures Moved(f, dest, src, 0) == f
  {
  }

  lemma MovedNext(f: imap<nat, SymExpr>, dest: nat, src: nat, i: nat)
    requires Total(f)
    ensures Moved(f, dest, src, i)[dest + i := Entry(f, src + i)] == Moved(f, dest, src, i + 1)
  {
  }

  lemma MovedPrevious(f: imap<nat, SymExpr>, dest: nat, src: nat, n: nat)
    requires Total(f)
    ensures Moved(f, dest + 1, src + 1, n)[dest := Entry(f, src)] == Moved(f, dest, src, n + 1)
  {
  }

  /** An address outside the destination is not touched by the move. */
  lemma MovedElsewhere(f: imap<nat, SymExpr>, dest: nat, src: nat, n: nat, a: nat)
    requires Total(f) && !(dest <= a < dest + n)
    ensures Moved(f, dest, src, n)[a] == Entry(f, a)
  {
  }

  lemma StoredNone(f: imap<nat, SymExpr>, dest: nat, es: seq<SymExpr>)
    requires Total(f)
    ensures Stored(f, dest, es[..0]) == f
  {
  }

  lemma StoredNext(f: imap<nat, SymExpr>, dest: nat, es: seq<SymExpr>, i: nat)
    requires Total(f) && i < |es|
    ensures Stored(f, dest, es[..i])[dest + i := es[i]] == Stored(f, dest, es[..i + 1])
  {
  }

  ghost predicate ConcreteRange(f: imap<nat, SymExpr>, addr: nat, n: nat)
    requires Total(f)
  {
    forall a: nat :: addr <= a < addr + n ==> f[a].None?
  }

  lemma AbsentPage(m: ShadowMemory, addr: nat, n: nat)
    requires m.Valid() && PageStart(addr) == PageStart(addr + n) && PageStart(addr) !in m.pages
    ensures ConcreteRange(m.Flat(), addr, n)
  {
    forall a: nat | addr <= a < addr + n
      ensures m.Flat()[a].None?
    {
      OnePage(addr, n, a);
      assert m.At(a).None?;
    }
  }

  lemma ConcreteNext(f: imap<nat, SymExpr>, addr: nat, i: nat)
    requires Total(f) && ConcreteRange(f, addr, i)
    ensures ConcreteRange(f, addr, i + 1) <==> Entry(f, addr + i).None?
  {
  }

  lemma ConcreteNot(f: imap<nat, SymExpr>, addr: nat, n: nat, i: nat)
    requires Total(f) && i < n && !ConcreteRange(f, addr, i + 1)
    ensures !ConcreteRange(f, addr, n)
  {
  }

  method IsConcrete(m: ShadowMemory, addr: nat, nbytes: nat) returns (b: bool)
    requires m.Valid()
    ensures b <==> ConcreteRange(m.Flat(), addr, nbytes)
  {
    hide ShadowMemory.Flat, ShadowMemory.At, ShadowMemory.Valid, Total, ConcreteRange, PageStart, PageOffset;
    if PageStart(addr) == PageStart(addr + nbytes) && PageStart(addr) !in m.pages {
      AbsentPage(m, addr, nbytes);
      return true;
    }
    ConcreteNothing(m.Flat(), addr);
    var it := new ReadShadowIterator(m, addr);
    while it.address != addr + nbytes
      invariant addr <= it.address <= addr + nbytes && it.memory == m
      invariant it.Valid() && it.Misses(m.pages.Keys)
      invariant ConcreteRange(m.Flat(), addr, it.address - addr)
      decreases addr + nbytes - it.address
    {
      ghost var i := it.address - addr;
      ConcreteNext(m.Flat(), addr, i);
      var e := it.Get();
      if e.Some? {
        ConcreteNot(m.Flat(), addr, nbytes, i);
        return false;
      }
      it.Increment(m.pages.Keys);
    }
    return true;
  }

  lemma ConcreteNothing(f: imap<nat, SymExpr>, addr: nat)
    requires Total(f)
    ensures ConcreteRange(f, addr, 0)
  {
  }

  lemma OnePage(addr: nat, n: nat, a: nat)
    requires PageStart(addr) == PageStart(addr + n) && addr <= a < addr + n
    ensures PageStart(a) == PageStart(addr)
  {
  }

  /** Reading an entry that has not been written since the pages were `known`:
      the value is the original one, even through a stale null slot. */
  method GetOriginal(it: ReadShadowIterator, ghost known: set<nat>, ghost f: imap<nat, SymExpr>) returns (e: SymExpr)
    requires it.Valid() && it.Misses(known) && Total(f) && NullOff(f, known)
    requires it.memory.Flat()[it.address] == Entry(f, it.address)
    ensures e == Entry(f, it.address)
  {
    e := it.Get();
  }

  /** A copy under way: `n` entries have moved, and the iterators stand at
      `source` and `target`. */
  ghost predicate Copying(m: ShadowMemory, reader: ReadShadowIterator, writer: WriteShadowIterator,
                          known: set<nat>, f: imap<nat, SymExpr>, source: nat, target: nat)
    reads m, reader, writer
  {
    && reader.memory == m && reader.Valid() && reader.Misses(known) && known <= m.pages.Keys
    && writer.memory == m && writer.Valid()
    && reader.address == source && writer.address == target
    && Total(f) && NullOff(f, known)
  }

  method StartCopy(m: ShadowMemory, source: nat, target: nat)
    returns (reader: ReadShadowIterator, writer: WriteShadowIterator)
    requires m.Valid()
    modifies m
    ensures m.Valid() && fresh(reader) && fresh(writer) && fresh(m.Repr - old(m.Repr)) && m.Flat() == old(m.Flat())
    ensures Copying(m, reader, writer, old(m.pages.Keys), old(m.Flat()), source, target)
  {
    hide ShadowMemory.Flat, ShadowMemory.At, PageStart, PageOffset, ShadowMemory.Valid, Total, Entry, NullOff;
    m.NoPage();
    reader := new ReadShadowIterator(m, source);
    writer := new WriteShadowIterator(m, target);
  }

  method CopyOne(m: ShadowMemory, first: ReadShadowIterator, result: WriteShadowIterator,
                 ghost known: set<nat>, ghost f: imap<nat, SymExpr>, ghost dest: nat, ghost src: nat, ghost i: nat)
    requires Copying(m, first, result, known, f, src + i, dest + i)
    requires m.Flat() == Moved(f, dest, src, i) && !(dest <= src + i < dest + i)
    modifies first, result, m, m.Repr
    ensures Copying(m, first, result, known, f, src + i + 1, dest + i + 1) && fresh(m.Repr - old(m.Repr))
    ensures m.Flat() == Moved(f, dest, src, i + 1)
  {
    hide Moved, ShadowMemory.Flat, ShadowMemory.At, PageStart, PageOffset, ShadowMemory.Valid, Total, Entry, NullOff;
    MovedElsewhere(f, dest, src, i, src + i);
    MovedNext(f, dest, src, i);
    var e := GetOriginal(first, known, f);
    first.Increment(known);
    result.Emit(e);
  }

  /** The loop of a forward copy. A reader that remembers a missing page only
      hides entries that were null before the copy. */
  method CopyForward(m: ShadowMemory, dest: nat, src: nat, n: nat)
    requires m.Valid() && (dest <= src || src + n <= dest)
    modifies m, m.Repr
    ensures m.Valid() && fresh(m.Repr - old(m.Repr))
    ensures m.Flat() == Moved(old(m.Flat()), dest, src, n)
  {
    hide Moved, ShadowMemory.Flat, ShadowMemory.At, PageStart, PageOffset, ShadowMemory.Valid, Total, Entry, NullOff,
         Points;
    ghost var known, f, i := m.pages.Keys, m.Flat(), 0;
    MovedNone(f, dest, src);
    var first, result := StartCopy(m, src, dest);
    while first.address != src + n
      invariant i <= n && Copying(m, first, result, known, f, src + i, dest + i)
      invariant fresh(m.Repr - old(m.Repr))
      invariant m.Flat() == Moved(f, dest, src, i)
      decreases n - i
    {
      CopyOne(m, first, result, known, f, dest, src, i);
      i := i + 1;
    }
  }

  method CopyOneBack(m: ShadowMemory, last: ReadShadowIterator, result: WriteShadowIterator,
                     ghost known: set<nat>, ghost f: imap<nat, SymExpr>, ghost dest: nat, ghost src: nat,
                     ghost done: nat)
    requires Copying(m, last, result, known, f, src + 1, dest + 1) && src <= dest
    requires m.Flat() == Moved(f, dest + 1, src + 1, done)
    modifies last, result, m, m.Repr
    ensures Copying(m, last, result, known, f, src, dest) && fresh(m.Repr - old(m.Repr))
    ensures m.Flat() == Moved(f, dest, src, done + 1)
  {
    hide Moved, ShadowMemory.Flat, ShadowMemory.At, PageStart, PageOffset, ShadowMemory.Valid, Total, Entry, NullOff;
    MovedElsewhere(f, dest + 1, src + 1, done, src);
    MovedPrevious(f, dest, src, done);
    last.Decrement(known);
    var e := GetOriginal(last, known, f);
    result.EmitBefore(e);
  }

  /** The loop of a backward copy: both iterators step before they are used. */
  method CopyBackward(m: ShadowMemory, dest: nat, src: nat, n: nat)
    requires m.Valid() && dest >= src
    modifies m, m.Repr
    ensures m.Valid() && fresh(m.Repr - old(m.Repr))
    ensures m.Flat() == Moved(old(m.Flat()), dest, src, n)
  {
    hide Moved, ShadowMemory.Flat, ShadowMemory.At, PageStart, PageOffset, ShadowMemory.Valid, Total, Entry, NullOff,
         Points;
    ghost var known, f, i := m.pages.Keys, m.Flat(), n;
    MovedNone(f, dest + n, src + n);
    var last, result := StartCopy(m, src + n, dest + n);
    while last.address != src
      invariant 0 <= i <= n && Copying(m, last, result, known, f, src + i, dest + i)
      invariant fresh(m.Repr - old(m.Repr))
      invariant m.Flat() == Moved(f, dest + i, src + i, n - i)
      decreases i
    {
      i := i - 1;
      CopyOneBack(m, last, result, known, f, dest + i, src + i, n - i - 1);
    }
  }

  /** A write loop under way: the first `i` entries of `es` are stored, and the
      iterator stands behind them. */
  ghost predicate Writing(m: ShadowMemory, it: WriteShadowIterator, f: imap<nat, SymExpr>, addr: nat,
                          es: seq<SymExpr>, i: nat)
    requires Total(f)
    reads it, m, m.Repr
  {
    && it.memory == m && it.Valid() && it.address == addr + i && i <= |es|
    && m.Flat() == Stored(f, addr, es[..i])
  }

  /** `begin()` and `end()` of a range to be written. */
  method StartWriting(m: ShadowMemory, addr: nat, n: nat, ghost es: seq<SymExpr>)
    returns (it: WriteShadowIterator, end: nat)
    requires m.Valid()
    modifies m
    ensures m.Valid() && fresh(it) && fresh(m.Repr - old(m.Repr)) && end == addr + n
    ensures Writing(m, it, old(m.Flat()), addr, es, 0)
  {
    hide Stored, ShadowMemory.Flat, ShadowMemory.At, PageStart, PageOffset, ShadowMemory.Valid, Total;
    StoredNone(m.Flat(), addr, es);
    it := new WriteShadowIterator(m, addr);
    var last := new WriteShadowIterator(m, addr + n);
    end := last.address;
  }

  method WriteNext(m: ShadowMemory, it: WriteShadowIterator, e: SymExpr, ghost f: imap<nat, SymExpr>,
                   ghost addr: nat, ghost es: seq<SymExpr>, ghost i: nat)
    requires Total(f) && Writing(m, it, f, addr, es, i) && i < |es| && e == es[i]
    modifies it, m, m.Repr
    ensures Writing(m, it, f, addr, es, i + 1) && fresh(m.Repr - old(m.Repr))
  {
    hide Stored, ShadowMemory.Flat, ShadowMemory.At, PageStart, PageOffset, ShadowMemory.Valid, Total;
    StoredNext(f, addr, es, i);
    it.Emit(e);
  }

  lemma WritingDone(m: ShadowMemory, it: WriteShadowIterator, f: imap<nat, SymExpr>, addr: nat, es: seq<SymExpr>)
    requires Total(f) && Writing(m, it, f, addr, es, |es|)
    ensures m.Valid() && m.Flat() == Stored(f, addr, es)
  {
    hide Stored;
    assert es[..|es|] == es;
  }

  lemma WritingAt(m: ShadowMemory, it: WriteShadowIterator, f: imap<nat, SymExpr>, addr: nat, es: seq<SymExpr>, i: nat)
    requires Total(f) && Writing(m, it, f, addr, es, i)
    ensures it.address == addr + i && i <= |es|
  {
  }

  method Fill(m: ShadowMemory, addr: nat, n: nat, value: SymExpr)
    requires m.Valid()
    modifies m, m.Repr
    ensures m.Valid() && fresh(m.Repr - old(m.Repr))
    ensures m.Flat() == Stored(old(m.Flat()), addr, Repeat(value, n))
  {
    hide Stored, ShadowMemory.Flat, ShadowMemory.At, ShadowMemory.Valid, Total, Writing;
    ghost var f, es, i := m.Flat(), Repeat(value, n), 0;
    var first, end := StartWriting(m, addr, n, es);
    WritingAt(m, first, f, addr, es, 0);
    while first.address != end
      invariant i <= n && first.address == addr + i && Writing(m, first, f, addr, es, i)
      invariant fresh(m.Repr - old(m.Repr))
      decreases n - i
    {
      WriteNext(m, first, value, f, addr, es, i);
      i := i + 1;
      WritingAt(m, first, f, addr, es, i);
    }
    WritingDone(m, first, f, addr, es);
  }

  lemma MovedNulls(f: imap<nat, SymExpr>, dest: nat, src: nat, n: nat)
    requires Total(f) && ConcreteRange(f, src, n) && ConcreteRange(f, dest, n)
    ensures Moved(f, dest, src, n) == f
  {
  }

  lemma StoredNulls(f: imap<nat, SymExpr>, dest: nat, n: nat)
    requires Total(f) && ConcreteRange(f, dest, n)
    ensures Stored(f, dest, Repeat(None, n)) == f
  {
  }

  /** `_sym_memcpy` on regions that may coincide but do not otherwise overlap
      from below. */
  method MemCpy(m: ShadowMemory, dest: nat, src: nat, length: nat)
    requires m.Valid() && (dest <= src || src + length <= dest)
    modifies m, m.Repr
    ensures m.Valid() && fresh(m.Repr - old(m.Repr))
    ensures m.Flat() == Moved(old(m.Flat()), dest, src, length)
  {
    hide Moved, ShadowMemory.Flat, ShadowMemory.At, ShadowMemory.Valid, ConcreteRange;
    var a := IsConcrete(m, src, length);
    var b := IsConcrete(m, dest, length);
    if a && b {
      MovedNulls(m.Flat(), dest, src, length);
      return;
    }
    CopyForward(m, dest, src, length);
  }

  /** `_sym_memmove`: simultaneous assignment, for every overlap, direction
      and page crossing. */
  method MemMove(m: ShadowMemory, dest: nat, src: nat, length: nat)
    requires m.Valid()
    modifies m, m.Repr
    ensures m.Valid() && fresh(m.Repr - old(m.Repr))
    ensures m.Flat() == Moved(old(m.Flat()), dest, src, length)
  {
    hide Moved, ShadowMemory.Flat, ShadowMemory.At, ShadowMemory.Valid, ConcreteRange;
    var a := IsConcrete(m, src, length);
    var b := IsConcrete(m, dest, length);
    if a && b {
      MovedNulls(m.Flat(), dest, src, length);
      return;
    }
    if dest > src {
      CopyBackward(m, dest, src, length);
    } else {
      CopyForward(m, dest, src, length);
    }
  }

  method MemSet(m: ShadowMemory, memory: nat, value: SymExpr, length: nat)
    requires m.Valid()
    modifies m, m.Repr
    ensures m.Valid() && fresh(m.Repr - old(m.Repr))
    ensures m.Flat() == Stored(old(m.Flat()), memory, Repeat(value, length))
  {
    hide Stored, ShadowMemory.Flat, ShadowMemory.At, ShadowMemory.Valid, ConcreteRange;
    if value.None? {
      var b := IsConcrete(m, memory, length);
      if b {
        StoredNulls(m.Flat(), memory, length);
        return;
      }
    }
    Fill(m, memory, length, value);
  }

  lemma ConcretePart(f: imap<nat, SymExpr>, addr: nat, n: nat, k: nat)
    requires Total(f) && k <= n && (n > 0 ==> ConcreteRange(f, addr, n))
    ensures ConcreteRange(f, addr, k) && ConcreteRange(f, addr + k, n - k)
  {
  }

  /** The shadow effect of `strncpy`: `copied` bytes move, the rest of the
      destination becomes concrete. */
  method StrNCpy(m: ShadowMemory, dest: nat, src: nat, copied: nat, n: nat)
    requires m.Valid() && copied <= n && (dest <= src || src + copied <= dest)
    modifies m, m.Repr
    ensures m.Valid()
    ensures m.Flat() == Stored(Moved(old(m.Flat()), dest, src, copied), dest + copied, Repeat(None, n - copied))
  {
    hide Moved, Stored, ShadowMemory.Flat, ShadowMemory.At, ShadowMemory.Valid, ConcreteRange;
    var a := IsConcrete(m, src, copied);
    var b := IsConcrete(m, dest, n);
    if a && b {
      ConcretePart(m.Flat(), dest, n, copied);
      MovedNulls(m.Flat(), dest, src, copied);
      StoredNulls(m.Flat(), dest + copied, n - copied);
      return;
    }
    CopyForward(m, dest, src, copied);
    if copied < n {
      Fill(m, dest + copied, n - copied, None);
    } else {
      ConcretePart(m.Flat(), dest + copied, 0, 0);
      StoredNulls(m.Flat(), dest + copied, 0);
    }
  }

  /** The entries of a range as a finite map. */
  ghost function View(f: imap<nat, SymExpr>, addr: nat, n: nat): (v: map<int, SymExpr>)
    requires Total(f)
  {
    map a: nat | addr <= a < addr + n :: a as int := f[a]
  }

  lemma ViewAt(f: imap<nat, SymExpr>, addr: nat, n: nat, k: nat)
    requires Total(f) && k < n
    ensures ShadowAt(View(f, addr, n), addr + k) == Entry(f, addr + k)
  {
  }

  lemma ViewConcrete(f: imap<nat, SymExpr>, addr: nat, n: nat)
    requires Total(f)
    ensures AllNull(ShadowBytes(View(f, addr, n), addr, n)) <==> ConcreteRange(f, addr, n)
  {
    forall k: nat | k < n
      ensures ShadowBytes(View(f, addr, n), addr, n)[k] == f[addr + k]
    {
      ViewAt(f, addr, n, k);
    }
    if AllNull(ShadowBytes(View(f, addr, n), addr, n)) {
      forall a: nat | addr <= a < addr + n
        ensures f[a].None?
      {
        assert ShadowBytes(View(f, addr, n), addr, n)[a - addr].None?;
      }
    }
  }

  /** `_sym_read_memory`, for `length > 0`: exactly the load of the program
      model, on the flat map. */
  method ReadMemory(m: ShadowMemory, concrete: map<int, Byte>, addr: nat, length: nat, littleEndian: bool)
    returns (e: SymExpr)
    requires m.Valid() && length > 0
    ensures e == ReadShadow(concrete, View(m.Flat(), addr, length), addr, length, littleEndian)
  {
    hide View, ShadowMemory.Valid, Total, ShadowMemory.Flat, ShadowMemory.At, PageStart, PageOffset, ConcreteRange,
         AllNull, ShadowBytes, JoinBytes, ByteAt, ShadowAt;
    ghost var f := m.Flat();
    ghost var es := ByteExprs(concrete, View(f, addr, length), addr, length);
    ViewConcrete(f, addr, length);
    var b := IsConcrete(m, addr, length);
    if b {
      return None;
    }
    var it := new ReadShadowIterator(m, addr);
    e := None;
    while it.address != addr + length
      invariant addr <= it.address <= addr + length && it.memory == m
      invariant it.Valid() && it.Misses(m.pages.Keys)
      invariant e == Joined(es[..it.address - addr], littleEndian)
      decreases addr + length - it.address
    {
      ghost var k := it.address - addr;
      var entry := it.Get();
      var byteExpr := if entry.Some? then entry.value else Integer(ByteAt(concrete, it.address), 8);
      ViewAt(f, addr, length, k);
      ByteConstant(ByteAt(concrete, addr + k));
      assert es[k] == Coerce(entry, ByteAt(concrete, addr + k), 8);
      JoinedNext(es, k, littleEndian);
      e := if e.None? then Some(byteExpr)
           else Some(if littleEndian then Concat(byteExpr, e.value) else Concat(e.value, byteExpr));
      it.Increment(m.pages.Keys);
    }
    assert es[..length] == es;
  }

  lemma ByteConstant(v: nat)
    ensures ValueExpr(v, 8) == Integer(v, 8)
  {
  }

  /** The accumulator after the bytes `es`. */
  function Joined(es: seq<Expr>, littleEndian: bool): (e: SymExpr)
  {
    if es == [] then None else Some(JoinBytes(es, littleEndian))
  }

  lemma JoinedNext(es: seq<Expr>, k: nat, littleEndian: bool)
    requires k < |es|
    ensures Joined(es[..k + 1], littleEndian)
      == var e := Joined(es[..k], littleEndian);
         if e.None? then Some(es[k])
         else Some(if littleEndian then Concat(es[k], e.value) else Concat(e.value, es[k]))
  {
    assert es[..k + 1][..k] == es[..k];
  }

  /** `_sym_write_memory`, for `length > 0`: exactly the store of the program
      model, on the flat map. */
  method WriteMemory(m: ShadowMemory, addr: nat, length: nat, expr: SymExpr, littleEndian: bool)
    requires m.Valid() && length > 0
    modifies m, m.Repr
    ensures m.Valid() && fresh(m.Repr - old(m.Repr))
    ensures m.Flat() == Stored(old(m.Flat()), addr, StoreShadow(expr, length, littleEndian))
  {
    hide Stored, ShadowMemory.Flat, ShadowMemory.At, PageStart, PageOffset, ConcreteRange, ShadowMemory.Valid, Total;
    if expr.None? {
      assert StoreShadow(expr, length, littleEndian) == Repeat(None, length);
      var b := IsConcrete(m, addr, length);
      if b {
        StoredNulls(m.Flat(), addr, length);
        return;
      }
      Fill(m, addr, length, None);
    } else {
      WriteBytes(m, addr, length, expr.value, littleEndian);
    }
  }

  /** The loop over a present expression. */
  method WriteBytes(m: ShadowMemory, addr: nat, length: nat, expr: Expr, littleEndian: bool)
    requires m.Valid()
    modifies m, m.Repr
    ensures m.Valid() && fresh(m.Repr - old(m.Repr))
    ensures m.Flat() == Stored(old(m.Flat()), addr, StoreShadow(Some(expr), length, littleEndian))
  {
    hide Stored, ShadowMemory.Flat, ShadowMemory.At, ShadowMemory.Valid, Total, Writing, SplitByte;
    ghost var f, es := m.Flat(), StoreShadow(Some(expr), length, littleEndian);
    var it, end := StartWriting(m, addr, length, es);
    var i := 0;
    WritingAt(m, it, f, addr, es, 0);
    while it.address != end
      invariant i <= length && it.address == addr + i && Writing(m, it, f, addr, es, i)
      invariant fresh(m.Repr - old(m.Repr))
      decreases length - i
    {
      var byteExpr := if littleEndian then Extract(expr, 8 * (i + 1) - 1, 8 * i)
        else Extract(expr, (length - i) * 8 - 1, (length - i - 1) * 8);
      ByteWritten(expr, length, i, littleEndian);
      WriteNext(m, it, Some(byteExpr), f, addr, es, i);
      i := i + 1;
      WritingAt(m, it, f, addr, es, i);
    }
    WritingDone(m, it, f, addr, es);
  }

  lemma ByteWritten(expr: Expr, length: nat, i: nat, littleEndian: bool)
    requires i < length
    ensures SplitByte(expr, length, i, littleEndian)
      == if littleEndian then Extract(expr, 8 * (i + 1) - 1, 8 * i)
         else Extract(expr, (length - i) * 8 - 1, (length - i - 1) * 8)
  {
  }

  /** `_sym_make_symbolic`: the region becomes the input bytes from `offset`. */
  method MakeSymbolic(m: ShadowMemory, data: nat, length: nat, offset: nat)
    requires m.Valid()
    modifies m, m.Repr
    ensures m.Valid() && fresh(m.Repr - old(m.Repr))
    ensures m.Flat() == Stored(old(m.Flat()), data, InputBytes(offset, length))
  {
    hide Stored, ShadowMemory.Flat, ShadowMemory.At, ShadowMemory.Valid, Total, Writing;
    ghost var f, es, i := m.Flat(), InputBytes(offset, length), 0;
    var first, end := StartWriting(m, data, length, es);
    var inputOffset := offset;
    WritingAt(m, first, f, data, es, 0);
    while first.address != end
      invariant i <= length && first.address == data + i && Writing(m, first, f, data, es, i)
      invariant inputOffset == offset + i && fresh(m.Repr - old(m.Repr))
      decreases length - i
    {
      WriteNext(m, first, Some(InputByte(inputOffset)), f, data, es, i);
      inputOffset, i := inputOffset + 1, i + 1;
      WritingAt(m, first, f, data, es, i);
    }
    WritingDone(m, first, f, data, es);
  }
}
