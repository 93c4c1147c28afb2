/** Paged shadow memory and the iterators that walk over it. The pages are
    the representation; `At` is the flat map they stand for. */
module Shadow {
  import opened Expressions

  const PAGE_SIZE := 4096

  function PageStart(address: nat): (r: nat)
    ensures r <= address < r + PAGE_SIZE
  {
    address - address % PAGE_SIZE
  }

  function PageOffset(address: nat): (r: nat)
    ensures r < PAGE_SIZE
  {
    address % PAGE_SIZE
  }

  lemma NextAddress(address: nat)
    ensures PageStart(address + 1) == PageStart(address) ==> PageOffset(address + 1) == PageOffset(address) + 1
  {
  }

  ghost predicate Total(f: imap<nat, SymExpr>)
  {
    forall a: nat :: a in f
  }

  /** Entries are null wherever there was no page in `known`. */
  ghost predicate NullOff(f: imap<nat, SymExpr>, known: set<nat>)
    requires Total(f)
  {
    forall a: nat :: PageStart(a) !in known ==> f[a].None?
  }

  class ShadowMemory {
    /** One array of byte expressions for every page touched so far. */
    var pages: map<nat, array<SymExpr>>
    ghost var Repr: set<array<SymExpr>>

    constructor ()
      ensures Valid() && pages == map[] && Repr == {}
    {
      pages, Repr := map[], {};
    }

    ghost predicate Valid()
      reads this
    {
      && (forall q :: q in pages ==> PageStart(q) == q && pages[q].Length == PAGE_SIZE && pages[q] in Repr)
      && (forall q, r :: q in pages && r in pages && q != r ==> pages[q] != pages[r])
    }

    /** The entry of an address: null where there is no page. */
    ghost function At(a: nat): (e: SymExpr)
      requires Valid()
      reads this, Repr
    {
      if PageStart(a) in pages then pages[PageStart(a)][PageOffset(a)] else None
    }

    /** The flat map, as a value that later writes do not change. */
    ghost function Flat(): (m: imap<nat, SymExpr>)
      requires Valid()
      reads this, Repr
      ensures Total(m)
    {
      imap a: nat {:trigger At(a)} | true :: At(a)
    }

    /** An address without a page has a null entry. */
    lemma NoPage()
      requires Valid()
      ensures NullOff(Flat(), pages.Keys)
    {
      forall a: nat | PageStart(a) !in pages
        ensures Flat()[a].None?
      {
        assert Flat()[a] == At(a);
      }
    }

    /** The slot of an address holds its flat entry; without a slot the entry is
        null. */
    method GetShadow(address: nat) returns (slot: Slot)
      requires Valid()
      ensures slot.Slot? ==> slot.page.Length == PAGE_SIZE && 0 <= slot.index < PAGE_SIZE
      ensures Flat()[address] == if slot.Slot? then slot.page[slot.index] else None
      ensures slot == if PageStart(address) in pages then Slot(pages[PageStart(address)], PageOffset(address))
        else NoSlot
    {
      if PageStart(address) in pages {
        slot := Slot(pages[PageStart(address)], PageOffset(address));
      } else {
        slot := NoSlot;
      }
      assert Flat()[address] == At(address);
    }

    /** Every page that was there is still there. */
    twostate predicate Extended()
      reads this
    {
      old(Repr) <= Repr && forall q :: q in old(pages) ==> q in pages && pages[q] == old(pages)[q]
    }

    /** Creating a page, which is filled with nulls, changes no entry. */
    method GetOrCreateShadow(address: nat) returns (slot: Slot)
      requires Valid()
      modifies this
      ensures Valid() && Extended() && fresh(Repr - old(Repr))
      ensures PageStart(address) in pages
      ensures slot == Slot(pages[PageStart(address)], PageOffset(address))
      ensures Flat() == old(Flat())
    {
      slot := GetShadow(address);
      if slot.NoSlot? {
        var newShadow := new SymExpr[PAGE_SIZE](_ => None);
        pages := pages[PageStart(address) := newShadow];
        Repr := Repr + {newShadow};
        slot := Slot(newShadow, PageOffset(address));
        forall a: nat
          ensures At(a) == old(At(a))
        {
        }
      }
    }
  }

  /** A pointer into a page of shadow, or the null pointer. */
  datatype Slot = NoSlot | Slot(page: array<SymExpr>, index: int)

  /** The slot is the place of `address` in its page. */
  ghost predicate Points(m: ShadowMemory, address: nat, slot: Slot)
    reads m
  {
    slot.Slot? ==>
      PageStart(address) in m.pages && slot.page == m.pages[PageStart(address)] && slot.index == PageOffset(address)
  }

  class ReadShadowIterator {
    const memory: ShadowMemory
    var address: nat
    var slot: Slot

    ghost predicate Valid()
      reads this, memory
    {
      memory.Valid() && Points(memory, address, slot)
    }

    /** A null slot is remembered from a time when the page was missing from
        `known`; it may have been created since. */
    ghost predicate Misses(known: set<nat>)
      reads this
    {
      slot.NoSlot? ==> PageStart(address) !in known
    }

    constructor (memory: ShadowMemory, address: nat)
      requires memory.Valid()
      ensures Valid() && this.memory == memory && this.address == address
      ensures Misses(memory.pages.Keys)
    {
      this.memory := memory;
      this.address := address;
      this.slot := NoSlot;
      new;
      slot := memory.GetShadow(address);
    }

    /** The result is the flat entry, unless a null slot hides a page that
        appeared after it was looked up. */
    method Get() returns (e: SymExpr)
      requires Valid()
      ensures slot.Slot? || PageStart(address) !in memory.pages ==> e == memory.Flat()[address]
      ensures slot.NoSlot? ==> e == None
    {
      e := if slot.Slot? then slot.page[slot.index] else None;
      assert memory.Flat()[address] == memory.At(address);
    }

    method Increment(ghost known: set<nat>)
      requires Valid() && Misses(known) && known <= memory.pages.Keys
      modifies this
      ensures Valid() && Misses(known) && address == old(address) + 1
    {
      var previousAddress := address;
      NextAddress(address);
      address := address + 1;
      if slot.Slot? {
        slot := slot.(index := slot.index + 1);
      }
      if PageStart(address) != PageStart(previousAddress) {
        slot := memory.GetShadow(address);
      }
    }

    method Decrement(ghost known: set<nat>)
      requires Valid() && Misses(known) && known <= memory.pages.Keys
      requires address > 0
      modifies this
      ensures Valid() && Misses(known) && address == old(address) - 1
    {
      var previousAddress := address;
      NextAddress(address - 1);
      address := address - 1;
      if slot.Slot? {
        slot := slot.(index := slot.index - 1);
      }
      if PageStart(address) != PageStart(previousAddress) {
        slot := memory.GetShadow(address);
      }
    }
  }

  class WriteShadowIterator {
    const memory: ShadowMemory
    var address: nat
    var slot: Slot

    ghost predicate Valid()
      reads this, memory
    {
      memory.Valid() && slot.Slot? && Points(memory, address, slot) && slot.page in memory.Repr
    }

    /** Even an iterator that is only compared against creates its page. */
    constructor (memory: ShadowMemory, address: nat)
      requires memory.Valid()
      modifies memory
      ensures Valid() && this.memory == memory && this.address == address
      ensures memory.Extended() && fresh(memory.Repr - old(memory.Repr))
      ensures memory.Flat() == old(memory.Flat())
    {
      this.memory := memory;
      this.address := address;
      this.slot := NoSlot;
      new;
      slot := memory.GetOrCreateShadow(address);
    }

    /** Writing changes the entry of the iterator's own address and no other. */
    method Set(e: SymExpr)
      requires Valid()
      modifies slot.page
      ensures Valid()
      ensures memory.Flat() == old(memory.Flat())[address := e]
    {
      slot.page[slot.index] := e;
      forall a: nat
        ensures memory.At(a) == if a == address then e else old(memory.At(a))
      {
        if PageStart(a) == PageStart(address) && a != address {
          assert PageOffset(a) != PageOffset(address);
        }
      }
    }

    /** Write the current entry and step to the next one. */
    method Emit(e: SymExpr)
      requires Valid()
      modifies this, memory, slot.page
      ensures Valid() && address == old(address) + 1
      ensures memory.Extended() && fresh(memory.Repr - old(memory.Repr))
      ensures memory.Flat() == old(memory.Flat())[old(address) := e]
    {
      hide ShadowMemory.Flat, ShadowMemory.At, PageStart, PageOffset;
      Set(e);
      Increment();
    }

    method Increment()
      requires Valid()
      modifies this, memory
      ensures Valid() && address == old(address) + 1
      ensures memory.Extended() && fresh(memory.Repr - old(memory.Repr))
      ensures memory.Flat() == old(memory.Flat())
    {
      var previousAddress := address;
      NextAddress(address);
      address := address + 1;
      slot := slot.(index := slot.index + 1);
      if PageStart(address) != PageStart(previousAddress) {
        slot := memory.GetOrCreateShadow(address);
      }
    }

    /** Step to the previous entry and write it. */
    method EmitBefore(e: SymExpr)
      requires Valid() && address > 0
      modifies this, memory, memory.Repr
      ensures Valid() && address == old(address) - 1
      ensures memory.Extended() && fresh(memory.Repr - old(memory.Repr))
      ensures memory.Flat() == old(memory.Flat())[address := e]
    {
      hide ShadowMemory.Flat, ShadowMemory.At, PageStart, PageOffset;
      Decrement();
      Set(e);
    }

    method Decrement()
      requires Valid() && address > 0
      modifies this, memory
      ensures Valid() && address == old(address) - 1
      ensures memory.Extended() && fresh(memory.Repr - old(memory.Repr))
      ensures memory.Flat() == old(memory.Flat())
    {
      var previousAddress := address;
      NextAddress(address - 1);
      address := address - 1;
      slot := slot.(index := slot.index - 1);
      if PageStart(address) != PageStart(previousAddress) {
        slot := memory.GetOrCreateShadow(address);
      }
    }
  }
}
