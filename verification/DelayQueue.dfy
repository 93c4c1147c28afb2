/** The queue of delayed address constraints. An access through a symbolic
    address is remembered by the input bytes that the accessed value depends
    on; its constraint is pushed when a branch depends on all of them. */
module DelayQueue {
  import opened BitVectors
  import opened Expressions
  import opened Programs
  import opened ReplayTheorems

  type Deps = set<nat>

  /** The address of a delayed access, symbolic and concrete. */
  datatype Entry = Entry(addr: SymExpr, concrete: nat)

  datatype Commit = Commit(node: nat, entry: Entry)

  /** The constraint for an entry. There is none for a null address: building
      it looks the address up in the registry, which throws. */
  function EntryConstraint(e: Entry): (cs: seq<Constraint>)
  {
    if e.addr.None? then [] else [Constraint(Compare(Eq, Integer(e.concrete, 64), e.addr.value), true)]
  }

  function Constraints(commits: seq<Commit>): (cs: seq<Constraint>)
  {
    if commits == [] then []
    else Constraints(commits[..|commits| - 1]) + EntryConstraint(commits[|commits| - 1].entry)
  }

  function Union(commits: seq<Commit>, deps: nat -> Deps): (s: Deps)
  {
    if commits == [] then {}
    else Union(commits[..|commits| - 1], deps) + deps(commits[|commits| - 1].node)
  }

  /** The address has its concrete value in the run on `actual`. */
  ghost predicate EntryHolds(e: Entry, actual: Input)
  {
    e.addr.Some? ==>
      IsVector(e.addr.value) && Bits(e.addr.value) == 64 && Eval(e.addr.value, actual) == e.concrete
  }

  /** The address is a 64-bit vector, and its concrete value one of 64 bits. */
  predicate Fits(e: Entry)
  {
    e.addr.Some? && IsVector(e.addr.value) && Bits(e.addr.value) == 64 && e.concrete < Pow2(64)
  }

  /** The constraint fixes the address: exactly the inputs on which it has its
      recorded value satisfy it. */
  lemma EntryMeans(e: Entry, input: Input)
    requires Fits(e)
    ensures PathSat(EntryConstraint(e), input) <==> Eval(e.addr.value, input) == e.concrete
  {
    hide Pow2, Eval, WellSorted, IsBool, Bits;
    IntegerNode(e.concrete, 64, input);
    CompareNode(Eq, Integer(e.concrete, 64), e.addr.value, input);
    assert PathSat(EntryConstraint(e), input) <==> Satisfied(EntryConstraint(e)[0], input);
  }

  lemma HoldingFits(e: Entry, actual: Input)
    requires EntryHolds(e, actual) && e.addr.Some?
    ensures Fits(e)
  {
    EvalRange(e.addr.value, actual);
  }

  lemma EntrySatisfied(e: Entry, actual: Input)
    requires EntryHolds(e, actual)
    ensures PathSat(EntryConstraint(e), actual)
  {
    if e.addr.Some? {
      HoldingFits(e, actual);
      EntryMeans(e, actual);
    }
  }

  /** On `input` every committed address has its recorded value. */
  ghost predicate AllFixed(commits: seq<Commit>, input: Input)
  {
    forall i :: 0 <= i < |commits| && commits[i].entry.addr.Some? ==>
      Eval(commits[i].entry.addr.value, input) == commits[i].entry.concrete
  }

  predicate AllFit(commits: seq<Commit>)
  {
    forall i :: 0 <= i < |commits| ==> Fits(commits[i].entry)
  }

  /** The constraints of the commits fix exactly their addresses. */
  lemma {:induction false} ConstraintsMean(commits: seq<Commit>, input: Input)
    requires AllFit(commits)
    ensures PathSat(Constraints(commits), input) <==> AllFixed(commits, input)
  {
    hide Eval, Fits, EntryConstraint, Satisfied;
    if commits != [] {
      var n := |commits| - 1;
      assert forall i :: 0 <= i < n ==> commits[..n][i] == commits[i];
      ConstraintsMean(commits[..n], input);
      PathSatAppend(Constraints(commits[..n]), EntryConstraint(commits[n].entry), input);
      EntryMeans(commits[n].entry, input);
      FitsSome(commits[n].entry);
    }
  }

  lemma FitsSome(e: Entry)
    requires Fits(e)
    ensures e.addr.Some?
  {
  }

  predicate Distinct(commits: seq<Commit>)
  {
    forall i, j :: 0 <= i < j < |commits| ==> commits[i].node != commits[j].node
  }

  predicate Committed(commits: seq<Commit>, node: nat)
  {
    exists i :: 0 <= i < |commits| && commits[i].node == node
  }

  lemma {:induction false} InUnion(commits: seq<Commit>, deps: nat -> Deps, node: nat)
    requires Committed(commits, node)
    ensures deps(node) <= Union(commits, deps)
  {
    var n := |commits| - 1;
    if commits[n].node != node {
      var i :| 0 <= i < |commits| && commits[i].node == node;
      assert commits[..n][i].node == node;
      InUnion(commits[..n], deps, node);
    }
  }

  /** Contained in the exact set or in the dependencies of a pending entry. */
  ghost predicate Covered(s: Deps, queue: map<nat, Entry>, exact: Deps, deps: nat -> Deps)
  {
    s <= exact || exists k :: k in queue && s <= deps(k)
  }

  /** Every dependency set ever offered stays covered. */
  ghost predicate AllCovered(offered: set<nat>, queue: map<nat, Entry>, exact: Deps, deps: nat -> Deps)
  {
    forall o :: o in offered ==> Covered(deps(o), queue, exact, deps)
  }

  /** The exact set and the path belong to the commits, which are distinct and
      fix addresses. */
  ghost predicate History(commits: seq<Commit>, exact: Deps, path: seq<Constraint>, deps: nat -> Deps, actual: Input)
  {
    && exact == Union(commits, deps) && Distinct(commits) && AllFit(commits)
    && path == Constraints(commits) && PathSat(path, actual)
  }

  /** Pending entries are pairwise distinct and were not committed. */
  ghost predicate Pending(queue: map<nat, Entry>, commits: seq<Commit>, deps: nat -> Deps, actual: Input)
  {
    && (forall k :: k in queue ==> !Committed(commits, k) && EntryHolds(queue[k], actual))
    && (forall k, k' :: k in queue && k' in queue && k != k' ==> deps(k) != deps(k'))
  }

  lemma CommitCovered(offered: set<nat>, queue: map<nat, Entry>, exact: Deps, deps: nat -> Deps, k: nat)
    requires AllCovered(offered, queue, exact, deps) && k in queue
    ensures AllCovered(offered, queue - {k}, exact + deps(k), deps)
  {
    forall o | o in offered
      ensures Covered(deps(o), queue - {k}, exact + deps(k), deps)
    {
      if !(deps(o) <= exact) {
        var q :| q in queue && deps(o) <= deps(q);
        assert q == k || q in queue - {k};
      }
    }
  }

  lemma CommitHistory(commits: seq<Commit>, exact: Deps, path: seq<Constraint>, deps: nat -> Deps, actual: Input,
                      c: Commit)
    requires History(commits, exact, path, deps, actual) && !Committed(commits, c.node)
    requires EntryHolds(c.entry, actual) && c.entry.addr.Some?
    ensures History(commits + [c], exact + deps(c.node), path + EntryConstraint(c.entry), deps, actual)
  {
    hide PathSat, EntryHolds, EntryConstraint, Fits;
    assert (commits + [c])[..|commits|] == commits;
    HoldingFits(c.entry, actual);
    EntrySatisfied(c.entry, actual);
    PathSatAppend(path, EntryConstraint(c.entry), actual);
  }

  lemma CommitPending(queue: map<nat, Entry>, commits: seq<Commit>, deps: nat -> Deps, actual: Input, c: Commit)
    requires Pending(queue, commits, deps, actual) && c.node in queue
    ensures Pending(queue - {c.node}, commits + [c], deps, actual)
  {
    hide EntryHolds;
  }

  lemma OfferCovered(offered: set<nat>, queue: map<nat, Entry>, exact: Deps, deps: nat -> Deps, value: nat, e: Entry)
    requires AllCovered(offered, queue, exact, deps)
    ensures AllCovered(offered + {value}, queue[value := e], exact, deps)
  {
    var q := queue[value := e];
    forall o | o in offered + {value}
      ensures Covered(deps(o), q, exact, deps)
    {
      if o == value {
        assert value in q;
      } else if !(deps(o) <= exact) {
        var k :| k in queue && deps(o) <= deps(k);
        assert k in q;
      }
    }
  }

  lemma OfferPending(queue: map<nat, Entry>, commits: seq<Commit>, exact: Deps, path: seq<Constraint>,
                     deps: nat -> Deps, actual: Input, value: nat, e: Entry)
    requires Pending(queue, commits, deps, actual) && History(commits, exact, path, deps, actual)
      && EntryHolds(e, actual)
    requires !Covered(deps(value), queue, exact, deps)
    ensures Pending(queue[value := e], commits, deps, actual)
  {
    hide EntryHolds, PathSat, Constraints;
    if Committed(commits, value) {
      InUnion(commits, deps, value);
      assert false;
    }
  }

  /** One of the commits depends on input byte `d`. */
  predicate DependsOn(commits: seq<Commit>, deps: nat -> Deps, d: nat)
  {
    exists i :: 0 <= i < |commits| && d in deps(commits[i].node)
  }

  lemma {:induction false} UnionMeans(commits: seq<Commit>, deps: nat -> Deps)
    ensures forall d :: d in Union(commits, deps) <==> DependsOn(commits, deps, d)
  {
    if commits != [] {
      var n := |commits| - 1;
      UnionMeans(commits[..n], deps);
      forall d: nat
        ensures d in Union(commits, deps) <==> DependsOn(commits, deps, d)
      {
        if DependsOn(commits[..n], deps, d) {
          var i :| 0 <= i < n && d in deps(commits[..n][i].node);
          assert d in deps(commits[i].node);
        }
        if i :| 0 <= i < |commits| && d in deps(commits[i].node) {
          if i < n {
            assert d in deps(commits[..n][i].node);
          }
        }
      }
    }
  }

  class DelayedConstraints {
    /** The dependencies of an expression node. */
    const deps: nat -> Deps
    /** The input of the run that is being recorded. */
    ghost const actual: Input
    var queue: map<nat, Entry>
    var exact: Deps
    var path: seq<Constraint>
    ghost var offered: set<nat>
    ghost var commits: seq<Commit>

    ghost predicate Valid()
      reads this
    {
      && AllCovered(offered, queue, exact, deps)
      && History(commits, exact, path, deps, actual)
      && Pending(queue, commits, deps, actual)
    }

    constructor (deps: nat -> Deps, ghost actual: Input)
      ensures Valid() && queue == map[] && exact == {} && path == [] && offered == {}
      ensures this.deps == deps && this.actual == actual
    {
      this.deps := deps;
      this.actual := actual;
      queue, exact, path, offered, commits := map[], {}, [], {}, [];
    }

    /** What the pushed constraints demand: on exactly the inputs that satisfy
        them, every committed address has its recorded value. */
    lemma PathFixes(input: Input)
      requires Valid()
      ensures AllFit(commits) && (PathSat(path, input) <==> AllFixed(commits, input))
    {
      hide AllCovered, Pending, PathSat, AllFixed, Fits;
      ConstraintsMean(commits, input);
    }

    /** Offering an access queues it exactly if nothing covers it yet. */
    method InsertSymbolicAddrNode(value: nat, addr: SymExpr, concreteAddr: nat)
      requires Valid() && EntryHolds(Entry(addr, concreteAddr), actual)
      modifies this`queue, this`offered
      ensures Valid() && offered == old(offered) + {value}
      ensures queue == if Covered(deps(value), old(queue), exact, deps) then old(queue)
        else old(queue)[value := Entry(addr, concreteAddr)]
    {
      hide EntryHolds, History, Pending;
      var dep := deps(value);
      offered := offered + {value};
      if dep <= exact {
        return;
      }
      var unseen := queue.Keys;
      while unseen != {}
        invariant unseen <= queue.Keys
        invariant forall k :: k in queue && k !in unseen ==> !(dep <= deps(k))
      {
        var k :| k in unseen;
        if dep <= deps(k) {
          return;
        }
        unseen := unseen - {k};
      }
      OfferCovered(old(offered), queue, exact, deps, value, Entry(addr, concreteAddr));
      OfferPending(queue, commits, exact, path, deps, actual, value, Entry(addr, concreteAddr));
      queue := queue[value := Entry(addr, concreteAddr)];
    }

    /** One call commits one pending entry that the branch depends on entirely,
        if there is one: its dependencies become exact, its constraint is
        pushed and it leaves the queue. If that entry has a null address, the
        call throws before anything changes. */
    method ConstraintVerify(branch: nat) returns (thrown: bool, ghost committed: Option<nat>)
      requires Valid()
      modifies this`queue, this`exact, this`path, this`commits
      ensures Valid() && old(exact) <= exact && old(path) <= path
      ensures committed.None? ==>
        queue == old(queue) && exact == old(exact) && path == old(path) && commits == old(commits)
      ensures committed.Some? && committed.value in old(queue) ==>
        commits == old(commits) + [Commit(committed.value, old(queue)[committed.value])]
      ensures committed.None? && !thrown ==> forall k :: k in queue ==> !(deps(k) <= deps(branch))
      ensures committed.Some? ==> var k := committed.value;
        (!thrown && k in old(queue) && deps(k) <= deps(branch) && queue == old(queue) - {k} && old(queue)[k].addr.Some?
         && exact == old(exact) + deps(k) && path == old(path) + EntryConstraint(old(queue)[k]))
      ensures thrown ==> exists k :: k in queue && deps(k) <= deps(branch) && queue[k].addr.None?
    {
      hide AllCovered, History, Pending, EntryConstraint;
      thrown, committed := false, None;
      if queue == map[] {
        return;
      }
      var unseen := queue.Keys;
      while unseen != {}
        invariant unseen <= queue.Keys
        invariant forall k :: k in queue && k !in unseen ==> !(deps(k) <= deps(branch))
      {
        var k :| k in unseen;
        if deps(k) <= deps(branch) {
          if queue[k].addr.None? {
            return true, None;
          }
          CommitEntry(k);
          return false, Some(k);
        }
        unseen := unseen - {k};
      }
    }

    method CommitEntry(k: nat)
      requires Valid() && k in queue && queue[k].addr.Some?
      modifies this`queue, this`exact, this`path, this`commits
      ensures Valid() && queue == old(queue) - {k} && exact == old(exact) + deps(k)
      ensures path == old(path) + EntryConstraint(old(queue)[k]) && commits == old(commits) + [Commit(k, old(queue)[k])]
    {
      hide AllCovered, History, EntryConstraint, EntryHolds, Committed;
      ghost var c := Commit(k, queue[k]);
      CommitCovered(offered, queue, exact, deps, k);
      CommitHistory(commits, exact, path, deps, actual, c);
      CommitPending(queue, commits, deps, actual, c);
      path := path + EntryConstraint(queue[k]);
      exact := exact + deps(k);
      queue := queue - {k};
      commits := commits + [c];
    }

    /** An expression counts as exact if each of its dependencies belongs to an
        entry that was committed; before a commit has made anything exact
        nothing does, not even a constant. */
    method IsSymExprExact(node: nat) returns (b: bool)
      requires Valid()
      ensures b <==> exact != {} && forall d :: d in deps(node) ==> DependsOn(commits, deps, d)
    {
      UnionMeans(commits, deps);
      if exact == {} {
        return false;
      }
      b := deps(node) <= exact;
    }

    /** Verifying the same branch again and again drains the entries that it
        depends on entirely, and no others, or throws at one with a null
        address. */
    method VerifyRepeatedly(branch: nat) returns (thrown: bool)
      requires Valid()
      modifies this`queue, this`exact, this`path, this`commits
      ensures Valid()
      ensures !thrown ==> Due(queue, deps, branch) == {}
      ensures !thrown ==> queue == old(queue) - Due(old(queue), deps, branch)
      ensures !thrown ==> exact == old(exact) + UnionOf(Due(old(queue), deps, branch), deps)
      ensures thrown ==> exists k :: k in old(queue) && deps(k) <= deps(branch) && old(queue)[k].addr.None?
    {
      hide Valid, UnionOf, Due, EntryConstraint, Part;
      ghost var start, exactBefore := queue, exact;
      DrainStarts(start, exactBefore, deps, branch);
      thrown := false;
      for n := 0 to |queue|
        invariant !thrown && Valid() && Draining(start, exactBefore, deps, branch, queue, exact, |start| - n)
      {
        ghost var before, exactNow := queue, exact;
        ghost var committed: Option<nat>;
        thrown, committed := ConstraintVerify(branch);
        if thrown {
          PartIs(queue, start);
          return;
        }
        DrainStep(start, exactBefore, deps, branch, before, exactNow, |start| - n, committed);
      }
      PartIs(queue, start);
    }
  }

  /** The pending entries that a branch depends on entirely. */
  function Due(queue: map<nat, Entry>, deps: nat -> Deps, branch: nat): (s: set<nat>)
  {
    set k | k in queue && deps(k) <= deps(branch)
  }

  function UnionOf(nodes: set<nat>, deps: nat -> Deps): (s: Deps)
  {
    set k, d | k in nodes && d in deps(k) :: d
  }

  /** `part` is what is left of `whole`. */
  predicate Part(part: map<nat, Entry>, whole: map<nat, Entry>)
  {
    part.Keys <= whole.Keys && forall k :: k in part ==> part[k] == whole[k]
  }

  lemma PartIs(part: map<nat, Entry>, whole: map<nat, Entry>)
    requires Part(part, whole)
    ensures part == whole - (whole.Keys - part.Keys)
  {
  }

  /** At most `left` entries are due, and those that are gone were due. */
  ghost predicate Draining(start: map<nat, Entry>, exactBefore: Deps, deps: nat -> Deps, branch: nat,
                           queue: map<nat, Entry>, exact: Deps, left: nat)
  {
    && |Due(queue, deps, branch)| <= left
    && Part(queue, start)
    && Due(start, deps, branch) == Due(queue, deps, branch) + (start.Keys - queue.Keys)
    && exact == exactBefore + UnionOf(start.Keys - queue.Keys, deps)
  }

  lemma DrainStarts(start: map<nat, Entry>, exact: Deps, deps: nat -> Deps, branch: nat)
    ensures Draining(start, exact, deps, branch, start, exact, |start|)
  {
    SubsetSize(Due(start, deps, branch), start.Keys);
  }

  lemma DrainStep(start: map<nat, Entry>, exactBefore: Deps, deps: nat -> Deps, branch: nat,
                  queue: map<nat, Entry>, exact: Deps, left: nat, committed: Option<nat>)
    requires Draining(start, exactBefore, deps, branch, queue, exact, left) && left > 0
    requires committed.None? ==> forall k :: k in queue ==> !(deps(k) <= deps(branch))
    requires committed.Some? ==> committed.value in queue && deps(committed.value) <= deps(branch)
    ensures committed.None? ==> Draining(start, exactBefore, deps, branch, queue, exact, left - 1)
    ensures committed.Some? ==>
      Draining(start, exactBefore, deps, branch, queue - {committed.value}, exact + deps(committed.value), left - 1)
  {
    hide UnionOf, Due, Part;
    if committed.None? {
      NothingDue(queue, deps, branch);
    } else {
      var k := committed.value;
      var gone := start.Keys - queue.Keys;
      GoneGrows(start, queue, k);
      DueShrinks(queue, deps, branch, k);
      UnionGrows(gone, deps, k);
      Moved(Due(start, deps, branch), Due(queue - {k}, deps, branch), gone, k);
      Regroup(exactBefore, UnionOf(gone, deps), deps(k));
    }
  }

  lemma Moved(all: set<nat>, rest: set<nat>, gone: set<nat>, k: nat)
    requires all == rest + {k} + gone
    ensures all == rest + (gone + {k})
  {
  }

  lemma Regroup(a: Deps, b: Deps, c: Deps)
    ensures a + b + c == a + (b + c)
  {
  }

  lemma NothingDue(queue: map<nat, Entry>, deps: nat -> Deps, branch: nat)
    requires forall k :: k in queue ==> !(deps(k) <= deps(branch))
    ensures Due(queue, deps, branch) == {}
  {
  }

  lemma GoneGrows(start: map<nat, Entry>, queue: map<nat, Entry>, k: nat)
    requires Part(queue, start) && k in queue
    ensures Part(queue - {k}, start)
    ensures start.Keys - (queue - {k}).Keys == (start.Keys - queue.Keys) + {k}
  {
  }

  lemma DueShrinks(queue: map<nat, Entry>, deps: nat -> Deps, branch: nat, k: nat)
    requires k in queue && deps(k) <= deps(branch)
    ensures Due(queue, deps, branch) == Due(queue - {k}, deps, branch) + {k}
    ensures |Due(queue - {k}, deps, branch)| == |Due(queue, deps, branch)| - 1
  {
    assert Due(queue, deps, branch) == Due(queue - {k}, deps, branch) + {k};
  }

  lemma UnionGrows(nodes: set<nat>, deps: nat -> Deps, k: nat)
    ensures UnionOf(nodes + {k}, deps) == UnionOf(nodes, deps) + deps(k)
  {
    forall d
      ensures d in UnionOf(nodes + {k}, deps) <==> d in UnionOf(nodes, deps) + deps(k)
    {
      assert k in nodes + {k};
    }
  }

  lemma {:induction false} SubsetSize(s: set<nat>, t: set<nat>)
    requires s <= t
    ensures |s| <= |t|
  {
    if s != {} {
      var x :| x in s;
      SubsetSize(s - {x}, t - {x});
    }
  }
}
