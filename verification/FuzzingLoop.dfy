/** The main loop of the fuzzing helper: pick a queue file, run it, and keep
    what its new test cases contribute. */
module FuzzingLoop {
  import opened Expressions
  import opened Coverage
  import opened Testcases

  type Contents = seq<nat>

  /** What afl-showmap does with a test case. */
  datatype Showmap = Success(map': Map) | TimedOut | Crashed

  datatype TestcaseResult = Uninteresting | New | Hang | Crash

  datatype NewTest = NewTest(contents: Contents, outcome: Showmap)

  /** A run of SymCC on one input. */
  datatype SymCCResult = SymCCResult(input: Contents, testCases: seq<NewTest>, killed: bool)

  /** The maps of the successful test cases among some. */
  function Maps(ts: seq<NewTest>): (ms: seq<Map>)
  {
    if ts == [] then []
    else
      var t := ts[|ts| - 1];
      Maps(ts[..|ts| - 1]) + if t.outcome.Success? then [t.outcome.map'] else []
  }

  /** A file that was picked, and when. */
  datatype Selection = Selection(path: string, name: string, iteration: nat)

  function AllMaps(selected: seq<Selection>, symcc: (string, nat) -> SymCCResult): (ms: seq<Map>)
  {
    if selected == [] then []
    else
      var s := selected[|selected| - 1];
      AllMaps(selected[..|selected| - 1], symcc) + Maps(symcc(s.path, s.iteration).testCases)
  }

  function Paths(selected: seq<Selection>): (ps: set<string>)
  {
    set s | s in selected :: s.path
  }

  predicate AllDifferent(selected: seq<Selection>)
  {
    forall i, j :: 0 <= i < j < |selected| ==> selected[i].path != selected[j].path
  }

  /** The paths that were selected before iteration `k`. */
  function Earlier(selected: seq<Selection>, k: nat): (ps: set<string>)
  {
    set s | s in selected && s.iteration < k :: s.path
  }

  /** `s` is a file of the queue that was not seen, and none of the others of
      that kind has a higher score. */
  ghost predicate Best(s: Selection, queue: seq<Entry>, seen: set<string>)
  {
    exists e :: e in queue && IsBest(s, e, queue, seen)
  }

  ghost predicate IsBest(s: Selection, e: Entry, queue: seq<Entry>, seen: set<string>)
  {
    && e.path == s.path && e.name == s.name && e.isFile && e.path !in seen
    && forall e' :: e' in queue && e'.isFile && e'.path !in seen ==> ScoreLe(ScoreOf(e'), ScoreOf(e))
  }

  /** Every file of the queue was seen. */
  ghost predicate NothingLeft(queue: seq<Entry>, seen: set<string>)
  {
    forall e :: e in queue && e.isFile ==> e.path in seen
  }

  predicate SelectedAt(selected: seq<Selection>, k: nat)
  {
    exists s :: s in selected && s.iteration == k
  }

  /** The selections of the first `n` iterations: at most one in each, a best
      one where there is a file that was not selected before, and none where
      there is not. */
  ghost predicate Chosen(selected: seq<Selection>, queues: seq<seq<Entry>>, n: nat)
    requires n <= |queues|
  {
    && (forall i, j :: 0 <= i < j < |selected| ==> selected[i].iteration < selected[j].iteration)
    && (forall s :: s in selected ==> s.iteration < n && Best(s, queues[s.iteration], Earlier(selected, s.iteration)))
    && (forall k :: 0 <= k < n && !SelectedAt(selected, k) ==> NothingLeft(queues[k], Earlier(selected, k)))
  }

  lemma EarlierAll(selected: seq<Selection>, queues: seq<seq<Entry>>, n: nat)
    requires n <= |queues| && Chosen(selected, queues, n)
    ensures Earlier(selected, n) == Paths(selected)
  {
    forall p | p in Paths(selected)
      ensures p in Earlier(selected, n)
    {
      var s :| s in selected && s.path == p;
    }
  }

  /** A later selection does not change what was selected earlier. */
  lemma EarlierSame(selected: seq<Selection>, s: Selection, k: nat)
    requires k <= s.iteration
    ensures Earlier(selected + [s], k) == Earlier(selected, k)
  {
    forall p | p in Earlier(selected, k)
      ensures p in Earlier(selected + [s], k)
    {
      var x :| x in selected && x.iteration < k && x.path == p;
      assert x in selected + [s];
    }
  }

  lemma ChosenNone(selected: seq<Selection>, queues: seq<seq<Entry>>, n: nat)
    requires n < |queues| && Chosen(selected, queues, n) && NothingLeft(queues[n], Paths(selected))
    ensures Chosen(selected, queues, n + 1)
  {
    hide Best, NothingLeft;
    EarlierAll(selected, queues, n);
  }

  lemma ChosenNext(selected: seq<Selection>, queues: seq<seq<Entry>>, s: Selection)
    requires s.iteration < |queues| && Chosen(selected, queues, s.iteration)
      && Best(s, queues[s.iteration], Paths(selected))
    ensures Chosen(selected + [s], queues, s.iteration + 1)
  {
    hide Best, NothingLeft, Earlier;
    var n, all := s.iteration, selected + [s];
    EarlierAll(selected, queues, n);
    forall x | x in all
      ensures x.iteration < n + 1 && Best(x, queues[x.iteration], Earlier(all, x.iteration))
    {
      EarlierSame(selected, s, x.iteration);
    }
    assert SelectedAt(all, n) by {
      assert all[|selected|] == s;
    }
    forall k | 0 <= k < n + 1 && !SelectedAt(all, k)
      ensures NothingLeft(queues[k], Earlier(all, k))
    {
      EarlierSame(selected, s, k);
      StillSelected(selected, s, k);
    }
  }

  lemma StillSelected(selected: seq<Selection>, s: Selection, k: nat)
    ensures SelectedAt(selected, k) ==> SelectedAt(selected + [s], k)
  {
    if x :| x in selected && x.iteration == k {
      assert x in selected + [s];
    }
  }

  /** The run on selection `i` gets through all its steps. */
  ghost predicate RunOk(selected: seq<Selection>, i: nat, symcc: (string, nat) -> SymCCResult)
    requires i < |selected|
  {
    var run := symcc(selected[i].path, selected[i].iteration);
    StepsOk(run.testCases, AllMaps(selected[..i], symcc), selected[i].name) && (run.killed ==> HasId(selected[i].name))
  }

  lemma SelectNext(selected: seq<Selection>, s: Selection, symcc: (string, nat) -> SymCCResult)
    requires AllDifferent(selected) && s.path !in Paths(selected)
    ensures AllDifferent(selected + [s]) && Paths(selected + [s]) == Paths(selected) + {s.path}
    ensures AllMaps(selected + [s], symcc) == AllMaps(selected, symcc) + Maps(symcc(s.path, s.iteration).testCases)
  {
    var all := selected + [s];
    assert all[..|selected|] == selected;
    forall p | p in Paths(selected) + {s.path}
      ensures p in Paths(all)
    {
      if p == s.path {
        assert s in all;
      } else {
        var x :| x in selected && x.path == p;
        assert x in all;
      }
    }
  }

  lemma RunsSame(selected: seq<Selection>, s: Selection, symcc: (string, nat) -> SymCCResult, i: nat)
    requires i < |selected|
    ensures RunOk(selected + [s], i, symcc) == RunOk(selected, i, symcc)
  {
    assert (selected + [s])[..i] == selected[..i];
  }

  // ---------- what is filed ----------

  /** Test case `i` goes to the queue: it crashes, or has a bit that none of the
      maps before it has. */
  ghost predicate Queued(ts: seq<NewTest>, known: seq<Map>, i: nat)
    requires i < |ts|
  {
    match ts[i].outcome
    case Success(m) => AddsCoverage(UnionAll(known + Maps(ts[..i])), m)
    case TimedOut => false
    case Crashed => true
  }

  /** Nothing has to be filed under a name that has no ID to offer. */
  ghost predicate StepsOk(ts: seq<NewTest>, known: seq<Map>, name: string)
  {
    HasId(name) || forall i :: 0 <= i < |ts| ==> !Queued(ts, known, i)
  }

  predicate Increasing(at: seq<nat>, n: nat)
  {
    (forall i, j :: 0 <= i < j < |at| ==> at[i] < at[j]) && forall i :: 0 <= i < |at| ==> at[i] < n
  }

  /** `at` are the positions below `n` of the test cases for the queue. */
  ghost predicate QueuedAt(at: seq<nat>, ts: seq<NewTest>, known: seq<Map>, n: nat)
    requires n <= |ts|
  {
    Increasing(at, n) && forall i :: 0 <= i < n ==> (i in at <==> Queued(ts, known, i))
  }

  predicate CrashedAt(at: seq<nat>, ts: seq<NewTest>, n: nat)
    requires n <= |ts|
  {
    Increasing(at, n) && forall i :: 0 <= i < n ==> (i in at <==> ts[i].outcome.Crashed?)
  }

  function Source(parent: string): (s: string)
  {
    if HasId(parent) then parent[3..9] else ""
  }

  /** The directory has what it had before, and the test cases at `at`, in
      order, under the names for the next numbers. */
  predicate FiledInOrder(before: map<string, Contents>, after: map<string, Contents>, id: nat, parent: string,
                         ts: seq<NewTest>, at: seq<nat>)
  {
    && (forall name :: name in before ==> name in after && after[name] == before[name])
    && (forall j :: 0 <= j < |at| ==> FiledAs(before, after, NameFor(id + j, Source(parent)), ts, at[j]))
    && |after| == |before| + |at|
  }

  /** Test case `i` is filed under a new name. */
  predicate FiledAs(before: map<string, Contents>, after: map<string, Contents>, name: string, ts: seq<NewTest>, i: nat)
  {
    i < |ts| && name in after && name !in before && after[name] == ts[i].contents
  }

  class HelperState {
    const currentBitmap: AflMap
    var processedFiles: set<string>
    const queue: TestcaseDir
    const hangs: TestcaseDir
    const crashes: TestcaseDir
    /** Every map merged so far, and how often the result was New. */
    ghost var merged: seq<Map>
    ghost var news: nat

    ghost predicate Valid()
      reads this, currentBitmap, currentBitmap.data, queue, hangs, crashes
    {
      && queue != hangs && queue != crashes && hangs != crashes
      && currentBitmap.Valid() && queue.Valid() && hangs.Valid() && crashes.Valid()
      && currentBitmap.Contents() == UnionAll(merged)
      && news <= Total(currentBitmap.Contents())
    }

    constructor ()
      ensures Valid() && processedFiles == {} && merged == [] && news == 0
      ensures fresh(currentBitmap.data) && fresh(queue) && fresh(hangs) && fresh(crashes)
    {
      currentBitmap := new AflMap();
      queue := new TestcaseDir();
      hangs := new TestcaseDir();
      crashes := new TestcaseDir();
      processedFiles, merged, news := {}, [], 0;
    }

    /** A test case is New exactly when it adds a bit to the union of all maps
        before it. Then, and when it crashes, it joins the queue, unless its
        parent's name has no ID to derive a name from, which is an error. */
    method ProcessNewTestcase(t: NewTest, parent: string) returns (r: Option<TestcaseResult>)
      requires Valid()
      modifies this`merged, this`news, currentBitmap.data, queue, crashes
      ensures Valid() && merged == old(merged) + Maps([t])
      ensures r == Verdict(t.outcome, UnionAll(old(merged)), HasId(parent)) && (HasId(parent) ==> r.Some?)
      ensures news == old(news) + if r == Some(New) then 1 else 0
      ensures queue.files == if r == Some(New) || r == Some(Crash)
        then Filed(old(queue.files), old(queue.currentId), parent, t.contents) else old(queue.files)
      ensures crashes.files == if r == Some(Crash)
        then Filed(old(crashes.files), old(crashes.currentId), parent, t.contents) else old(crashes.files)
    {
      hide UnionAll, Union, AddsCoverage, Total, Filed, HasId, TestcaseDir.Valid;
      MapsOfOne(t);
      if t.outcome.Success? {
        var interesting := MergeCoverage(t.outcome.map');
        if !interesting {
          return Some(Uninteresting);
        }
        var ok := queue.CopyTestcase(t.contents, parent);
        if !ok {
          return None;
        }
        news := news + 1;
        r := Some(New);
      } else if t.outcome.TimedOut? {
        r := Some(Hang);
      } else {
        var ok := crashes.CopyTestcase(t.contents, parent);
        if !ok {
          return None;
        }
        ok := queue.CopyTestcase(t.contents, parent);
        r := Some(Crash);
      }
    }

    method MergeCoverage(m: Map) returns (interesting: bool)
      requires Valid()
      modifies this`merged, currentBitmap.data
      ensures Valid() && merged == old(merged) + [m]
      ensures interesting <==> AddsCoverage(UnionAll(old(merged)), m)
      ensures interesting ==> news < Total(currentBitmap.Contents())
    {
      hide UnionAll, Union, AddsCoverage, Total, TestcaseDir.Valid;
      var testcaseBitmap := new AflMap.Load(m);
      MergedNext(merged, m);
      NewCoverageCounts(currentBitmap.Contents(), m);
      interesting := currentBitmap.Merge(testcaseBitmap);
      merged := merged + [m];
    }

    /** A failed step ends the program and leaves the input unprocessed. If there
        is none, every test case that was New or crashed is in the queue and
        every crashing one also among the crashes, in the order in which they
        were made. */
    method TestInput(path: string, name: string, run: SymCCResult)
      returns (ok: bool, ghost queued: seq<nat>, ghost crashed: seq<nat>)
      requires Valid()
      modifies this`merged, this`news, this`processedFiles, currentBitmap.data, queue, crashes, hangs
      ensures Valid()
      ensures ok <==> StepsOk(run.testCases, old(merged), name) && (run.killed ==> HasId(name))
      ensures processedFiles == if ok then old(processedFiles) + {path} else old(processedFiles)
      ensures ok ==> merged == old(merged) + Maps(run.testCases)
      ensures ok ==> FiledAll(name, run.testCases, old(merged), queued, crashed, old(queue.files), old(queue.currentId),
                              old(crashes.files), old(crashes.currentId))
      ensures !HasId(name) ==> queue.files == old(queue.files) && crashes.files == old(crashes.files)
      ensures hangs.files == if run.killed && ok
        then Filed(old(hangs.files), old(hangs.currentId), name, run.input) else old(hangs.files)
    {
      hide UnionAll, AddsCoverage, Total, Filed, HasId, TestcaseDir.Valid, Verdict, StepsOk, FiledAll;
      ok, queued, crashed := ProcessAll(run.testCases, name);
      if ok && run.killed {
        ok := hangs.CopyTestcase(run.input, name);
      }
      if !ok {
        return;
      }
      processedFiles := processedFiles + {path};
    }

    /** The test cases at `queued` and `crashed` are all that had to be filed,
        and they were. */
    ghost predicate FiledAll(parent: string, ts: seq<NewTest>, known: seq<Map>, queued: seq<nat>, crashed: seq<nat>,
                             queueBefore: map<string, Contents>, queueId: nat,
                             crashesBefore: map<string, Contents>, crashesId: nat)
      reads queue, crashes
    {
      && QueuedAt(queued, ts, known, |ts|) && CrashedAt(crashed, ts, |ts|)
      && FiledInOrder(queueBefore, queue.files, queueId, parent, ts, queued)
      && FiledInOrder(crashesBefore, crashes.files, crashesId, parent, ts, crashed)
    }

    method ProcessAll(testCases: seq<NewTest>, parent: string)
      returns (ok: bool, ghost queued: seq<nat>, ghost crashed: seq<nat>)
      requires Valid()
      modifies this`merged, this`news, currentBitmap.data, queue, crashes
      ensures Valid() && (ok <==> StepsOk(testCases, old(merged), parent))
      ensures ok ==> merged == old(merged) + Maps(testCases)
      ensures ok ==> FiledAll(parent, testCases, old(merged), queued, crashed, old(queue.files), old(queue.currentId),
                              old(crashes.files), old(crashes.currentId))
      ensures !HasId(parent) ==> queue.files == old(queue.files) && crashes.files == old(crashes.files)
    {
      hide UnionAll, AddsCoverage, Total, HasId, Valid, Queued, FiledFirst;
      queued, crashed := [], [];
      NothingFiled(testCases, merged);
      StartFiling(testCases, merged, parent);
      for i := 0 to |testCases|
        invariant Valid() && merged == old(merged) + Maps(testCases[..i])
        invariant HasId(parent) || forall j :: 0 <= j < i ==> !Queued(testCases, old(merged), j)
        invariant !HasId(parent) ==> queue.files == old(queue.files) && crashes.files == old(crashes.files)
        invariant FiledFirst(i, parent, testCases, old(merged), queued, crashed, old(queue.files), old(queue.currentId),
                             old(crashes.files), old(crashes.currentId))
      {
        ok, queued, crashed := ProcessNext(i, parent, testCases, old(merged), queued, crashed, old(queue.files),
                                           old(queue.currentId), old(crashes.files), old(crashes.currentId));
        if !ok {
          return;
        }
      }
      assert testCases[..|testCases|] == testCases;
      AllFiled(testCases, old(merged), parent, queued, crashed, old(queue.files), old(queue.currentId),
               old(crashes.files), old(crashes.currentId));
      ok := true;
    }

    /** What has been filed after the first `n` test cases. */
    ghost predicate FiledFirst(n: nat, parent: string, ts: seq<NewTest>, known: seq<Map>, queued: seq<nat>,
                               crashed: seq<nat>, queueBefore: map<string, Contents>, queueId: nat,
                               crashesBefore: map<string, Contents>, crashesId: nat)
      reads queue, crashes
    {
      && n <= |ts| && |queueBefore| == queueId && |crashesBefore| == crashesId
      && QueuedAt(queued, ts, known, n) && CrashedAt(crashed, ts, n)
      && FiledInOrder(queueBefore, queue.files, queueId, parent, ts, queued)
      && FiledInOrder(crashesBefore, crashes.files, crashesId, parent, ts, crashed)
    }

    lemma StartFiling(ts: seq<NewTest>, known: seq<Map>, parent: string)
      requires Valid()
      ensures FiledFirst(0, parent, ts, known, [], [], queue.files, queue.currentId, crashes.files, crashes.currentId)
    {
      hide FiledInOrder, QueuedAt, CrashedAt;
      NothingFiled(ts, known);
      FiledNone(queue.files, queue.currentId, parent, ts);
      FiledNone(crashes.files, crashes.currentId, parent, ts);
      Directories();
    }

    lemma AllFiled(ts: seq<NewTest>, known: seq<Map>, parent: string, queued: seq<nat>, crashed: seq<nat>,
                   queueBefore: map<string, Contents>, queueId: nat, crashesBefore: map<string, Contents>,
                   crashesId: nat)
      requires FiledFirst(|ts|, parent, ts, known, queued, crashed, queueBefore, queueId, crashesBefore, crashesId)
      ensures FiledAll(parent, ts, known, queued, crashed, queueBefore, queueId, crashesBefore, crashesId)
    {
    }

    method ProcessNext(i: nat, parent: string, ts: seq<NewTest>, ghost known: seq<Map>, ghost queued: seq<nat>,
                       ghost crashed: seq<nat>, ghost queueBefore: map<string, Contents>, ghost queueId: nat,
                       ghost crashesBefore: map<string, Contents>, ghost crashesId: nat)
      returns (ok: bool, ghost queued': seq<nat>, ghost crashed': seq<nat>)
      requires Valid() && i < |ts| && merged == known + Maps(ts[..i])
      requires FiledFirst(i, parent, ts, known, queued, crashed, queueBefore, queueId, crashesBefore, crashesId)
      modifies this`merged, this`news, currentBitmap.data, queue, crashes
      ensures Valid() && (ok <==> HasId(parent) || !Queued(ts, known, i))
      ensures ok ==> merged == known + Maps(ts[..i + 1])
      ensures ok ==>
        FiledFirst(i + 1, parent, ts, known, queued', crashed', queueBefore, queueId, crashesBefore, crashesId)
      ensures !HasId(parent) ==> queue.files == old(queue.files) && crashes.files == old(crashes.files)
    {
      hide UnionAll, AddsCoverage, Total, Filed, HasId, Valid, Verdict, QueuedAt, CrashedAt, FiledInOrder, Queued,
           Given;
      ghost var queueNow, crashesNow := queue.files, crashes.files;
      Directories();
      var r := ProcessNewTestcase(ts[i], parent);
      VerdictQueued(ts, known, i, HasId(parent));
      NotFiled(queueNow, old(queue.currentId), parent, ts[i].contents);
      NotFiled(crashesNow, old(crashes.currentId), parent, ts[i].contents);
      queued', crashed' := queued, crashed;
      if r.None? {
        return false, queued, crashed;
      }
      ok := true;
      assert queued + [] == queued && crashed + [] == crashed;
      MapsNext(ts, i);
      QueuedNext(queued, ts, known, i);
      CrashedNext(crashed, ts, i);
      if r == Some(New) || r == Some(Crash) {
        FiledNext(queueBefore, queueNow, queue.files, queueId, parent, ts, queued, i);
      }
      if r == Some(Crash) {
        FiledNext(crashesBefore, crashesNow, crashes.files, crashesId, parent, ts, crashed, i);
      }
      queued' := queued + if Queued(ts, known, i) then [i] else [];
      crashed' := crashed + if ts[i].outcome.Crashed? then [i] else [];
    }

    /** Names that a directory has not given out yet are free. */
    lemma Directories()
      requires Valid()
      ensures queue.Valid() && crashes.Valid() && |queue.files| == queue.currentId
        && |crashes.files| == crashes.currentId
    {
    }

    /** The first iterations of the main loop. Iteration `k` sees the AFL queue
        as `queues[k]`; `symcc` tells what a run on a file does then. In each
        iteration a best file that was not selected before is selected and run,
        if there is one. The map is the union of the maps of all runs so far,
        and at most 8 * 65536 test cases were ever New. The program ends early
        exactly when a run fails, and that run's file is not processed. */
    method MainLoop(queues: seq<seq<Entry>>, symcc: (string, nat) -> SymCCResult)
      returns (selected: seq<Selection>, ok: bool)
      requires Valid() && processedFiles == {} && merged == []
      modifies this`merged, this`news, this`processedFiles, currentBitmap.data, queue, crashes, hangs
      ensures Valid() && news <= 8 * MAP_SIZE
      ensures AllDifferent(selected) && (!ok ==> selected != [])
      ensures var n := if ok then |queues| else selected[|selected| - 1].iteration + 1;
        n <= |queues| && Chosen(selected, queues, n)
      ensures forall i :: 0 <= i < |selected| ==> (RunOk(selected, i, symcc) <==> ok || i < |selected| - 1)
      ensures processedFiles == Paths(if ok then selected else selected[..|selected| - 1])
      ensures ok ==> currentBitmap.Contents() == UnionAll(AllMaps(selected, symcc))
    {
      hide UnionAll, AddsCoverage, Total, Valid, AllDifferent, Paths, Chosen, RunOk, Best;
      selected, ok := [], true;
      NothingChosen(queues);
      for k := 0 to |queues|
        invariant ok && Valid() && processedFiles == Paths(selected) && merged == AllMaps(selected, symcc)
        invariant AllDifferent(selected) && Chosen(selected, queues, k)
        invariant forall i :: 0 <= i < |selected| ==> RunOk(selected, i, symcc)
      {
        var best := SelectIn(queues, k, selected);
        if best.Some? {
          ghost var before := selected;
          selected := selected + [best.value];
          ok := RunNext(best.value, symcc, before);
          if !ok {
            assert selected[..|selected| - 1] == before;
            break;
          }
        }
      }
      Invariants();
    }

    /** What iteration `k` selects, if anything. */
    method SelectIn(queues: seq<seq<Entry>>, k: nat, ghost selected: seq<Selection>) returns (best: Option<Selection>)
      requires k < |queues| && Chosen(selected, queues, k) && processedFiles == Paths(selected)
      ensures best.None? ==> Chosen(selected, queues, k + 1)
      ensures best.Some? ==>
        (best.value.iteration == k && best.value.path !in Paths(selected)
         && Chosen(selected + [best.value], queues, k + 1))
    {
      hide ScoreLe, ScoreOf, Paths, Chosen, Best, NothingLeft;
      var e := BestNewTestcase(queues[k], processedFiles);
      BestMeans(queues[k], processedFiles, e, k);
      if e.None? {
        ChosenNone(selected, queues, k);
        return None;
      }
      ChosenNext(selected, queues, Selection(e.value.path, e.value.name, k));
      best := Some(Selection(e.value.path, e.value.name, k));
    }

    /** The run on a selection, after those on `before`. */
    method RunNext(s: Selection, symcc: (string, nat) -> SymCCResult, ghost before: seq<Selection>) returns (ok: bool)
      requires Valid() && processedFiles == Paths(before) && merged == AllMaps(before, symcc)
      requires AllDifferent(before) && s.path !in Paths(before)
      requires forall i :: 0 <= i < |before| ==> RunOk(before, i, symcc)
      modifies this`merged, this`news, this`processedFiles, currentBitmap.data, queue, crashes, hangs
      ensures Valid() && AllDifferent(before + [s])
      ensures ok ==> processedFiles == Paths(before + [s]) && merged == AllMaps(before + [s], symcc)
      ensures !ok ==> processedFiles == Paths(before)
      ensures forall i :: 0 <= i < |before| ==> RunOk(before + [s], i, symcc)
      ensures RunOk(before + [s], |before|, symcc) <==> ok
    {
      hide Valid, AllDifferent, Paths, RunOk, StepsOk, HasId, AllMaps;
      SelectNext(before, s, symcc);
      RunsNext(before, s, symcc);
      ok := RunSelected(s, symcc);
    }

    method RunSelected(s: Selection, symcc: (string, nat) -> SymCCResult) returns (ok: bool)
      requires Valid()
      modifies this`merged, this`news, this`processedFiles, currentBitmap.data, queue, crashes, hangs
      ensures Valid()
      ensures var run := symcc(s.path, s.iteration);
        (ok <==> StepsOk(run.testCases, old(merged), s.name) && (run.killed ==> HasId(s.name)))
        && (ok ==> merged == old(merged) + Maps(run.testCases))
      ensures processedFiles == if ok then old(processedFiles) + {s.path} else old(processedFiles)
    {
      hide Valid, StepsOk, HasId, FiledAll;
      ghost var queued, crashed;
      ok, queued, crashed := TestInput(s.path, s.name, symcc(s.path, s.iteration));
    }

    lemma Invariants()
      requires Valid()
      ensures currentBitmap.Valid() && currentBitmap.Contents() == UnionAll(merged) && news <= 8 * MAP_SIZE
    {
      TotalBound(currentBitmap.Contents());
    }
  }

  /** How a test case is classified, given the union of all maps before it. */
  ghost function Verdict(outcome: Showmap, known: Map, hasId: bool): (r: Option<TestcaseResult>)
  {
    match outcome
    case Success(m) => if !AddsCoverage(known, m) then Some(Uninteresting) else if hasId then Some(New) else None
    case TimedOut => Some(Hang)
    case Crashed => if hasId then Some(Crash) else None
  }

  /** A step fails exactly if it has to file a test case but has no ID; what is
      filed is new or a crash, the rest hangs or is uninteresting. */
  lemma VerdictQueued(ts: seq<NewTest>, known: seq<Map>, i: nat, hasId: bool)
    requires i < |ts|
    ensures var r := Verdict(ts[i].outcome, UnionAll(known + Maps(ts[..i])), hasId);
      (r.None? <==> !hasId && Queued(ts, known, i))
      && (r.Some? ==> (Queued(ts, known, i) <==> r == Some(New) || r == Some(Crash))
                      && (Queued(ts, known, i) ==> hasId) && (ts[i].outcome.Crashed? <==> r == Some(Crash)))
      && (r == Some(Hang) <==> ts[i].outcome.TimedOut?)
      && (r == Some(Uninteresting) <==> ts[i].outcome.Success? && !Queued(ts, known, i))
  {
    hide UnionAll, AddsCoverage;
  }

  lemma NothingFiled(ts: seq<NewTest>, known: seq<Map>)
    ensures QueuedAt([], ts, known, 0) && CrashedAt([], ts, 0)
    ensures known + Maps(ts[..0]) == known
  {
  }

  lemma FiledNone(files: map<string, Contents>, id: nat, parent: string, ts: seq<NewTest>)
    ensures FiledInOrder(files, files, id, parent, ts, [])
  {
  }

  lemma QueuedNext(at: seq<nat>, ts: seq<NewTest>, known: seq<Map>, i: nat)
    requires i < |ts| && QueuedAt(at, ts, known, i)
    ensures QueuedAt(at + if Queued(ts, known, i) then [i] else [], ts, known, i + 1)
  {
    hide Queued;
    assert forall x :: x in at + [i] <==> x in at || x == i;
  }

  lemma CrashedNext(at: seq<nat>, ts: seq<NewTest>, i: nat)
    requires i < |ts| && CrashedAt(at, ts, i)
    ensures CrashedAt(at + if ts[i].outcome.Crashed? then [i] else [], ts, i + 1)
  {
    assert forall x :: x in at + [i] <==> x in at || x == i;
  }

  /** One file more. */
  lemma FiledNext(before: map<string, Contents>, now: map<string, Contents>, after: map<string, Contents>, id: nat,
                  parent: string, ts: seq<NewTest>, at: seq<nat>, i: nat)
    requires FiledInOrder(before, now, id, parent, ts, at) && i < |ts| && HasId(parent) && |before| == id
    requires forall name :: name in now ==> Given(name, |now|)
    requires after == Filed(now, |now|, parent, ts[i].contents)
    ensures FiledInOrder(before, after, id, parent, ts, at + [i])
  {
    hide NameFor, Given;
    NextNameIsNew(|now|, parent[3..9]);
    NewName(before, now, after, id, parent, ts, at, i, NameFor(id + |at|, Source(parent)));
  }

  lemma NotFiled(files: map<string, Contents>, id: nat, parent: string, contents: Contents)
    ensures !HasId(parent) ==> Filed(files, id, parent, contents) == files
  {
  }

  lemma NewName(before: map<string, Contents>, now: map<string, Contents>, after: map<string, Contents>, id: nat,
                parent: string, ts: seq<NewTest>, at: seq<nat>, i: nat, name: string)
    requires FiledInOrder(before, now, id, parent, ts, at) && i < |ts|
    requires name == NameFor(id + |at|, Source(parent)) && name !in now && after == now[name := ts[i].contents]
    ensures FiledInOrder(before, after, id, parent, ts, at + [i])
  {
    hide NameFor, Source;
    var at' := at + [i];
    assert |after| == |now| + 1;
    forall j | 0 <= j < |at'|
      ensures FiledAs(before, after, NameFor(id + j, Source(parent)), ts, at'[j])
    {
      if j < |at| {
        assert FiledAs(before, now, NameFor(id + j, Source(parent)), ts, at[j]);
      }
    }
  }

  lemma NothingChosen(queues: seq<seq<Entry>>)
    ensures Paths([]) == {} && AllDifferent([]) && Chosen([], queues, 0)
  {
  }

  lemma BestMeans(queue: seq<Entry>, seen: set<string>, best: Option<Entry>, k: nat)
    requires best.None? ==> forall i :: 0 <= i < |queue| ==> !Candidate(queue[i], seen)
    requires best.Some? ==> best.value in queue && Candidate(best.value, seen)
    requires best.Some? ==>
      forall i :: 0 <= i < |queue| && Candidate(queue[i], seen) ==> ScoreLe(ScoreOf(queue[i]), ScoreOf(best.value))
    ensures best.None? ==> NothingLeft(queue, seen)
    ensures best.Some? ==> best.value.path !in seen && Best(Selection(best.value.path, best.value.name, k), queue, seen)
  {
    hide ScoreLe, ScoreOf;
    if best.Some? {
      assert IsBest(Selection(best.value.path, best.value.name, k), best.value, queue, seen);
    }
  }

  lemma RunsNext(selected: seq<Selection>, s: Selection, symcc: (string, nat) -> SymCCResult)
    ensures forall i :: 0 <= i < |selected| ==> RunOk(selected + [s], i, symcc) == RunOk(selected, i, symcc)
    ensures var run := symcc(s.path, s.iteration);
      RunOk(selected + [s], |selected|, symcc)
      <==> StepsOk(run.testCases, AllMaps(selected, symcc), s.name) && (run.killed ==> HasId(s.name))
  {
    hide StepsOk, HasId;
    forall i | 0 <= i < |selected|
      ensures RunOk(selected + [s], i, symcc) == RunOk(selected, i, symcc)
    {
      RunsSame(selected, s, symcc, i);
    }
    assert (selected + [s])[..|selected|] == selected;
  }

  lemma MapsNext(ts: seq<NewTest>, i: nat)
    requires i < |ts|
    ensures Maps(ts[..i + 1]) == Maps(ts[..i]) + Maps([ts[i]])
  {
    MapsOfOne(ts[i]);
    assert ts[..i + 1][..i] == ts[..i];
  }

  lemma MapsOfOne(t: NewTest)
    ensures Maps([t]) == if t.outcome.Success? then [t.outcome.map'] else []
  {
    assert [t][..0] == [];
  }

  lemma MergedNext(ms: seq<Map>, m: Map)
    ensures UnionAll(ms + [m]) == Union(UnionAll(ms), m)
  {
    assert (ms + [m])[..|ms|] == ms;
  }
}
