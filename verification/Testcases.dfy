/** Test cases of the fuzzing helper: their scores, which of them is analysed
    next, and how new ones are named. */
module Testcases {
  import opened Expressions

  // ---------- scores ----------

  /** Criteria in decreasing importance; smaller files score higher. */
  datatype Score = Score(newCoverage: bool, derivedFromSeed: bool, fileSize: int, baseName: string)

  /** A directory entry; `size` is absent if the file has disappeared. */
  datatype Entry = Entry(path: string, name: string, isFile: bool, size: Option<nat>)

  predicate NameLe(a: string, b: string)
  {
    a == [] || (b != [] && (a[0] < b[0] || (a[0] == b[0] && NameLe(a[1..], b[1..]))))
  }

  predicate ScoreLe(a: Score, b: Score)
  {
    if a.newCoverage != b.newCoverage then b.newCoverage
    else if a.derivedFromSeed != b.derivedFromSeed then b.derivedFromSeed
    else if a.fileSize != b.fileSize then a.fileSize < b.fileSize
    else NameLe(a.baseName, b.baseName)
  }

  lemma {:induction false} NameTotal(a: string, b: string)
    ensures NameLe(a, b) || NameLe(b, a)
    ensures NameLe(a, b) && NameLe(b, a) ==> a == b
  {
    if a != [] && b != [] {
      NameTotal(a[1..], b[1..]);
      assert a == [a[0]] + a[1..] && b == [b[0]] + b[1..];
    }
  }

  lemma {:induction false} NameTransitive(a: string, b: string, c: string)
    requires NameLe(a, b) && NameLe(b, c)
    ensures NameLe(a, c)
  {
    if a != [] && a[0] == b[0] == c[0] {
      NameTransitive(a[1..], b[1..], c[1..]);
    }
  }

  /** Scores are totally ordered. */
  lemma ScoreOrder(a: Score, b: Score, c: Score)
    ensures ScoreLe(a, b) || ScoreLe(b, a)
    ensures ScoreLe(a, b) && ScoreLe(b, a) ==> a == b
    ensures ScoreLe(a, b) && ScoreLe(b, c) ==> ScoreLe(a, c)
  {
    NameTotal(a.baseName, b.baseName);
    if NameLe(a.baseName, b.baseName) && NameLe(b.baseName, c.baseName) {
      NameTransitive(a.baseName, b.baseName, c.baseName);
    }
  }

  predicate EndsWith(s: string, t: string)
  {
    |t| <= |s| && s[|s| - |t|..] == t
  }

  predicate Contains(s: string, t: string)
  {
    exists i :: 0 <= i <= |s| && t <= s[i..]
  }

  const MIN_I128 := -0x8000_0000_0000_0000_0000_0000_0000_0000

  function ScoreOf(e: Entry): (r: Score)
  {
    if e.size.None? then Score(false, false, MIN_I128, "")
    else Score(EndsWith(e.name, "+cov"), Contains(e.name, "orig:"), 0 - e.size.value, e.name)
  }

  /** The score of `a` is higher. */
  predicate Beats(a: Entry, b: Entry)
  {
    !ScoreLe(ScoreOf(a), ScoreOf(b))
  }

  /** Names are compared like words in a dictionary. */
  lemma {:induction false} NameOrder(a: string, b: string)
    ensures NameLe(a, b) <==> a <= b || exists k :: FirstDifference(a, b, k)
  {
    if a != [] && b != [] && a[0] == b[0] {
      NameOrder(a[1..], b[1..]);
      if k :| FirstDifference(a[1..], b[1..], k) {
        assert a[..k + 1] == [a[0]] + a[1..][..k] && b[..k + 1] == [b[0]] + b[1..][..k];
        assert FirstDifference(a, b, k + 1);
      }
      if k :| FirstDifference(a, b, k) {
        assert a[1..][..k - 1] == a[..k][1..] && b[1..][..k - 1] == b[..k][1..];
        assert FirstDifference(a[1..], b[1..], k - 1);
      }
    } else if a != [] && b != [] && a[0] < b[0] {
      assert FirstDifference(a, b, 0);
    }
  }

  /** The names differ first at position `k`, where `a` is smaller. */
  predicate FirstDifference(a: string, b: string, k: int)
  {
    0 <= k < |a| && k < |b| && a[..k] == b[..k] && a[k] < b[k]
  }

  predicate IsNew(name: string)
  {
    exists i :: 0 <= i <= |name| && name == name[..i] + "+cov"
  }

  predicate IsFromSeed(name: string)
  {
    exists i, j :: 0 <= i <= j <= |name| && name == name[..i] + "orig:" + name[j..]
  }

  lemma NameMarks(name: string)
    ensures EndsWith(name, "+cov") <==> IsNew(name)
    ensures Contains(name, "orig:") <==> IsFromSeed(name)
  {
    hide EndsWith, Contains, IsNew, IsFromSeed;
    NewMark(name);
    SeedMark(name);
  }

  lemma NewMark(name: string)
    ensures EndsWith(name, "+cov") <==> IsNew(name)
  {
    if EndsWith(name, "+cov") {
      var i := |name| - 4;
      assert name == name[..i] + "+cov";
    }
    if i :| 0 <= i <= |name| && name == name[..i] + "+cov" {
      assert name[i..] == "+cov";
    }
  }

  lemma SeedMark(name: string)
    ensures Contains(name, "orig:") <==> IsFromSeed(name)
  {
    hide IsFromSeed;
    if i :| 0 <= i <= |name| && "orig:" <= name[i..] {
      SplitAt(name, i);
    }
    if IsFromSeed(name) {
      SeedFound(name);
    }
  }

  lemma SeedFound(name: string)
    requires IsFromSeed(name)
    ensures Contains(name, "orig:")
  {
    var i, j :| 0 <= i <= j <= |name| && name == name[..i] + "orig:" + name[j..];
    MarkAt(name, name[..i], name[j..], i);
  }

  lemma MarkAt(name: string, front: string, rest: string, i: nat)
    requires name == front + "orig:" + rest && i == |front|
    ensures Contains(name, "orig:")
  {
    assert name[i..] == "orig:" + rest;
    assert "orig:" <= name[i..];
  }

  lemma SplitAt(name: string, i: nat)
    requires i <= |name| && "orig:" <= name[i..]
    ensures IsFromSeed(name)
  {
    assert name[i..i + 5] == name[i..][..5] == "orig:";
    assert name == name[..i] + name[i..i + 5] + name[i + 5..];
  }

  /** New coverage decides first, then derivation from a seed, then the smaller
      size, then the name. A file that has disappeared loses to all others. */
  lemma ScoreDecides(a: Entry, b: Entry)
    requires a.size.Some? && a.size.value < 0x1_0000_0000_0000_0000
    ensures b.size.None? ==> Beats(a, b)
    ensures b.size.Some? ==>
      if IsNew(a.name) != IsNew(b.name) then Beats(a, b) == IsNew(a.name)
      else if IsFromSeed(a.name) != IsFromSeed(b.name) then Beats(a, b) == IsFromSeed(a.name)
      else if a.size.value != b.size.value then Beats(a, b) == (a.size.value < b.size.value)
      else Beats(a, b) == NameLess(b.name, a.name)
  {
    hide EndsWith, Contains, IsNew, IsFromSeed, NameLe, NameLess;
    NameMarks(a.name);
    NameMarks(b.name);
    NotAfter(a.name, b.name);
  }

  /** `a` is a proper prefix of `b`, or smaller where they first differ. */
  ghost predicate NameLess(a: string, b: string)
  {
    a < b || exists k :: FirstDifference(a, b, k)
  }

  lemma NotAfter(a: string, b: string)
    ensures !NameLe(a, b) <==> NameLess(b, a)
  {
    NameOrder(b, a);
    NameTotal(a, b);
    NotBelowItself(a);
  }

  lemma NotBelowItself(a: string)
    ensures !NameLess(a, a)
  {
  }

  predicate Candidate(e: Entry, seen: set<string>)
  {
    e.isFile && e.path !in seen
  }

  /** The last of the best candidates, or nothing if there is no candidate. */
  method BestNewTestcase(entries: seq<Entry>, seen: set<string>) returns (best: Option<Entry>)
    ensures best.None? ==> forall i :: 0 <= i < |entries| ==> !Candidate(entries[i], seen)
    ensures best.Some? ==> best.value in entries && Candidate(best.value, seen)
    ensures best.Some? ==>
      forall i :: 0 <= i < |entries| && Candidate(entries[i], seen) ==>
        ScoreLe(ScoreOf(entries[i]), ScoreOf(best.value))
  {
    best := None;
    for i := 0 to |entries|
      invariant best.None? ==> forall j :: 0 <= j < i ==> !Candidate(entries[j], seen)
      invariant best.Some? ==> best.value in entries && Candidate(best.value, seen)
      invariant best.Some? ==>
        forall j :: 0 <= j < i && Candidate(entries[j], seen) ==> ScoreLe(ScoreOf(entries[j]), ScoreOf(best.value))
    {
      var e := entries[i];
      if Candidate(e, seen) {
        if best.None? || ScoreLe(ScoreOf(best.value), ScoreOf(e)) {
          OrderAll(entries, seen, i, best, e);
          best := Some(e);
        } else {
          ScoreOrder(ScoreOf(best.value), ScoreOf(e), ScoreOf(e));
        }
      }
    }
  }

  lemma OrderAll(entries: seq<Entry>, seen: set<string>, n: nat, best: Option<Entry>, e: Entry)
    requires n <= |entries|
    requires best.None? ==> forall j :: 0 <= j < n ==> !Candidate(entries[j], seen)
    requires best.Some? ==> ScoreLe(ScoreOf(best.value), ScoreOf(e))
    requires best.Some? ==>
      forall j :: 0 <= j < n && Candidate(entries[j], seen) ==> ScoreLe(ScoreOf(entries[j]), ScoreOf(best.value))
    ensures ScoreLe(ScoreOf(e), ScoreOf(e))
    ensures forall j :: 0 <= j < n && Candidate(entries[j], seen) ==> ScoreLe(ScoreOf(entries[j]), ScoreOf(e))
  {
    ScoreOrder(ScoreOf(e), ScoreOf(e), ScoreOf(e));
    forall j | 0 <= j < n && Candidate(entries[j], seen)
      ensures ScoreLe(ScoreOf(entries[j]), ScoreOf(e))
    {
      ScoreOrder(ScoreOf(entries[j]), ScoreOf(best.value), ScoreOf(e));
    }
  }

  // ---------- names ----------

  function Digit(d: nat): (c: char)
    requires d < 10
  {
    ('0' as int + d) as char
  }

  function Decimal(n: nat): (s: string)
    ensures s != []
  {
    if n < 10 then [Digit(n)] else Decimal(n / 10) + [Digit(n % 10)]
  }

  /** At least six digits. */
  function Padded(n: nat): (s: string)
  {
    var s := Decimal(n);
    if |s| < 6 then seq(6 - |s|, _ => '0') + s else s
  }

  function Number(s: string): (n: int)
  {
    if s == [] then 0 else 10 * Number(s[..|s| - 1]) + (s[|s| - 1] as int - '0' as int)
  }

  lemma {:induction false} DecimalNumber(n: nat)
    ensures Number(Decimal(n)) == n
  {
    if n >= 10 {
      DecimalNumber(n / 10);
      assert Decimal(n)[..|Decimal(n)| - 1] == Decimal(n / 10);
    }
  }

  lemma {:induction false} LeadingZeros(k: nat, s: string)
    ensures Number(seq(k, _ => '0') + s) == Number(s)
  {
    var z := seq(k, _ => '0');
    if s == [] {
      assert z + s == z;
      AllZeros(k);
    } else {
      var n := |s| - 1;
      LeadingZeros(k, s[..n]);
      assert (z + s)[..|z + s| - 1] == z + s[..n];
    }
  }

  lemma {:induction false} AllZeros(k: nat)
    ensures Number(seq(k, _ => '0')) == 0
  {
    if k > 0 {
      AllZeros(k - 1);
      assert seq(k, _ => '0')[..k - 1] == seq(k - 1, _ => '0');
    }
  }

  lemma PaddedNumber(n: nat)
    ensures Number(Padded(n)) == n
  {
    DecimalNumber(n);
    LeadingZeros(if |Decimal(n)| < 6 then 6 - |Decimal(n)| else 0, Decimal(n));
    assert seq(0, _ => '0') + Decimal(n) == Decimal(n);
  }

  function NameFor(id: nat, origId: string): (s: string)
  {
    "id:" + Padded(id) + ",src:" + origId
  }

  /** Names with different numbers are different. */
  lemma NamesDiffer(i: nat, a: string, j: nat, b: string)
    requires |a| == |b| && NameFor(i, a) == NameFor(j, b)
    ensures i == j && a == b
  {
    var s := NameFor(i, a);
    assert s[3..|s| - |a| - 5] == Padded(i);
    assert s[3..|s| - |b| - 5] == Padded(j);
    PaddedNumber(i);
    PaddedNumber(j);
    assert s[|s| - |a|..] == a && s[|s| - |b|..] == b;
  }

  /** At least six digits, and six if the number has no more. */
  lemma PaddedShape(n: nat)
    ensures |Padded(n)| >= 6 && (|Padded(n)| == 6 <==> n < 1_000_000)
    ensures forall i :: 0 <= i < |Padded(n)| ==> '0' <= Padded(n)[i] <= '9'
  {
    DecimalShape(n, 6);
  }

  lemma {:induction false} DecimalShape(n: nat, k: nat)
    requires 1 <= k
    ensures forall i :: 0 <= i < |Decimal(n)| ==> '0' <= Decimal(n)[i] <= '9'
    ensures |Decimal(n)| <= k <==> n < Pow10(k)
  {
    hide Digit;
    DigitRange(n % 10);
    if n >= 10 {
      DecimalShape(n / 10, if k > 1 then k - 1 else 1);
    } else {
      Pow10Grows(k);
      DigitRange(n);
    }
  }

  function Pow10(k: nat): (p: nat)
  {
    if k == 0 then 1 else 10 * Pow10(k - 1)
  }

  lemma {:induction false} Pow10Grows(k: nat)
    requires k >= 1
    ensures Pow10(k) >= 10
  {
    if k > 1 {
      Pow10Grows(k - 1);
    }
  }

  lemma DigitRange(d: nat)
    requires d < 10
    ensures '0' <= Digit(d) <= '9'
  {
  }

  /** A copy can be a parent in its turn. The source that a copy of it names is
      its number exactly while six digits are enough. */
  lemma CopyAsParent(id: nat, src: string)
    ensures HasId(NameFor(id, src))
    ensures NameFor(id, src)[3..9] == Padded(id) <==> id < 1_000_000
  {
    var name := NameFor(id, src);
    PaddedShape(id);
    assert name == "id:" + (Padded(id) + (",src:" + src));
    assert name[3..9] == Padded(id)[..6];
  }

  /** The thirteenth copy, of test case 3. */
  lemma NameExample()
    ensures NameFor(12, "000003") == "id:000012,src:000003"
  {
    assert Decimal(1) == "1" && Decimal(12) == "12";
    assert seq(4, _ => '0') == "0000";
  }

  predicate HasId(name: string)
  {
    "id:" <= name && |name| >= 9
  }

  /** A directory's files after a copy, which is named after its parent. */
  function Filed(files: map<string, seq<nat>>, id: nat, parent: string, testcase: seq<nat>): (r: map<string, seq<nat>>)
  {
    if HasId(parent) then files[NameFor(id, parent[3..9]) := testcase] else files
  }

  /** One of the names for the first `n` numbers. */
  ghost predicate Given(name: string, n: nat)
  {
    exists id: nat, src: string :: id < n && |src| == 6 && name == NameFor(id, src)
  }

  lemma NextNameIsNew(n: nat, src: string)
    requires |src| == 6
    ensures !Given(NameFor(n, src), n)
    ensures Given(NameFor(n, src), n + 1)
  {
    hide NameFor;
    if Given(NameFor(n, src), n) {
      var id: nat, src': string :| id < n && |src'| == 6 && NameFor(n, src) == NameFor(id, src');
      NamesDiffer(id, src', n, src);
      assert false;
    }
  }

  class TestcaseDir {
    var files: map<string, seq<nat>>
    var currentId: nat

    /** Every file has one of the names given out so far. */
    ghost predicate Valid()
      reads this
    {
      |files| == currentId && forall name :: name in files ==> Given(name, currentId)
    }

    constructor ()
      ensures Valid() && files == map[] && currentId == 0
    {
      files, currentId := map[], 0;
    }

    /** The copy gets a name of its own, so it never replaces a file; without
        an ID in the parent's name nothing is copied. */
    method CopyTestcase(testcase: seq<nat>, parent: string) returns (ok: bool)
      requires Valid()
      modifies this
      ensures Valid() && ok == HasId(parent)
      ensures !ok ==> files == old(files)
      ensures files == Filed(old(files), old(currentId), parent, testcase) && old(files.Keys) <= files.Keys
      ensures currentId == old(currentId) + if ok then 1 else 0
      ensures |files| == |old(files)| + if ok then 1 else 0
    {
      hide NameFor;
      if !("id:" <= parent) || |parent| < 9 {
        return false;
      }
      var newName := NameFor(currentId, parent[3..9]);
      NextNameIsNew(currentId, parent[3..9]);
      files := files[newName := testcase];
      currentId := currentId + 1;
      ok := true;
    }
  }
}
