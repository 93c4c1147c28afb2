/** The simple backend's table of input variables. A variable is known by the
    number in its name; the number should be the offset of its byte. */
module InputVariables {
  import opened Expressions

  /** A variable's number, or null. */
  type Variable = Option<nat>

  /** The table after asking for `offset`. */
  function Asked(table: seq<Variable>, offset: nat): (r: seq<Variable>)
    ensures |r| == if offset < |table| then |table| else offset + 1
  {
    if offset < |table| then table
    else table + seq(offset - |table|, _ => None) + [Some(|table|)]
  }

  function Answer(table: seq<Variable>, offset: nat): (v: Variable)
  {
    if offset < |table| then table[offset] else Some(|table|)
  }

  /** The table after a history of requests. */
  function Table(requests: seq<nat>): (t: seq<Variable>)
  {
    if requests == [] then [] else Asked(Table(requests[..|requests| - 1]), requests[|requests| - 1])
  }

  /** What request `i` of the history is answered. */
  function AnswerAt(requests: seq<nat>, i: nat): (v: Variable)
    requires i < |requests|
  {
    Answer(Table(requests[..i]), requests[i])
  }

  class InputTable {
    var stdinBytes: seq<Variable>
    ghost var requests: seq<nat>

    ghost predicate Valid()
      reads this
    {
      stdinBytes == Table(requests)
    }

    constructor ()
      ensures Valid() && requests == []
    {
      stdinBytes, requests := [], [];
    }

    method GetInputByte(offset: nat) returns (v: Variable)
      requires Valid()
      modifies this
      ensures Valid() && requests == old(requests) + [offset] && v == AnswerAt(requests, |requests| - 1)
    {
      requests := requests + [offset];
      assert requests[..|requests| - 1] == old(requests);
      if offset < |stdinBytes| {
        return stdinBytes[offset];
      }
      v := Some(|stdinBytes|);
      stdinBytes := stdinBytes + seq(offset - |stdinBytes|, _ => None);
      stdinBytes := stdinBytes + [v];
    }
  }

  /** Entries never change, so asking again gives the same variable. */
  lemma {:induction false} TableGrows(requests: seq<nat>, i: nat)
    requires i <= |requests|
    ensures Table(requests[..i]) <= Table(requests)
    decreases |requests| - i
  {
    if i < |requests| {
      var next := requests[..i + 1];
      assert next[..i] == requests[..i];
      assert Table(next) == Asked(Table(requests[..i]), requests[i]);
      TableGrows(requests, i + 1);
    } else {
      assert requests[..i] == requests;
    }
  }

  lemma AnswerStays(requests: seq<nat>, i: nat)
    requires i < |requests|
    ensures requests[i] < |Table(requests)| && Table(requests)[requests[i]] == AnswerAt(requests, i)
  {
    var next := requests[..i + 1];
    assert next[..i] == requests[..i];
    assert Table(next) == Asked(Table(requests[..i]), requests[i]);
    TableGrows(requests, i + 1);
  }

  /** Reading a position again gives the same symbolic byte. */
  lemma SameOffsetSameVariable(requests: seq<nat>, i: nat, j: nat)
    requires i < |requests| && j < |requests| && requests[i] == requests[j]
    ensures AnswerAt(requests, i) == AnswerAt(requests, j)
  {
    AnswerStays(requests, i);
    AnswerStays(requests, j);
  }

  /** Variables have numbers up to their position, and increase. */
  lemma {:induction false} Numbers(requests: seq<nat>, a: nat, b: nat)
    requires a < b < |Table(requests)|
    ensures var t := Table(requests);
      (t[a].Some? ==> t[a].value <= a) && (t[b].Some? ==> t[b].value <= b)
      && (t[a].Some? && t[b].Some? ==> t[a].value < t[b].value)
  {
    var n := |requests| - 1;
    var before := Table(requests[..n]);
    if b < |before| {
      Numbers(requests[..n], a, b);
    } else if a < |before| {
      NumberBelow(requests[..n], a);
    }
  }

  lemma {:induction false} NumberBelow(requests: seq<nat>, a: nat)
    requires a < |Table(requests)|
    ensures Table(requests)[a].Some? ==> Table(requests)[a].value <= a
  {
    var n := |requests| - 1;
    if a < |Table(requests[..n])| {
      NumberBelow(requests[..n], a);
    }
  }

  /** Two offsets never share a variable. */
  lemma DifferentOffsetsDiffer(requests: seq<nat>, i: nat, j: nat)
    requires i < |requests| && j < |requests| && requests[i] != requests[j]
    ensures AnswerAt(requests, i).None? || AnswerAt(requests, i) != AnswerAt(requests, j)
  {
    AnswerStays(requests, i);
    AnswerStays(requests, j);
    Numbers(requests, if requests[i] < requests[j] then requests[i] else requests[j],
            if requests[i] < requests[j] then requests[j] else requests[i]);
  }

  /** No request goes beyond the next unused offset. */
  predicate Contiguous(requests: seq<nat>)
  {
    forall i :: 0 <= i < |requests| ==> requests[i] <= |Table(requests[..i])|
  }

  lemma {:induction false} ContiguousTable(requests: seq<nat>, a: nat)
    requires Contiguous(requests) && a < |Table(requests)|
    ensures Table(requests)[a] == Some(a)
  {
    var n := |requests| - 1;
    assert forall i :: 0 <= i < n ==> requests[..n][i] == requests[i] && requests[..n][..i] == requests[..i];
    if a < |Table(requests[..n])| {
      ContiguousTable(requests[..n], a);
    } else {
      assert requests[n] <= |Table(requests[..n])|;
    }
  }

  /** Every variable is named after its offset exactly when offsets are first
      requested contiguously. */
  lemma NamesMatchExactlyWhen(requests: seq<nat>)
    ensures (forall i :: 0 <= i < |requests| ==> AnswerAt(requests, i) == Some(requests[i])) <==> Contiguous(requests)
  {
    if Contiguous(requests) {
      forall i | 0 <= i < |requests|
        ensures AnswerAt(requests, i) == Some(requests[i])
      {
        AnswerStays(requests, i);
        ContiguousTable(requests, requests[i]);
      }
    } else {
      var i :| 0 <= i < |requests| && requests[i] > |Table(requests[..i])|;
      assert AnswerAt(requests, i) == Some(|Table(requests[..i])|);
    }
  }

  /** An offset that was skipped has no variable later either. */
  lemma SkippedIsNull(requests: seq<nat>, i: nat, offset: nat)
    requires i < |requests| && |Table(requests[..i])| <= offset < requests[i]
    ensures Answer(Table(requests), offset) == None
  {
    var next := requests[..i + 1];
    assert next[..i] == requests[..i];
    assert Table(next) == Asked(Table(requests[..i]), requests[i]);
    TableGrows(requests, i + 1);
  }

  /** A first request for offset 1 is answered with the variable named 0. */
  lemma GapMisnames()
    ensures !Contiguous([1]) && AnswerAt([1], 0) == Some(0)
  {
    assert [1][..0] == [];
  }
}
