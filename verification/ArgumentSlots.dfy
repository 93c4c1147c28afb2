/** The global argument slots, which are selected by one byte: when a call
    hands its arguments over, and when it does not. */
module ArgumentSlots {
  import opened Expressions
  import opened Programs

  lemma SetNothing(slots: map<nat, SymExpr>)
    ensures SetSlots(slots, []) == slots
  {
  }

  /** The arguments are stored one after the other. */
  lemma SetNext(slots: map<nat, SymExpr>, es: seq<SymExpr>, n: nat)
    requires n < |es|
    ensures SetSlots(slots, es[..n + 1]) == SetSlots(slots, es[..n])[SlotIndex(n) := es[n]]
  {
    var ds := seq(n + 1, k requires 0 <= k => SlotIndex(k));
    assert ds[..n] == seq(n, k requires 0 <= k => SlotIndex(k));
    assert es[..n + 1][..n] == es[..n];
  }

  /** The last argument that shares a slot with argument `k`. */
  function LastSharing(n: nat, k: nat): (j: nat)
    requires k < n
    ensures k <= j < n && SlotIndex(j) == SlotIndex(k)
    decreases n - k
  {
    if k + MAX_FUNCTION_ARGUMENTS < n then LastSharing(n, k + MAX_FUNCTION_ARGUMENTS) else k
  }

  lemma {:induction false} StoredAt(slots: map<nat, SymExpr>, es: seq<SymExpr>, k: nat)
    requires k < |es|
    ensures ExprOf(SetSlots(slots, es), SlotIndex(k)) == es[LastSharing(|es|, k)]
    decreases es
  {
    hide SetSlots, SlotIndex;
    var n := |es| - 1;
    SetNext(slots, es, n);
    assert es[..n + 1] == es;
    if SlotIndex(n) == SlotIndex(k) {
      LastOne(|es|, k);
    } else {
      LastSkips(n, k);
      StoredAt(slots, es[..n], k);
    }
  }

  lemma {:induction false} LastOne(n: nat, k: nat)
    requires k < n && SlotIndex(n - 1) == SlotIndex(k)
    ensures LastSharing(n, k) == n - 1
    decreases n - k
  {
    if k + MAX_FUNCTION_ARGUMENTS < n {
      LastOne(n, k + MAX_FUNCTION_ARGUMENTS);
    }
  }

  lemma {:induction false} LastSkips(n: nat, k: nat)
    requires k <= n && SlotIndex(n) != SlotIndex(k)
    ensures k < n && LastSharing(n + 1, k) == LastSharing(n, k)
    decreases n - k
  {
    if k + MAX_FUNCTION_ARGUMENTS <= n {
      LastSkips(n, k + MAX_FUNCTION_ARGUMENTS);
    }
  }

  /** A call hands over its arguments exactly when arguments that share a slot
      have the same expression. */
  lemma HandsOverExactlyWhen(slots: map<nat, SymExpr>, es: seq<SymExpr>)
    ensures GetSlots(SetSlots(slots, es), |es|) == es
      <==> forall k :: 0 <= k && k + MAX_FUNCTION_ARGUMENTS < |es| ==> es[k] == es[k + MAX_FUNCTION_ARGUMENTS]
  {
    hide SetSlots, SlotIndex;
    var got := GetSlots(SetSlots(slots, es), |es|);
    forall k: nat | k < |es|
      ensures got[k] == es[LastSharing(|es|, k)]
    {
      StoredAt(slots, es, k);
    }
    if got == es {
      forall k | 0 <= k && k + MAX_FUNCTION_ARGUMENTS < |es|
        ensures es[k] == es[k + MAX_FUNCTION_ARGUMENTS]
      {
        assert got[k] == es[k] && got[k + MAX_FUNCTION_ARGUMENTS] == es[k + MAX_FUNCTION_ARGUMENTS];
      }
    } else if forall k :: 0 <= k && k + MAX_FUNCTION_ARGUMENTS < |es| ==> es[k] == es[k + MAX_FUNCTION_ARGUMENTS] {
      forall k: nat | k < |es|
        ensures got[k] == es[k]
      {
        SameAsLast(es, k);
      }
      assert false;
    }
  }

  lemma {:induction false} SameAsLast(es: seq<SymExpr>, k: nat)
    requires k < |es|
    requires forall i :: 0 <= i && i + MAX_FUNCTION_ARGUMENTS < |es| ==> es[i] == es[i + MAX_FUNCTION_ARGUMENTS]
    ensures es[LastSharing(|es|, k)] == es[k]
    decreases |es| - k
  {
    if k + MAX_FUNCTION_ARGUMENTS < |es| {
      SameAsLast(es, k + MAX_FUNCTION_ARGUMENTS);
    }
  }

  /** Up to 256 arguments always arrive. */
  lemma HandsOver(slots: map<nat, SymExpr>, es: seq<SymExpr>, n: nat)
    requires n <= |es| <= MAX_FUNCTION_ARGUMENTS
    ensures GetSlots(SetSlots(slots, es), n) == es[..n]
  {
    hide SetSlots, SlotIndex;
    HandsOverExactlyWhen(slots, es);
    assert GetSlots(SetSlots(slots, es), |es|)[..n] == GetSlots(SetSlots(slots, es), n);
  }

  /** With 257 arguments of which only the first is symbolic, the callee takes
      the last one's null for the first. */
  lemma FirstArgumentLost(slots: map<nat, SymExpr>)
    ensures var es := [Some(InputByte(0))] + seq(256, _ => None);
      GetSlots(SetSlots(slots, es), 257)[0] == None && es[0] == Some(InputByte(0))
  {
    hide SetSlots;
    var es: seq<SymExpr> := [Some(InputByte(0))] + seq(256, _ => None);
    StoredAt(slots, es, 0);
  }
}
