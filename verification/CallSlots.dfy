/** How expressions travel through calls: the caller leaves the arguments'
    expressions in global slots, the callee leaves its result's expression in
    another. Functions may be instrumented or not. */
module CallSlots {
  import opened Expressions
  import opened Programs
  import opened ArgumentSlots

  /** An expression that a function body computes from the parameters it has
      fetched and the results it has received so far. */
  type Compute = seq<SymExpr> -> SymExpr

  /** A call tree. A body makes its calls in order; `used` says that the result
      of the call is used, `result` is absent in a function that returns
      nothing. An uninstrumented function touches no slot. */
  datatype Call = Call(callee: Tree, args: seq<Compute>, used: bool)

  datatype Tree = Uninstrumented | Instrumented(params: nat, body: seq<Call>, result: Option<Compute>)

  /** What a body gets to see: its parameters on entry, a result after a call.
      An activation is known by the positions of the calls that lead to it. */
  datatype Event = Entered(who: seq<nat>, params: seq<SymExpr>) | Received(who: seq<nat>, call: nat, result: SymExpr)

  /** No call has more arguments than there are slots, nobody fetches more
      parameters than were passed, and a result is used only where an
      instrumented callee returns one. */
  predicate WellFormed(t: Tree)
  {
    t.Instrumented? ==> forall i :: 0 <= i < |t.body| ==> CallOk(t.body[i])
  }

  predicate CallOk(c: Call)
  {
    && |c.args| <= MAX_FUNCTION_ARGUMENTS
    && (c.callee.Instrumented? ==> c.callee.params <= |c.args| && (c.used ==> c.callee.result.Some?))
    && WellFormed(c.callee)
  }

  function Evaluate(args: seq<Compute>, seen: seq<SymExpr>): (es: seq<SymExpr>)
    ensures |es| == |args|
  {
    seq(|args|, k requires 0 <= k < |args| => args[k](seen))
  }

  // ---------- calls without slots ----------

  datatype Trace = Trace(events: seq<Event>, result: SymExpr)

  /** The ideal: arguments are handed over and results handed back directly. An
      uninstrumented callee's result has no expression. */
  function Ideal(t: Tree, at: seq<nat>, args: seq<SymExpr>): (r: Trace)
    decreases t, if t.Instrumented? then |t.body| + 1 else 0
  {
    match t
    case Uninstrumented => Trace([], None)
    case Instrumented(params, body, result) =>
      var own := if params <= |args| then args[..params] else args;
      var inner := IdealBody(t, at, own, |body|);
      Trace([Entered(at, own)] + inner.0, if result.Some? then result.value(inner.1) else None)
  }

  /** The events of the first `n` calls of a body, and what it has seen then. */
  function IdealBody(t: Tree, at: seq<nat>, own: seq<SymExpr>, n: nat): (r: (seq<Event>, seq<SymExpr>))
    requires t.Instrumented? && n <= |t.body|
    decreases t, n
  {
    if n == 0 then ([], own)
    else
      var before := IdealBody(t, at, own, n - 1);
      var call := t.body[n - 1];
      var callee := Ideal(call.callee, at + [n - 1], Evaluate(call.args, before.1));
      if call.used then (before.0 + callee.events + [Received(at, n - 1, callee.result)], before.1 + [callee.result])
      else (before.0 + callee.events, before.1)
  }

  // ---------- what a trace must look like ----------

  /** The function that the calls of a path lead to. */
  function NodeAt(t: Tree, path: seq<nat>): (r: Option<Tree>)
  {
    if path == [] then Some(t)
    else if t.Instrumented? && path[0] < |t.body| then NodeAt(t.body[path[0]].callee, path[1..])
    else None
  }

  /** The events of one activation. */
  function Own(es: seq<Event>, who: seq<nat>): (r: seq<Event>)
  {
    if es == [] then []
    else
      var e := es[|es| - 1];
      Own(es[..|es| - 1], who) + if e.who == who then [e] else []
  }

  /** The parameters and results in some events. */
  function Values(es: seq<Event>): (vs: seq<SymExpr>)
  {
    if es == [] then []
    else
      var e := es[|es| - 1];
      Values(es[..|es| - 1]) + if e.Entered? then e.params else [e.result]
  }

  /** What an activation has seen: its parameters, then its results. */
  function Seen(es: seq<Event>, who: seq<nat>): (vs: seq<SymExpr>)
  {
    Values(Own(es, who))
  }

  /** The result that a function returns after seeing `seen`. */
  function Returned(t: Tree, seen: seq<SymExpr>): (e: SymExpr)
  {
    if t.Instrumented? && t.result.Some? then t.result.value(seen) else None
  }

  /** Event `j` is right, given the events before it: an activation enters with
      the parameters that its caller's arguments come to, and receives what its
      callee returns after all that the callee itself saw. */
  predicate EventOk(t: Tree, at: seq<nat>, args: seq<SymExpr>, es: seq<Event>, j: nat)
    requires j < |es|
  {
    at <= es[j].who
    && var path := es[j].who[|at|..];
    var node := NodeAt(t, path);
    node.Some? && node.value.Instrumented?
    && match es[j]
       case Entered(who, params) =>
         if path == [] then params == args[..Smaller(node.value.params, |args|)]
         else
           var n := |path| - 1;
           var caller := NodeAt(t, path[..n]);
           caller.Some? && caller.value.Instrumented? && path[n] < |caller.value.body|
           && var passed, seen := caller.value.body[path[n]].args, Seen(es[..j], at + path[..n]);
           |params| == Smaller(node.value.params, |passed|)
           && forall i :: 0 <= i < |params| ==> params[i] == passed[i](seen)
       case Received(who, call, result) =>
         call < |node.value.body| && node.value.body[call].used
         && var callee := node.value.body[call].callee;
         match callee
         case Uninstrumented => result == None
         case Instrumented(_, _, None) => result == None
         case Instrumented(_, _, Some(compute)) => result == compute(Seen(es[..j], who + [call]))
  }

  function Smaller(a: nat, b: nat): (m: nat)
    ensures m <= a && m <= b
  {
    if a <= b then a else b
  }

  /** The numbers of the calls whose results are used. */
  function Used(body: seq<Call>): (ks: seq<nat>)
  {
    if body == [] then []
    else
      var n := |body| - 1;
      Used(body[..n]) + if body[n].used then [n] else []
  }

  /** An activation enters once and then receives every result that it uses, in
      order. */
  predicate Complete(own: seq<Event>, body: seq<Call>)
  {
    |own| == 1 + |Used(body)| && own[0].Entered?
    && forall i :: 0 < i < |own| ==> own[i].Received? && own[i].call == Used(body)[i - 1]
  }

  /** Every event is right, and none is missing. */
  ghost predicate Lawful(t: Tree, at: seq<nat>, args: seq<SymExpr>, es: seq<Event>)
  {
    && (forall j :: 0 <= j < |es| ==> EventOk(t, at, args, es, j))
    && (forall path {:trigger NodeAt(t, path)} ::
          NodeAt(t, path).Some? && NodeAt(t, path).value.Instrumented? ==>
          Complete(Own(es, at + path), NodeAt(t, path).value.body))
  }

  lemma {:induction false} OwnAppend(a: seq<Event>, b: seq<Event>, who: seq<nat>)
    ensures Own(a + b, who) == Own(a, who) + Own(b, who)
  {
    if b == [] {
      assert a + b == a;
    } else {
      assert (a + b)[..|a + b| - 1] == a + b[..|b| - 1];
      OwnAppend(a, b[..|b| - 1], who);
    }
  }

  lemma {:induction false} ValuesAppend(a: seq<Event>, b: seq<Event>)
    ensures Values(a + b) == Values(a) + Values(b)
  {
    if b == [] {
      assert a + b == a;
    } else {
      var init, e := b[..|b| - 1], b[|b| - 1];
      var last := if e.Entered? then e.params else [e.result];
      assert (a + b)[..|a + b| - 1] == a + init && (a + b)[|a + b| - 1] == e;
      ValuesAppend(a, init);
      Regroup(Values(a), Values(init), last);
    }
  }

  lemma Regroup(a: seq<SymExpr>, b: seq<SymExpr>, c: seq<SymExpr>)
    ensures a + b + c == a + (b + c)
  {
  }

  lemma SeenAppend(a: seq<Event>, b: seq<Event>, who: seq<nat>)
    ensures Seen(a + b, who) == Seen(a, who) + Seen(b, who)
  {
    OwnAppend(a, b, who);
    ValuesAppend(Own(a, who), Own(b, who));
  }

  lemma {:induction false} OwnNothing(es: seq<Event>, who: seq<nat>)
    requires forall j :: 0 <= j < |es| ==> es[j].who != who
    ensures Own(es, who) == [] && Seen(es, who) == []
  {
    if es != [] {
      OwnNothing(es[..|es| - 1], who);
    }
  }

  lemma {:induction false} NodeBelow(t: Tree, path: seq<nat>, k: nat)
    ensures var node := NodeAt(t, path);
      NodeAt(t, path + [k])
      == if node.Some? && node.value.Instrumented? && k < |node.value.body| then Some(node.value.body[k].callee)
         else None
  {
    if path == [] {
      assert [] + [k] == [k] && [k][1..] == [];
    } else if t.Instrumented? && path[0] < |t.body| {
      NodeBelow(t.body[path[0]].callee, path[1..], k);
      assert (path + [k])[1..] == path[1..] + [k];
    }
  }

  /** The events of a call, and of a body, belong to activations at and below
      the point of the call. */
  lemma {:induction false} EventsWithin(t: Tree, at: seq<nat>, args: seq<SymExpr>)
    ensures forall j :: 0 <= j < |Ideal(t, at, args).events| ==> at <= Ideal(t, at, args).events[j].who
    decreases t, if t.Instrumented? then |t.body| + 1 else 0
  {
    if t.Instrumented? {
      var own := if t.params <= |args| then args[..t.params] else args;
      BodyWithin(t, at, own, |t.body|);
      var es := IdealBody(t, at, own, |t.body|).0;
      forall j | 0 <= j < |es|
        ensures at <= es[j].who
      {
        assert InBody(es[j], at, |t.body|);
      }
    }
  }

  predicate InBody(e: Event, at: seq<nat>, n: nat)
  {
    e.who == at || (at <= e.who && |at| < |e.who| && e.who[|at|] < n)
  }

  lemma {:induction false} BodyWithin(t: Tree, at: seq<nat>, own: seq<SymExpr>, n: nat)
    requires t.Instrumented? && n <= |t.body|
    ensures forall j :: 0 <= j < |IdealBody(t, at, own, n).0| ==> InBody(IdealBody(t, at, own, n).0[j], at, n)
    decreases t, n
  {
    if n > 0 {
      BodyWithin(t, at, own, n - 1);
      var before := IdealBody(t, at, own, n - 1);
      var call := t.body[n - 1];
      EventsWithin(call.callee, at + [n - 1], Evaluate(call.args, before.1));
    }
  }

  /** Events before a call are none of its callee's, nor of those below it. */
  lemma NoneBelow(before: seq<Event>, at: seq<nat>, k: nat, who: seq<nat>)
    requires forall j :: 0 <= j < |before| ==> InBody(before[j], at, k)
    requires at + [k] <= who
    ensures Own(before, who) == [] && Seen(before, who) == []
  {
    forall j | 0 <= j < |before|
      ensures before[j].who != who
    {
      assert InBody(before[j], at, k);
      assert who[|at|] == k;
    }
    OwnNothing(before, who);
  }

  lemma NoneAbove(sub: seq<Event>, at: seq<nat>, k: nat)
    requires forall j :: 0 <= j < |sub| ==> at + [k] <= sub[j].who
    ensures Own(sub, at) == [] && Seen(sub, at) == []
  {
    forall j | 0 <= j < |sub|
      ensures sub[j].who != at
    {
      assert at + [k] <= sub[j].who;
    }
    OwnNothing(sub, at);
  }

  lemma PathOfCall(t: Tree, at: seq<nat>, k: nat, who: seq<nat>)
    requires t.Instrumented? && k < |t.body| && at + [k] <= who
    ensures at <= who && who[|at|..] == [k] + who[|at| + 1..] && who[|at + [k]|..] == who[|at| + 1..]
    ensures NodeAt(t, who[|at|..]) == NodeAt(t.body[k].callee, who[|at| + 1..])
  {
    var path := who[|at|..];
    assert path[1..] == who[|at| + 1..];
    assert who[|at|] == (at + [k])[|at|];
  }

  /** What is right for a callee's own trace is right within its caller's. */
  lemma LiftEntered(t: Tree, at: seq<nat>, args: seq<SymExpr>, before: seq<Event>, k: nat, sub: seq<Event>, j: nat)
    requires t.Instrumented? && k < |t.body| && j < |sub| && sub[j].Entered?
    requires forall i :: 0 <= i < |before| ==> InBody(before[i], at, k)
    requires forall i :: 0 <= i < |sub| ==> at + [k] <= sub[i].who
    requires EventOk(t.body[k].callee, at + [k], Evaluate(t.body[k].args, Seen(before, at)), sub, j)
    ensures EventOk(t, at, args, before + sub, |before| + j)
  {
    hide Own, Values, Seen;
    var es, who := before + sub, sub[j].who;
    PathOfCall(t, at, k, who);
    assert es[..|before| + j] == before + sub[..j];
    var path, below := who[|at|..], who[|at| + 1..];
    var n := |path| - 1;
    var up := at + path[..n];
    SeenAppend(before, sub[..j], up);
    if below == [] {
      assert path == [k] && path[..n] == [] && up == at;
      NoneAbove(sub[..j], at, k);
      assert Seen(before, at) + [] == Seen(before, at);
      var seen, passed := Seen(before, at), t.body[k].args;
      assert sub[j].params == Evaluate(passed, seen)[..Smaller(t.body[k].callee.params, |passed|)];
    } else {
      assert path[..n] == [k] + below[..n - 1];
      assert up == (at + [k]) + below[..n - 1];
      NoneBelow(before, at, k, up);
      assert [] + Seen(sub[..j], up) == Seen(sub[..j], up);
      PathOfCall(t, at, k, up);
      assert up[|at|..] == path[..n] && up[|at| + 1..] == below[..n - 1];
    }
  }

  lemma LiftReceived(t: Tree, at: seq<nat>, args: seq<SymExpr>, before: seq<Event>, k: nat, sub: seq<Event>, j: nat)
    requires t.Instrumented? && k < |t.body| && j < |sub| && sub[j].Received?
    requires forall i :: 0 <= i < |before| ==> InBody(before[i], at, k)
    requires at + [k] <= sub[j].who
    requires EventOk(t.body[k].callee, at + [k], Evaluate(t.body[k].args, Seen(before, at)), sub, j)
    ensures EventOk(t, at, args, before + sub, |before| + j)
  {
    hide Own, Values, Seen, Evaluate;
    var es, who := before + sub, sub[j].who;
    PathOfCall(t, at, k, who);
    assert es[..|before| + j] == before + sub[..j];
    var down := who + [sub[j].call];
    SeenAppend(before, sub[..j], down);
    NoneBelow(before, at, k, down);
    assert [] + Seen(sub[..j], down) == Seen(sub[..j], down);
  }

  lemma Extended(t: Tree, at: seq<nat>, args: seq<SymExpr>, es: seq<Event>, more: seq<Event>, j: nat)
    requires j < |es| && EventOk(t, at, args, es, j)
    ensures EventOk(t, at, args, es + more, j)
  {
    assert (es + more)[..j] == es[..j];
  }

  /** The events of an activation so far. */
  function Start(t: Tree, at: seq<nat>, own: seq<SymExpr>, n: nat): (es: seq<Event>)
    requires t.Instrumented? && n <= |t.body|
  {
    [Entered(at, own)] + IdealBody(t, at, own, n).0
  }

  lemma StartWithin(t: Tree, at: seq<nat>, own: seq<SymExpr>, n: nat)
    requires t.Instrumented? && n <= |t.body|
    ensures forall j :: 0 <= j < |Start(t, at, own, n)| ==> InBody(Start(t, at, own, n)[j], at, n)
  {
    BodyWithin(t, at, own, n);
  }

  /** One call more: its callee's events, and the result if it is used. */
  lemma StartNext(t: Tree, at: seq<nat>, own: seq<SymExpr>, n: nat)
    requires t.Instrumented? && n < |t.body|
    ensures var before, call := IdealBody(t, at, own, n), t.body[n];
      var callee := Ideal(call.callee, at + [n], Evaluate(call.args, before.1));
      Start(t, at, own, n + 1)
      == Start(t, at, own, n) + callee.events + if call.used then [Received(at, n, callee.result)] else []
  {
  }

  lemma UsedNext(body: seq<Call>, n: nat)
    requires n < |body|
    ensures Used(body[..n + 1]) == Used(body[..n]) + if body[n].used then [n] else []
  {
    assert body[..n + 1][..n] == body[..n];
  }

  lemma Entering(t: Tree, at: seq<nat>, args: seq<SymExpr>, own: seq<SymExpr>)
    requires t.Instrumented? && own == args[..Smaller(t.params, |args|)]
    ensures var es := Start(t, at, own, 0);
      es == [Entered(at, own)] && EventOk(t, at, args, es, 0) && Seen(es, at) == own
        && Complete(Own(es, at), t.body[..0])
  {
    var e := Entered(at, own);
    assert Start(t, at, own, 0) == [e];
    assert [e][..0] == [];
    assert Own([e], at) == [e];
    assert Values([e]) == own by { assert Values([]) + own == own; }
    assert t.body[..0] == [];
  }

  lemma {:induction false} BodyLaw(t: Tree, at: seq<nat>, args: seq<SymExpr>, own: seq<SymExpr>, n: nat)
    requires t.Instrumented? && n <= |t.body| && own == args[..Smaller(t.params, |args|)]
    ensures forall j :: 0 <= j < |Start(t, at, own, n)| ==> EventOk(t, at, args, Start(t, at, own, n), j)
    ensures Seen(Start(t, at, own, n), at) == IdealBody(t, at, own, n).1
    ensures Complete(Own(Start(t, at, own, n), at), t.body[..n])
    decreases t, n
  {
    hide EventOk, Complete, Seen, Own, Start, IdealBody, Ideal, Used;
    if n == 0 {
      Entering(t, at, args, own);
      BodyNothing(t, at, own);
    } else {
      BodyLaw(t, at, args, own, n - 1);
      var es, seen, call := Start(t, at, own, n - 1), IdealBody(t, at, own, n - 1).1, t.body[n - 1];
      var passed := Evaluate(call.args, seen);
      var callee := Ideal(call.callee, at + [n - 1], passed);
      var sub := callee.events;
      StartNext(t, at, own, n - 1);
      StartWithin(t, at, own, n - 1);
      EventsWithin(call.callee, at + [n - 1], passed);
      TraceLaw(call.callee, at + [n - 1], passed);
      WithCallee(t, at, args, es, n - 1, sub);
      OwnAppend(es, sub, at);
      NoneAbove(sub, at, n - 1);
      assert Own(es, at) + [] == Own(es, at);
      SameSeen(es, es + sub, at);
      BodyNext(t, at, own, n - 1);
      UsedNext(t.body, n - 1);
      if call.used {
        ResultReceived(t, at, args, es, n - 1, sub, callee.result);
      } else {
        assert es + sub + [] == es + sub;
        SameUsed(Own(es, at), t.body[..n - 1], t.body[..n]);
      }
    }
  }

  lemma BodyNothing(t: Tree, at: seq<nat>, own: seq<SymExpr>)
    requires t.Instrumented?
    ensures IdealBody(t, at, own, 0) == ([], own)
  {
  }

  lemma BodyNext(t: Tree, at: seq<nat>, own: seq<SymExpr>, n: nat)
    requires t.Instrumented? && n < |t.body|
    ensures var seen, call := IdealBody(t, at, own, n).1, t.body[n];
      IdealBody(t, at, own, n + 1).1
      == seen + if call.used then [Ideal(call.callee, at + [n], Evaluate(call.args, seen)).result] else []
  {
  }

  lemma SameSeen(a: seq<Event>, b: seq<Event>, who: seq<nat>)
    requires Own(a, who) == Own(b, who)
    ensures Seen(a, who) == Seen(b, who)
  {
  }

  lemma SameUsed(own: seq<Event>, a: seq<Call>, b: seq<Call>)
    requires Complete(own, a) && Used(a) == Used(b)
    ensures Complete(own, b)
  {
  }

  lemma WithCallee(t: Tree, at: seq<nat>, args: seq<SymExpr>, es: seq<Event>, k: nat, sub: seq<Event>)
    requires t.Instrumented? && k < |t.body|
    requires forall j :: 0 <= j < |es| ==> EventOk(t, at, args, es, j) && InBody(es[j], at, k)
    requires forall j :: 0 <= j < |sub| ==> at + [k] <= sub[j].who
    requires forall j :: 0 <= j < |sub| ==>
      EventOk(t.body[k].callee, at + [k], Evaluate(t.body[k].args, Seen(es, at)), sub, j)
    ensures forall j :: 0 <= j < |es + sub| ==> EventOk(t, at, args, es + sub, j)
  {
    hide EventOk, InBody;
    forall j | 0 <= j < |es + sub|
      ensures EventOk(t, at, args, es + sub, j)
    {
      if j < |es| {
        Extended(t, at, args, es, sub, j);
      } else if sub[j - |es|].Entered? {
        LiftEntered(t, at, args, es, k, sub, j - |es|);
      } else {
        LiftReceived(t, at, args, es, k, sub, j - |es|);
      }
    }
  }

  lemma ResultReceived(t: Tree, at: seq<nat>, args: seq<SymExpr>, es: seq<Event>, k: nat, sub: seq<Event>,
                       result: SymExpr)
    requires t.Instrumented? && k < |t.body| && t.body[k].used
    requires forall j :: 0 <= j < |es| ==> InBody(es[j], at, k)
    requires forall j :: 0 <= j < |es + sub| ==> EventOk(t, at, args, es + sub, j)
    requires result == Returned(t.body[k].callee, Seen(sub, at + [k]))
    requires Complete(Own(es + sub, at), t.body[..k])
    ensures var all := es + sub + [Received(at, k, result)];
      (forall j :: 0 <= j < |all| ==> EventOk(t, at, args, all, j))
      && Seen(all, at) == Seen(es + sub, at) + [result] && Complete(Own(all, at), t.body[..k + 1])
  {
    hide EventOk, Returned, InBody, Own, Values, Complete;
    var e := Received(at, k, result);
    var all := es + sub + [e];
    OwnOne(e);
    OwnAppend(es + sub, [e], at);
    ValuesAppend(Own(es + sub, at), [e]);
    UsedNext(t.body, k);
    OneMore(Own(es + sub, at), e, t.body, k);
    SeenAppend(es, sub, at + [k]);
    NoneBelow(es, at, k, at + [k]);
    assert [] + Seen(sub, at + [k]) == Seen(sub, at + [k]);
    forall j | 0 <= j < |all|
      ensures EventOk(t, at, args, all, j)
    {
      if j < |es + sub| {
        Extended(t, at, args, es + sub, [e], j);
      } else {
        assert all[..j] == es + sub;
        LastReceived(t, at, args, all, j);
      }
    }
  }

  lemma OwnOne(e: Event)
    requires e.Received?
    ensures Own([e], e.who) == [e] && Values([e]) == [e.result]
  {
    assert [e][..0] == [];
    assert Values([e][..0]) == [];
    assert Own([e][..0], e.who) == [];
  }

  lemma OneMore(own: seq<Event>, e: Event, body: seq<Call>, k: nat)
    requires k < |body| && Complete(own, body[..k]) && e.Received? && e.call == k && body[k].used
    ensures Complete(own + [e], body[..k + 1])
  {
    UsedNext(body, k);
  }

  lemma LastReceived(t: Tree, at: seq<nat>, args: seq<SymExpr>, es: seq<Event>, j: nat)
    requires j < |es| && es[j].Received? && es[j].who == at && t.Instrumented?
    requires es[j].call < |t.body| && t.body[es[j].call].used
    requires es[j].result == Returned(t.body[es[j].call].callee, Seen(es[..j], at + [es[j].call]))
    ensures EventOk(t, at, args, es, j)
  {
    assert at[|at|..] == [];
  }

  lemma IdealIs(t: Tree, at: seq<nat>, args: seq<SymExpr>)
    requires t.Instrumented?
    ensures var own := args[..Smaller(t.params, |args|)];
      Ideal(t, at, args).events == Start(t, at, own, |t.body|)
      && Ideal(t, at, args).result == Returned(t, IdealBody(t, at, own, |t.body|).1)
  {
    assert args[..|args|] == args;
  }

  /** Every event of the ideal run is right, and its result is what the function
      returns after all that it saw. */
  lemma {:induction false} TraceLaw(t: Tree, at: seq<nat>, args: seq<SymExpr>)
    ensures forall j :: 0 <= j < |Ideal(t, at, args).events| ==> EventOk(t, at, args, Ideal(t, at, args).events, j)
    ensures Ideal(t, at, args).result == Returned(t, Seen(Ideal(t, at, args).events, at))
    decreases t, if t.Instrumented? then |t.body| + 1 else 0
  {
    hide EventOk, Seen, Complete;
    if t.Instrumented? {
      var own := args[..Smaller(t.params, |args|)];
      BodyLaw(t, at, args, own, |t.body|);
      IdealIs(t, at, args);
    }
  }

  // ---------- nothing is missing ----------

  /** The events below call `k` of a body are those of its callee. */
  lemma {:induction false} OwnBelow(t: Tree, at: seq<nat>, own: seq<SymExpr>, n: nat, k: nat, who: seq<nat>)
    requires t.Instrumented? && k < |t.body| && n <= |t.body| && at + [k] <= who
    ensures n <= k ==> Own(Start(t, at, own, n), who) == []
    ensures n > k ==>
      var passed := Evaluate(t.body[k].args, IdealBody(t, at, own, k).1);
      Own(Start(t, at, own, n), who) == Own(Ideal(t.body[k].callee, at + [k], passed).events, who)
    decreases n
  {
    hide Own, Start, IdealBody, Ideal, InBody;
    StartWithin(t, at, own, n);
    if n <= k {
      OtherCall(Start(t, at, own, n), at, n, k, who);
    } else {
      OwnBelow(t, at, own, n - 1, k, who);
      StartNext(t, at, own, n - 1);
      var call, passed := t.body[n - 1], Evaluate(t.body[n - 1].args, IdealBody(t, at, own, n - 1).1);
      var callee := Ideal(call.callee, at + [n - 1], passed);
      var last := if call.used then [Received(at, n - 1, callee.result)] else [];
      OwnAppend(Start(t, at, own, n - 1) + callee.events, last, who);
      OwnAppend(Start(t, at, own, n - 1), callee.events, who);
      OwnNothing(last, who);
      if n - 1 > k {
        EventsWithin(call.callee, at + [n - 1], passed);
        forall j | 0 <= j < |callee.events|
          ensures callee.events[j].who != who
        {
          assert (at + [n - 1])[|at|] == n - 1 && (at + [k])[|at|] == k;
        }
        OwnNothing(callee.events, who);
      }
    }
  }

  lemma OtherCall(es: seq<Event>, at: seq<nat>, n: nat, k: nat, who: seq<nat>)
    requires n <= k && at + [k] <= who && forall j :: 0 <= j < |es| ==> InBody(es[j], at, n)
    ensures Own(es, who) == []
  {
    forall j | 0 <= j < |es|
      ensures es[j].who != who
    {
      assert InBody(es[j], at, n);
      assert who[|at|] == k;
    }
    OwnNothing(es, who);
  }

  /** Every activation of the call tree takes place completely. */
  lemma {:induction false} NoneMissing(t: Tree, at: seq<nat>, args: seq<SymExpr>, path: seq<nat>)
    requires NodeAt(t, path).Some? && NodeAt(t, path).value.Instrumented?
    ensures Complete(Own(Ideal(t, at, args).events, at + path), NodeAt(t, path).value.body)
    decreases path
  {
    hide Complete, Own, EventOk, IdealBody;
    var own := args[..Smaller(t.params, |args|)];
    var n := |t.body|;
    IdealIs(t, at, args);
    if path == [] {
      BodyLaw(t, at, args, own, n);
      assert at + path == at && t.body[..n] == t.body;
    } else {
      var k := path[0];
      assert at + path == (at + [k]) + path[1..];
      OwnBelow(t, at, own, n, k, at + path);
      NoneMissing(t.body[k].callee, at + [k], Evaluate(t.body[k].args, IdealBody(t, at, own, k).1), path[1..]);
    }
  }

  /** The ideal run is lawful. */
  lemma IdealLawful(t: Tree, at: seq<nat>, args: seq<SymExpr>)
    ensures Lawful(t, at, args, Ideal(t, at, args).events)
  {
    hide Complete, Own, EventOk, Ideal;
    TraceLaw(t, at, args);
    forall path | NodeAt(t, path).Some? && NodeAt(t, path).value.Instrumented?
      ensures Complete(Own(Ideal(t, at, args).events, at + path), NodeAt(t, path).value.body)
    {
      NoneMissing(t, at, args, path);
    }
  }

  // ---------- calls through the slots ----------

  class GlobalSlots {
    var returnValue: SymExpr
    const arguments: array<SymExpr>

    ghost predicate Valid()
      reads this
    {
      arguments.Length == MAX_FUNCTION_ARGUMENTS
    }

    ghost function Contents(): (slots: map<nat, SymExpr>)
      requires Valid()
      reads this, arguments
    {
      map k: nat | k < MAX_FUNCTION_ARGUMENTS :: arguments[k]
    }

    constructor ()
      ensures Valid() && returnValue == None && fresh(arguments)
    {
      returnValue := None;
      arguments := new SymExpr[MAX_FUNCTION_ARGUMENTS](_ => None);
    }

    method SetReturnExpression(expr: SymExpr)
      modifies this`returnValue
      ensures returnValue == expr
    {
      returnValue := expr;
    }

    /** Fetching the return expression clears it. */
    method GetReturnExpression() returns (expr: SymExpr)
      modifies this`returnValue
      ensures expr == old(returnValue) && returnValue == None
    {
      expr := returnValue;
      returnValue := None;
    }

    method SetParameterExpressions(es: seq<SymExpr>)
      requires Valid()
      modifies arguments
      ensures Contents() == SetSlots(old(Contents()), es)
    {
      SetNothing(Contents());
      for k := 0 to |es|
        invariant Contents() == SetSlots(old(Contents()), es[..k])
      {
        SetNext(old(Contents()), es, k);
        arguments[SlotIndex(k)] := es[k];
      }
      assert es[..|es|] == es;
    }

    method GetParameterExpressions(n: nat) returns (es: seq<SymExpr>)
      requires Valid()
      ensures es == GetSlots(Contents(), n)
    {
      es := [];
      for k := 0 to n
        invariant es == GetSlots(Contents(), k)
      {
        assert ExprOf(Contents(), SlotIndex(k)) == arguments[SlotIndex(k)];
        es := es + [arguments[SlotIndex(k)]];
      }
    }

    /** Running a call tree through the slots is the ideal run: every callee
        sees its own caller's arguments and every caller that uses a result
        receives its own callee's, or null, and never a stale one, as the law of
        traces says event by event. A function that returns nothing may leave
        anything behind. */
    method Execute(t: Tree, ghost at: seq<nat>, ghost args: seq<SymExpr>) returns (ghost events: seq<Event>)
      requires Valid() && WellFormed(t)
      requires t.Instrumented? ==> t.params <= |args| && GetSlots(Contents(), t.params) == args[..t.params]
      modifies this`returnValue, arguments
      ensures events == Ideal(t, at, args).events && Lawful(t, at, args, events)
      ensures t.Uninstrumented? ==> returnValue == old(returnValue)
      ensures t.Instrumented? && t.result.Some? ==> returnValue == Ideal(t, at, args).result
      decreases t
    {
      hide Lawful;
      events := [];
      IdealLawful(t, at, args);
      if t.Instrumented? {
        var seen := GetParameterExpressions(t.params);
        ghost var own := seen;
        events := [Entered(at, own)];
        for n := 0 to |t.body|
          invariant events == [Entered(at, own)] + IdealBody(t, at, own, n).0 && seen == IdealBody(t, at, own, n).1
        {
          ghost var sub: seq<Event>;
          assert CallOk(t.body[n]);
          sub, seen := PerformCall(t.body[n], at, n, seen);
          events := events + sub;
        }
        if t.result.Some? {
          SetReturnExpression(t.result.value(seen));
        }
      }
    }

    method PerformCall(call: Call, ghost at: seq<nat>, ghost n: nat, seen: seq<SymExpr>)
      returns (ghost events: seq<Event>, seen': seq<SymExpr>)
      requires Valid() && CallOk(call)
      modifies this`returnValue, arguments
      ensures var callee := Ideal(call.callee, at + [n], Evaluate(call.args, seen));
        if call.used then events == callee.events + [Received(at, n, callee.result)] && seen' == seen + [callee.result]
        else events == callee.events && seen' == seen
      decreases call
    {
      ghost var es := Evaluate(call.args, seen);
      SetParameterExpressions(Evaluate(call.args, seen));
      seen' := seen;
      if call.used {
        SetReturnExpression(None);
      }
      if call.callee.Instrumented? {
        HandsOver(old(Contents()), es, call.callee.params);
      }
      events := Execute(call.callee, at + [n], es);
      if call.used {
        var result := GetReturnExpression();
        events := events + [Received(at, n, result)];
        seen' := seen + [result];
      }
    }
  }
}
