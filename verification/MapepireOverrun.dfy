/** What a second request on a cursor lets a server do: the exact condition under which registering a request keeps the
    budgets of the Mapepire client, and runs that pass them. */
module MapepireOverrun {
  import opened MapepireProtocol
  import opened MapepireBudget

  lemma {:induction false} RunConcat(s: State, a: seq<Event>, b: seq<Event>)
    requires Possible(s, a) && Possible(Run(s, a), b)
    ensures Possible(s, a + b) && Run(s, a + b) == Run(Run(s, a), b)
    decreases |a|
  {
    hide Enabled, Apply;
    if a == [] {
      assert a + b == b;
    } else {
      var next := Apply(s, a[0]);
      assert Run(s, a) == Run(next, a[1..]);
      RunConcat(next, a[1..], b);
      assert (a + b)[0] == a[0] && (a + b)[1..] == a[1..] + b;
    }
  }

  /** The reader's part of one answer. */
  function Answer(response: Response, size: nat): seq<Event> { [Lookup(response, size), Accept, Remove] }

  function Answered(s: State, response: Response, size: nat): State
    requires LookedUp(s, response, size).reader.Found?
    requires AcceptedState(LookedUp(s, response, size)).reader.Accepted?
  {
    RemovedState(AcceptedState(LookedUp(s, response, size)))
  }

  lemma AnswerRuns(s: State, response: Response, size: nat)
    requires s.reader.Idle? && response.id in s.pending && Shortest(response) <= size <= MAX_FRAME
    requires AcceptFailure(s, s.pending[response.id].request, response, size).None?
    ensures AcceptedState(LookedUp(s, response, size)).reader == Accepted(s.pending[response.id].caller, response)
    ensures Possible(s, Answer(response, size)) && Run(s, Answer(response, size)) == Answered(s, response, size)
  {
    var s1 := LookedUp(s, response, size);
    var s2 := AcceptedState(s1);
    assert s2.reader == Accepted(s.pending[response.id].caller, response);
    var events := Answer(response, size);
    assert events[1..] == [Accept, Remove] && [Accept, Remove][1..] == [Remove] && [Remove][1..] == [];
    assert Possible(s2, [Remove]) && Run(s2, [Remove]) == RemovedState(s2);
    assert Possible(s1, [Accept, Remove]) && Run(s1, [Accept, Remove]) == RemovedState(s2);
  }

  lemma {:induction false} DisciplinedConcat(s: State, a: seq<Event>, b: seq<Event>)
    requires Possible(s, a) && Possible(Run(s, a), b) && Disciplined(s, a) && Disciplined(Run(s, a), b)
    ensures Possible(s, a + b) && Disciplined(s, a + b) && Run(s, a + b) == Run(Run(s, a), b)
    decreases |a|
  {
    hide Enabled, Apply, Alone;
    RunConcat(s, a, b);
    if a == [] {
      assert a + b == b;
    } else {
      assert Run(s, a) == Run(Apply(s, a[0]), a[1..]);
      DisciplinedConcat(Apply(s, a[0]), a[1..], b);
      assert (a + b)[0] == a[0] && (a + b)[1..] == a[1..] + b;
    }
  }

  lemma {:induction false} AnswersAreDisciplined(s: State, events: seq<Event>)
    requires Possible(s, events) && forall e | e in events :: !e.Register?
    ensures Disciplined(s, events)
    decreases |events|
  {
    if events != [] { AnswersAreDisciplined(Apply(s, events[0]), events[1..]); }
  }

  /** The calls, their number and their requests are the same. */
  predicate SameCalls(s: State, s': State) {
    s'.callers.Keys == s.callers.Keys && forall c | c in s.callers :: s'.callers[c].request == s.callers[c].request
  }

  /** The response is in the caller's channel. */
  predicate Told(s: State, s': State, c: nat, response: Response) {
    c in s.callers && s'.callers == s.callers[c := s.callers[c].(inbox := [Success(response)])]
  }

  /** The length of the shortest page that is not the last. */
  const PAGE: nat := 48

  function Exchange(response: Response, size: nat): seq<Event> { Answer(response, size) + [Deliver] }

  lemma DeliverRuns(s: State)
    requires Enabled(s, Deliver)
    ensures Possible(s, [Deliver]) && Run(s, [Deliver]) == Delivered(s)
  {
    assert [Deliver][1..] == [];
  }

  /** The state after an accepted answer is delivered. */
  lemma AnsweredFacts(s: State, response: Response, size: nat)
    requires Inv(s) && s.reader.Idle? && response.id in s.pending && Shortest(response) <= size <= MAX_FRAME
    requires AcceptFailure(s, s.pending[response.id].request, response, size).None?
    ensures LookedUp(s, response, size).reader.Found?
    ensures AcceptedState(LookedUp(s, response, size)).reader.Accepted?
    ensures Enabled(Answered(s, response, size), Deliver)
    ensures var s' := Delivered(Answered(s, response, size));
      && s'.reader.Idle? && s'.closed == s.closed && SameCalls(s, s')
      && Told(s, s', s.pending[response.id].caller, response)
      && s'.pending == s.pending - {response.id}
      && s'.cursors == AcceptedCursors(s.cursors, s.pending[response.id].request, response, size)
      && s'.charged == Charged(s.charged, s.pending[response.id].request, response, size)
  {
    hide AcceptedCursors, Charged;
  }

  /** An answer that is accepted and delivered. */
  lemma AnswerDelivers(s: State, response: Response, size: nat)
    requires Inv(s) && s.reader.Idle? && response.id in s.pending && Shortest(response) <= size <= MAX_FRAME
    requires AcceptFailure(s, s.pending[response.id].request, response, size).None?
    ensures Possible(s, Exchange(response, size)) && Disciplined(s, Exchange(response, size))
    ensures var s' := Run(s, Exchange(response, size));
      && Inv(s') && s'.reader.Idle? && s'.closed == s.closed && SameCalls(s, s')
      && Told(s, s', s.pending[response.id].caller, response)
      && s'.pending == s.pending - {response.id}
      && s'.cursors == AcceptedCursors(s.cursors, s.pending[response.id].request, response, size)
      && s'.charged == Charged(s.charged, s.pending[response.id].request, response, size)
  {
    hide Inv, AcceptFailure, AcceptedCursors, Charged, Possible, Run, Disciplined, Enabled, SameCalls, Told;
    AnswerRuns(s, response, size);
    AnsweredFacts(s, response, size);
    DeliverRuns(Answered(s, response, size));
    RunConcat(s, Answer(response, size), [Deliver]);
    RunInv(s, Exchange(response, size));
    AnswersAreDisciplined(s, Exchange(response, size));
  }

  /** No call on a cursor is registered, except the query that names it. */
  predicate OnlyQueries(events: seq<Event>) { forall e | e in events && e.Register? :: e.request.op.PrepareExecute? }

  /** An answer to this request can drop its cursor: a last page for which there is room, or a close while bytes have
      been charged. */
  predicate MayDrop(s: State, r: Request) {
    var t := CursorOf(r);
    && HasCursor(r) && t in s.cursors && t in s.charged && s.cursors[t] <= s.charged[t]
    && if Charges(r) then s.cursors[t] + LAST_PAGE <= MAX_AGGREGATE else s.cursors[t] > 0
  }

  /** A second request on a cursor is enough for a server to get past the budget: it answers the first with the last
      page, or acknowledges its close, which drops the count, and then the second, which starts a new count. */
  lemma SecondRequestBreaksBudget(s: State, a: Id, b: Id) returns (events: seq<Event>)
    requires Inv(s) && s.reader.Idle? && a != b && a in s.pending && b in s.pending
    requires MayDrop(s, s.pending[a].request) && Charges(s.pending[b].request)
    requires CursorOf(s.pending[a].request) == CursorOf(s.pending[b].request)
    ensures Possible(s, events) && OnlyQueries(events)
    ensures var s' := Run(s, events); var t := CursorOf(s.pending[a].request);
      && s'.reader == Removed(s.pending[b].caller, Response(b, true, false, false))
      && t in s'.charged && s'.charged[t] > MAX_AGGREGATE
  {
    hide Inv, Possible, Run, AcceptFailure, AcceptedCursors, Charged, SameCalls;
    var t := CursorOf(s.pending[a].request);
    var size := if Charges(s.pending[a].request) then MAX_AGGREGATE - s.cursors[t] else LAST_PAGE;
    var first, second := Response(a, true, true, false), Response(b, true, false, false);
    FirstDrops(s, s.pending[a].request, first, size);
    AnswerDelivers(s, first, size);
    var s1 := Run(s, Exchange(first, size));
    SecondCharges(s1, s.pending[b].request, second, t);
    AnswerRuns(s1, second, MAX_FRAME);
    AnsweredReader(s1, second);
    RunConcat(s, Exchange(first, size), Answer(second, MAX_FRAME));
    events := Exchange(first, size) + Answer(second, MAX_FRAME);
  }

  lemma FirstDrops(s: State, r: Request, response: Response, size: nat)
    requires MayDrop(s, r) && size == if Charges(r) then MAX_AGGREGATE - s.cursors[CursorOf(r)] else LAST_PAGE
    requires response.success && response.isDone && !response.tooWide
    ensures AcceptFailure(s, r, response, size).None? && Shortest(response) <= size <= MAX_FRAME
    ensures CursorOf(r) !in AcceptedCursors(s.cursors, r, response, size)
    ensures var charged := Charged(s.charged, r, response, size);
      CursorOf(r) in charged && charged[CursorOf(r)] > 0
  {
  }

  lemma SecondCharges(s: State, r: Request, response: Response, t: Id)
    requires Charges(r) && t !in s.cursors && t in s.charged && s.charged[t] > 0
    requires response.success && !response.isDone && !response.tooWide
    ensures CursorOf(r) == t ==> AcceptFailure(s, r, response, MAX_FRAME).None?
    ensures CursorOf(r) == t ==>
      var charged := Charged(s.charged, r, response, MAX_FRAME); t in charged && charged[t] > MAX_AGGREGATE
  {
  }

  lemma AnsweredReader(s: State, response: Response)
    requires response.id in s.pending && AcceptFailure(s, s.pending[response.id].request, response, MAX_FRAME).None?
    ensures LookedUp(s, response, MAX_FRAME).reader.Found?
    ensures AcceptedState(LookedUp(s, response, MAX_FRAME)).reader.Accepted?
    ensures var s' := Answered(s, response, MAX_FRAME);
      && s'.reader == Removed(s.pending[response.id].caller, response)
      && s'.charged == Charged(s.charged, s.pending[response.id].request, response, MAX_FRAME)
  {
    hide Charged, AcceptedCursors;
  }

  // ---- When a registration keeps the budgets ----

  lemma {:induction false} LongerThanAll(used: set<Id>) returns (n: nat)
    ensures forall id | id in used :: |id| < n
  {
    if used == {} {
      n := 0;
    } else {
      var id :| id in used;
      var m := LongerThanAll(used - {id});
      n := if |id| < m then m else |id| + 1;
      assert forall other | other in used :: other == id || other in used - {id};
    }
  }

  lemma {:induction false} AboveAll(used: set<nat>) returns (n: nat)
    ensures forall k | k in used :: k < n
  {
    if used == {} {
      n := 0;
    } else {
      var k :| k in used;
      var m := AboveAll(used - {k});
      n := if k < m then m else k + 1;
      assert forall other | other in used :: other == k || other in used - {k};
    }
  }

  /** A caller and an ID that no call has used. */
  lemma Unused(s: State, t: Id) returns (caller: nat, id: Id)
    ensures caller !in s.callers && id !in s.pending && id !in s.cursors && id != t
    ensures Alone(s, Request(id, PrepareExecute, ""))
  {
    var k := AboveAll(s.callers.Keys);
    caller := k;
    var ids := set c | c in s.callers :: s.callers[c].request.id;
    var conts := set c | c in s.callers :: s.callers[c].request.contId;
    var n := LongerThanAll(ids + conts + s.pending.Keys + s.cursors.Keys + {t});
    id := seq(n, _ => 'x');
    forall c | c in s.callers
      ensures s.callers[c].request.id != id && s.callers[c].request.contId != id
    {
      assert s.callers[c].request.id in ids && s.callers[c].request.contId in conts;
    }
    assert t in {t};
  }

  /** Queries fill the free places, while the call `b` waits for its answer. */
  lemma {:induction false} FillUp(s: State, b: Id) returns (events: seq<Event>)
    requires Inv(s) && s.reader.Idle? && !s.closed && b in s.pending && |s.pending| < MAX_PENDING
    requires |s.cursors| <= MAX_CURSORS && CursorOf(s.pending[b].request) !in s.cursors
    ensures Possible(s, events) && Disciplined(s, events) && OnlyQueries(events)
    ensures var s' := Run(s, events);
      && Inv(s') && s'.reader.Idle? && b in s'.pending && s'.pending[b] == s.pending[b]
      && |s'.cursors| == MAX_CURSORS && CursorOf(s.pending[b].request) !in s'.cursors
    decreases MAX_CURSORS - |s.cursors|
  {
    if |s.cursors| == MAX_CURSORS {
      events := [];
    } else {
      hide Inv, Alone, Exchange, Disciplined, Enabled, Apply;
      var caller, id := Unused(s, CursorOf(s.pending[b].request));
      var s2 := OneMore(s, b, caller, id);
      var more := FillUp(s2, b);
      var query := [Register(caller, Request(id, PrepareExecute, ""))]
        + Exchange(Response(id, true, false, false), PAGE);
      DisciplinedConcat(s, query, more);
      events := query + more;
    }
  }

  /** A query takes one free place and is answered. */
  lemma OneMore(s: State, b: Id, caller: nat, id: Id) returns (s2: State)
    requires Inv(s) && s.reader.Idle? && !s.closed && b in s.pending && |s.pending| < MAX_PENDING
    requires |s.cursors| < MAX_CURSORS && caller !in s.callers && id !in s.pending && id !in s.cursors
    requires Alone(s, Request(id, PrepareExecute, ""))
    ensures var one := [Register(caller, Request(id, PrepareExecute, ""))];
      var query := one + Exchange(Response(id, true, false, false), PAGE);
      Possible(s, query) && Disciplined(s, query) && s2 == Run(s, query)
    ensures Inv(s2) && s2.reader.Idle? && !s2.closed && s2.pending == s.pending && s2.cursors == s.cursors[id := PAGE]
    ensures |s2.cursors| == |s.cursors| + 1
  {
    var q := Request(id, PrepareExecute, "");
    var answer := Response(id, true, false, false);
    hide Inv, Possible, Run, Disciplined, Alone, Registered, AcceptFailure, AcceptedCursors, Enabled, Refusal, Exchange,
         SameCalls;
    QueryFacts(s, caller, id);
    var s1 := Registered(s, caller, q);
    StepInv(s, Register(caller, q));
    AnswerDelivers(s1, answer, PAGE);
    s2 := Run(s1, Exchange(answer, PAGE));
    RegisterRuns(s, caller, q);
    DisciplinedConcat(s, [Register(caller, q)], Exchange(answer, PAGE));
  }

  lemma QueryFacts(s: State, caller: nat, id: Id)
    requires s.reader.Idle? && !s.closed && |s.pending| < MAX_PENDING
    requires |s.cursors| < MAX_CURSORS && caller !in s.callers && id !in s.pending && id !in s.cursors
    ensures var q, answer := Request(id, PrepareExecute, ""), Response(id, true, false, false);
      var s1 := Registered(s, caller, q);
      && Enabled(s, Register(caller, q)) && Apply(s, Register(caller, q)) == s1
      && s1.reader.Idle? && !s1.closed && id in s1.pending && s1.pending - {id} == s.pending
      && AcceptFailure(s1, s1.pending[id].request, answer, PAGE).None?
      && AcceptedCursors(s1.cursors, s1.pending[id].request, answer, PAGE) == s.cursors[id := PAGE]
    ensures |s.cursors[id := PAGE]| == |s.cursors| + 1
  {
    OneKeyMore(s.cursors, id, PAGE);
    var q := Request(id, PrepareExecute, "");
    var s1 := Registered(s, caller, q);
    FirstPageCounts(s1, q, s.cursors);
    assert Enabled(s, Register(caller, q));
    hide AcceptFailure, AcceptedCursors;
  }

  lemma FirstPageCounts(s: State, q: Request, before: map<Id, nat>)
    requires q.op.PrepareExecute? && s.cursors == before[q.id := 0]
    ensures var answer := Response(q.id, true, false, false);
      AcceptFailure(s, q, answer, PAGE).None? && AcceptedCursors(s.cursors, q, answer, PAGE) == before[q.id := PAGE]
  {
    assert before[q.id := 0][q.id := PAGE] == before[q.id := PAGE];
  }

  lemma OneKeyMore(m: map<Id, nat>, id: Id, n: nat)
    requires id !in m
    ensures |m[id := n]| == |m| + 1
  {
    assert m[id := n].Keys == m.Keys + {id};
    assert |m[id := n].Keys| == |m.Keys| + 1;
  }

  lemma RegisterRuns(s: State, caller: nat, q: Request)
    requires Enabled(s, Register(caller, q))
    ensures var one := [Register(caller, q)];
      Possible(s, one) && Run(s, one) == Registered(s, caller, q) && (Alone(s, q) ==> Disciplined(s, one))
  {
    assert [Register(caller, q)][1..] == [];
  }

  predicate FreshFor(s: State, r: Request) { forall c | c in s.callers :: s.callers[c].request.id != r.id }

  /** Two calls on one cursor that may not share it: the server drops the cursor with the first answer, lets queries
      fill the eight places, and brings it back with the second. */
  lemma TwoOnOneCursor(s: State, first: Id, second: Id) returns (events: seq<Event>)
    requires Inv(s) && s.reader.Idle? && !s.closed && first != second && first in s.pending && second in s.pending
    requires SameCursor(s.pending[first].request, s.pending[second].request) && Charges(s.pending[second].request)
    requires |s.cursors| <= MAX_CURSORS
    requires Charges(s.pending[first].request) ==>
      CursorCount(s.cursors, CursorOf(s.pending[first].request)) + LAST_PAGE <= MAX_AGGREGATE
    ensures Possible(s, events) && Disciplined(s, events) && OnlyQueries(events)
    ensures |Run(s, events).cursors| == MAX_CURSORS + 1
  {
    hide Inv, Possible, Run, Disciplined, OnlyQueries, AcceptFailure, AcceptedCursors, Charged, Exchange, SameCalls,
         Told;
    var drop, revive := Response(first, true, true, false), Response(second, true, false, false);
    var t := CursorOf(s.pending[first].request);
    Drops(s, s.pending[first].request, drop);
    AnswerDelivers(s, drop, LAST_PAGE);
    var s1 := Run(s, Exchange(drop, LAST_PAGE));
    Smaller(s, s1, first);
    var fill := FillUp(s1, second);
    DisciplinedConcat(s, Exchange(drop, LAST_PAGE), fill);
    var s2 := Run(s1, fill);
    Revives(s2, s2.pending[second].request, revive);
    AnswerDelivers(s2, revive, PAGE);
    DisciplinedConcat(s, Exchange(drop, LAST_PAGE) + fill, Exchange(revive, PAGE));
    events := Exchange(drop, LAST_PAGE) + fill + Exchange(revive, PAGE);
    NoQueries(drop, LAST_PAGE);
    NoQueries(revive, PAGE);
    QueriesConcat(Exchange(drop, LAST_PAGE), fill);
    QueriesConcat(Exchange(drop, LAST_PAGE) + fill, Exchange(revive, PAGE));
  }

  lemma NoQueries(response: Response, size: nat)
    ensures OnlyQueries(Exchange(response, size))
  {
  }

  lemma QueriesConcat(a: seq<Event>, b: seq<Event>)
    requires OnlyQueries(a) && OnlyQueries(b)
    ensures OnlyQueries(a + b)
  {
  }

  /** A last page, or an acknowledged close, drops the cursor. */
  lemma Drops(s: State, r: Request, response: Response)
    requires HasCursor(r) && (Charges(r) ==> CursorCount(s.cursors, CursorOf(r)) + LAST_PAGE <= MAX_AGGREGATE)
    requires response.success && response.isDone && !response.tooWide
    ensures AcceptFailure(s, r, response, LAST_PAGE).None? && Shortest(response) <= LAST_PAGE
    ensures AcceptedCursors(s.cursors, r, response, LAST_PAGE) == s.cursors - {CursorOf(r)}
  {
  }

  /** A charge to a dropped cursor brings it back. */
  lemma Revives(s: State, r: Request, response: Response)
    requires Charges(r) && CursorOf(r) !in s.cursors
    requires response.success && !response.isDone && !response.tooWide
    ensures AcceptFailure(s, r, response, PAGE).None? && Shortest(response) <= PAGE
    ensures AcceptedCursors(s.cursors, r, response, PAGE) == s.cursors[CursorOf(r) := PAGE]
    ensures |s.cursors[CursorOf(r) := PAGE]| == |s.cursors| + 1
  {
    OneKeyMore(s.cursors, CursorOf(r), PAGE);
  }

  lemma Smaller(s: State, s1: State, first: Id)
    requires Inv(s) && first in s.pending && s1.pending == s.pending - {first} && s1.cursors.Keys <= s.cursors.Keys
    ensures |s1.pending| < MAX_PENDING && |s1.cursors| <= |s.cursors|
  {
    FewerKeys(s1.cursors, s.cursors);
  }

  /** What is known of a request that is not alone. */
  lemma NotAlone(s: State, r: Request) returns (a: Id)
    requires Inv(s) && BudgetInv(s) && s.reader.Idle? && Refusal(s, r).None? && FreshFor(s, r) && !Alone(s, r)
    ensures a in s.pending && SameCursor(s.pending[a].request, r) && !MayShare(s, s.pending[a].request, r) && a != r.id
    ensures !r.op.PrepareExecute? && CursorOf(r) in s.cursors && s.cursors[CursorOf(r)] <= MAX_AGGREGATE
  {
    hide PendingInv, CallersInv, IdsInv, SettledInv, CursorsInv, TargetsInv, ExclusiveInv, DeliveryInv, Refusal;
    var c :| c in s.callers && SameCursor(s.callers[c].request, r) && Unaccepted(s, c)
      && !MayShare(s, s.callers[c].request, r);
    a := s.callers[c].request.id;
    PendingRequest(s, c);
    SharedCursor(s, r, c);
  }

  lemma SharedCursor(s: State, r: Request, c: nat)
    requires IdsInv(s) && CursorsInv(s) && !ReaderGone(s) && Refusal(s, r).None? && FreshFor(s, r)
    requires c in s.callers && SameCursor(s.callers[c].request, r)
    ensures !r.op.PrepareExecute? && CursorOf(r) in s.cursors && s.cursors[CursorOf(r)] <= MAX_AGGREGATE
  {
    assert CursorOf(s.callers[c].request) in s.charged;
    var d :| d in s.callers && s.callers[d].request.id == CursorOf(r);
  }

  lemma PendingRequest(s: State, c: nat)
    requires PendingInv(s) && s.reader.Idle? && c in s.callers && Unaccepted(s, c)
    ensures s.callers[c].request.id in s.pending && s.pending[s.callers[c].request.id].request == s.callers[c].request
  {
  }

  /** A request that is not alone lets a server pass the limit of eight cursors, however well everybody behaves then. */
  lemma SecondRequestPassesLimit(s: State, caller: nat, r: Request) returns (events: seq<Event>)
    requires Inv(s) && BudgetInv(s) && s.reader.Idle? && Enabled(s, Register(caller, r)) && FreshFor(s, r)
    requires !Alone(s, r)
    ensures var s1 := Registered(s, caller, r);
      && Possible(s1, events) && Disciplined(s1, events) && OnlyQueries(events)
      && |Run(s1, events).cursors| == MAX_CURSORS + 1
  {
    AtMostEight(s);
    hide Inv, BudgetInv, Alone, Possible, Run, Disciplined, FreshFor, Refusal, Registered;
    var a := NotAlone(s, r);
    var s1 := Registered(s, caller, r);
    StepInv(s, Register(caller, r));
    SecondFacts(s, caller, r, a);
    var first, second := if Charges(r) then a else r.id, if Charges(r) then r.id else a;
    events := TwoOnOneCursor(s1, first, second);
  }

  lemma AtMostEight(s: State)
    requires BudgetInv(s)
    ensures |s.cursors| <= MAX_CURSORS
  {
  }

  lemma SecondFacts(s: State, caller: nat, r: Request, a: Id)
    requires Refusal(s, r).None? && !r.op.PrepareExecute? && a in s.pending && a != r.id
    ensures var s1 := Registered(s, caller, r);
      && s1.reader == s.reader && !s1.closed && s1.cursors == s.cursors
      && a in s1.pending && s1.pending[a] == s.pending[a] && r.id in s1.pending && s1.pending[r.id].request == r
  {
  }

  /** Registering a request while the reader waits for the next frame keeps the budgets in every disciplined
      continuation exactly when no unanswered call is on its cursor but one that may share it: a close beside a close,
      or a charging call beside a charging request whose cursor is full. */
  lemma RegisterExactly(s: State, caller: nat, r: Request)
    requires Inv(s) && BudgetInv(s) && s.reader.Idle? && Enabled(s, Register(caller, r)) && FreshFor(s, r)
    ensures var s1 := Registered(s, caller, r);
      Alone(s, r) <==>
      forall events: seq<Event> | Possible(s1, events) && Disciplined(s1, events) :: WithinBudgets(Run(s1, events))
  {
    var s1 := Registered(s, caller, r);
    if Alone(s, r) {
      StepInv(s, Register(caller, r));
      StepBudget(s, Register(caller, r));
      forall events: seq<Event> | Possible(s1, events) && Disciplined(s1, events)
        ensures WithinBudgets(Run(s1, events))
      {
        RunBudget(s1, events);
      }
    } else {
      var events := SecondRequestPassesLimit(s, caller, r);
      assert !WithinBudgets(Run(s1, events));
    }
  }

  // ---- Runs from a new session ----

  /** The caller of a request on a cursor has the answer that names it. */
  predicate Knows(s: State, r: Request) {
    exists c | c in s.callers ::
      s.callers[c].request.op.PrepareExecute? && s.callers[c].request.id == r.contId && ReturnedSuccess(s.callers[c])
  }

  /** Callers use the cursors they were told of. */
  predicate Informed(s: State, events: seq<Event>)
    requires Possible(s, events)
    decreases |events|
  {
    events == []
    || ((events[0].Register? && (events[0].request.op.More? || events[0].request.op.CloseCursor?) ==>
           Knows(s, events[0].request))
        && Informed(Apply(s, events[0]), events[1..]))
  }

  lemma {:induction false} QueriesAreInformed(s: State, events: seq<Event>)
    requires Possible(s, events) && OnlyQueries(events)
    ensures Informed(s, events)
    decreases |events|
  {
    hide Enabled, Apply;
    if events != [] { QueriesAreInformed(Apply(s, events[0]), events[1..]); }
  }

  lemma {:induction false} InformedConcat(s: State, a: seq<Event>, b: seq<Event>)
    requires Possible(s, a) && Possible(Run(s, a), b) && Informed(s, a) && Informed(Run(s, a), b)
    ensures Possible(s, a + b) && Informed(s, a + b) && Run(s, a + b) == Run(Run(s, a), b)
    decreases |a|
  {
    hide Enabled, Apply, Knows;
    RunConcat(s, a, b);
    if a == [] {
      assert a + b == b;
    } else {
      assert Run(s, a) == Run(Apply(s, a[0]), a[1..]);
      InformedConcat(Apply(s, a[0]), a[1..], b);
      assert (a + b)[0] == a[0] && (a + b)[1..] == a[1..] + b;
    }
  }

  /** A query whose first page of this size has been returned to its caller. */
  function OpenQuery(p: Request, size: nat): seq<Event> {
    [Register(0, p)] + Exchange(Response(p.id, true, false, false), size) + [Take(0)]
  }

  /** The cursor is open, and nothing is on its way. */
  ghost predicate Opened(s: State, p: Request, size: nat) {
    && Inv(s) && BudgetInv(s) && s.reader.Idle? && !s.closed && s.pending == map[]
    && s.cursors == map[p.id := size] && s.callers.Keys == {0} && s.callers[0].request == p
    && ReturnedSuccess(s.callers[0])
  }

  lemma TakeRuns(s: State, c: nat)
    requires Enabled(s, Take(c))
    ensures Possible(s, [Take(c)]) && Run(s, [Take(c)]) == Returned(s, c, [], s.callers[c].inbox[0])
    ensures Disciplined(s, [Take(c)])
  {
    assert [Take(c)][1..] == [];
  }

  lemma FirstQuery(p: Request, size: nat)
    requires p.op.PrepareExecute? && PAGE <= size <= MAX_FRAME
    ensures var s, page := Registered(INIT, 0, p), Response(p.id, true, false, false);
      && Enabled(INIT, Register(0, p)) && Alone(INIT, p)
      && s.reader.Idle? && !s.closed && p.id in s.pending && s.pending - {p.id} == map[]
      && s.pending[p.id] == Pending(0, p) && s.callers == map[0 := Caller(p, [], None)]
      && Shortest(page) <= size
      && AcceptFailure(s, p, page, size).None? && AcceptedCursors(s.cursors, p, page, size) == map[p.id := size]
  {
  }

  lemma QueryRuns(p: Request, size: nat)
    requires p.op.PrepareExecute? && PAGE <= size <= MAX_FRAME
    ensures Possible(INIT, OpenQuery(p, size)) && Disciplined(INIT, OpenQuery(p, size))
    ensures var s, page := Run(INIT, OpenQuery(p, size)), Response(p.id, true, false, false);
      && s.reader.Idle? && !s.closed && s.pending == map[] && s.cursors == map[p.id := size]
      && s.callers == map[0 := Caller(p, [], Some(Success(page)))]
  {
    var page := Response(p.id, true, false, false);
    var first, answer := [Register(0, p)], Exchange(page, size);
    FirstQuery(p, size);
    InitInv();
    hide Inv, Possible, Run, Disciplined, Alone, Registered, AcceptFailure, AcceptedCursors, Charged, Exchange,
         SameCalls;
    RegisterRuns(INIT, 0, p);
    RunInv(INIT, first);
    var s := Registered(INIT, 0, p);
    AnswerDelivers(s, page, size);
    DisciplinedConcat(INIT, first, answer);
    var s1 := Run(s, answer);
    assert s1.callers[0] == Caller(p, [Success(page)], None);
    TakeRuns(s1, 0);
    DisciplinedConcat(INIT, first + answer, [Take(0)]);
  }

  /** Such a query is a run of well-informed callers, and opens its cursor. */
  lemma QueryOpens(p: Request, size: nat)
    requires p.op.PrepareExecute? && PAGE <= size <= MAX_FRAME
    ensures Possible(INIT, OpenQuery(p, size)) && Informed(INIT, OpenQuery(p, size))
    ensures Opened(Run(INIT, OpenQuery(p, size)), p, size)
  {
    QueryRuns(p, size);
    InitInv();
    InitBudget();
    hide Inv, BudgetInv, Possible, Run, Disciplined, Informed;
    RunInv(INIT, OpenQuery(p, size));
    RunBudget(INIT, OpenQuery(p, size));
    QueriesAreInformed(INIT, OpenQuery(p, size));
  }

  lemma InitBudget()
    ensures BudgetInv(INIT)
  {
  }

  /** A first More on an open cursor. */
  lemma MoreOpens(s: State, p: Request, m: Request, size: nat)
    requires Opened(s, p, size) && p.op.PrepareExecute? && m.op.More? && m.contId == p.id != m.id
    ensures Enabled(s, Register(1, m)) && Alone(s, m) && Knows(s, m)
    ensures var s1 := Registered(s, 1, m);
      && Inv(s1) && BudgetInv(s1) && s1.reader.Idle? && !s1.closed && s1.cursors == s.cursors
      && s1.callers == s.callers[1 := Caller(m, [], None)] && s1.pending == map[m.id := Pending(1, m)]
  {
    assert s.callers[0].request.id == m.contId;
    SettledBy(s);
    StepInv(s, Register(1, m));
    StepBudget(s, Register(1, m));
  }

  /** A call that has returned is not waited for. */
  lemma SettledBy(s: State)
    requires SettledInv(s) && s.reader.Idle?
    ensures forall c | c in s.callers && ReturnedSuccess(s.callers[c]) :: !Unaccepted(s, c)
  {
    assert forall c | c in s.callers && ReturnedSuccess(s.callers[c]) :: Succeeded(s.callers[c]);
  }

  /** A query has been answered, and one More on its cursor waits. */
  predicate OneWaits(s: State, p: Request, m: Request, size: nat) {
    && s.reader.Idle? && !s.closed && s.callers.Keys == {0, 1}
    && s.callers[0].request == p && ReturnedSuccess(s.callers[0]) && s.callers[1].request == m
    && s.pending == map[m.id := Pending(1, m)] && s.cursors == map[p.id := size]
  }

  lemma WaitsAlone(s: State, p: Request, m: Request, n: Request, size: nat)
    requires OneWaits(s, p, m, size) && m.op.More? && n.op.More?
    requires m.contId == n.contId == p.id != m.id && n.id != p.id && n.id != m.id
    ensures FreshFor(s, n) && (Alone(s, n) <==> size + LAST_PAGE > MAX_AGGREGATE)
  {
    assert Unaccepted(s, 1) && !Unaccepted(s, 0) && SameCursor(m, n);
  }

  lemma WaitsEnabled(s: State, p: Request, m: Request, n: Request, size: nat)
    requires OneWaits(s, p, m, size) && p.op.PrepareExecute? && n.op.More? && n.contId == p.id && n.id != m.id
    ensures Enabled(s, Register(2, n)) && Knows(s, n)
  {
    assert s.callers[0].request.id == n.contId;
  }

  /** A second More may be sent while the first one waits exactly when the cursor is full. */
  lemma SecondMore(s: State, p: Request, m: Request, n: Request, size: nat)
    requires Opened(s, p, size) && p.op.PrepareExecute? && m.op.More? && n.op.More?
    requires m.contId == n.contId == p.id != m.id && n.id != p.id && n.id != m.id
    ensures var s1 := Registered(s, 1, m);
      && Enabled(s1, Register(2, n)) && FreshFor(s1, n) && Knows(s1, n)
      && (Alone(s1, n) <==> size + LAST_PAGE > MAX_AGGREGATE)
  {
    hide Inv, BudgetInv, Registered, Enabled, Knows, FreshFor, Alone, ReturnedSuccess;
    MoreOpens(s, p, m, size);
    var s1 := Registered(s, 1, m);
    assert s1.callers.Keys == {0, 1} && s1.callers[0] == s.callers[0];
    WaitsAlone(s1, p, m, n, size);
    WaitsEnabled(s1, p, m, n, size);
  }

  /** A query with a first page of this size and two Mores, the second sent while the first one waits. */
  function TwoMores(p: Request, m: Request, n: Request, size: nat): seq<Event> {
    OpenQuery(p, size) + [Register(1, m)] + [Register(2, n)]
  }

  lemma TwoMoresRun(p: Request, m: Request, n: Request, size: nat)
    requires p.op.PrepareExecute? && m.op.More? && n.op.More? && PAGE <= size <= MAX_FRAME
    requires m.contId == n.contId == p.id != m.id && n.id != p.id && n.id != m.id
    ensures Possible(INIT, OpenQuery(p, size)) && Opened(Run(INIT, OpenQuery(p, size)), p, size)
    ensures Possible(INIT, TwoMores(p, m, n, size)) && Informed(INIT, TwoMores(p, m, n, size))
    ensures Run(INIT, TwoMores(p, m, n, size)) ==
      Registered(Registered(Run(INIT, OpenQuery(p, size)), 1, m), 2, n)
  {
    QueryOpens(p, size);
    var s := Run(INIT, OpenQuery(p, size));
    MoreOpens(s, p, m, size);
    SecondMore(s, p, m, n, size);
    hide Inv, BudgetInv, Possible, Run, Disciplined, Informed, Enabled, Registered, Opened, OpenQuery, Knows;
    InformedRegister(s, 1, m);
    InformedConcat(INIT, OpenQuery(p, size), [Register(1, m)]);
    var s1 := Registered(s, 1, m);
    InformedRegister(s1, 2, n);
    InformedConcat(INIT, OpenQuery(p, size) + [Register(1, m)], [Register(2, n)]);
  }

  lemma InformedRegister(s: State, caller: nat, r: Request)
    requires Enabled(s, Register(caller, r)) && Knows(s, r)
    ensures var one := [Register(caller, r)];
      Possible(s, one) && Informed(s, one) && Run(s, one) == Registered(s, caller, r)
  {
    assert [Register(caller, r)][1..] == [];
  }

  /** Two Mores on a cursor that is not full: some run of well-informed callers passes the limit of eight cursors. */
  lemma UndisciplinedRunPassesLimit()
    ensures exists events ::
      Possible(INIT, events) && Informed(INIT, events) && |Run(INIT, events).cursors| == MAX_CURSORS + 1
  {
    assert "p" != "m" && "p" != "n" && "m" != "n";
    var events := PassLimit(Request("p", PrepareExecute, ""), Request("m", More, "p"), Request("n", More, "p"));
  }

  lemma PassLimit(p: Request, m: Request, n: Request) returns (events: seq<Event>)
    requires p.op.PrepareExecute? && m.op.More? && n.op.More?
    requires m.contId == n.contId == p.id != m.id && n.id != p.id && n.id != m.id
    ensures Possible(INIT, events) && Informed(INIT, events) && |Run(INIT, events).cursors| == MAX_CURSORS + 1
  {
    TwoMoresRun(p, m, n, PAGE);
    var s := Run(INIT, OpenQuery(p, PAGE));
    MoreOpens(s, p, m, PAGE);
    SecondMore(s, p, m, n, PAGE);
    hide Inv, BudgetInv, Possible, Run, Disciplined, Informed, Enabled, FreshFor, Registered, Opened, Alone,
         OnlyQueries;
    var s1 := Registered(s, 1, m);
    var more := SecondRequestPassesLimit(s1, 2, n);
    QueriesAreInformed(Registered(s1, 2, n), more);
    InformedConcat(INIT, TwoMores(p, m, n, PAGE), more);
    events := TwoMores(p, m, n, PAGE) + more;
  }

  lemma {:induction false} RequestsKept(s: State, events: seq<Event>)
    requires Possible(s, events)
    ensures var s' := Run(s, events);
      forall c | c in s.callers :: c in s'.callers && s'.callers[c].request == s.callers[c].request
    decreases |events|
  {
    if events != [] {
      StepRequests(s, events[0]);
      RequestsKept(Apply(s, events[0]), events[1..]);
    }
  }

  lemma StepRequests(s: State, e: Event)
    requires Enabled(s, e)
    ensures var s' := Apply(s, e);
      forall c | c in s.callers :: c in s'.callers && s'.callers[c].request == s.callers[c].request
  {
  }

  /** Likewise some run is about to hand a caller a response after its cursor has been charged more than 1 MiB. */
  lemma UndisciplinedRunPassesBudget()
    ensures exists events ::
      && Possible(INIT, events) && Informed(INIT, events)
      && Run(INIT, events).reader.Removed? && !WithinDelivery(Run(INIT, events))
  {
    assert "p" != "m" && "p" != "n" && "m" != "n";
    var events := PassBudget(Request("p", PrepareExecute, ""), Request("m", More, "p"), Request("n", More, "p"));
  }

  lemma PassBudget(p: Request, m: Request, n: Request) returns (events: seq<Event>)
    requires p.op.PrepareExecute? && m.op.More? && n.op.More?
    requires m.contId == n.contId == p.id != m.id && n.id != p.id && n.id != m.id
    ensures Possible(INIT, events) && Informed(INIT, events) && !WithinDelivery(Run(INIT, events))
  {
    TwoMoresRun(p, m, n, PAGE);
    var s := Run(INIT, OpenQuery(p, PAGE));
    MoreOpens(s, p, m, PAGE);
    SecondMore(s, p, m, n, PAGE);
    var s1 := Registered(s, 1, m);
    var s2 := Registered(s1, 2, n);
    StepInv(s1, Register(2, n));
    CursorPending(s1, p, m, n);
    hide Inv, BudgetInv, Possible, Run, Informed, Enabled, FreshFor, Registered, Opened, Alone, OnlyQueries, MayDrop;
    var more := SecondRequestBreaksBudget(s2, m.id, n.id);
    QueriesAreInformed(s2, more);
    RequestsKept(s2, more);
    InformedConcat(INIT, TwoMores(p, m, n, PAGE), more);
    events := TwoMores(p, m, n, PAGE) + more;
  }

  lemma CursorPending(s1: State, p: Request, m: Request, n: Request)
    requires BudgetInv(s1) && m.op.More? && n.op.More? && m.contId == n.contId == p.id && n.id != m.id
    requires s1.cursors == map[p.id := PAGE] && s1.pending == map[m.id := Pending(1, m)]
    ensures var s2 := Registered(s1, 2, n);
      && m.id in s2.pending && n.id in s2.pending && s2.reader == s1.reader
      && s2.pending[m.id].request == m && s2.pending[n.id] == Pending(2, n) && MayDrop(s2, m)
      && 2 in s2.callers && s2.callers[2].request == n
  {
    hide SettledInv, TargetsInv, ExclusiveInv, DeliveryInv, IdsInv;
  }

  /** A cursor that one frame has filled, and that answers two Mores at a time: the second is no danger. */
  lemma FullCursorIsSafe(p: Request, m: Request, n: Request)
    requires p.op.PrepareExecute? && m.op.More? && n.op.More?
    requires m.contId == n.contId == p.id != m.id && n.id != p.id && n.id != m.id
    ensures Possible(INIT, TwoMores(p, m, n, MAX_FRAME)) && Informed(INIT, TwoMores(p, m, n, MAX_FRAME))
    ensures var s := Run(INIT, TwoMores(p, m, n, MAX_FRAME));
      && m.id in s.pending && n.id in s.pending
      && forall events: seq<Event> | Possible(s, events) && Disciplined(s, events) :: WithinBudgets(Run(s, events))
  {
    TwoMoresRun(p, m, n, MAX_FRAME);
    var s := Run(INIT, OpenQuery(p, MAX_FRAME));
    MoreOpens(s, p, m, MAX_FRAME);
    SecondMore(s, p, m, n, MAX_FRAME);
    hide Inv, BudgetInv, Possible, Run, Disciplined, Informed, Enabled, FreshFor, Opened, Alone, WithinBudgets;
    RegisterExactly(Registered(s, 1, m), 2, n);
  }
}
