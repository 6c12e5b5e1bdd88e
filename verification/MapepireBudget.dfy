/** Cursor budgets of the Mapepire client. When a request has a fresh ID and shares its cursor with no unanswered call,
    but close with close and charge with charge on a full cursor, the session never holds more than eight cursors and
    never delivers a response once its cursor has been charged more than 1 MiB. A caller that waits for its earlier
    successes on a cursor keeps to that. */
module MapepireBudget {
  import opened MapepireProtocol

  predicate HasCursor(r: Request) { !r.op.Other? }

  predicate SameCursor(q: Request, r: Request) { HasCursor(q) && HasCursor(r) && CursorOf(q) == CursorOf(r) }

  predicate ReturnedSuccess(c: Caller) { c.returned.Some? && c.returned.value.Success? }

  predicate ReaderGone(s: State) { s.reader.Stopping? || s.reader.Stopped? }

  /** The reader may still charge a cursor for this call. */
  predicate Unaccepted(s: State, c: nat)
    requires c in s.callers
  {
    || (s.reader.Found? && s.reader.caller == c)
    || (IsPending(s, c) && !(s.reader.Accepted? && s.reader.caller == c))
  }

  /** The length of the shortest last page. */
  const LAST_PAGE: nat := 63

  /** The count leaves no room for a last page, which would drop the cursor. */
  predicate Full(s: State, t: Id) { t in s.cursors && s.cursors[t] + LAST_PAGE > MAX_AGGREGATE }

  /** Two requests that may share a cursor: closes, or charging requests on a full one. */
  predicate MayShare(s: State, q: Request, r: Request) {
    || (q.op.CloseCursor? && r.op.CloseCursor?)
    || (Charges(q) && Charges(r) && Full(s, CursorOf(r)))
  }

  /** The ID is fresh, and no call that may still be answered is on the request's cursor, but for those that may share
      it. */
  predicate Alone(s: State, r: Request) {
    forall c | c in s.callers ::
      && s.callers[c].request.id != r.id
      && (SameCursor(s.callers[c].request, r) && Unaccepted(s, c) ==> MayShare(s, s.callers[c].request, r))
  }

  predicate Disciplined(s: State, events: seq<Event>)
    requires Possible(s, events)
    decreases |events|
  {
    events == []
    || ((events[0].Register? ==> Alone(s, events[0].request)) && Disciplined(Apply(s, events[0]), events[1..]))
  }

  /** What a caller can check: it has the success of every earlier request on the cursor. */
  predicate Waits(s: State, r: Request) {
    forall c | c in s.callers ::
      && s.callers[c].request.id != r.id
      && (SameCursor(s.callers[c].request, r) ==> ReturnedSuccess(s.callers[c]))
  }

  lemma WaitingIsAlone(s: State, r: Request)
    requires SettledInv(s) && Waits(s, r)
    ensures Alone(s, r)
  {
    assert forall c | c in s.callers && ReturnedSuccess(s.callers[c]) :: Succeeded(s.callers[c]);
  }

  /** A success is in the channel of this call or already returned. */
  predicate Succeeded(c: Caller) {
    ReturnedSuccess(c) || (c.inbox != [] && c.inbox[0].Success?)
  }

  predicate ReaderHolds(s: State, c: nat) {
    match s.reader
    case Found(d, _, _, _) => c == d
    case Accepted(d, _) => c == d
    case Removed(d, _) => c == d
    case _ => false
  }

  /** IDs are fresh: no two calls share one, every charged cursor was named by a call, and only such cursors are
      used. */
  ghost predicate IdsInv(s: State) {
    && (forall c, d | c in s.callers && d in s.callers && s.callers[c].request.id == s.callers[d].request.id :: c == d)
    && (forall t | t in s.charged :: exists c :: c in s.callers && s.callers[c].request.id == t)
    && (forall c | c in s.callers && HasCursor(s.callers[c].request) :: CursorOf(s.callers[c].request) in s.charged)
  }

  /** Nothing is pending or on its way for a call that has its success. */
  ghost predicate SettledInv(s: State) {
    forall c | c in s.callers && Succeeded(s.callers[c]) :: !IsPending(s, c) && !ReaderHolds(s, c)
  }

  ghost predicate CursorsInv(s: State) {
    && |s.cursors| <= MAX_CURSORS
    && (forall t | t in s.cursors :: t in s.charged && s.charged[t] == s.cursors[t])
    && (!ReaderGone(s) ==> forall t | t in s.cursors :: s.cursors[t] <= MAX_AGGREGATE)
  }

  predicate Targets(s: State, c: nat, t: Id)
    requires c in s.callers
  {
    HasCursor(s.callers[c].request) && CursorOf(s.callers[c].request) == t && Unaccepted(s, c)
  }

  /** While the reader runs, the cursor of a call that may still charge it exists, and belongs to that call alone or is
      full. */
  ghost predicate TargetsInv(s: State) {
    !ReaderGone(s) ==>
      (forall c | c in s.callers && Charges(s.callers[c].request) && Unaccepted(s, c) ::
         CursorOf(s.callers[c].request) in s.cursors)
  }

  ghost predicate ExclusiveInv(s: State) {
    !ReaderGone(s) ==>
      (forall t, c, d | c in s.callers && d in s.callers && Targets(s, c, t) && Targets(s, d, t) ::
         c == d || MayShare(s, s.callers[c].request, s.callers[d].request))
  }

  /** The response on its way to a call was within its cursor's budget, all earlier charges included. */
  ghost predicate DeliveryInv(s: State) {
    s.reader.Accepted? || s.reader.Removed? ==>
      var c := s.reader.caller;
      c in s.callers && Charges(s.callers[c].request) ==>
        var t := CursorOf(s.callers[c].request);
        t in s.charged && s.charged[t] <= MAX_AGGREGATE
  }

  ghost predicate BudgetInv(s: State) {
    IdsInv(s) && SettledInv(s) && CursorsInv(s) && TargetsInv(s) && ExclusiveInv(s) && DeliveryInv(s)
  }

  lemma RegisterIds(s: State, caller: nat, r: Request)
    requires IdsInv(s) && caller !in s.callers && Alone(s, r)
    requires HasCursor(r) && !r.op.PrepareExecute? ==> CursorOf(r) in s.charged
    ensures IdsInv(Registered(s, caller, r))
  {
    hide Alone;
    var s' := Registered(s, caller, r);
    forall t | t in s'.charged
      ensures exists c :: c in s'.callers && s'.callers[c].request.id == t
    {
      if t == r.id {
        assert s'.callers[caller].request.id == t;
      } else {
        var c :| c in s.callers && s.callers[c].request.id == t;
        assert s'.callers[c].request.id == t;
      }
    }
    FreshId(s, r);
  }

  lemma FreshId(s: State, r: Request)
    requires Alone(s, r)
    ensures forall c | c in s.callers :: s.callers[c].request.id != r.id
  {
  }

  lemma RegisterUnaccepted(s: State, caller: nat, r: Request)
    requires PendingInv(s) && ReaderInv(s) && caller !in s.callers && Alone(s, r)
    ensures var s' := Registered(s, caller, r);
      && (forall c | c in s.callers :: IsPending(s', c) == IsPending(s, c) && Unaccepted(s', c) == Unaccepted(s, c))
  {}

  lemma RegisterSettled(s: State, caller: nat, r: Request)
    requires PendingInv(s) && ReaderInv(s) && SettledInv(s) && caller !in s.callers && Alone(s, r)
    ensures SettledInv(Registered(s, caller, r))
  {
    RegisterUnaccepted(s, caller, r);
  }

  lemma RegisterTargets(s: State, caller: nat, r: Request)
    requires PendingInv(s) && ReaderInv(s) && TargetsInv(s) && ExclusiveInv(s) && r.id !in s.cursors
    requires caller !in s.callers && Refusal(s, r).None? && Alone(s, r)
    ensures TargetsInv(Registered(s, caller, r)) && ExclusiveInv(Registered(s, caller, r))
  {
    RegisterUnaccepted(s, caller, r);
    var s' := Registered(s, caller, r);
    forall d | d in s.callers && SameCursor(s.callers[d].request, r) && Unaccepted(s', d)
      ensures MayShare(s, s.callers[d].request, r)
    {}
    hide Alone, Unaccepted, Refusal;
    forall t, d | d in s.callers && Targets(s', d, t)
      ensures Targets(s, d, t)
    {}
    CursorThere(s, r);
  }

  lemma CursorThere(s: State, r: Request)
    requires Refusal(s, r).None?
    ensures HasCursor(r) ==> CursorOf(r) in s.cursors || r.op.PrepareExecute?
  {
  }

  lemma RegisterCursors(s: State, caller: nat, r: Request)
    requires CursorsInv(s) && DeliveryInv(s) && ReaderInv(s) && r.id !in s.charged
    requires Refusal(s, r).None? && caller !in s.callers
    ensures CursorsInv(Registered(s, caller, r)) && DeliveryInv(Registered(s, caller, r))
  {
    hide IsPending;
  }

  lemma FreshCursor(s: State, r: Request)
    requires IdsInv(s) && Alone(s, r)
    ensures r.id !in s.charged
  {
    FreshId(s, r);
  }

  /** A step that leaves calls and entries alone and gives the reader at most a pending call keeps what is
      said about unaccepted calls. */
  lemma ReaderStep(s: State, s': State)
    requires SettledInv(s) && TargetsInv(s) && ExclusiveInv(s)
    requires s'.callers == s.callers && s'.pending == s.pending && s'.cursors == s.cursors
    requires ReaderGone(s) ==> ReaderGone(s')
    requires forall c | c in s.callers :: ReaderHolds(s', c) ==> ReaderHolds(s, c) || IsPending(s, c)
    requires forall c | c in s.callers :: Unaccepted(s', c) ==> Unaccepted(s, c)
    ensures SettledInv(s') && TargetsInv(s') && ExclusiveInv(s')
  {
    forall t, c | c in s.callers && Targets(s', c, t)
      ensures Targets(s, c, t)
    {}
  }

  /** The reader found the entry of `id`, or nothing. */
  predicate LooksUp(s: State, s': State, id: Id) {
    && s' == s.(reader := s'.reader)
    && (s'.reader.Stopping? || (id in s.pending && s'.reader.Found? && s'.reader.caller == s.pending[id].caller))
  }

  lemma LookupTargets(s: State, s': State, id: Id)
    requires PendingInv(s) && SettledInv(s) && TargetsInv(s) && ExclusiveInv(s) && s.reader.Idle?
    requires LooksUp(s, s', id)
    ensures SettledInv(s') && TargetsInv(s') && ExclusiveInv(s')
  {
    forall c | c in s.callers
      ensures Unaccepted(s', c) == Unaccepted(s, c)
      ensures ReaderHolds(s', c) ==> IsPending(s, c)
    {
      assert s'.reader.Found? && s'.reader.caller == c ==> IsPending(s, c);
    }
    ReaderStep(s, s');
  }

  lemma AcceptTargets(s: State)
    requires ReaderInv(s) && SettledInv(s) && TargetsInv(s) && ExclusiveInv(s) && s.reader.Found?
    ensures SettledInv(AcceptedState(s)) && TargetsInv(AcceptedState(s)) && ExclusiveInv(AcceptedState(s))
  {
    var s' := AcceptedState(s);
    var c := s.reader.caller;
    assert Unaccepted(s, c);
    if s'.reader.Accepted? {
      forall d | d in s.callers
        ensures Unaccepted(s', d) <==> d != c && Unaccepted(s, d)
      {}
      forall d | d in s.callers && Charges(s.callers[d].request) && Unaccepted(s', d)
        ensures CursorOf(s.callers[d].request) in s'.cursors
      {
        var t := CursorOf(s.callers[d].request);
        assert Targets(s, d, t) && (Targets(s, c, t) ==> MayShare(s, s.callers[c].request, s.callers[d].request));
      }
      forall t, d, e | d in s.callers && e in s.callers && Targets(s', d, t) && Targets(s', e, t)
        ensures d == e || MayShare(s', s.callers[d].request, s.callers[e].request)
      {
        assert Targets(s, d, t) && Targets(s, e, t);
      }
    }
  }

  lemma AcceptCursors(s: State)
    requires ReaderInv(s) && CursorsInv(s) && TargetsInv(s) && s.reader.Found?
    ensures CursorsInv(AcceptedState(s)) && DeliveryInv(AcceptedState(s))
  {
    var c, r := s.reader.caller, s.reader.request;
    assert Unaccepted(s, c);
    var s' := AcceptedState(s);
    assert Charges(r) ==> CursorOf(r) in s.cursors;
    assert s'.cursors.Keys <= s.cursors.Keys;
    FewerKeys(s'.cursors, s.cursors);
  }

  lemma FewerKeys(a: map<Id, nat>, b: map<Id, nat>)
    requires a.Keys <= b.Keys
    ensures |a| <= |b|
  {
    assert |a| == |a.Keys| && |b| == |b.Keys|;
    SubsetSize(a.Keys, b.Keys);
  }

  lemma {:induction false} SubsetSize(a: set<Id>, b: set<Id>)
    requires a <= b
    ensures |a| <= |b|
  {
    if a != {} {
      var x :| x in a;
      SubsetSize(a - {x}, b - {x});
    }
  }

  lemma AcceptIds(s: State)
    requires IdsInv(s) && ReaderInv(s) && CursorsInv(s) && TargetsInv(s) && s.reader.Found?
    ensures IdsInv(AcceptedState(s))
  {
    var s' := AcceptedState(s);
    assert Unaccepted(s, s.reader.caller);
    assert s'.callers == s.callers;
    assert forall t | t in s'.charged :: t in s.charged;
  }

  lemma RemoveTargets(s: State)
    requires PendingInv(s) && ReaderInv(s) && IdsInv(s) && SettledInv(s) && TargetsInv(s) && ExclusiveInv(s)
      && s.reader.Accepted?
    ensures SettledInv(RemovedState(s)) && TargetsInv(RemovedState(s)) && ExclusiveInv(RemovedState(s))
  {
    var s' := RemovedState(s);
    forall d | d in s.callers
      ensures Unaccepted(s', d) ==> Unaccepted(s, d)
    {}
    forall t, d | d in s.callers && Targets(s', d, t)
      ensures Targets(s, d, t)
    {}
  }

  lemma DeliverTargets(s: State)
    requires ReaderInv(s) && IdsInv(s) && SettledInv(s) && TargetsInv(s) && ExclusiveInv(s)
    requires s.reader.Removed? && s.reader.caller in s.callers
    ensures SettledInv(Delivered(s)) && TargetsInv(Delivered(s)) && ExclusiveInv(Delivered(s))
  {
    var s' := Delivered(s);
    forall d | d in s.callers
      ensures Unaccepted(s', d) == Unaccepted(s, d) && s'.callers[d].request == s.callers[d].request
    {}
    forall t, d | d in s.callers && Targets(s', d, t)
      ensures Targets(s, d, t)
    {}
  }

  /** IdsInv depends on the requests and the charges alone. */
  lemma KeepIds(s: State, s': State)
    requires IdsInv(s) && s'.charged == s.charged && s'.callers.Keys == s.callers.Keys
    requires forall c | c in s.callers :: s'.callers[c].request == s.callers[c].request
    ensures IdsInv(s')
  {
    forall t | t in s'.charged
      ensures exists c :: c in s'.callers && s'.callers[c].request.id == t
    {
      var c :| c in s.callers && s.callers[c].request.id == t;
      assert s'.callers[c].request.id == t;
    }
  }

  /** CursorsInv and DeliveryInv depend on the counts, the requests and the response on its way. */
  lemma KeepCursors(s: State, s': State)
    requires CursorsInv(s) && DeliveryInv(s) && (ReaderGone(s) ==> ReaderGone(s'))
    requires s'.charged == s.charged && s'.cursors == s.cursors && s'.callers.Keys == s.callers.Keys
    requires forall c | c in s.callers :: s'.callers[c].request == s.callers[c].request
    requires s'.reader.Accepted? || s'.reader.Removed? ==>
               (s.reader.Accepted? || s.reader.Removed?) && s'.reader.caller == s.reader.caller
    ensures CursorsInv(s') && DeliveryInv(s')
  {}

  /** A return changes one call's channel and result, and makes no new success. */
  lemma ReturnTargets(s: State, c: nat, inbox: seq<Message>, result: Message)
    requires SettledInv(s) && TargetsInv(s) && ExclusiveInv(s) && c in s.callers
    requires inbox == [] || inbox == s.callers[c].inbox
    requires result.Success? ==> Succeeded(s.callers[c])
    ensures var s' := Returned(s, c, inbox, result);
      SettledInv(s') && TargetsInv(s') && ExclusiveInv(s')
  {
    var s' := Returned(s, c, inbox, result);
    forall t, d | d in s.callers && Targets(s', d, t)
      ensures Targets(s, d, t)
    {}
  }

  lemma DrainTargets(s: State, f: Failure)
    requires PendingInv(s) && SettledInv(s) && TargetsInv(s) && ExclusiveInv(s)
    ensures var s' := Drained(s, f);
      SettledInv(s') && TargetsInv(s') && ExclusiveInv(s')
  {
    var s' := Drained(s, f);
    forall t, d | d in s.callers && Targets(s', d, t)
      ensures Targets(s, d, t)
    {}
  }

  /** The shutdown flags do not matter to the budgets, and a reader that stops charges nothing more. */
  lemma QuitTargets(s: State, s': State)
    requires SettledInv(s) && TargetsInv(s) && ExclusiveInv(s)
    requires s'.pending == s.pending && s'.cursors == s.cursors && s'.callers == s.callers
    requires s'.reader == s.reader || ReaderGone(s')
    ensures SettledInv(s') && TargetsInv(s') && ExclusiveInv(s')
  {
    if !ReaderGone(s') {
      forall t, d | d in s.callers && Targets(s', d, t)
        ensures Targets(s, d, t)
      {}
    }
  }

  /** The budgets of a state that only moved messages, pending entries or the reader. */
  lemma KeepBudget(s: State, s': State)
    requires IdsInv(s) && CursorsInv(s) && DeliveryInv(s)
    requires SettledInv(s') && TargetsInv(s') && ExclusiveInv(s') && (ReaderGone(s) ==> ReaderGone(s'))
    requires s'.charged == s.charged && s'.cursors == s.cursors && s'.callers.Keys == s.callers.Keys
    requires forall c | c in s.callers :: s'.callers[c].request == s.callers[c].request
    requires s'.reader.Accepted? || s'.reader.Removed? ==>
               (s.reader.Accepted? || s.reader.Removed?) && s'.reader.caller == s.reader.caller
    ensures BudgetInv(s')
  {
    KeepIds(s, s');
    KeepCursors(s, s');
  }

  lemma RegisterBudget(s: State, caller: nat, r: Request)
    requires BudgetInv(s) && PendingInv(s) && ReaderInv(s)
    requires caller !in s.callers && Refusal(s, r).None? && Alone(s, r)
    ensures BudgetInv(Registered(s, caller, r))
  {
    CursorThere(s, r);
    RegisterIds(s, caller, r);
    FreshCursor(s, r);
    RegisterSettled(s, caller, r);
    RegisterTargets(s, caller, r);
    RegisterCursors(s, caller, r);
  }

  lemma AcceptBudget(s: State)
    requires BudgetInv(s) && ReaderInv(s) && s.reader.Found?
    ensures BudgetInv(AcceptedState(s))
  {
    AcceptIds(s);
    AcceptTargets(s);
    AcceptCursors(s);
  }

  lemma LookupBudget(s: State, s': State, id: Id)
    requires BudgetInv(s) && PendingInv(s) && s.reader.Idle? && LooksUp(s, s', id)
    ensures BudgetInv(s')
  {
    LookupTargets(s, s', id);
    KeepBudget(s, s');
  }

  lemma RemoveBudget(s: State)
    requires BudgetInv(s) && PendingInv(s) && ReaderInv(s) && s.reader.Accepted?
    ensures BudgetInv(RemovedState(s))
  {
    RemoveTargets(s);
    KeepBudget(s, RemovedState(s));
  }

  lemma DeliverBudget(s: State)
    requires BudgetInv(s) && ReaderInv(s) && s.reader.Removed? && s.reader.caller in s.callers
    ensures BudgetInv(Delivered(s))
  {
    DeliverTargets(s);
    KeepBudget(s, Delivered(s));
  }

  lemma ReturnBudget(s: State, c: nat, inbox: seq<Message>, result: Message)
    requires BudgetInv(s) && c in s.callers
    requires inbox == [] || inbox == s.callers[c].inbox
    requires result.Success? ==> Succeeded(s.callers[c])
    ensures BudgetInv(Returned(s, c, inbox, result))
  {
    ReturnTargets(s, c, inbox, result);
    KeepBudget(s, Returned(s, c, inbox, result));
  }

  lemma DrainBudget(s: State, f: Failure)
    requires BudgetInv(s) && PendingInv(s)
    ensures BudgetInv(Drained(s, f))
  {
    DrainTargets(s, f);
    KeepBudget(s, Drained(s, f));
  }

  lemma QuitBudget(s: State, s': State)
    requires BudgetInv(s)
    requires s'.pending == s.pending && s'.cursors == s.cursors && s'.callers == s.callers && s'.charged == s.charged
    requires s'.reader == s.reader || ReaderGone(s')
    ensures BudgetInv(s')
  {
    QuitTargets(s, s');
    KeepBudget(s, s');
  }

  /** Every event of a disciplined run keeps the budgets. */
  lemma StepBudget(s: State, e: Event)
    requires Inv(s) && BudgetInv(s) && Enabled(s, e)
    requires e.Register? ==> Alone(s, e.request)
    ensures BudgetInv(Apply(s, e))
  {
    match e
    case Register(caller, r) => RegisterBudget(s, caller, r);
    case Accept => AcceptBudget(s);
    case Drain(f) => DrainBudget(s, f);
    case Take(c) => ReturnBudget(s, c, [], s.callers[c].inbox[0]);
    case GiveUp(c, f) => ReturnBudget(s, c, s.callers[c].inbox, Failure(f));
    case Lookup(response, size) => LookupBudget(s, LookedUp(s, response, size), response.id);
    case Remove => RemoveBudget(s);
    case Deliver => DeliverBudget(s);
    case SignalClosed => QuitBudget(s, Apply(s, e));
    case ReaderFails(_) => QuitBudget(s, Apply(s, e));
    case ReaderStops => QuitBudget(s, Apply(s, e));
  }

  lemma {:induction false} RunBudget(s: State, events: seq<Event>)
    requires Inv(s) && BudgetInv(s) && Possible(s, events) && Disciplined(s, events)
    ensures BudgetInv(Run(s, events))
    decreases |events|
  {
    if events != [] {
      StepInv(s, events[0]);
      StepBudget(s, events[0]);
      RunBudget(Apply(s, events[0]), events[1..]);
    }
  }

  /** Whatever response is about to be delivered, its cursor has been charged at most 1 MiB since it was registered. */
  predicate WithinDelivery(s: State) {
    s.reader.Removed? && s.reader.caller in s.callers && Charges(s.callers[s.reader.caller].request) ==>
      var t := CursorOf(s.callers[s.reader.caller].request);
      t in s.charged && s.charged[t] <= MAX_AGGREGATE
  }

  predicate WithinBudgets(s: State) { |s.cursors| <= MAX_CURSORS && WithinDelivery(s) }

  /** Every disciplined run keeps the budgets. */
  lemma DisciplineKeepsBudgets(events: seq<Event>)
    requires Possible(INIT, events) && Disciplined(INIT, events)
    ensures WithinBudgets(Run(INIT, events))
  {
    InitInv();
    RunBudget(INIT, events);
  }

  predicate Waiting(s: State, events: seq<Event>)
    requires Possible(s, events)
    decreases |events|
  {
    events == []
    || ((events[0].Register? ==> Waits(s, events[0].request)) && Waiting(Apply(s, events[0]), events[1..]))
  }

  /** A run in which every caller waits for its earlier successes is disciplined. */
  lemma {:induction false} WaitingIsDisciplined(s: State, events: seq<Event>)
    requires Inv(s) && BudgetInv(s) && Possible(s, events) && Waiting(s, events)
    ensures Disciplined(s, events)
    decreases |events|
  {
    if events != [] {
      var e := events[0];
      if e.Register? { WaitingIsAlone(s, e.request); }
      StepInv(s, e);
      StepBudget(s, e);
      WaitingIsDisciplined(Apply(s, e), events[1..]);
    }
  }
}
