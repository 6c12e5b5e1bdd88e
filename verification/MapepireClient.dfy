/** The client object: its mutex regions change the maps in place, each exactly as the state machine of
    MapepireProtocol does. */
module MapepireClient {
  import opened MapepireProtocol

  class Client {
    var pending: map<Id, Pending>
    var cursors: map<Id, nat>
    var failing: bool
    var closed: bool
    var callers: map<nat, Caller>
    var reader: Reader
    ghost var charged: map<Id, nat>

    constructor ()
      ensures Value() == INIT
    {
      pending, cursors, failing, closed, callers, reader, charged := map[], map[], false, false, map[], Idle, map[];
    }

    ghost function Value(): State
      reads this
    {
      State(pending, cursors, failing, closed, callers, reader, charged)
    }

    /** The registration region of Call. */
    method Register(caller: nat, r: Request) returns (refusal: Option<Failure>)
      modifies this
      ensures refusal == Refusal(old(Value()), r)
      ensures Value() == if refusal.None? then Registered(old(Value()), caller, r) else old(Value())
    {
      if |pending| >= MAX_PENDING { return Some(LimitExceeded); }
      if closed { return Some(SessionClosed); }
      if r.id in pending { return Some(ProtocolViolation); }
      if r.op.More? {
        if r.contId !in cursors { return Some(ProtocolViolation); }
      } else if r.op.CloseCursor? {
        if r.contId !in cursors { return Some(ProtocolViolation); }
      } else if r.op.PrepareExecute? {
        if |cursors| >= MAX_CURSORS { return Some(LimitExceeded); }
        cursors := cursors[r.id := 0];
        charged := charged[r.id := 0];
      }
      pending := pending[r.id := Pending(caller, r)];
      callers := callers[caller := Caller(r, [], None)];
      return None;
    }

    /** The lookup region of read. */
    method Lookup(response: Response, size: nat)
      requires reader.Idle?
      modifies this
      ensures Value() == LookedUp(old(Value()), response, size)
    {
      if response.id in pending {
        var call := pending[response.id];
        reader := Found(call.caller, call.request, response, size);
      } else {
        reader := Stopping(ProtocolViolation);
      }
    }

    /** acceptResponse, and the reader's verdict on the response. */
    method AcceptResponse()
      requires reader.Found?
      modifies this
      ensures Value() == AcceptedState(old(Value()))
    {
      var caller, request, response, size := reader.caller, reader.request, reader.response, reader.size;
      charged := Charged(charged, request, response, size);
      if response.tooWide {
        reader := Stopping(LimitExceeded);
        return;
      }
      if request.op.PrepareExecute? || request.op.More? {
        var id := request.id;
        if request.op.More? { id := request.contId; }
        cursors := cursors[id := CursorCount(cursors, id) + size];
        if cursors[id] > MAX_AGGREGATE {
          reader := Stopping(LimitExceeded);
          return;
        }
        if !response.success || response.isDone { cursors := cursors - {id}; }
      } else if request.op.CloseCursor? && response.success {
        cursors := cursors - {request.contId};
      }
      reader := if response.success then Accepted(caller, response) else Stopping(SqlError);
    }

    /** The delete region of read. */
    method RemoveEntry()
      requires reader.Accepted?
      modifies this
      ensures Value() == RemovedState(old(Value()))
    {
      pending := pending - {reader.response.id};
      reader := Removed(reader.caller, reader.response);
    }

    /** The drain loop of fail: it empties the pending map and tells every pending call. Each channel has
        room, so no send waits. */
    method DrainPending(f: Failure)
      requires PendingInv(Value())
      modifies this`pending, this`callers
      ensures pending == map[] && callers == Told(old(Value()), {}, f)
    {
      hide ToldCaller, Told, Shown;
      ghost var before := Value();
      ToldEnds(before, f);
      var todo := pending.Keys;
      while todo != {}
        invariant todo <= before.pending.Keys && pending.Keys == todo
        invariant forall id | id in todo :: pending[id].caller == before.pending[id].caller
        invariant callers == Told(before, todo, f)
        decreases |todo|
      {
        var id :| id in todo;
        ToldStep(before, todo, id, f);
        TellOne(id, f);
        todo := todo - {id};
      }
    }

    /** One round of the drain loop. */
    method TellOne(id: Id, f: Failure)
      requires id in pending && pending[id].caller in callers
      modifies this`pending, this`callers
      ensures pending == old(pending) - {id}
      ensures var c := old(pending)[id].caller;
        callers == old(callers)[c := old(callers)[c].(inbox := old(callers)[c].inbox + [Shown(f)])]
    {
      var c := pending[id].caller;
      pending := pending - {id};
      callers := callers[c := callers[c].(inbox := callers[c].inbox + [Shown(f)])];
    }

    /** The mutex region of fail: it runs once. */
    method Fail(f: Failure)
      requires PendingInv(Value())
      modifies this
      ensures Value() == if old(failing) then old(Value()) else Drained(old(Value()), f)
    {
      if failing { return; }
      ToldEnds(Value(), f);
      DrainPending(f);
      failing := true;
    }
  }

  /** A caller once every pending entry outside `todo` has been told. */
  ghost function ToldCaller(s: State, todo: set<Id>, f: Failure, c: nat): Caller
    requires c in s.callers
  {
    if IsPending(s, c) && s.callers[c].request.id !in todo
    then s.callers[c].(inbox := s.callers[c].inbox + [Shown(f)])
    else s.callers[c]
  }

  ghost function Told(s: State, todo: set<Id>, f: Failure): map<nat, Caller> {
    map c | c in s.callers :: ToldCaller(s, todo, f, c)
  }

  lemma ToldEnds(s: State, f: Failure)
    ensures Told(s, s.pending.Keys, f) == s.callers
    ensures Told(s, {}, f) == Drained(s, f).callers
  {}

  /** Only the entry's caller is told by a round. */
  lemma ToldChange(s: State, todo: set<Id>, id: Id, f: Failure, d: nat)
    requires PendingInv(s) && todo <= s.pending.Keys && id in todo && d in s.callers
    ensures var c := s.pending[id].caller;
      ToldCaller(s, todo - {id}, f, d) ==
        if d == c then s.callers[c].(inbox := s.callers[c].inbox + [Shown(f)]) else ToldCaller(s, todo, f, d)
    ensures d == s.pending[id].caller ==> ToldCaller(s, todo, f, d) == s.callers[d]
  {
    assert s.callers[s.pending[id].caller].request.id == id;
  }

  lemma ToldStep(s: State, todo: set<Id>, id: Id, f: Failure)
    requires PendingInv(s) && todo <= s.pending.Keys && id in todo
    ensures var c := s.pending[id].caller;
      && c in s.callers && c in Told(s, todo, f) && Told(s, todo, f)[c] == s.callers[c]
      && Told(s, todo - {id}, f) == Told(s, todo, f)[c := s.callers[c].(inbox := s.callers[c].inbox + [Shown(f)])]
  {
    assert s.pending[id].caller in s.callers;
    hide PendingInv, ToldCaller, Shown;
    forall d | d in s.callers {
      ToldChange(s, todo, id, f, d);
    }
  }
}
