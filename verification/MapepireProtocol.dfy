/** The multiplexed Mapepire client as a state machine. One event is one mutex region, one channel
    operation or one return of Call; any number of callers, one reader and one shutdown interleave
    freely. `charged` is history: the bytes charged to a cursor since its registration. */
module MapepireProtocol {
  const MAX_PENDING: nat := 64
  const MAX_CURSORS: nat := 8
  const MAX_AGGREGATE: nat := 0x10_0000
  const MAX_FRAME: nat := 0x10_0000

  type Id = string

  /** An ID is 18 random bytes in base64; a string of the model stands for its 24 characters. */
  const ID_LENGTH: nat := 24

  datatype Operation = PrepareExecute | More | CloseCursor | Other

  datatype Request = Request(id: Id, op: Operation, contId: Id)

  /** A decoded frame; `tooWide` stands for a row of more than 256 columns. */
  datatype Response = Response(id: Id, success: bool, isDone: bool, tooWide: bool)

  /** The length of the shortest JSON text of a response: the ID, and each flag that is set. */
  function Shortest(response: Response): nat {
    9 + ID_LENGTH + (if response.success then 15 else 0) + if response.isDone then 15 else 0
  }

  datatype Failure = LimitExceeded | ProtocolViolation | SessionClosed | ContextEnded | TransportBroken | SqlError

  datatype Message = Success(response: Response) | Failure(failure: Failure)

  datatype Option<T> = None | Some(value: T)

  datatype Pending = Pending(caller: nat, request: Request)

  /** One Call after its registration: its channel of capacity one and what it returned. */
  datatype Caller = Caller(request: Request, inbox: seq<Message>, returned: Option<Message>)

  datatype Reader =
    | Idle
    | Found(caller: nat, request: Request, response: Response, size: nat)
    | Accepted(caller: nat, response: Response)
    | Removed(caller: nat, response: Response)
    | Stopping(failure: Failure)
    | Stopped

  datatype State = State(
    pending: map<Id, Pending>, cursors: map<Id, nat>, failing: bool, closed: bool,
    callers: map<nat, Caller>, reader: Reader, charged: map<Id, nat>)

  const INIT := State(map[], map[], false, false, map[], Idle, map[])

  /** The cursor whose budget a response to this request is charged to. */
  predicate Charges(r: Request) { r.op.PrepareExecute? || r.op.More? }

  function CursorOf(r: Request): Id { if r.op.PrepareExecute? then r.id else r.contId }

  /** Why Call refuses to register a request, in the order of its checks. */
  function Refusal(s: State, r: Request): Option<Failure> {
    if |s.pending| >= MAX_PENDING then Some(LimitExceeded)
    else if s.closed then Some(SessionClosed)
    else if r.id in s.pending then Some(ProtocolViolation)
    else if (r.op.More? || r.op.CloseCursor?) && r.contId !in s.cursors then Some(ProtocolViolation)
    else if r.op.PrepareExecute? && |s.cursors| >= MAX_CURSORS then Some(LimitExceeded)
    else None
  }

  function Registered(s: State, caller: nat, r: Request): State {
    s.(pending := s.pending[r.id := Pending(caller, r)],
       callers := s.callers[caller := Caller(r, [], None)],
       cursors := if r.op.PrepareExecute? then s.cursors[r.id := 0] else s.cursors,
       charged := if r.op.PrepareExecute? then s.charged[r.id := 0] else s.charged)
  }

  /** acceptResponse: charges the cursor, enforces its budget, and drops finished cursors. A charge to a
      dropped cursor creates it again, from zero. */
  function CursorCount(cursors: map<Id, nat>, id: Id): nat { if id in cursors then cursors[id] else 0 }

  function AcceptFailure(s: State, r: Request, response: Response, size: nat): Option<Failure> {
    if response.tooWide then Some(LimitExceeded)
    else if Charges(r) && CursorCount(s.cursors, CursorOf(r)) + size > MAX_AGGREGATE then Some(LimitExceeded)
    else if !response.success then Some(SqlError)
    else None
  }

  function AcceptedCursors(cursors: map<Id, nat>, r: Request, response: Response, size: nat): map<Id, nat> {
    if response.tooWide then cursors
    else if Charges(r) then
      var id := CursorOf(r);
      var count := CursorCount(cursors, id) + size;
      if count <= MAX_AGGREGATE && (!response.success || response.isDone) then cursors - {id} else cursors[id := count]
    else if r.op.CloseCursor? && response.success then cursors - {r.contId}
    else cursors
  }

  function Charged(charged: map<Id, nat>, r: Request, response: Response, size: nat): map<Id, nat> {
    var id := CursorOf(r);
    if Charges(r) && !response.tooWide then charged[id := CursorCount(charged, id) + size] else charged
  }

  /** What a failing session sends to a pending call. */
  function Shown(f: Failure): Message {
    Failure(if f.ContextEnded? || f.LimitExceeded? then f else ProtocolViolation)
  }

  predicate IsPending(s: State, caller: nat)
    requires caller in s.callers
  {
    var id := s.callers[caller].request.id;
    id in s.pending && s.pending[id].caller == caller
  }

  function Drained(s: State, f: Failure): State {
    s.(failing := true, pending := map[],
       callers := map c | c in s.callers ::
         if IsPending(s, c) then s.callers[c].(inbox := s.callers[c].inbox + [Shown(f)]) else s.callers[c])
  }

  datatype Event =
    | Register(caller: nat, request: Request)
    | Drain(failure: Failure)
    | SignalClosed
    | Lookup(response: Response, size: nat)
    | ReaderFails(failure: Failure)
    | Accept
    | Remove
    | Deliver
    | ReaderStops
    | Take(caller: nat)
    | GiveUp(caller: nat, failure: Failure)

  /** The events the code can perform next. fail runs once; a thread that calls it goes on only after the
      session is closed; a send on a full channel waits. */
  predicate Enabled(s: State, e: Event) {
    match e
    case Register(caller, r) => caller !in s.callers && Refusal(s, r).None?
    case Drain(_) => !s.failing
    case SignalClosed => s.failing && !s.closed
    case Lookup(response, size) => s.reader.Idle? && Shortest(response) <= size <= MAX_FRAME
    case ReaderFails(_) => s.reader.Idle?
    case Accept => s.reader.Found?
    case Remove => s.reader.Accepted?
    case Deliver => s.reader.Removed? && s.reader.caller in s.callers && s.callers[s.reader.caller].inbox == []
    case ReaderStops => s.reader.Stopping? && s.closed
    case Take(c) => c in s.callers && s.callers[c].returned.None? && s.callers[c].inbox != []
    case GiveUp(c, f) => c in s.callers && s.callers[c].returned.None? && s.closed
  }

  function Apply(s: State, e: Event): State
    requires Enabled(s, e)
  {
    match e
    case Register(caller, r) => Registered(s, caller, r)
    case Drain(f) => Drained(s, f)
    case SignalClosed => s.(closed := true)
    case Lookup(response, size) => LookedUp(s, response, size)
    case ReaderFails(f) => s.(reader := Stopping(f))
    case Accept => AcceptedState(s)
    case Remove => RemovedState(s)
    case Deliver => Delivered(s)
    case ReaderStops => s.(reader := Stopped)
    case Take(c) => Returned(s, c, [], s.callers[c].inbox[0])
    case GiveUp(c, f) => Returned(s, c, s.callers[c].inbox, Failure(f))
  }

  /** read: the entry of the response's ID, found in one mutex region and used in later ones. */
  function LookedUp(s: State, response: Response, size: nat): State {
    if response.id in s.pending
    then s.(reader := Found(s.pending[response.id].caller, s.pending[response.id].request, response, size))
    else s.(reader := Stopping(ProtocolViolation))
  }

  function RemovedState(s: State): State
    requires s.reader.Accepted?
  {
    s.(pending := s.pending - {s.reader.response.id}, reader := Removed(s.reader.caller, s.reader.response))
  }

  function Delivered(s: State): State
    requires s.reader.Removed? && s.reader.caller in s.callers
  {
    var c := s.reader.caller;
    s.(callers := s.callers[c := s.callers[c].(inbox := [Success(s.reader.response)])], reader := Idle)
  }

  /** Call returns: a message taken from its channel, or the end of its context or session. */
  function Returned(s: State, c: nat, inbox: seq<Message>, result: Message): State
    requires c in s.callers
  {
    s.(callers := s.callers[c := s.callers[c].(inbox := inbox, returned := Some(result))])
  }

  function AcceptedState(s: State): State
    requires s.reader.Found?
  {
    var r, response, size := s.reader.request, s.reader.response, s.reader.size;
    var f := AcceptFailure(s, r, response, size);
    s.(cursors := AcceptedCursors(s.cursors, r, response, size),
       charged := Charged(s.charged, r, response, size),
       reader := if f.Some? then Stopping(f.value) else Accepted(s.reader.caller, response))
  }

  predicate Possible(s: State, events: seq<Event>)
    decreases |events|
  {
    events == [] || (Enabled(s, events[0]) && Possible(Apply(s, events[0]), events[1..]))
  }

  function Run(s: State, events: seq<Event>): State
    requires Possible(s, events)
    decreases |events|
  {
    if events == [] then s else Run(Apply(s, events[0]), events[1..])
  }

  /** The response does not report an error and is within the limit of columns. */
  predicate Sound(response: Response) { response.success && !response.tooWide }

  /** A success is a sound response to the call itself. */
  predicate OwnResponse(c: Caller, m: Message) {
    m.Success? ==> m.response.id == c.request.id && Sound(m.response)
  }

  ghost predicate PendingInv(s: State) {
    && |s.pending| <= MAX_PENDING
    && forall id | id in s.pending ::
         && s.pending[id].request.id == id
         && s.pending[id].caller in s.callers
         && s.callers[s.pending[id].caller].request == s.pending[id].request
         && s.callers[s.pending[id].caller].inbox == []
  }

  ghost predicate CallersInv(s: State) {
    forall c | c in s.callers ::
      && |s.callers[c].inbox| <= 1
      && (s.callers[c].inbox != [] ==> OwnResponse(s.callers[c], s.callers[c].inbox[0]))
      && (s.callers[c].returned.Some? ==> OwnResponse(s.callers[c], s.callers[c].returned.value))
  }

  ghost predicate ReaderInv(s: State) {
    match s.reader
    case Found(c, r, response, size) =>
      c in s.callers && s.callers[c].request == r && response.id == r.id && Shortest(response) <= size
    case Accepted(c, response) => c in s.callers && s.callers[c].request.id == response.id && Sound(response)
    case Removed(c, response) =>
      c in s.callers && s.callers[c].request.id == response.id && Sound(response) && !IsPending(s, c)
    case _ => true
  }

  ghost predicate Inv(s: State) {
    PendingInv(s) && CallersInv(s) && ReaderInv(s)
  }

  lemma InitInv()
    ensures Inv(INIT)
  {}

  lemma RegisterInv(s: State, caller: nat, r: Request)
    requires Inv(s) && Enabled(s, Register(caller, r))
    ensures Inv(Registered(s, caller, r))
  {
    RegisterPending(s, caller, r);
    RegisterReader(s, caller, r);
    hide PendingInv, ReaderInv, Refusal;
  }

  lemma RegisterPending(s: State, caller: nat, r: Request)
    requires PendingInv(s) && Enabled(s, Register(caller, r))
    ensures PendingInv(Registered(s, caller, r))
  {}

  lemma RegisterReader(s: State, caller: nat, r: Request)
    requires PendingInv(s) && ReaderInv(s) && Enabled(s, Register(caller, r))
    ensures ReaderInv(Registered(s, caller, r))
  {}

  lemma DrainInv(s: State, f: Failure)
    requires Inv(s)
    ensures Inv(Drained(s, f))
  {}

  lemma DeliverInv(s: State)
    requires Inv(s) && s.reader.Removed? && s.reader.caller in s.callers && s.callers[s.reader.caller].inbox == []
    ensures Inv(Delivered(s))
  {
    forall id | id in s.pending
      ensures s.pending[id].caller != s.reader.caller
    {
      assert s.callers[s.pending[id].caller].request.id == id;
    }
  }

  lemma LookupInv(s: State, response: Response, size: nat)
    requires Inv(s) && s.reader.Idle? && Shortest(response) <= size
    ensures Inv(LookedUp(s, response, size))
  {
    LookupReader(s, response, size);
    NewReader(s, LookedUp(s, response, size));
    hide PendingInv, CallersInv, ReaderInv;
  }

  lemma LookupReader(s: State, response: Response, size: nat)
    requires PendingInv(s) && Shortest(response) <= size
    ensures ReaderInv(LookedUp(s, response, size))
  {}

  lemma NewReader(s: State, s': State)
    requires PendingInv(s) && CallersInv(s) && s' == s.(reader := s'.reader)
    ensures PendingInv(s') && CallersInv(s')
  {}

  lemma AcceptInv(s: State)
    requires Inv(s) && s.reader.Found?
    ensures Inv(AcceptedState(s))
  {}

  lemma RemoveInv(s: State)
    requires Inv(s) && s.reader.Accepted?
    ensures Inv(RemovedState(s))
  {}

  lemma ReturnInv(s: State, c: nat, inbox: seq<Message>, result: Message)
    requires Inv(s) && c in s.callers && OwnResponse(s.callers[c], result)
    requires inbox == [] || inbox == s.callers[c].inbox
    ensures Inv(Returned(s, c, inbox, result))
  {}

  lemma StepInv(s: State, e: Event)
    requires Inv(s) && Enabled(s, e)
    ensures Inv(Apply(s, e))
  {
    match e
    case Register(caller, r) => RegisterInv(s, caller, r);
    case Drain(f) => DrainInv(s, f);
    case Deliver => DeliverInv(s);
    case Remove => RemoveInv(s);
    case Take(c) => ReturnInv(s, c, [], s.callers[c].inbox[0]);
    case GiveUp(c, f) => ReturnInv(s, c, s.callers[c].inbox, Failure(f));
    case Lookup(response, size) => LookupInv(s, response, size);
    case Accept => AcceptInv(s);
    case ReaderFails(_) =>
    case ReaderStops =>
    case SignalClosed =>
  }

  /** Every run keeps the invariant. */
  lemma {:induction false} RunInv(s: State, events: seq<Event>)
    requires Inv(s) && Possible(s, events)
    ensures Inv(Run(s, events))
    decreases |events|
  {
    if events != [] {
      StepInv(s, events[0]);
      RunInv(Apply(s, events[0]), events[1..]);
    }
  }

  /** In every interleaving: at most 64 pending calls, and every success that a Call returns, or will find in its
      channel, is a response with that call's own ID that reports no error and no row that is too wide. */
  lemma OwnResponsesOnly(events: seq<Event>, c: nat, m: Message)
    requires Possible(INIT, events)
    ensures |Run(INIT, events).pending| <= MAX_PENDING
    ensures var s := Run(INIT, events);
      c in s.callers && m.Success? && (s.callers[c].returned == Some(m) || m in s.callers[c].inbox) ==>
        m.response.id == s.callers[c].request.id && m.response.success && !m.response.tooWide
  {
    InitInv();
    RunInv(INIT, events);
  }

  /** fail never blocks while it holds the mutex: every channel it sends on is empty. */
  lemma DrainNeverBlocks(events: seq<Event>, id: Id)
    requires Possible(INIT, events) && id in Run(INIT, events).pending
    ensures var s := Run(INIT, events);
      s.pending[id].caller in s.callers && s.callers[s.pending[id].caller].inbox == []
  {
    InitInv();
    RunInv(INIT, events);
  }

  /** What the cursors are once a sound response to a request is charged: the request's cursor has grown by the
      response, or has gone with its last page; a close drops its cursor. */
  predicate CursorsMove(before: map<Id, nat>, after: map<Id, nat>, r: Request, response: Response, size: nat) {
    if r.op.PrepareExecute? || r.op.More? then
      var id := if r.op.More? then r.contId else r.id;
      if response.isDone then after == before - {id}
      else after == before[id := size + if id in before then before[id] else 0]
    else after == if r.op.CloseCursor? then before - {r.contId} else before
  }

  /** No row is too wide, and a response that is charged is within what its cursor has left. */
  predicate WithinLimits(s: State, r: Request, response: Response, size: nat) {
    && !response.tooWide
    && (r.op.PrepareExecute? || r.op.More? ==>
         var id := if r.op.More? then r.contId else r.id;
         size + (if id in s.cursors then s.cursors[id] else 0) <= MAX_AGGREGATE)
  }

  lemma RunCons(s: State, e: Event, rest: seq<Event>)
    requires Enabled(s, e)
    ensures Possible(s, [e] + rest) <==> Possible(Apply(s, e), rest)
    ensures Possible(s, [e] + rest) ==> Run(s, [e] + rest) == Run(Apply(s, e), rest)
  {
    assert ([e] + rest)[1..] == rest;
  }

  lemma Pair(s: State, e: Event, f: Event)
    requires Enabled(s, e) && Enabled(Apply(s, e), f)
    ensures Possible(s, [e, f]) && Run(s, [e, f]) == Apply(Apply(s, e), f)
  {
    RunCons(s, e, [f]);
    RunCons(Apply(s, e), f, []);
    assert [e] + [f] == [e, f] && [f] + [] == [f];
  }

  /** What the reader makes of a response to a pending call. A refused one stops the session: beyond the limits with
      their error, within them with that of the statement. Any other is accepted, and moves the cursors. */
  lemma AcceptedExactly(s: State, response: Response, size: nat)
    requires s.reader.Idle? && response.id in s.pending && Shortest(response) <= size <= MAX_FRAME
    ensures Possible(s, [Lookup(response, size), Accept])
    ensures var p, t := s.pending[response.id], Run(s, [Lookup(response, size), Accept]);
      && t == s.(cursors := t.cursors, charged := t.charged, reader := t.reader)
      && (if !WithinLimits(s, p.request, response, size) then t.reader == Stopping(LimitExceeded)
          else if !response.success then t.reader == Stopping(SqlError)
          else
            && t.reader == Accepted(p.caller, response)
            && CursorsMove(s.cursors, t.cursors, p.request, response, size))
  {
    Pair(s, Lookup(response, size), Accept);
  }

  /** An accepted response reaches the channel of its call, takes its entry away, and does nothing else. */
  lemma DeliveredExactly(s: State)
    requires Inv(s) && s.reader.Accepted? && s.reader.response.id in s.pending
    requires s.pending[s.reader.response.id].caller == s.reader.caller
    ensures Possible(s, [Remove, Deliver])
    ensures var c, response := s.reader.caller, s.reader.response;
      && c in s.callers
      && Run(s, [Remove, Deliver]) == s.(
           pending := s.pending - {response.id}, reader := Idle,
           callers := s.callers[c := s.callers[c].(inbox := [Success(response)])])
  {
    Pair(s, Remove, Deliver);
  }
}
