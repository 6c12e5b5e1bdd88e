/** The Step 8 service: a WSS proof for a saved profile, and SSH fallback only behind a consumed ticket and the
    policy, trust, consent and credential gates. Every collaborator answers arbitrarily. */
module Step8Service {
  import opened FallbackTickets

  type byte = b: nat | b < 256

  datatype Profile = Profile(name: string, wellFormed: bool)

  datatype Request = Request(
    requestId: string, profile: Profile, generation: nat, wssConsent: bool, sshConsent: bool,
    ticket: Ticket, fallbackReason: Reason, consent: bool)

  datatype Transport = Wss | Ssh

  datatype Class =
    | ProofSuccess | IdentityFailed | ProtocolFailed | Malformed | Blocked | Stopped | TimedOut | OverLimit
    | NoCredentials | ConsentDeclined | NotAuthorized | TrustMismatch | CleanupFailed | SessionFailed | ProofFailed
    | OtherFailure(code: nat)

  datatype Result = Result(
    requestId: string, decision: Decision, outcome: Class, revision: string, cleanup: bool, ticket: Option<Ticket>)

  datatype Metadata = Metadata(rows: int, revision: string)

  const REVISION: string := "values-1-v1"

  predicate ValidMetadata(m: Metadata) { m.rows == 1 && m.revision == REVISION }

  predicate ValidProfile(p: Profile) { p.name != "" && p.wellFormed }

  function ClassOf(reason: Reason): Class {
    match reason
    case IdentityFailure => IdentityFailed
    case ProtocolFailure => ProtocolFailed
    case MalformedResponse => Malformed
    case Cancelled => Stopped
    case OperationTimeout => TimedOut
    case LimitExceeded => OverLimit
    case CredentialsUnavailable => NoCredentials
    case _ => Blocked
  }

  function Blank(requestId: string): Result { Result(requestId, Terminal, Blocked, "", false, None) }

  function Ended(r: Result, outcome: Class): Result { r.(decision := Terminal, outcome := outcome) }

  /** Which collaborators are set. */
  datatype Wiring = Wiring(
    observe: bool, credentials: bool, wss: bool, ssh: bool, markers: bool, audit: bool, tickets: bool,
    policy: bool, trust: bool, gateCredentials: bool)

  /** What the service did, as far as the guarantees speak of it. */
  datatype Event =
    | Observed(profile: Profile, reason: Reason)
    | Issued(ticket: Ticket, claim: Claim)
    | Consumed(ticket: Ticket, claim: Claim)
    | PolicyPassed(profile: Profile)
    | TrustPassed(profile: Profile)
    | ConsentPassed(profile: Profile)
    | CredentialFetched(profile: Profile)
    | SshOpened(ticket: Ticket, profile: Profile, claim: Claim)
    | WssOpened(profile: Profile)
    | Proved(transport: Transport, metadata: Metadata)
    | Closed(transport: Transport)
    | MarkerWritten(transport: Transport, profile: Profile, revision: string, written: bool)

  function ClaimFor(q: Request, reason: Reason): Claim { Claim(q.profile.name, q.requestId, q.generation, reason) }

  function ClaimOf(q: Request): Claim { ClaimFor(q, q.fallbackReason) }

  /** The events right before an SSH open: its ticket's consumption and the four gates, in order. */
  predicate Gated(trace: seq<Event>, i: nat)
    requires i < |trace| && trace[i].SshOpened?
  {
    var e := trace[i];
    && i >= 5
    && trace[i - 5] == Consumed(e.ticket, e.claim) && trace[i - 4] == PolicyPassed(e.profile)
    && trace[i - 3] == TrustPassed(e.profile) && trace[i - 2] == ConsentPassed(e.profile)
    && trace[i - 1] == CredentialFetched(e.profile)
    && e.claim.profile == e.profile.name
  }

  /** The events right before a marker: a valid proof and a clean close over the same transport. */
  predicate Earned(trace: seq<Event>, i: nat)
    requires i < |trace| && trace[i].MarkerWritten?
  {
    var e := trace[i];
    && i >= 2
    && trace[i - 2].Proved? && trace[i - 2].transport == e.transport && ValidMetadata(trace[i - 2].metadata)
    && e.revision == trace[i - 2].metadata.revision
    && trace[i - 1] == Closed(e.transport)
  }

  /** A ticket is issued right after an observation that makes SSH eligible for the same reason. */
  predicate Offered(trace: seq<Event>, i: nat)
    requires i < |trace| && trace[i].Issued?
  {
    && i >= 1 && trace[i - 1].Observed? && trace[i - 1].reason == trace[i].claim.reason
    && trace[i - 1].profile.name == trace[i].claim.profile && ValidClaim(trace[i].claim)
  }

  predicate Sound(trace: seq<Event>, i: nat)
    requires i < |trace|
  {
    && (trace[i].SshOpened? ==> Gated(trace, i))
    && (trace[i].MarkerWritten? ==> Earned(trace, i))
    && (trace[i].Issued? ==> Offered(trace, i))
    && (trace[i].Consumed? ==> exists j | 0 <= j < i :: trace[j] == Issued(trace[i].ticket, trace[i].claim))
  }

  /** The guarantees over a whole run. */
  ghost predicate SoundRun(trace: seq<Event>) {
    && (forall i | 0 <= i < |trace| :: Sound(trace, i))
    && (forall i, j | 0 <= i < j < |trace| && trace[i].Consumed? && trace[j].Consumed? ::
         trace[i].ticket != trace[j].ticket)
  }

  /** Sound events stay sound when the run goes on. */
  lemma SoundExtends(trace: seq<Event>, more: seq<Event>, i: nat)
    requires i < |trace| && Sound(trace, i)
    ensures Sound(trace + more, i)
  {
    var all := trace + more;
    assert forall k | 0 <= k < |trace| :: all[k] == trace[k];
    if trace[i].Consumed? {
      var j :| 0 <= j < i && trace[j] == Issued(trace[i].ticket, trace[i].claim);
      assert all[j] == Issued(all[i].ticket, all[i].claim);
    }
  }

  /** In every sound run SSH is opened at most once for a ticket, and a ticket opens SSH only for the profile,
      request, generation and reason it was issued for after an observation that made SSH eligible. */
  lemma {:induction false} SshOpenedOnce(trace: seq<Event>, i: nat, j: nat)
    requires SoundRun(trace) && i < |trace| && j < |trace| && trace[i].SshOpened? && trace[j].SshOpened?
    requires trace[i].ticket == trace[j].ticket
    ensures i == j
    ensures exists k, reason | 0 <= k < i - 5 ::
      && trace[k + 1] == Issued(trace[i].ticket, trace[i].claim)
      && trace[k].Observed? && trace[k].reason == reason == trace[i].claim.reason
      && DecisionForReason(reason) == OfferSsh
      && trace[k].profile.name == trace[i].profile.name
  {
    assert Sound(trace, i) && Sound(trace, j);
    assert trace[i - 5].Consumed? && trace[j - 5].Consumed?;
    assert Sound(trace, i - 5);
    var k :| 0 <= k < i - 5 && trace[k] == Issued(trace[i].ticket, trace[i].claim);
    assert Sound(trace, k);
    assert trace[(k - 1) + 1] == Issued(trace[i].ticket, trace[i].claim);
  }

  lemma SoundSnoc(trace: seq<Event>, e: Event)
    requires SoundRun(trace) && Sound(trace + [e], |trace|)
    requires e.Consumed? ==> forall i | 0 <= i < |trace| && trace[i].Consumed? :: trace[i].ticket != e.ticket
    ensures SoundRun(trace + [e])
  {
    forall i | 0 <= i < |trace + [e]|
      ensures Sound(trace + [e], i)
    {
      if i < |trace| { SoundExtends(trace, [e], i); }
    }
  }

  /** Every event from `start` on is allowed to this kind of call. */
  predicate OnlySince(trace: seq<Event>, start: nat, ssh: bool) {
    forall i | start <= i < |trace| :: if ssh then SshEvent(trace[i]) else WssEvent(trace[i])
  }

  predicate WssEvent(e: Event) {
    match e
    case Observed(_, _) => true
    case Issued(_, _) => true
    case CredentialFetched(_) => true
    case WssOpened(_) => true
    case Proved(t, _) => t == Wss
    case Closed(t) => t == Wss
    case MarkerWritten(t, _, _, _) => t == Wss
    case _ => false
  }

  predicate SshEvent(e: Event) {
    match e
    case Observed(_, _) => false
    case Issued(_, _) => false
    case WssOpened(_) => false
    case Proved(t, _) => t == Ssh
    case Closed(t) => t == Ssh
    case MarkerWritten(t, _, _, _) => t == Ssh
    case _ => true
  }

  /** The four gates of a profile, in order. */
  function Gates(p: Profile): (events: seq<Event>)
    ensures |events| == 4
  {
    [PolicyPassed(p), TrustPassed(p), ConsentPassed(p), CredentialFetched(p)]
  }

  // ---- The SSH run behind its gates, as the collaborators answer ----

  /** The factory's answer and whether it has a runtime; whether the runtime had been closed before, the failure or the
      metadata of its proof, and whether its close and the write of the marker succeed. */
  datatype Answers = Answers(
    answer: Result, runtime: bool, settled: bool, failure: Option<nat>, metadata: Metadata, closes: bool, written: bool)

  predicate Opens(a: Answers) { a.answer.decision == OfferSsh && a.answer.outcome == ProofSuccess && a.runtime }

  predicate Proves(a: Answers) { Opens(a) && !a.settled && a.failure.None? && ValidMetadata(a.metadata) }

  predicate Reported(r: Result) { r.decision == OfferSsh && r.outcome == ProofSuccess }

  function Proof(requestId: string, a: Answers): Result {
    var blank := Blank(requestId);
    var r := if a.failure.Some? then Ended(blank, OtherFailure(a.failure.value))
             else if !ValidMetadata(a.metadata) then Ended(blank, ProofFailed)
             else blank.(decision := OfferSsh, outcome := ProofSuccess, revision := a.metadata.revision);
    if a.settled then Ended(blank, SessionFailed) else if a.closes then r.(cleanup := true) else r
  }

  function ProofEvents(a: Answers): seq<Event> {
    if a.settled then []
    else (if a.failure.None? then [Proved(Ssh, a.metadata)] else []) + if a.closes then [Closed(Ssh)] else []
  }

  function Named(r: Result, requestId: string): Result { if r.requestId == "" then r.(requestId := requestId) else r }

  /** What the gate's runner answers. */
  function RunnerResult(q: Request, a: Answers): Result {
    Named(if Opens(a) then Proof(q.requestId, a)
          else if a.answer.decision == Terminal then a.answer
          else Ended(a.answer, SessionFailed), q.requestId)
  }

  function RunnerEvents(q: Request, a: Answers): seq<Event> {
    [SshOpened(q.ticket, q.profile, ClaimOf(q))] + if Opens(a) then ProofEvents(a) else []
  }

  predicate Recordable(r: Result) { Reported(r) && r.cleanup }

  /** What runSSH answers. */
  function SshResult(q: Request, a: Answers, w: Wiring): Result {
    var r := RunnerResult(q, a);
    if Recordable(r) && w.markers && !a.written then Ended(r, CleanupFailed) else r
  }

  function SshEvents(q: Request, a: Answers, w: Wiring): seq<Event> {
    RunnerEvents(q, a) +
    if Recordable(RunnerResult(q, a)) && w.markers then [MarkerWritten(Ssh, q.profile, REVISION, a.written)] else []
  }

  /** The marker is on disk. */
  predicate Marked(q: Request, a: Answers, w: Wiring) {
    MarkerWritten(Ssh, q.profile, REVISION, true) in SshEvents(q, a, w)
  }

  predicate AuditedSuccess(q: Request, a: Answers) { RunnerResult(q, a).outcome == ProofSuccess }

  /** An SSH run is reported as a success exactly when the fixed proof is valid and no marker write fails behind a clean
      close; it has written its marker exactly when the runtime closed cleanly and the marker store is set and writes;
      and its audit record speaks of success whatever the marker write does. */
  lemma SshExactly(q: Request, a: Answers, w: Wiring)
    ensures Reported(SshResult(q, a, w)) <==> Proves(a) && (a.closes && w.markers ==> a.written)
    ensures Marked(q, a, w) <==> Proves(a) && a.closes && w.markers && a.written
    ensures Reported(SshResult(q, a, w)) ==> (Marked(q, a, w) <==> a.closes && w.markers && a.written)
    ensures AuditedSuccess(q, a) <==>
      Proves(a) || (a.answer.decision == Terminal && a.answer.outcome == ProofSuccess)
    ensures Proves(a) ==>
      (AuditedSuccess(q, a) && !Reported(SshResult(q, a, w)) <==> a.closes && w.markers && !a.written)
  {
    if Recordable(RunnerResult(q, a)) && w.markers {
      var events := SshEvents(q, a, w);
      assert events[|events| - 1] == MarkerWritten(Ssh, q.profile, REVISION, a.written);
    }
  }

  /** A valid proof whose runtime does not close is reported as a success and has no marker. */
  lemma SuccessWithoutMarker(q: Request, w: Wiring)
    ensures var a := Answers(Blank(q.requestId).(decision := OfferSsh, outcome := ProofSuccess), true, false, None,
                             Metadata(1, REVISION), false, true);
      Reported(SshResult(q, a, w)) && !Marked(q, a, w)
  {
    SshExactly(q, Answers(Blank(q.requestId).(decision := OfferSsh, outcome := ProofSuccess), true, false, None,
                          Metadata(1, REVISION), false, true), w);
  }

  /** A marker write that fails turns a success that has been audited into a failure. */
  lemma AuditedThenFailed(q: Request, w: Wiring)
    requires w.markers
    ensures var a := Answers(Blank(q.requestId).(decision := OfferSsh, outcome := ProofSuccess), true, false, None,
                             Metadata(1, REVISION), true, false);
      AuditedSuccess(q, a) && SshResult(q, a, w).outcome == CleanupFailed && !Marked(q, a, w)
  {
    SshExactly(q, Answers(Blank(q.requestId).(decision := OfferSsh, outcome := ProofSuccess), true, false, None,
                          Metadata(1, REVISION), true, false), w);
  }

  /** The answers in front of and at the gates: whether the call is cancelled before the ticket is consumed and before
      the gates are asked, what policy, trust and credential store say, and whether the context has ended when one
      refuses. */
  datatype GateAnswers = GateAnswers(
    cancelled: bool, stopped: bool, allowed: bool, trusted: bool, fetched: bool, late: bool)

  predicate GatesPass(q: Request, g: GateAnswers, w: Wiring) {
    && q.requestId != "" && ValidProfile(q.profile) && q.consent && !g.stopped
    && w.policy && w.trust && w.gateCredentials && g.allowed && g.trusted && g.fetched
  }

  // ---- The WSS run, as the collaborators answer ----

  /** Whether the call is cancelled, whether the old marker is cleared, the observation, the entropy of a ticket, the
      credential, the session, its proof and its close, and the write of the marker. */
  datatype WssAnswers = WssAnswers(
    cancelled: bool, clears: bool, decision: Decision, reason: Reason, entropy: bool, fetched: bool, connects: bool,
    proves: bool, metadata: Metadata, closes: bool, written: bool, late: bool)

  /** The request reaches the observation, which decides so and agrees with its reason. */
  predicate Decides(q: Request, a: WssAnswers, w: Wiring, d: Decision) {
    && q.requestId != "" && ValidProfile(q.profile) && !a.cancelled && q.wssConsent && (w.markers ==> a.clears)
    && w.observe && a.decision == DecisionForReason(a.reason) == d
  }

  /** The fixed proof over WSS is valid, and its session closed. */
  predicate WssProves(a: WssAnswers, w: Wiring) {
    w.credentials && w.wss && a.fetched && a.connects && a.proves && ValidMetadata(a.metadata) && a.closes
  }

  predicate Selects(q: Request, a: WssAnswers, w: Wiring) {
    Decides(q, a, w, SelectWss) && WssProves(a, w) && (w.markers ==> a.written)
  }

  predicate Offers(q: Request, a: WssAnswers, w: Wiring, latest: nat) {
    && Decides(q, a, w, OfferSsh) && w.tickets && ValidClaim(ClaimFor(q, a.reason)) && a.entropy
    && q.generation >= latest
  }

  function Late(a: WssAnswers, outcome: Class): Class { if a.late then Stopped else outcome }

  /** Why a WSS run over an observation that selects WSS fails. */
  function WssFailure(a: WssAnswers, w: Wiring): Class {
    if !w.credentials || !w.wss then Blocked
    else if !a.fetched then Late(a, NoCredentials)
    else if !a.connects then Late(a, SessionFailed)
    else if !a.closes then CleanupFailed
    else if !a.proves || !ValidMetadata(a.metadata) then Late(a, ProofFailed)
    else CleanupFailed
  }

  /** Why Run fails once it has observed. */
  function ObservedFailure(a: WssAnswers, w: Wiring): Class {
    if a.decision != DecisionForReason(a.reason) || a.decision == OfferSsh then Blocked
    else if a.decision == Terminal then ClassOf(a.reason)
    else WssFailure(a, w)
  }

  /** Why Run fails, in the order of its checks. */
  function RunFailure(q: Request, a: WssAnswers, w: Wiring): Class {
    if q.requestId == "" || !ValidProfile(q.profile) then Blocked
    else if a.cancelled then Stopped
    else if !q.wssConsent then ConsentDeclined
    else if w.markers && !a.clears then CleanupFailed
    else if !w.observe then Blocked
    else ObservedFailure(a, w)
  }

  class Service {
    const wiring: Wiring
    const tickets: TicketStore
    var trace: seq<Event>
    var audits: seq<(Transport, Class)>
    /** The credential buffer that was fetched last. */
    var secret: array?<byte>

    constructor (wiring: Wiring, tickets: TicketStore)
      requires tickets.Valid() && tickets.issued == map[]
      ensures this.wiring == wiring && this.tickets == tickets && trace == [] && Valid() && Wiped()
    {
      this.wiring, this.tickets, this.trace, this.audits, this.secret := wiring, tickets, [], [], null;
    }

    /** The run so far is sound, and the ticket store agrees with it. */
    ghost predicate Valid()
      reads this, tickets
    {
      && tickets.Valid() && SoundRun(trace)
      && (forall i | 0 <= i < |trace| && trace[i].Consumed? :: trace[i].ticket in tickets.consumed)
      && (forall t | t in tickets.issued :: Issued(t, tickets.issued[t]) in trace)
    }

    /** No fetched credential is left in memory. */
    ghost predicate Wiped()
      reads this, secret
    {
      secret != null ==> forall i | 0 <= i < secret.Length :: secret[i] == 0
    }

    ghost predicate Audited(transport: Transport, outcome: Class, before: seq<(Transport, Class)>)
      reads this
    {
      audits == if wiring.audit then before + [(transport, outcome)] else before
    }

    method Emit(e: Event)
      requires Valid() && Sound(trace + [e], |trace|) && !e.Consumed?
      modifies this`trace
      ensures trace == old(trace) + [e] && Valid()
    {
      SoundSnoc(trace, e);
      trace := trace + [e];
    }

    /** A gate has passed. */
    method Pass(e: Event)
      requires Valid() && (e.PolicyPassed? || e.TrustPassed? || e.ConsentPassed? || e.CredentialFetched?)
      modifies this`trace
      ensures trace == old(trace) + [e] && Valid()
    {
      Emit(e);
    }

    method FinishTransport(transport: Transport, result: Result) returns (r: Result)
      modifies this`audits
      ensures r == result && Audited(transport, r.outcome, old(audits))
    {
      if wiring.audit { audits := audits + [(transport, result.outcome)]; }
      r := result;
    }

    method ZeroCredential(credential: array<byte>)
      modifies credential
      ensures forall i | 0 <= i < credential.Length :: credential[i] == 0
    {
      for i := 0 to credential.Length
        invariant forall j | 0 <= j < i :: credential[j] == 0
      {
        credential[i] := 0;
      }
    }

    /** The credential provider: bytes, or none, or an error. */
    method GetCredential(fetched: bool) returns (credential: array<byte>)
      modifies this`secret
      ensures fresh(credential) && secret == credential
      ensures fetched ==> credential.Length > 0
    {
      var drawn: int := *;
      var length: nat := if drawn >= 1 then drawn else if fetched then 1 else 0;
      credential := new byte[length];
      secret := credential;
    }

    ghost predicate Consumable(q: Request, now: int)
      reads tickets
    {
      && q.ticket in tickets.records && now < tickets.records[q.ticket].expires
      && tickets.records[q.ticket].claim == ClaimOf(q)
    }

    /** Consumes the ticket of a request; a ticket the store accepts was issued by this service for its claim. */
    method ConsumeTicket(q: Request, now: int) returns (ok: bool)
      requires Valid()
      modifies this`trace, tickets
      ensures Valid()
      ensures !ok ==> trace == old(trace)
      ensures ok ==> trace == old(trace) + [Consumed(q.ticket, ClaimOf(q))] && ValidClaim(ClaimOf(q))
      ensures ok ==> q.ticket !in old(tickets.consumed)
      ensures ok <==> old(Consumable(q, now))
    {
      ok := tickets.Consume(q.ticket, ClaimOf(q), now);
      if ok {
        var e := Consumed(q.ticket, ClaimOf(q));
        assert Issued(q.ticket, ClaimOf(q)) in trace;
        var j :| 0 <= j < |trace| && trace[j] == Issued(q.ticket, ClaimOf(q));
        assert (trace + [e])[j] == trace[j];
        SoundSnoc(trace, e);
        trace := trace + [e];
      }
    }

    /** Issues a ticket for the observation that was just made. */
    method IssueTicket(q: Request, reason: Reason, now: int, entropy: bool) returns (ticket: Option<Ticket>)
      requires Valid() && trace != [] && trace[|trace| - 1] == Observed(q.profile, reason)
      modifies this`trace, tickets
      ensures Valid()
      ensures ticket.None? ==> trace == old(trace)
      ensures ticket.Some? ==>
        trace == old(trace) + [Issued(ticket.value, ClaimFor(q, reason))]
      ensures ticket.Some? <==>
        ValidClaim(ClaimFor(q, reason)) && entropy && q.generation >= old(tickets.Latest(q.profile.name))
      ensures ticket.Some? ==> ticket.value !in old(tickets.issued)
    {
      var claim := ClaimFor(q, reason);
      ticket := tickets.Issue(claim, now, entropy);
      if ticket.Some? {
        SoundSnoc(trace, Issued(ticket.value, claim));
        trace := trace + [Issued(ticket.value, claim)];
      }
    }

    /** ApplyWithCredential up to the call of its runner: each gate that passes leaves an event. */
    method PassGates(q: Request, g: GateAnswers) returns (stop: Option<Result>, credential: array<byte>)
      requires Valid() && Wiped()
      modifies this`trace, this`secret
      ensures Valid() && fresh(credential) && secret == credential
      ensures stop.None? <==> GatesPass(q, g, wiring)
      ensures stop.None? ==> trace == old(trace) + Gates(q.profile)
      ensures stop.Some? ==> stop.value.decision == Terminal && Wiped()
      ensures stop.Some? ==> exists k :: 0 <= k < 4 && trace == old(trace) + Gates(q.profile)[..k]
    {
      hide SoundRun, Sound, ValidClaim;
      var blank := Blank(q.requestId);
      credential := new byte[0];
      secret := credential;
      ghost var before, gates := trace, Gates(q.profile);
      assert trace == before + gates[..0];
      if q.requestId == "" || !ValidProfile(q.profile) { return Some(Ended(blank, Blocked)), credential; }
      if g.stopped { return Some(Ended(blank, Stopped)), credential; }
      if !wiring.policy || !wiring.trust || !wiring.gateCredentials { return Some(Ended(blank, Blocked)), credential; }
      if !g.allowed { return Some(Ended(blank, if g.late then Stopped else NotAuthorized)), credential; }
      Pass(PolicyPassed(q.profile));
      assert trace == before + gates[..1];
      if !g.trusted { return Some(Ended(blank, if g.late then Stopped else TrustMismatch)), credential; }
      Pass(TrustPassed(q.profile));
      assert trace == before + gates[..2];
      if !q.consent { return Some(Ended(blank, ConsentDeclined)), credential; }
      Pass(ConsentPassed(q.profile));
      assert trace == before + gates[..3];
      credential := GetCredential(g.fetched);
      if !g.fetched {
        ZeroCredential(credential);
        return Some(Ended(blank, if g.late then Stopped else NoCredentials)), credential;
      }
      Pass(CredentialFetched(q.profile));
      stop := None;
    }

    /** The fixed proof over an open SSH runtime, and its deferred close. */
    method ProveSsh(q: Request, a: Answers) returns (r: Result)
      requires Valid()
      modifies this`trace
      ensures Valid() && trace == old(trace) + ProofEvents(a) && r == Proof(q.requestId, a)
    {
      r := Blank(q.requestId);
      if a.settled { return Ended(r, SessionFailed); }
      if a.failure.Some? {
        r := Ended(r, OtherFailure(a.failure.value));
      } else {
        Emit(Proved(Ssh, a.metadata));
        r := if ValidMetadata(a.metadata)
             then r.(decision := OfferSsh, outcome := ProofSuccess, revision := a.metadata.revision)
             else Ended(r, ProofFailed);
      }
      if a.closes {
        Emit(Closed(Ssh));
        r := r.(cleanup := true);
      }
    }

    /** The call of the SSH factory. */
    method OpenRuntime(q: Request)
      requires Valid()
      requires |trace| >= 5 && trace[|trace| - 5..] == [Consumed(q.ticket, ClaimOf(q))] + Gates(q.profile)
      modifies this`trace
      ensures Valid() && trace == old(trace) + [SshOpened(q.ticket, q.profile, ClaimOf(q))]
    {
      hide SoundRun, ValidClaim;
      LastFive(trace, Consumed(q.ticket, ClaimOf(q)), q.profile);
      Emit(SshOpened(q.ticket, q.profile, ClaimOf(q)));
    }

    /** The gate's runner: opens the runtime for the consumed ticket and proves over it. The credential is wiped
        however that ends. */
    method OpenAndProve(q: Request, credential: array<byte>, a: Answers) returns (r: Result)
      requires Valid() && secret == credential
      requires |trace| >= 5 && trace[|trace| - 5..] == [Consumed(q.ticket, ClaimOf(q))] + Gates(q.profile)
      modifies this`trace, credential
      ensures Valid() && Wiped()
      ensures trace == old(trace) + RunnerEvents(q, a) && r == RunnerResult(q, a)
    {
      hide SoundRun, Sound, ValidClaim, ProofEvents, Proof;
      OpenRuntime(q);
      if a.answer.decision != OfferSsh || a.answer.outcome != ProofSuccess || !a.runtime {
        r := if a.answer.decision == Terminal then a.answer else Ended(a.answer, SessionFailed);
      } else {
        r := ProveSsh(q, a);
      }
      if r.requestId == "" { r := r.(requestId := q.requestId); }
      ZeroCredential(credential);
    }

    /** What both transports do once a proof is valid and its session closed. */
    method RecordSuccess(q: Request, transport: Transport, result: Result, written: bool) returns (r: Result)
      requires Valid() && Settled(trace, transport) && result.revision == REVISION && result.outcome == ProofSuccess
      modifies this`trace, this`audits
      ensures Valid() && Audited(transport, ProofSuccess, old(audits))
      ensures trace == old(trace) +
        if wiring.markers then [MarkerWritten(transport, q.profile, REVISION, written)] else []
      ensures r == if wiring.markers && !written then Ended(result, CleanupFailed) else result
    {
      if wiring.audit { audits := audits + [(transport, result.outcome)]; }
      r := result;
      if wiring.markers {
        Emit(MarkerWritten(transport, q.profile, result.revision, written));
        if !written { r := Ended(result, CleanupFailed); }
      }
    }

    /** RunSSH: no SSH without consent and a consumed ticket; each call is audited once. Behind its gates it does what
        the collaborators' answers decide; in front of them it is never a success. */
    method RunSSH(q0: Request, now: int, g: GateAnswers, a: Answers) returns (r: Result, ghost ran: bool)
      requires Valid() && Wiped()
      modifies this, tickets
      ensures Valid() && Wiped()
      ensures old(trace) <= trace && OnlySince(trace, |old(trace)|, true)
      ensures !q0.sshConsent ==> trace == old(trace) && !ran
      ensures ran <==>
        && q0.sshConsent && !g.cancelled && wiring.tickets && old(Consumable(q0, now)) && wiring.ssh
        && GatesPass(q0.(consent := true), g, wiring)
      ensures ran ==>
        && trace == old(trace) + [Consumed(q0.ticket, ClaimOf(q0))] + Gates(q0.profile) + SshEvents(q0, a, wiring)
        && r == SshResult(q0, a, wiring) && Audited(Ssh, RunnerResult(q0, a).outcome, old(audits))
      ensures !ran ==> r.decision == Terminal && Audited(Ssh, r.outcome, old(audits))
      ensures !ran ==> forall i | |old(trace)| <= i < |trace| :: !trace[i].SshOpened? && !trace[i].MarkerWritten?
    {
      hide SoundRun, Sound, ValidClaim, SshEvents, SshResult, RunnerResult, Gates, Consumable;
      ran := false;
      ConsentIsNotSeen(q0, a, wiring);
      var blank := Blank(q0.requestId);
      if q0.requestId == "" || !ValidProfile(q0.profile) || !q0.sshConsent {
        r := FinishTransport(Ssh, Ended(blank, ConsentDeclined));
        return;
      }
      if g.cancelled { r := FinishTransport(Ssh, Ended(blank, Stopped)); return; }
      var admitted := false;
      if wiring.tickets { admitted := ConsumeTicket(q0, now); }
      if !admitted { r := FinishTransport(Ssh, Ended(blank, Blocked)); return; }
      r, ran := RunAdmitted(q0.(consent := true), g, a);
    }

    /** The gates and, when all of them pass, the proof. */
    method GateAndProve(q: Request, g: GateAnswers, a: Answers) returns (r: Result, ghost ran: bool)
      requires Valid() && Wiped()
      requires trace != [] && trace[|trace| - 1] == Consumed(q.ticket, ClaimOf(q))
      modifies this`trace, this`secret
      ensures Valid() && Wiped()
      ensures ran <==> GatesPass(q, g, wiring)
      ensures ran ==> trace == old(trace) + Gates(q.profile) + RunnerEvents(q, a) && r == RunnerResult(q, a)
      ensures !ran ==> r.decision == Terminal && exists k :: 0 <= k < 4 && trace == old(trace) + Gates(q.profile)[..k]
    {
      hide SoundRun, ValidClaim;
      var stop, credential := PassGates(q, g);
      if stop.Some? { return stop.value, false; }
      assert trace[|trace| - 5..] == [Consumed(q.ticket, ClaimOf(q))] + Gates(q.profile);
      r := OpenAndProve(q, credential, a);
      ran := true;
    }

    /** What runSSH does with the result of the gates or, when they all passed, of the runner. */
    method FinishRun(q: Request, a: Answers, result: Result, ghost before: seq<Event>, ghost ran: bool)
      returns (r: Result)
      requires Valid()
      requires if ran then trace == before + RunnerEvents(q, a) && result == RunnerResult(q, a)
               else result.decision == Terminal
      modifies this`trace, this`audits
      ensures Valid() && Audited(Ssh, result.outcome, old(audits))
      ensures ran ==> trace == before + SshEvents(q, a, wiring) && r == SshResult(q, a, wiring)
      ensures !ran ==> trace == old(trace) && r == result
    {
      hide SoundRun, Sound, ValidClaim, RunnerEvents, RunnerResult;
      if result.decision != OfferSsh || result.outcome != ProofSuccess || !result.cleanup {
        r := FinishTransport(Ssh, result);
        return;
      }
      RunnerSettled(before, q, a);
      r := RecordSuccess(q, Ssh, result, a.written);
    }

    /** runSSH, behind a consumed ticket. */
    method RunAdmitted(q: Request, g: GateAnswers, a: Answers) returns (r: Result, ghost ran: bool)
      requires Valid() && Wiped() && q.consent
      requires trace != [] && trace[|trace| - 1] == Consumed(q.ticket, ClaimOf(q))
      modifies this`trace, this`audits, this`secret
      ensures Valid() && Wiped()
      ensures old(trace) <= trace && OnlySince(trace, |old(trace)|, true)
      ensures ran <==> wiring.ssh && GatesPass(q, g, wiring)
      ensures ran ==>
        && trace == old(trace) + Gates(q.profile) + SshEvents(q, a, wiring)
        && r == SshResult(q, a, wiring) && Audited(Ssh, RunnerResult(q, a).outcome, old(audits))
      ensures !ran ==> r.decision == Terminal && Audited(Ssh, r.outcome, old(audits))
      ensures !ran ==> forall i | |old(trace)| <= i < |trace| :: !trace[i].SshOpened? && !trace[i].MarkerWritten?
    {
      hide SoundRun, Sound, ValidClaim, RunnerEvents, RunnerResult, SshEvents, SshResult, Gates, OnlySince;
      ran := false;
      ghost var before := trace;
      NoGates(before, q.profile);
      AllGates(before, q, a, wiring);
      if !wiring.ssh { r := FinishTransport(Ssh, Ended(Blank(q.requestId), Blocked)); return; }
      r, ran := GateAndProve(q, g, a);
      if !ran {
        ghost var k :| 0 <= k < 4 && trace == before + Gates(q.profile)[..k];
        SomeGates(before, q.profile, k);
      }
      r := FinishRun(q, a, r, before + Gates(q.profile), ran);
    }

    /** runWSS: the credential is wiped and the session closed before anything is recorded. */
    method RunWss(q: Request, a: WssAnswers) returns (r: Result)
      requires Valid() && Wiped()
      modifies this`trace, this`audits, this`secret
      ensures Valid() && Wiped()
      ensures old(trace) <= trace && OnlySince(trace, |old(trace)|, false)
      ensures Audited(Wss, if WssProves(a, wiring) then ProofSuccess else r.outcome, old(audits))
      ensures if WssProves(a, wiring) && (wiring.markers ==> a.written)
              then r == Result(q.requestId, SelectWss, ProofSuccess, REVISION, true, None)
              else r.decision == Terminal && r.outcome == WssFailure(a, wiring) && r.requestId == q.requestId
      ensures WssProves(a, wiring) && wiring.markers ==>
        trace != [] && trace[|trace| - 1] == MarkerWritten(Wss, q.profile, REVISION, a.written)
      ensures r.ticket.None?
    {
      hide SoundRun, ValidClaim;
      var blank := Blank(q.requestId);
      if !wiring.credentials || !wiring.wss { r := FinishTransport(Wss, Ended(blank, Blocked)); return; }
      var settled, outcome := ProveWss(q, a);
      if !settled { r := FinishTransport(Wss, Ended(blank, outcome)); return; }
      ghost var closed := trace;
      r := RecordSuccess(q, Wss, Result(q.requestId, SelectWss, ProofSuccess, REVISION, true, None), a.written);
      OnlyLater(trace, closed, |old(trace)|, false);
    }

    /** Credential, session, proof and close; `settled` when all of them went well. */
    method ProveWss(q: Request, a: WssAnswers) returns (settled: bool, outcome: Class)
      requires Valid() && Wiped() && wiring.credentials && wiring.wss
      modifies this`trace, this`secret
      ensures Valid() && Wiped()
      ensures old(trace) <= trace && OnlySince(trace, |old(trace)|, false)
      ensures settled <==> WssProves(a, wiring)
      ensures settled ==> Settled(trace, Wss)
      ensures !settled ==> outcome == WssFailure(a, wiring)
    {
      hide SoundRun, ValidClaim;
      var credential := GetCredential(a.fetched);
      if !a.fetched {
        ZeroCredential(credential);
        return false, if a.late then Stopped else NoCredentials;
      }
      Emit(CredentialFetched(q.profile));
      if !a.connects {
        ZeroCredential(credential);
        return false, if a.late then Stopped else SessionFailed;
      }
      ghost var fetched := trace;
      settled, outcome := UseSession(q, a);
      OnlyLater(trace, fetched, |old(trace)|, false);
      ZeroCredential(credential);
    }

    /** An open WSS session: the proof, and the close whatever the proof did. */
    method UseSession(q: Request, a: WssAnswers) returns (settled: bool, outcome: Class)
      requires Valid() && wiring.credentials && wiring.wss && a.fetched && a.connects
      modifies this`trace
      ensures Valid() && old(trace) <= trace && OnlySince(trace, |old(trace)|, false)
      ensures settled <==> WssProves(a, wiring)
      ensures settled ==> Settled(trace, Wss)
      ensures !settled ==> outcome == WssFailure(a, wiring)
    {
      hide SoundRun, ValidClaim;
      Emit(WssOpened(q.profile));
      if a.proves { Emit(Proved(Wss, a.metadata)); }
      if a.closes { Emit(Closed(Wss)); }
      if !a.closes { return false, CleanupFailed; }
      if !a.proves || !ValidMetadata(a.metadata) { return false, if a.late then Stopped else ProofFailed; }
      return true, ProofSuccess;
    }

    /** offerSSH: the observation's reason goes into the ticket. */
    method OfferTicket(q: Request, reason: Reason, now: int, entropy: bool) returns (r: Result)
      requires Valid() && Wiped() && trace != [] && trace[|trace| - 1] == Observed(q.profile, reason)
      modifies this`trace, this`audits, tickets
      ensures Valid() && Wiped()
      ensures old(trace) <= trace && OnlySince(trace, |old(trace)|, false)
      ensures Audited(Wss, r.outcome, old(audits))
      ensures r.ticket.Some? <==>
        && wiring.tickets && ValidClaim(ClaimFor(q, reason)) && entropy
        && q.generation >= old(tickets.Latest(q.profile.name))
      ensures r.ticket.Some? ==> r.ticket.value !in old(tickets.issued)
      ensures trace == old(trace) + if r.ticket.Some? then [Issued(r.ticket.value, ClaimFor(q, reason))] else []
      ensures r == if r.ticket.Some? then Result(q.requestId, OfferSsh, ProofSuccess, "", false, r.ticket)
                   else Ended(Blank(q.requestId), Blocked)
    {
      hide SoundRun;
      var result := Blank(q.requestId).(decision := OfferSsh, outcome := ProofSuccess);
      var ticket: Option<Ticket> := None;
      if wiring.tickets { ticket := IssueTicket(q, reason, now, entropy); }
      r := FinishTransport(Wss, if ticket.Some? then result.(ticket := ticket) else Ended(result, Blocked));
    }

    /** Run: nothing without consent, an observation decides, and each call is audited once. It never opens SSH: it
        offers a ticket, for the reason it observed, exactly when the observation makes SSH eligible and the store
        accepts the claim; it selects WSS exactly behind a valid proof, a close and no failed marker write; and
        otherwise it is terminal, for the first check that failed. */
    method Run(q: Request, now: int, a: WssAnswers) returns (r: Result)
      requires Valid() && Wiped()
      modifies this, tickets
      ensures Valid() && Wiped()
      ensures old(trace) <= trace && OnlySince(trace, |old(trace)|, false)
      ensures !q.wssConsent ==> trace == old(trace) && r.decision == Terminal
      ensures var proved := Decides(q, a, wiring, SelectWss) && WssProves(a, wiring);
        Audited(Wss, if proved then ProofSuccess else r.outcome, old(audits))
      ensures r.ticket.Some? <==> Offers(q, a, wiring, old(tickets.Latest(q.profile.name)))
      ensures r.ticket.Some? ==>
        && r.ticket.value !in old(tickets.issued)
        && trace == old(trace) + [Observed(q.profile, a.reason), Issued(r.ticket.value, ClaimFor(q, a.reason))]
        && r == Result(q.requestId, OfferSsh, ProofSuccess, "", false, r.ticket)
      ensures r.decision == SelectWss <==> Selects(q, a, wiring)
      ensures r.decision == SelectWss ==> r == Result(q.requestId, SelectWss, ProofSuccess, REVISION, true, None)
      ensures r.decision == SelectWss && wiring.markers ==>
        trace != [] && trace[|trace| - 1] == MarkerWritten(Wss, q.profile, REVISION, true)
      ensures r.ticket.None? && r.decision != SelectWss ==>
        r.decision == Terminal && r.outcome == RunFailure(q, a, wiring) && r.requestId == q.requestId
    {
      hide SoundRun, ValidClaim;
      var blank := Blank(q.requestId);
      var stop := Admit(q, a);
      if stop.Some? { r := FinishTransport(Wss, Ended(blank, stop.value)); return; }
      r := Observe(q, now, a);
    }

    /** The observation and what it decides. */
    method Observe(q: Request, now: int, a: WssAnswers) returns (r: Result)
      requires Valid() && Wiped()
      modifies this, tickets
      ensures Valid() && Wiped()
      ensures old(trace) <= trace && OnlySince(trace, |old(trace)|, false)
      ensures var proved := a.decision == DecisionForReason(a.reason) == SelectWss && WssProves(a, wiring);
        && Audited(Wss, if proved then ProofSuccess else r.outcome, old(audits))
        && (r.decision == SelectWss <==> proved && (wiring.markers ==> a.written))
      ensures r.ticket.Some? <==>
        && a.decision == DecisionForReason(a.reason) == OfferSsh && wiring.tickets && ValidClaim(ClaimFor(q, a.reason))
        && a.entropy && q.generation >= old(tickets.Latest(q.profile.name))
      ensures r.ticket.Some? ==>
        && r.ticket.value !in old(tickets.issued)
        && trace == old(trace) + [Observed(q.profile, a.reason), Issued(r.ticket.value, ClaimFor(q, a.reason))]
        && r == Result(q.requestId, OfferSsh, ProofSuccess, "", false, r.ticket)
      ensures r.decision == SelectWss ==> r == Result(q.requestId, SelectWss, ProofSuccess, REVISION, true, None)
      ensures r.decision == SelectWss && wiring.markers ==>
        trace != [] && trace[|trace| - 1] == MarkerWritten(Wss, q.profile, REVISION, true)
      ensures r.ticket.None? && r.decision != SelectWss ==> r.decision == Terminal && r.requestId == q.requestId
      ensures r.ticket.None? && r.decision != SelectWss ==> r.outcome == ObservedFailure(a, wiring)
    {
      hide SoundRun, ValidClaim, WssProves, WssFailure, ClassOf;
      var blank := Blank(q.requestId);
      Emit(Observed(q.profile, a.reason));
      ghost var observed := trace;
      if a.decision != DecisionForReason(a.reason) {
        r := FinishTransport(Wss, Ended(blank, Blocked));
      } else if a.decision == Terminal {
        r := FinishTransport(Wss, Ended(blank, ClassOf(a.reason)));
      } else if a.decision == OfferSsh {
        r := OfferTicket(q, a.reason, now, a.entropy);
        OnlyLater(trace, observed, |old(trace)|, false);
        assert r.ticket.Some? ==>
          trace == old(trace) + [Observed(q.profile, a.reason), Issued(r.ticket.value, ClaimFor(q, a.reason))];
      } else {
        r := RunWss(q, a);
        OnlyLater(trace, observed, |old(trace)|, false);
      }
    }

    /** The checks of Run before it observes anything, clearing the old marker among them. */
    method Admit(q: Request, a: WssAnswers) returns (stop: Option<Class>)
      ensures stop.None? <==>
        && q.requestId != "" && ValidProfile(q.profile) && !a.cancelled && q.wssConsent
        && (wiring.markers ==> a.clears) && wiring.observe
      ensures stop.Some? ==> stop.value == RunFailure(q, a, wiring)
    {
      if q.requestId == "" || !ValidProfile(q.profile) { return Some(Blocked); }
      if a.cancelled { return Some(Stopped); }
      if !q.wssConsent { return Some(ConsentDeclined); }
      if wiring.markers && !a.clears { return Some(CleanupFailed); }
      if !wiring.observe { return Some(Blocked); }
      stop := None;
    }
  }

  /** The run ends with a valid proof and a clean close over this transport. */
  ghost predicate Settled(trace: seq<Event>, transport: Transport) {
    && |trace| >= 2 && trace[|trace| - 1] == Closed(transport)
    && trace[|trace| - 2].Proved? && trace[|trace| - 2].transport == transport
    && ValidMetadata(trace[|trace| - 2].metadata)
  }

  /** A runner that may be recorded has proved and closed last. */
  lemma RunnerSettled(trace: seq<Event>, q: Request, a: Answers)
    requires Recordable(RunnerResult(q, a))
    ensures Settled(trace + RunnerEvents(q, a), Ssh) && RunnerResult(q, a).revision == REVISION
  {
    assert RunnerEvents(q, a) == [SshOpened(q.ticket, q.profile, ClaimOf(q)), Proved(Ssh, a.metadata), Closed(Ssh)];
  }

  lemma ConsentIsNotSeen(q: Request, a: Answers, w: Wiring)
    ensures var p := q.(consent := true);
      && SshEvents(p, a, w) == SshEvents(q, a, w) && SshResult(p, a, w) == SshResult(q, a, w)
      && RunnerResult(p, a) == RunnerResult(q, a) && ClaimOf(p) == ClaimOf(q)
  {
  }

  lemma SomeGates(before: seq<Event>, p: Profile, k: nat)
    requires k <= 4
    ensures var trace := before + Gates(p)[..k];
      && OnlySince(trace, |before|, true)
      && forall i | |before| <= i < |trace| :: !trace[i].SshOpened? && !trace[i].MarkerWritten?
  {
    var trace := before + Gates(p)[..k];
    assert forall i | |before| <= i < |trace| :: trace[i] == Gates(p)[i - |before|];
  }

  lemma NoGates(before: seq<Event>, p: Profile)
    ensures OnlySince(before, |before|, true) && Gates(p)[..0] == []
  {
  }

  lemma AllGates(before: seq<Event>, q: Request, a: Answers, w: Wiring)
    ensures OnlySince(before + Gates(q.profile) + SshEvents(q, a, w), |before|, true)
  {
    var events := SshEvents(q, a, w);
    var trace := before + Gates(q.profile) + events;
    forall i | |before| <= i < |trace|
      ensures SshEvent(trace[i])
    {
      if i < |before| + 4 {
        assert trace[i] == Gates(q.profile)[i - |before|];
      } else {
        assert trace[i] == events[i - |before| - 4];
      }
    }
  }

  lemma LastFive(trace: seq<Event>, first: Event, p: Profile)
    requires |trace| >= 5 && trace[|trace| - 5..] == [first] + Gates(p)
    ensures var n := |trace|;
      && trace[n - 5] == first && trace[n - 4] == PolicyPassed(p) && trace[n - 3] == TrustPassed(p)
      && trace[n - 2] == ConsentPassed(p) && trace[n - 1] == CredentialFetched(p)
  {
    var last := trace[|trace| - 5..];
    assert forall i | 0 <= i < 5 :: last[i] == trace[|trace| - 5 + i];
  }

  /** Two stretches of allowed events make one. */
  lemma OnlyLater(trace: seq<Event>, middle: seq<Event>, start: nat, ssh: bool)
    requires middle <= trace && OnlySince(middle, start, ssh) && OnlySince(trace, |middle|, ssh)
    ensures OnlySince(trace, start, ssh)
  {
    assert forall i | 0 <= i < |middle| :: trace[i] == middle[i];
  }
}
