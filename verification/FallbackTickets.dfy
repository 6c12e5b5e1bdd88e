/** Single-use SSH fallback tickets. A ticket stands for its digest too: digests do not collide, and a drawn
    ticket is fresh. */
module FallbackTickets {
  datatype Reason =
    | WssSelected | DaemonRefused | DaemonUnavailable | DaemonAvailabilityTimeout | DaemonPolicyDisabled
    | UnsupportedVersion | IdentityFailure | ProtocolFailure | MalformedResponse | DowngradeBlocked | Cancelled
    | OperationTimeout | LimitExceeded | CredentialsUnavailable | Unknown

  datatype Decision = SelectWss | OfferSsh | Terminal

  function DecisionForReason(reason: Reason): Decision {
    match reason
    case WssSelected => SelectWss
    case DaemonRefused | DaemonUnavailable | DaemonAvailabilityTimeout => OfferSsh
    case DaemonPolicyDisabled | UnsupportedVersion => OfferSsh
    case _ => Terminal
  }

  type Ticket = nat

  datatype Claim = Claim(profile: string, requestId: string, generation: nat, reason: Reason)

  datatype Record = Record(claim: Claim, expires: int)

  datatype Option<T> = None | Some(value: T)

  const LIFETIME: int := 5 * 60

  predicate ValidClaim(c: Claim) {
    c.profile != "" && c.requestId != "" && c.generation > 0 && DecisionForReason(c.reason) == OfferSsh
  }

  type Records = map<Ticket, Record>

  function Without(records: Records, doomed: Claim -> bool): Records {
    map t | t in records && !doomed(records[t].claim) :: records[t]
  }

  class TicketStore {
    var records: Records
    var latest: map<string, nat>
    /** History: the claim each ticket was issued for, and the tickets that were consumed. */
    ghost var issued: map<Ticket, Claim>
    ghost var consumed: set<Ticket>
    var drawn: nat

    constructor ()
      ensures Valid() && records == map[] && issued == map[] && consumed == {}
    {
      records, latest, issued, consumed, drawn := map[], map[], map[], {}, 0;
    }

    /** The newest generation the store has seen of a profile. */
    function Latest(profile: string): nat
      reads this
    {
      if profile in latest then latest[profile] else 0
    }

    /** A live record is one that was issued and not consumed, of its profile's latest generation, and the only
        one of its profile. */
    ghost predicate Valid()
      reads this
    {
      && (forall t | t in issued :: t < drawn)
      && consumed <= issued.Keys
      && (forall t | t in records :: Live(t))
      && (forall t, u | t in records && u in records && records[t].claim.profile == records[u].claim.profile :: t == u)
    }

    ghost predicate Live(t: Ticket)
      requires t in records
      reads this
    {
      && t in issued && t !in consumed && issued[t] == records[t].claim && ValidClaim(records[t].claim)
      && records[t].claim.generation == Latest(records[t].claim.profile)
    }

    /** What every operation keeps: latest never decreases, and history only grows. */
    twostate predicate Forward()
      reads this
    {
      && (forall p :: Latest(p) >= old(Latest(p)))
      && (forall t | t in old(issued) :: t in issued && issued[t] == old(issued)[t])
      && old(consumed) <= consumed
    }

    method DeleteWhere(doomed: Claim -> bool)
      modifies this`records
      ensures records == Without(old(records), doomed)
    {
      var todo := records.Keys;
      while todo != {}
        invariant todo <= old(records).Keys
        invariant forall t :: t in records <==> t in old(records) && (t in todo || !doomed(old(records)[t].claim))
        invariant forall t | t in records :: records[t] == old(records)[t]
        decreases |todo|
      {
        var t :| t in todo;
        if t in records && doomed(records[t].claim) {
          records := records - {t};
        }
        todo := todo - {t};
      }
    }

    /** issue: refused for an older generation; otherwise the new ticket replaces whatever its profile had. */
    method Issue(claim: Claim, now: int, entropy: bool) returns (ticket: Option<Ticket>)
      requires Valid()
      modifies this
      ensures Valid() && Forward()
      ensures ticket.Some? <==> ValidClaim(claim) && entropy && claim.generation >= old(Latest(claim.profile))
      ensures ticket.None? ==> records == old(records) && latest == old(latest) && issued == old(issued)
      ensures ticket.Some? ==>
        && ticket.value !in old(issued) && issued == old(issued)[ticket.value := claim]
        && latest == old(latest)[claim.profile := claim.generation]
      ensures ticket.Some? ==>
        var others := Without(old(records), (c: Claim) => c.profile == claim.profile);
        records == others[ticket.value := Record(claim, now + LIFETIME)]
      ensures consumed == old(consumed)
    {
      if !ValidClaim(claim) || !entropy { return None; }
      var next := drawn;
      if claim.generation < Latest(claim.profile) { return None; }
      drawn := drawn + 1;
      latest := latest[claim.profile := claim.generation];
      DeleteWhere((c: Claim) => c.profile == claim.profile && c.generation <= claim.generation);
      assert records == Without(old(records), (c: Claim) => c.profile == claim.profile);
      records := records[next := Record(claim, now + LIFETIME)];
      issued := issued[next := claim];
      return Some(next);
    }

    /** consume: accepts a live ticket once, for its exact claim and before it expires. */
    method Consume(ticket: Ticket, claim: Claim, now: int) returns (ok: bool)
      requires Valid()
      modifies this
      ensures Valid() && Forward()
      ensures ok <==>
        ticket in old(records) && now < old(records)[ticket].expires && old(records)[ticket].claim == claim
      ensures ok ==> ticket !in old(consumed) && consumed == old(consumed) + {ticket} && old(issued)[ticket] == claim
      ensures ok ==> ValidClaim(claim) && claim.generation == Latest(claim.profile)
      ensures records == if ok then old(records) - {ticket} else old(records)
      ensures !ok ==> consumed == old(consumed)
      ensures issued == old(issued) && latest == old(latest)
    {
      if !ValidClaim(claim) { return false; }
      if ticket !in records || !(now < records[ticket].expires) || records[ticket].claim != claim { return false; }
      records := records - {ticket};
      consumed := consumed + {ticket};
      return true;
    }

    method Cancel(claim: Claim)
      requires Valid()
      modifies this
      ensures Valid() && Forward()
      ensures records == Without(old(records), (c: Claim) => c == claim)
      ensures issued == old(issued) && consumed == old(consumed) && latest == old(latest)
    {
      DeleteWhere((c: Claim) => c == claim);
    }

    /** supersede: older tickets of the profile die, and stay refused. */
    method Supersede(profile: string, generation: nat)
      requires Valid()
      modifies this
      ensures Valid() && Forward()
      ensures records == Without(old(records), (c: Claim) => c.profile == profile && c.generation < generation)
      ensures Latest(profile) >= generation && forall p | p != profile :: Latest(p) == old(Latest(p))
      ensures issued == old(issued) && consumed == old(consumed)
    {
      DeleteWhere((c: Claim) => c.profile == profile && c.generation < generation);
      if Latest(profile) < generation { latest := latest[profile := generation]; }
    }
  }
}
