/** The onboarding saga: mutating steps in a fixed order, each with a compensator that may be missing, and a
    journal that is cleared only after a complete commit or a complete compensation. */
module OnboardingCommit {
  datatype Phase = KeyringPhase | ProfilePhase | PinPhase | EligibilityPhase | AuditPhase

  datatype Action =
    | Prepare | Revoke | Record(phase: Phase) | StoreKeyring | SaveProfile | CommitPin | SaveEligibility | Audit
    | RollbackEligibility | RollbackPin | RollbackProfile | RollbackKeyring | RestorePrior | ClearJournal

  /** The durable state outside the journal. */
  datatype World = World(keyring: int, profile: int, pin: int, eligibility: int, prior: int)

  /** A callback succeeds, fails without effect, or fails after its effect. */
  datatype Fault = Fine | Clean | Dirty

  datatype Result = Result(saved: bool, cleanupRequired: bool)

  const SAVED := Result(true, false)
  const UNDONE := Result(false, false)
  const CLEANUP := Result(false, true)

  /** Which callbacks are set, how each behaves, and the values the steps write. */
  datatype Plan = Plan(has: set<Action>, faults: Action -> Fault, target: World)

  /** These check the context even when their callback is missing. */
  predicate ChecksContext(a: Action) { a.Prepare? || a.Record? || a.Audit? }

  predicate Fails(p: Plan, a: Action) { (a in p.has || ChecksContext(a)) && p.faults(a) != Fine }

  predicate Works(p: Plan, a: Action) { a in p.has && p.faults(a) != Clean }

  /** The forward steps in order. */
  const STEPS: seq<Action> := [
    Prepare, Revoke, Record(KeyringPhase), StoreKeyring, Record(ProfilePhase), SaveProfile, Record(PinPhase),
    CommitPin, Record(EligibilityPhase), SaveEligibility, Record(AuditPhase), Audit]

  /** The first step at or after `i` that fails, or 12. */
  function FirstFailureFrom(p: Plan, i: nat): (k: nat)
    requires i <= 12
    ensures i <= k <= 12
    ensures k < 12 ==> Fails(p, STEPS[k])
    ensures forall j | i <= j < k :: !Fails(p, STEPS[j])
    decreases 12 - i
  {
    if i == 12 || Fails(p, STEPS[i]) then i else FirstFailureFrom(p, i + 1)
  }

  function FirstFailure(p: Plan): nat { FirstFailureFrom(p, 0) }

  /** The world once every step before `k` has run and worked. */
  function Before(p: Plan, w: World, k: nat): World {
    World(
      if StoreKeyring in p.has && k > 3 then p.target.keyring else w.keyring,
      if SaveProfile in p.has && k > 5 then p.target.profile else w.profile,
      if CommitPin in p.has && k > 7 then p.target.pin else w.pin,
      if SaveEligibility in p.has && k > 9 then p.target.eligibility else w.eligibility,
      if Revoke in p.has && k > 1 then p.target.prior else w.prior)
  }

  /** The same, where step `k` failed, possibly after its effect. */
  function Forward(p: Plan, w: World, k: nat): World {
    Before(p, w, if k < 12 && Works(p, STEPS[k]) then k + 1 else k)
  }

  /** What compensation undoes: the steps before the failure, and the keyring and eligibility steps even
      when they are the ones that failed. */
  datatype Flags = Flags(keyring: bool, profile: bool, pin: bool, eligibility: bool, prior: bool)

  function FlagsAt(p: Plan, k: nat): Flags {
    Flags(StoreKeyring in p.has && k >= 3, SaveProfile in p.has && k > 5, CommitPin in p.has && k > 7,
          SaveEligibility in p.has && k >= 9, Revoke in p.has && k > 1)
  }

  predicate RollbackFails(p: Plan, f: Flags) {
    || (f.eligibility && Fails(p, RollbackEligibility)) || (f.pin && Fails(p, RollbackPin))
    || (f.profile && Fails(p, RollbackProfile)) || (f.keyring && Fails(p, RollbackKeyring))
  }

  /** The world after the compensators of `f` ran on `now`; each puts back the value of `w`. */
  function Compensated(p: Plan, w: World, now: World, f: Flags): World {
    World(
      if f.keyring && Works(p, RollbackKeyring) then w.keyring else now.keyring,
      if f.profile && Works(p, RollbackProfile) then w.profile else now.profile,
      if f.pin && Works(p, RollbackPin) then w.pin else now.pin,
      if f.eligibility && Works(p, RollbackEligibility) then w.eligibility else now.eligibility,
      if f.prior && !RollbackFails(p, f) && Works(p, RestorePrior) then w.prior else now.prior)
  }

  predicate PutsAllBack(p: Plan, f: Flags) { !RollbackFails(p, f) && !(f.prior && Fails(p, RestorePrior)) }

  function CompensationVerdict(p: Plan, f: Flags): Result {
    if !PutsAllBack(p, f) || Fails(p, ClearJournal) then CLEANUP else UNDONE
  }

  /** The outcome of Commit in closed form, by the first step that fails. */
  function Verdict(p: Plan): Result {
    var k := FirstFailure(p);
    if k == 0 then UNDONE
    else if k == 1 then CLEANUP
    else if k < 12 then CompensationVerdict(p, FlagsAt(p, k))
    else if Fails(p, ClearJournal) then CLEANUP else SAVED
  }

  function Final(p: Plan, w: World): World {
    var k := FirstFailure(p);
    var now := Forward(p, w, k);
    if 2 <= k < 12 then Compensated(p, w, now, FlagsAt(p, k)) else now
  }

  /** The place of an action in a run: the steps forward, then the compensators in reverse, then the journal. */
  function Rank(a: Action): nat {
    match a
    case Prepare => 0 case Revoke => 1
    case Record(KeyringPhase) => 2 case StoreKeyring => 3
    case Record(ProfilePhase) => 4 case SaveProfile => 5
    case Record(PinPhase) => 6 case CommitPin => 7
    case Record(EligibilityPhase) => 8 case SaveEligibility => 9
    case Record(AuditPhase) => 10 case Audit => 11
    case RollbackEligibility => 12 case RollbackPin => 13 case RollbackProfile => 14 case RollbackKeyring => 15
    case RestorePrior => 16 case ClearJournal => 17
  }

  predicate InOrder(log: seq<Action>, next: nat) {
    && (forall i, j | 0 <= i < j < |log| :: Rank(log[i]) < Rank(log[j]))
    && (log != [] ==> Rank(log[|log| - 1]) < next)
  }

  function With(log: seq<Action>, due: bool, a: Action): seq<Action> { if due then log + [a] else log }

  lemma WithNone(log: seq<Action>, a: Action)
    ensures With(log, false, a) == log
  {}

  /** The callbacks that the first `k` steps reach. */
  function StepsTo(has: set<Action>, k: nat): seq<Action>
    requires k <= 12
  {
    if k == 0 then [] else With(StepsTo(has, k - 1), STEPS[k - 1] in has, STEPS[k - 1])
  }

  /** The compensators of the writing steps: each that is due is tried, whatever became of the others. */
  function Tried(log: seq<Action>, has: set<Action>, keyring: bool, profile: bool, pin: bool, eligibility: bool)
    : seq<Action>
  {
    var log := With(log, eligibility && RollbackEligibility in has, RollbackEligibility);
    var log := With(log, pin && RollbackPin in has, RollbackPin);
    var log := With(log, profile && RollbackProfile in has, RollbackProfile);
    With(log, keyring && RollbackKeyring in has, RollbackKeyring)
  }

  /** Behind them, if all of them succeeded, the prior eligibility is put back, and the journal is cleared behind
      that. */
  function Compensating(log: seq<Action>, p: Plan, f: Flags): seq<Action> {
    var log := Tried(log, p.has, f.keyring, f.profile, f.pin, f.eligibility);
    var log := With(log, f.prior && !RollbackFails(p, f) && RestorePrior in p.has, RestorePrior);
    With(log, PutsAllBack(p, f) && ClearJournal in p.has, ClearJournal)
  }

  /** The callbacks that a run reaches, in order. */
  function Trace(p: Plan): seq<Action> {
    var k := FirstFailure(p);
    if k < 2 then StepsTo(p.has, k + 1)
    else if k < 12 then Compensating(StepsTo(p.has, k + 1), p, FlagsAt(p, k))
    else With(StepsTo(p.has, k), ClearJournal in p.has, ClearJournal)
  }

  /** The run got as far as clearing its journal: everything worked, or everything was compensated. */
  predicate ReachesJournal(p: Plan) {
    var k := FirstFailure(p);
    var f := FlagsAt(p, k);
    k == 12 || (2 <= k && PutsAllBack(p, f))
  }

  /** What an action does to the world `w` of a run that started in `start`. */
  function Effect(a: Action, target: World, start: World, w: World): World {
    match a
    case StoreKeyring => w.(keyring := target.keyring)
    case SaveProfile => w.(profile := target.profile)
    case CommitPin => w.(pin := target.pin)
    case SaveEligibility => w.(eligibility := target.eligibility)
    case Revoke => w.(prior := target.prior)
    case RollbackKeyring => w.(keyring := start.keyring)
    case RollbackProfile => w.(profile := start.profile)
    case RollbackPin => w.(pin := start.pin)
    case RollbackEligibility => w.(eligibility := start.eligibility)
    case RestorePrior => w.(prior := start.prior)
    case _ => w
  }

  /** The world as the callbacks reached so far left it, each that worked having had its effect in turn. */
  function Replayed(p: Plan, start: World, log: seq<Action>): World
    decreases |log|
  {
    if log == [] then start
    else
      var a := log[|log| - 1];
      var w := Replayed(p, start, log[..|log| - 1]);
      if p.faults(a) != Clean then Effect(a, p.target, start, w) else w
  }

  lemma ReplayedSnoc(p: Plan, start: World, log: seq<Action>, a: Action)
    ensures Replayed(p, start, log + [a]) ==
      (if p.faults(a) != Clean then Effect(a, p.target, start, Replayed(p, start, log)) else Replayed(p, start, log))
  {
    assert (log + [a])[..|log|] == log;
  }

  /** One more step that worked moves the closed form of the world by its effect. */
  lemma StepEffect(p: Plan, w: World, a: Action)
    requires Rank(a) < 12
    ensures STEPS[Rank(a)] == a
    ensures StepsTo(p.has, Rank(a) + 1) == With(StepsTo(p.has, Rank(a)), a in p.has, a)
    ensures a in p.has ==> Before(p, w, Rank(a) + 1) == Effect(a, p.target, w, Before(p, w, Rank(a)))
    ensures a !in p.has ==> Before(p, w, Rank(a) + 1) == Before(p, w, Rank(a))
  {
  }

  class Commit {
    const plan: Plan
    /** The values the compensators put back. */
    const start: World
    var world: World
    /** The callbacks that were reached, in order. */
    var log: seq<Action>

    constructor (plan: Plan, world: World)
      ensures this.plan == plan && this.world == world && start == world && log == []
    {
      this.plan, this.world, this.start, this.log := plan, world, world, [];
    }

    /** The world is what the callbacks in the log made of it. */
    ghost predicate Replays()
      reads this
    {
      world == Replayed(plan, start, log)
    }

    /** One callback: nothing happens if it is not set. */
    method Call(a: Action) returns (ok: bool)
      requires InOrder(log, Rank(a)) && Replays()
      modifies this
      ensures ok <==> !Fails(plan, a)
      ensures Replays()
      ensures log == if a in plan.has then old(log) + [a] else old(log)
      ensures InOrder(log, Rank(a) + 1)
      ensures world == if Works(plan, a) then Effect(a, plan.target, start, old(world)) else old(world)
    {
      if a in plan.has {
        ReplayedSnoc(plan, start, log, a);
        log := log + [a];
        if plan.faults(a) != Clean { world := Effect(a, plan.target, start, world); }
      }
      ok := !Fails(plan, a);
    }

    /** Every step before `i` ran and worked. */
    ghost predicate Reached(i: nat)
      requires i <= 12
      reads this
    {
      && world == Before(plan, start, i)
      && FirstFailure(plan) == FirstFailureFrom(plan, i)
      && InOrder(log, i)
      && ClearJournal !in log
      && Replays() && log == StepsTo(plan.has, i)
    }

    method Step(a: Action) returns (ok: bool)
      requires Rank(a) < 12
      requires Reached(Rank(a))
      modifies this
      ensures ok ==> Reached(Rank(a) + 1)
      ensures !ok ==> FirstFailure(plan) == Rank(a) && world == Forward(plan, start, Rank(a))
      ensures !ok ==> Replays() && log == StepsTo(plan.has, Rank(a) + 1)
      ensures InOrder(log, 12) && ClearJournal !in log
    {
      hide Replayed, FirstFailure, Before, StepsTo, Commit.Replays, Effect;
      StepEffect(plan, start, a);
      ok := Call(a);
    }

    method RollBack(a: Action, due: bool) returns (ok: bool)
      requires 12 <= Rank(a) < 17
      requires InOrder(log, Rank(a)) && ClearJournal !in log && Replays()
      modifies this
      ensures Replays() && log == With(old(log), due && a in plan.has, a)
      ensures ok <==> !(due && Fails(plan, a))
      ensures world == if due && Works(plan, a) then Effect(a, plan.target, start, old(world)) else old(world)
      ensures InOrder(log, Rank(a) + 1) && ClearJournal !in log
    {
      hide Replayed;
      ok := true;
      if due { ok := Call(a); }
    }

    method RollBackWrites(keyring: bool, profile: bool, pin: bool, eligibility: bool) returns (ok: bool)
      requires InOrder(log, 12) && ClearJournal !in log && Replays()
      modifies this
      ensures Replays() && log == Tried(old(log), plan.has, keyring, profile, pin, eligibility)
      ensures forall prior :: ok <==> !RollbackFails(plan, Flags(keyring, profile, pin, eligibility, prior))
      ensures world.prior == old(world).prior
      ensures world == Compensated(plan, start, old(world), Flags(keyring, profile, pin, eligibility, false))
      ensures InOrder(log, 16) && ClearJournal !in log
    {
      hide Replayed, InOrder, Commit.Replays, With;
      var a := RollBack(RollbackEligibility, eligibility);
      var b := RollBack(RollbackPin, pin);
      var c := RollBack(RollbackProfile, profile);
      var d := RollBack(RollbackKeyring, keyring);
      return a && b && c && d;
    }

    method Compensate(keyring: bool, profile: bool, pin: bool, eligibility: bool, prior: bool) returns (r: Result)
      requires InOrder(log, 12) && ClearJournal !in log && Replays()
      modifies this
      ensures Replays()
      ensures var f := Flags(keyring, profile, pin, eligibility, prior);
        && r == CompensationVerdict(plan, f)
        && world == Compensated(plan, start, old(world), f)
        && log == Compensating(old(log), plan, f)
        && (ClearJournal in log <==> ClearJournal in plan.has && PutsAllBack(plan, f))
      ensures InOrder(log, 18)
    {
      hide Replayed, Commit.Replays, Tried, With;
      ghost var f := Flags(keyring, profile, pin, eligibility, prior);
      var ok := RollBackWrites(keyring, profile, pin, eligibility);
      assert ok <==> !RollbackFails(plan, f);
      if ok {
        r := RestoreAndClear(prior);
      } else {
        WithNone(log, RestorePrior);
        WithNone(log, ClearJournal);
        r := CLEANUP;
      }
    }

    /** The prior eligibility, and then the journal. */
    method RestoreAndClear(prior: bool) returns (r: Result)
      requires InOrder(log, 16) && ClearJournal !in log && Replays()
      modifies this
      ensures Replays() && InOrder(log, 18)
      ensures var restored := !(prior && Fails(plan, RestorePrior));
        && r == (if restored && !Fails(plan, ClearJournal) then UNDONE else CLEANUP)
        && log == With(With(old(log), prior && RestorePrior in plan.has, RestorePrior),
                       restored && ClearJournal in plan.has, ClearJournal)
        && (ClearJournal in log <==> restored && ClearJournal in plan.has)
      ensures world == if prior && Works(plan, RestorePrior) then old(world).(prior := start.prior) else old(world)
    {
      hide Replayed, Commit.Replays;
      var ok := RollBack(RestorePrior, prior);
      if !ok { return CLEANUP; }
      r := Clear(UNDONE);
    }

    method Clear(whole: Result) returns (r: Result)
      requires InOrder(log, 17) && ClearJournal !in log && Replays()
      modifies this
      ensures world == old(world) && Replays()
      ensures log == With(old(log), ClearJournal in plan.has, ClearJournal)
      ensures r == if Fails(plan, ClearJournal) then CLEANUP else whole
      ensures InOrder(log, 18)
      ensures ClearJournal in log <==> ClearJournal in plan.has
    {
      hide Replayed;
      var ok := Call(ClearJournal);
      return if ok then whole else CLEANUP;
    }

    /** Compensation with the flags the failed step calls for. */
    method Undo(keyring: bool, profile: bool, pin: bool, eligibility: bool, prior: bool) returns (r: Result)
      requires 2 <= FirstFailure(plan) < 12 && world == Forward(plan, start, FirstFailure(plan))
      requires Flags(keyring, profile, pin, eligibility, prior) == FlagsAt(plan, FirstFailure(plan))
      requires InOrder(log, 12) && ClearJournal !in log
      requires Replays() && log == StepsTo(plan.has, FirstFailure(plan) + 1)
      modifies this
      ensures Ended(r)
    {
      r := Compensate(keyring, profile, pin, eligibility, prior);
    }

    /** The contract of Commit: its answer and the world are the closed forms, callbacks ran in the fixed order
        with compensators reversed, and the journal was cleared exactly when the run got that far. The callbacks
        reached are those of the trace, and the world is what they made of it. */
    ghost predicate Ended(r: Result)
      reads this
    {
      && r == Verdict(plan) && world == Final(plan, start)
      && InOrder(log, 18)
      && (ClearJournal in log <==> ClearJournal in plan.has && ReachesJournal(plan))
      && log == Trace(plan) && Replays()
    }

    lemma Begins()
      requires world == start && log == []
      ensures Reached(0)
    {
    }

    /** Nothing is compensated when the first or second step fails. */
    lemma EndsEarly()
      requires FirstFailure(plan) < 2 && world == Forward(plan, start, FirstFailure(plan))
      requires Replays() && log == StepsTo(plan.has, FirstFailure(plan) + 1)
      requires InOrder(log, 12) && ClearJournal !in log
      ensures Ended(if FirstFailure(plan) == 0 then UNDONE else CLEANUP)
    {
      hide Replayed;
    }

    method Run() returns (r: Result)
      requires world == start && log == []
      modifies this
      ensures Ended(r)
    {
      hide InOrder, StepsTo, Replayed, FirstFailure, Commit.Reached, Commit.Replays, Commit.Ended, Forward;
      Begins();
      var ok := Step(Prepare);
      if !ok { EndsEarly(); return UNDONE; }
      ok := Step(Revoke);
      if !ok { EndsEarly(); return CLEANUP; }
      r := FromKeyring(Revoke in plan.has);
    }

    method FromKeyring(prior: bool) returns (r: Result)
      requires Reached(2) && prior == (Revoke in plan.has)
      modifies this
      ensures Ended(r)
    {
      hide InOrder, StepsTo, Commit.Reached, Commit.Replays, Commit.Ended, Forward;
      var ok := Step(Record(KeyringPhase));
      if !ok { r := Undo(false, false, false, false, prior); return; }
      ok := Step(StoreKeyring);
      if !ok { r := Undo(StoreKeyring in plan.has, false, false, false, prior); return; }
      var keyring := StoreKeyring in plan.has;
      r := FromProfile(keyring, prior);
    }

    method FromProfile(keyring: bool, prior: bool) returns (r: Result)
      requires Reached(4) && keyring == (StoreKeyring in plan.has) && prior == (Revoke in plan.has)
      modifies this
      ensures Ended(r)
    {
      hide InOrder, StepsTo, Commit.Reached, Commit.Replays, Commit.Ended, Forward;
      var ok := Step(Record(ProfilePhase));
      if !ok { r := Undo(keyring, false, false, false, prior); return; }
      ok := Step(SaveProfile);
      if !ok { r := Undo(keyring, false, false, false, prior); return; }
      var profile := SaveProfile in plan.has;
      ok := Step(Record(PinPhase));
      if !ok { r := Undo(keyring, profile, false, false, prior); return; }
      ok := Step(CommitPin);
      if !ok { r := Undo(keyring, profile, false, false, prior); return; }
      var pin := CommitPin in plan.has;
      r := FromEligibility(keyring, profile, pin, prior);
    }

    method FromEligibility(keyring: bool, profile: bool, pin: bool, prior: bool) returns (r: Result)
      requires Reached(8) && keyring == (StoreKeyring in plan.has) && prior == (Revoke in plan.has)
      requires profile == (SaveProfile in plan.has) && pin == (CommitPin in plan.has)
      modifies this
      ensures Ended(r)
    {
      hide InOrder, StepsTo, Commit.Reached, Commit.Replays, Commit.Ended, Forward;
      var ok := Step(Record(EligibilityPhase));
      if !ok { r := Undo(keyring, profile, pin, false, prior); return; }
      ok := Step(SaveEligibility);
      if !ok { r := Undo(keyring, profile, pin, SaveEligibility in plan.has, prior); return; }
      var eligibility := SaveEligibility in plan.has;
      r := FromAudit(keyring, profile, pin, eligibility, prior);
    }

    method FromAudit(keyring: bool, profile: bool, pin: bool, eligibility: bool, prior: bool) returns (r: Result)
      requires Reached(10) && Flags(keyring, profile, pin, eligibility, prior) == FlagsAt(plan, 10)
      modifies this
      ensures Ended(r)
    {
      hide InOrder, StepsTo, Commit.Reached, Commit.Replays, Commit.Ended, Forward;
      var ok := Step(Record(AuditPhase));
      if !ok { r := Undo(keyring, profile, pin, eligibility, prior); return; }
      ok := Step(Audit);
      if !ok { r := Undo(keyring, profile, pin, eligibility, prior); return; }
      r := Finish();
    }

    /** Every step has worked. */
    method Finish() returns (r: Result)
      requires Reached(12)
      modifies this
      ensures Ended(r)
    {
      hide Replayed;
      r := Clear(SAVED);
    }
  }

  /** Each mutating step that is set has its compensator set. */
  predicate Invertible(has: set<Action>) {
    && (StoreKeyring in has ==> RollbackKeyring in has)
    && (SaveProfile in has ==> RollbackProfile in has)
    && (CommitPin in has ==> RollbackPin in has)
    && (SaveEligibility in has ==> RollbackEligibility in has)
    && (Revoke in has ==> RestorePrior in has)
  }

  /** Only the actions in `late` can fail after their effect. */
  ghost predicate OnlyLate(p: Plan, late: set<Action>) {
    forall a :: p.faults(a) == Dirty ==> a in late
  }

  /** Whatever fails, a run that reports neither Saved nor CleanupRequired leaves the world as it was. */
  ghost predicate UndoneLeavesNoTrace(has: set<Action>, late: set<Action>) {
    forall p: Plan, w: World :: p.has == has && OnlyLate(p, late) && Verdict(p) == UNDONE ==> Final(p, w) == w
  }

  lemma UndoneRun(p: Plan, w: World, late: set<Action>)
    requires Invertible(p.has) && SaveProfile !in late * p.has && CommitPin !in late * p.has
    requires OnlyLate(p, late) && Verdict(p) == UNDONE
    ensures Final(p, w) == w
  {
    var k := FirstFailure(p);
    assert p.faults(SaveProfile) == Dirty ==> SaveProfile in late;
    assert p.faults(CommitPin) == Dirty ==> CommitPin in late;
  }

  lemma FailsOnlyAt(p: Plan, k: nat)
    requires k < 12 && Fails(p, STEPS[k]) && forall i | 0 <= i < k :: !Fails(p, STEPS[i])
    ensures FirstFailure(p) == k
  {
  }

  const EMPTY := World(0, 0, 0, 0, 0)
  const FILLED := World(1, 1, 1, 1, 1)

  /** A missing compensator shows when the last journal record fails. */
  lemma MissingCompensatorShows(has: set<Action>, late: set<Action>)
    requires !Invertible(has)
    ensures !UndoneLeavesNoTrace(has, late)
  {
    var p := Plan(has, (a: Action) => if a == Record(AuditPhase) then Clean else Fine, FILLED);
    FailsOnlyAt(p, 10);
    assert OnlyLate(p, late) && Verdict(p) == UNDONE && Final(p, EMPTY) != EMPTY;
  }

  /** A profile or pin step that fails after its effect is reported as undone and is not. */
  lemma LateFailureShows(has: set<Action>, late: set<Action>, bad: Action)
    requires Invertible(has) && bad in late * has && (bad == SaveProfile || bad == CommitPin)
    ensures !UndoneLeavesNoTrace(has, late)
  {
    var p := Plan(has, (a: Action) => if a == bad then Dirty else Fine, FILLED);
    FailsOnlyAt(p, Rank(bad));
    assert OnlyLate(p, late) && Verdict(p) == UNDONE && Final(p, EMPTY) != EMPTY;
  }

  /** The exact condition: every compensator is set, and neither the profile nor the pin step, which are not
      compensated when they are the one that fails, can fail after its effect. */
  lemma UndoneExactly(has: set<Action>, late: set<Action>)
    ensures UndoneLeavesNoTrace(has, late) <==>
      Invertible(has) && SaveProfile !in late * has && CommitPin !in late * has
  {
    if !Invertible(has) {
      MissingCompensatorShows(has, late);
    } else if SaveProfile in late * has {
      LateFailureShows(has, late, SaveProfile);
    } else if CommitPin in late * has {
      LateFailureShows(has, late, CommitPin);
    } else {
      forall p: Plan, w: World | p.has == has && OnlyLate(p, late) && Verdict(p) == UNDONE ensures Final(p, w) == w {
        UndoneRun(p, w, late);
      }
    }
  }

  /** Commit reports Saved exactly when no step and no journal write failed, and then every step took effect. */
  lemma SavedExactly(p: Plan, w: World)
    ensures Verdict(p) == SAVED <==> (forall i | 0 <= i < 12 :: !Fails(p, STEPS[i])) && !Fails(p, ClearJournal)
    ensures Verdict(p) == SAVED ==> Final(p, w) == Before(p, w, 12) && ReachesJournal(p)
  {
  }

  /** The journal is cleared only on a run that saved everything or put everything back. */
  lemma JournalClearedOnlyWhenWhole(p: Plan, w: World, late: set<Action>)
    requires Invertible(p.has) && SaveProfile !in late * p.has && CommitPin !in late * p.has
    requires OnlyLate(p, late) && ReachesJournal(p)
    ensures Final(p, w) == w || Final(p, w) == Before(p, w, 12)
  {
    assert p.faults(SaveProfile) == Dirty ==> SaveProfile in late;
    assert p.faults(CommitPin) == Dirty ==> CommitPin in late;
  }
}
