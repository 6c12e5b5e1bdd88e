/** Acquisition and recovery of remote temporaries. A ledger row is admitted before the remote file is
    created and deleted only after the file is confirmed gone, so that after any failure or crash every
    file that still exists is named by a row. */
module SourceAcquire {
  import opened OwnershipLedger
  import opened SourceSnapshot
  import opened Utf8
  import RecoveryPath

  const ABSOLUTE_MAX_BYTES: nat := 4 * 1024 * 1024

  /** A path on the system that a target digest stands for. */
  datatype Place = Place(target: string, path: string)

  function PlaceOf(row: Row): Place { Place(row.targetDigest, row.remotePath) }

  datatype RemoteFault = Sound | FailsBefore | FailsAfter | ShortRead | DiesBefore | DiesAfter

  predicate Effective(f: RemoteFault) { f.Sound? || f.FailsAfter? || f.DiesAfter? }

  datatype Outcome = Ok | Failed | Dead

  function OutcomeOf(f: RemoteFault): Outcome {
    match f
    case Sound => Ok
    case FailsBefore | FailsAfter | ShortRead => Failed
    case DiesBefore | DiesAfter => Dead
  }

  datatype StatResult = Regular(length: nat) | NotFound | StatFailed(outcome: Outcome)
  datatype Data = Read(bytes: Bytes) | ReadFailed(outcome: Outcome)

  /** The remote system: the temporaries that exist. Every operation draws an arbitrary fault. */
  class Remote {
    var files: map<Place, Bytes>
    ghost var troubles: nat

    constructor ()
      ensures files == map[] && troubles == 0
    {
      files := map[];
      troubles := 0;
    }

    method Next() returns (f: RemoteFault)
      modifies this`troubles
      ensures troubles == if f.Sound? then old(troubles) else old(troubles) + 1
    {
      f := *;
      if !f.Sound? { troubles := troubles + 1; }
    }

    /** An operation that touches no temporary: opening, closing, the home, a cancellation check. */
    method Gate() returns (r: Outcome)
      modifies this`troubles
      ensures troubles >= old(troubles)
      ensures troubles == old(troubles) ==> r.Ok?
    {
      var f := Next();
      r := OutcomeOf(f);
    }

    method CreateExclusive(place: Place) returns (r: Outcome)
      modifies this
      ensures troubles >= old(troubles)
      ensures files == old(files) || (place !in old(files) && files == old(files)[place := []])
      ensures r.Ok? ==> place in files
      ensures troubles == old(troubles) && place !in old(files) ==> r.Ok?
    {
      var f := Next();
      r := OutcomeOf(f);
      if place in files {
        if r.Ok? { r := Failed; }
      } else if Effective(f) {
        files := files[place := []];
      }
    }

    /** CPYTOSTMF with *REPLACE: it may write the file even when it reports a failure. */
    method CopySourceMember(place: Place, member: Bytes) returns (r: Outcome)
      modifies this
      ensures troubles >= old(troubles)
      ensures files == old(files) || files == old(files)[place := member]
      ensures r.Ok? ==> files == old(files)[place := member]
      ensures troubles == old(troubles) ==> r.Ok?
    {
      var f := Next();
      r := OutcomeOf(f);
      if Effective(f) { files := files[place := member]; }
    }

    method Stat(place: Place) returns (r: StatResult)
      modifies this`troubles
      ensures troubles >= old(troubles)
      ensures r.NotFound? ==> place !in files
      ensures r.Regular? ==> place in files && r.length == |files[place]|
      ensures r.StatFailed? ==> !r.outcome.Ok?
      ensures troubles == old(troubles) ==> !r.StatFailed?
    {
      var f := Next();
      if !f.Sound? { return StatFailed(OutcomeOf(f)); }
      r := if place in files then Regular(|files[place]|) else NotFound;
    }

    /** A download may end early without an error. */
    method Download(place: Place) returns (r: Data)
      modifies this`troubles
      ensures troubles >= old(troubles)
      ensures r.Read? ==> place in files && r.bytes <= files[place]
      ensures r.ReadFailed? ==> !r.outcome.Ok?
      ensures troubles == old(troubles) && place in files ==> r == Read(files[place])
    {
      var f := Next();
      if f.ShortRead? && place in files { return Read(files[place][..|files[place]| / 2]); }
      if !f.Sound? { return ReadFailed(OutcomeOf(f)); }
      r := if place in files then Read(files[place]) else ReadFailed(Failed);
    }

    /** Removing an absent file reports that, and counts as removed. */
    method Remove(place: Place) returns (r: Outcome)
      modifies this
      ensures troubles >= old(troubles)
      ensures files == old(files) || files == old(files) - {place}
      ensures r.Ok? ==> files == old(files) - {place}
      ensures troubles == old(troubles) ==> r.Ok?
    {
      var f := Next();
      r := OutcomeOf(f);
      if Effective(f) { files := files - {place}; }
    }

    /** removeConfirmed: success only after a stat has seen the file gone. */
    method RemoveConfirmed(place: Place) returns (r: Outcome)
      modifies this
      ensures troubles >= old(troubles)
      ensures files == old(files) || files == old(files) - {place}
      ensures r.Ok? ==> files == old(files) - {place}
      ensures troubles == old(troubles) ==> r.Ok?
    {
      var removed := Remove(place);
      if removed.Dead? { return Dead; }
      var seen := Stat(place);
      match seen {
        case NotFound => r := removed;
        case StatFailed(outcome) => r := outcome;
        case Regular(_) => r := Failed;
      }
    }
  }

  /** Every temporary that exists is named by a row. */
  ghost predicate Named(files: map<Place, Bytes>, rows: Table) {
    forall p | p in files :: exists t :: t in rows && PlaceOf(rows[t]) == p
  }

  /** Deleting the row of a place that holds no file keeps every other file named. */
  lemma NamedWithoutRow(files: map<Place, Bytes>, rows: Table, token: string)
    requires Named(files, rows) && token in rows && PlaceOf(rows[token]) !in files
    ensures Named(files, rows - {token})
  {
    forall p | p in files
      ensures exists t :: t in rows - {token} && PlaceOf((rows - {token})[t]) == p
    {
      var t :| t in rows && PlaceOf(rows[t]) == p;
      assert t in rows - {token};
    }
  }

  /** Admitting a row never takes a name away. */
  lemma NamedWithRow(files: map<Place, Bytes>, rows: Table, record: Record)
    requires Named(files, rows) && CanStore(rows, record)
    ensures Named(files, Stored(rows, record))
  {
    forall p | p in files
      ensures exists t :: t in Stored(rows, record) && PlaceOf(Stored(rows, record)[t]) == p
    {
      var t :| t in rows && PlaceOf(rows[t]) == p;
      assert t in Stored(rows, record);
    }
  }

  predicate IsProfileStart(c: char) { 'A' <= c <= 'Z' || 'a' <= c <= 'z' || '0' <= c <= '9' }

  predicate IsProfileName(name: string) {
    && 1 <= |name| <= 64 && IsProfileStart(name[0])
    && forall c | c in name :: IsProfileStart(c) || c == '.' || c == '_' || c == '-'
  }

  /** guardRecoveryRecord on a record read back from the table. */
  predicate GuardRecoveryRecord(record: Record) {
    && IsToken(record.token) && RecoveryPath.PrivateRecoveryPath(record.remotePath)
    && IsProfileName(record.profile) && |record.targetDigest| == 32 && CanonicalTime(record.createdAt)
  }

  /** canonicalOwnershipTime: not the zero time, and nothing but what its text keeps. */
  predicate CanonicalTime(createdAt: int) {
    createdAt != 0 && createdAt % NANOS == 0 && FourDigitYear(createdAt / NANOS)
  }

  /** The systems that the saved profiles name now, by target digest. */
  type Bindings = map<string, string>

  predicate Recoverable(record: Record, bindings: Bindings) {
    GuardRecoveryRecord(record) && record.profile in bindings && bindings[record.profile] == record.targetDigest
  }

  ghost predicate AllRecoverable(rows: Table, bindings: Bindings) {
    forall t | t in rows :: Recoverable(RecordOf(t, rows[t]), bindings)
  }

  predicate FirstRecoverable(records: seq<Record>, n: nat, bindings: Bindings)
    requires n <= |records|
  {
    forall i | 0 <= i < n :: Recoverable(records[i], bindings)
  }

  lemma ListedAreRecoverable(records: seq<Record>, rows: Table, bindings: Bindings)
    requires Lists(records, rows)
    ensures FirstRecoverable(records, |records|, bindings) <==> AllRecoverable(rows, bindings)
  {
    if FirstRecoverable(records, |records|, bindings) {
      forall t | t in rows
        ensures Recoverable(RecordOf(t, rows[t]), bindings)
      {
        var i :| 0 <= i < |records| && records[i].token == t;
        assert Recoverable(records[i], bindings);
      }
    }
  }

  lemma ListsNothing(records: seq<Record>, rows: Table)
    requires records == [] && Lists(records, rows)
    ensures rows == map[]
  {
    assert forall t | t in rows :: false;
  }

  /** Where the recovery loop stands before row `i`: its record is the stored one, and without it the
      rest is what the table still holds. */
  lemma ListedHead(records: seq<Record>, i: nat, rows: Table)
    requires i < |records| && Lists(records[i..], rows)
    ensures records[i].token in rows && rows[records[i].token] == RowOf(records[i])
    ensures Lists(records[i + 1..], rows - {records[i].token})
  {
    var rest := records[i..];
    assert rest[0] == records[i] && rest[1..] == records[i + 1..];
    RowRoundTrip(rest[0].token, rows[rest[0].token]);
    ListsTail(rest, rows);
  }

  datatype Request = Request(
    profile: string, target: string, home: string, token: string, now: int,
    candidateValid: bool, member: Bytes)

  /** What an acquisition of this request needs: without it none succeeds, and with it none fails unless something
      else does. */
  predicate Servable(q: Request) {
    && q.candidateValid && RecoveryPath.IsAbs(q.home) && !RecoveryPath.Contains(q.home, "..")
    && Storable(q.token, RowOf(RecordFor(q)))
    && |q.member| <= ABSOLUTE_MAX_BYTES && IsUtf8(q.member)
  }

  function RecordFor(q: Request): Record {
    Record(q.token, RecoveryPath.TemporaryPath(q.home, q.token), q.profile, q.target, q.now)
  }

  /** Which admitted rows recovery can ever clear. The row of an acquisition whose home is the root, or
      whose home holds a backslash, a line break or a NUL, blocks recovery, and with it every later
      acquisition, whatever the profiles say. So does one that was created within the second of the zero time. */
  lemma AdmittedRowIsRecoverable(q: Request, bindings: Bindings)
    requires Storable(q.token, RowOf(RecordFor(q)))
    ensures Recoverable(RecordOf(q.token, RowOf(RecordFor(q))), bindings) <==>
              && RecoveryPath.Elems(q.home) != [] && RecoveryPath.AllPlain(RecoveryPath.Elems(q.home))
              && IsProfileName(q.profile) && q.profile in bindings && bindings[q.profile] == q.target
              && q.now / NANOS != 0
  {
    assert RecoveryPath.IsElement(q.token) by { assert IsHexDigit(q.token[0]); }
    assert RecoveryPath.Plain(q.token) by { assert forall c | c in q.token :: IsHexDigit(c); }
    RecoveryPath.AdmittedPathIsRecoverable(q.home, q.token);
  }

  datatype Acquired = Acquired(snapshot: Snapshot) | NotAcquired | Died

  class Acquirer {
    const ledger: Ledger
    const remote: Remote

    constructor (ledger: Ledger, remote: Remote)
      ensures this.ledger == ledger && this.remote == remote
    {
      this.ledger := ledger;
      this.remote := remote;
    }

    ghost predicate Inv()
      reads ledger, remote
    {
      ledger.Valid() && Named(remote.files, ledger.rows)
    }

    /** How many ledger statements and remote operations have failed so far. */
    ghost function Troubles(): nat
      reads ledger, remote
    {
      ledger.troubles + remote.troubles
    }

    /** One row: guards, a fresh connection to its own target, confirmed removal, then the deletion. */
    method RecoverRow(record: Record, bindings: Bindings) returns (r: Outcome)
      requires Inv() && record.token in ledger.rows && ledger.rows[record.token] == RowOf(record)
      modifies ledger, remote
      ensures Inv() && Troubles() >= old(Troubles())
      ensures ledger.rows == old(ledger.rows) || ledger.rows == old(ledger.rows) - {record.token}
      ensures remote.files.Keys <= old(remote.files).Keys
      ensures r.Ok? ==> Recoverable(record, bindings) && ledger.rows == old(ledger.rows) - {record.token}
      ensures Troubles() == old(Troubles()) && Recoverable(record, bindings) ==> r.Ok?
    {
      if !Recoverable(record, bindings) { return Failed; }
      var place := PlaceOf(RowOf(record));
      r := remote.Gate();
      if !r.Ok? { return; }
      var confirmed := remote.RemoveConfirmed(place);
      if confirmed.Dead? { return Dead; }
      var closed := remote.Gate();
      if closed.Dead? { return Dead; }
      if !confirmed.Ok? || !closed.Ok? { return Failed; }
      NamedWithoutRow(remote.files, ledger.rows, record.token);
      var deleted := ledger.Delete(record);
      r := match deleted case Done => Ok case Refused(_) => Failed case Crashed => Dead;
    }

    /** One round of the recovery loop. */
    method RecoverNext(records: seq<Record>, i: nat, bindings: Bindings) returns (r: Outcome)
      requires Inv() && i < |records| && Lists(records[i..], ledger.rows)
      modifies ledger, remote
      ensures Inv() && Troubles() >= old(Troubles())
      ensures ledger.rows.Keys <= old(ledger.rows).Keys && remote.files.Keys <= old(remote.files).Keys
      ensures r.Ok? ==> Recoverable(records[i], bindings) && Lists(records[i + 1..], ledger.rows)
      ensures Troubles() == old(Troubles()) && Recoverable(records[i], bindings) ==> r.Ok?
    {
      ListedHead(records, i, ledger.rows);
      r := RecoverRow(records[i], bindings);
    }

    /** The recovery loop: every listed row in turn, stopping at the first that is not recovered. */
    method RecoverListed(records: seq<Record>, bindings: Bindings) returns (r: Outcome)
      requires Inv() && Lists(records, ledger.rows)
      modifies ledger, remote
      ensures Inv() && Troubles() >= old(Troubles())
      ensures ledger.rows.Keys <= old(ledger.rows).Keys && remote.files.Keys <= old(remote.files).Keys
      ensures r.Ok? ==> ledger.rows == map[] && FirstRecoverable(records, |records|, bindings)
      ensures Troubles() == old(Troubles()) && FirstRecoverable(records, |records|, bindings) ==> r.Ok?
    {
      var i := 0;
      assert records[0..] == records;
      while i < |records|
        invariant 0 <= i <= |records|
        invariant Inv() && Troubles() >= old(Troubles())
        invariant Lists(records[i..], ledger.rows)
        invariant ledger.rows.Keys <= old(ledger.rows).Keys && remote.files.Keys <= old(remote.files).Keys
        invariant FirstRecoverable(records, i, bindings)
      {
        r := RecoverNext(records, i, bindings);
        if !r.Ok? { return; }
        i := i + 1;
      }
      ListsNothing(records[i..], ledger.rows);
      r := Ok;
    }

    /** Recover: lists the rows and recovers each of them. */
    method Recover(bindings: Bindings) returns (r: Outcome)
      requires Inv()
      modifies ledger, remote
      ensures Inv() && Troubles() >= old(Troubles())
      ensures ledger.rows.Keys <= old(ledger.rows).Keys && remote.files.Keys <= old(remote.files).Keys
      ensures r.Ok? ==> ledger.rows == map[] && remote.files == map[] && AllRecoverable(old(ledger.rows), bindings)
      ensures Troubles() == old(Troubles()) && AllRecoverable(old(ledger.rows), bindings) ==> r.Ok?
    {
      var listing := ledger.ListRecovery();
      if listing.NotListed? { return if listing.result.Crashed? then Dead else Failed; }
      ListedAreRecoverable(listing.records, ledger.rows, bindings);
      r := RecoverListed(listing.records, bindings);
    }

    /** removeConfirmed over a fresh connection, then the row; a failing close is reported too. */
    method Cleanup(record: Record) returns (r: Outcome)
      requires Inv() && record.token in ledger.rows && ledger.rows[record.token] == RowOf(record)
      modifies ledger, remote
      ensures Inv() && Troubles() >= old(Troubles())
      ensures ledger.rows == old(ledger.rows) || ledger.rows == old(ledger.rows) - {record.token}
      ensures remote.files == old(remote.files) || remote.files == old(remote.files) - {PlaceOf(RowOf(record))}
      ensures r.Ok? ==> ledger.rows == old(ledger.rows) - {record.token}
      ensures r.Ok? ==> remote.files == old(remote.files) - {PlaceOf(RowOf(record))}
      ensures Troubles() == old(Troubles()) ==> r.Ok?
    {
      r := remote.Gate();
      if !r.Ok? { return; }
      r := remote.RemoveConfirmed(PlaceOf(RowOf(record)));
      if r.Ok? {
        NamedWithoutRow(remote.files, ledger.rows, record.token);
        var deleted := ledger.Delete(record);
        r := match deleted case Done => Ok case Refused(_) => Failed case Crashed => Dead;
      }
      if r.Dead? { return; }
      var closed := remote.Gate();
      r := if r.Ok? then closed else if closed.Dead? then Dead else Failed;
    }

    /** Creates the private file under its exclusive name and checks what was created. */
    method Reserve(record: Record) returns (r: Outcome)
      requires Inv() && record.token in ledger.rows && ledger.rows[record.token] == RowOf(record)
      modifies remote
      ensures Inv() && Troubles() >= old(Troubles())
      ensures remote.files == old(remote.files) || remote.files == old(remote.files)[PlaceOf(RowOf(record)) := []]
      ensures r.Ok? ==> PlaceOf(RowOf(record)) in remote.files
      ensures Troubles() == old(Troubles()) && PlaceOf(RowOf(record)) !in old(remote.files) ==> r.Ok?
    {
      r := remote.CreateExclusive(PlaceOf(RowOf(record)));
      if r.Ok? { r := remote.Gate(); }
    }

    /** Stat, ceiling, download and the size comparison: the bytes read are the whole file. */
    method Fetch(place: Place) returns (data: Data)
      requires place in remote.files
      modifies remote`troubles
      ensures Troubles() >= old(Troubles())
      ensures data.Read? ==> data.bytes == remote.files[place] && |data.bytes| <= ABSOLUTE_MAX_BYTES
      ensures data.ReadFailed? ==> !data.outcome.Ok?
      ensures Troubles() == old(Troubles()) && |remote.files[place]| <= ABSOLUTE_MAX_BYTES ==> data.Read?
    {
      var info := remote.Stat(place);
      if !info.Regular? { return ReadFailed(if info.StatFailed? then info.outcome else Failed); }
      if info.length > ABSOLUTE_MAX_BYTES { return ReadFailed(Failed); }
      data := remote.Download(place);
      if data.ReadFailed? { return; }
      var gate := remote.Gate();
      if !gate.Ok? { return ReadFailed(gate); }
      if |data.bytes| != info.length { return ReadFailed(Failed); }
    }

    /** From the copy to the snapshot: the part that runs while the temporary is owned. */
    method Transfer(place: Place, member: Bytes) returns (r: Acquired)
      requires Inv() && place in remote.files
      modifies remote
      ensures Inv() && Troubles() >= old(Troubles())
      ensures remote.files.Keys == old(remote.files).Keys
      ensures r.Acquired? ==> WellIndexed(r.snapshot) && r.snapshot.content == member
      ensures r.Acquired? ==> |member| <= ABSOLUTE_MAX_BYTES && IsUtf8(member)
      ensures Troubles() == old(Troubles()) && |member| <= ABSOLUTE_MAX_BYTES && IsUtf8(member) ==> r.Acquired?
    {
      var gate := remote.CopySourceMember(place, member);
      if gate.Ok? { gate := remote.Gate(); }
      if !gate.Ok? { return if gate.Dead? then Died else NotAcquired; }
      var data := Fetch(place);
      if data.ReadFailed? { return if data.outcome.Dead? then Died else NotAcquired; }
      var encoded := NewSnapshot(data.bytes);
      r := if encoded.Indexed? then Acquired(encoded.snapshot) else NotAcquired;
    }

    /** Everything after a row has been admitted, deferred cleanup included. */
    method AcquireAdmitted(record: Record, member: Bytes) returns (r: Acquired)
      requires Inv() && ledger.rows == map[record.token := RowOf(record)] && remote.files == map[]
      modifies ledger, remote
      ensures Inv() && Troubles() >= old(Troubles())
      ensures r.Acquired? ==> WellIndexed(r.snapshot) && r.snapshot.content == member
      ensures r.Acquired? ==> |member| <= ABSOLUTE_MAX_BYTES && IsUtf8(member)
      ensures r.Acquired? ==> ledger.rows == map[] && remote.files == map[]
      ensures ledger.rows.Keys <= {record.token}
      ensures Troubles() == old(Troubles()) && |member| <= ABSOLUTE_MAX_BYTES && IsUtf8(member) ==> r.Acquired?
    {
      var place := PlaceOf(RowOf(record));
      var reserved := Reserve(record);
      if !reserved.Ok? { return if reserved.Dead? then Died else NotAcquired; }
      r := Transfer(place, member);
      if r.Died? { return; }
      var cleaned := Cleanup(record);
      if !cleaned.Ok? { return if cleaned.Dead? then Died else NotAcquired; }
    }

    /** Acquire: recovery first, then admission, the owned part, and the close of the connection. */
    method Acquire(q: Request, bindings: Bindings) returns (r: Acquired)
      requires Inv()
      modifies ledger, remote
      ensures Inv() && Troubles() >= old(Troubles())
      ensures ledger.rows.Keys <= old(ledger.rows).Keys + {q.token}
      ensures r.Acquired? ==> Servable(q) && WellIndexed(r.snapshot) && r.snapshot.content == q.member
      ensures r.Acquired? ==> ledger.rows == map[] && remote.files == map[]
      ensures r.Acquired? ==> AllRecoverable(old(ledger.rows), bindings)
      ensures Troubles() == old(Troubles()) && Servable(q) && AllRecoverable(old(ledger.rows), bindings) ==> r.Acquired?
    {
      if q.profile == "" || |q.target| != 32 { return NotAcquired; }
      var recovered := Recover(bindings);
      if !recovered.Ok? { return if recovered.Dead? then Died else NotAcquired; }
      r := AcquireRecovered(q);
    }

    /** The part of Acquire that starts from an empty ledger, between opening and closing a connection. */
    method AcquireRecovered(q: Request) returns (r: Acquired)
      requires Inv() && ledger.rows == map[] && remote.files == map[]
      modifies ledger, remote
      ensures Inv() && Troubles() >= old(Troubles())
      ensures ledger.rows.Keys <= {q.token}
      ensures r.Acquired? ==> Servable(q) && WellIndexed(r.snapshot) && r.snapshot.content == q.member
      ensures r.Acquired? ==> ledger.rows == map[] && remote.files == map[]
      ensures Troubles() == old(Troubles()) && Servable(q) ==> r.Acquired?
    {
      var connected := remote.Gate();
      if !connected.Ok? { return if connected.Dead? then Died else NotAcquired; }
      r := AcquireConnected(q);
      if r.Died? { return; }
      var closed := remote.Gate();
      if !closed.Ok? { r := if closed.Dead? then Died else NotAcquired; }
    }

    method AcquireConnected(q: Request) returns (r: Acquired)
      requires Inv() && ledger.rows == map[] && remote.files == map[]
      modifies ledger, remote
      ensures Inv() && Troubles() >= old(Troubles())
      ensures ledger.rows.Keys <= {q.token}
      ensures r.Acquired? ==> Servable(q) && WellIndexed(r.snapshot) && r.snapshot.content == q.member
      ensures r.Acquired? ==> ledger.rows == map[] && remote.files == map[]
      ensures Troubles() == old(Troubles()) && Servable(q) ==> r.Acquired?
    {
      if !RecoveryPath.IsAbs(q.home) || RecoveryPath.Contains(q.home, "..") { return NotAcquired; }
      var prepared := remote.Gate();
      if !prepared.Ok? { return if prepared.Dead? then Died else NotAcquired; }
      if !q.candidateValid { return NotAcquired; }
      var record := RecordFor(q);
      if CanStore(ledger.rows, record) { NamedWithRow(remote.files, ledger.rows, record); }
      var admitted, _ := ledger.Admit(record);
      if !admitted.Done? { return if admitted.Crashed? then Died else NotAcquired; }
      r := AcquireAdmitted(record, q.member);
    }
  }

  datatype Command = AcquireCommand(request: Request, bindings: Bindings) | RecoverCommand(bindings: Bindings)

  /** Any history of acquisitions and recoveries, each of which may fail or die at any operation before
      the next one starts, keeps every existing temporary named; every snapshot handed out is the member
      that was asked for. */
  method RunHistory(acquirer: Acquirer, history: seq<Command>) returns (results: seq<Acquired>)
    requires acquirer.Inv()
    modifies acquirer.ledger, acquirer.remote
    ensures acquirer.Inv()
    ensures |results| == |history|
    ensures forall i | 0 <= i < |history| && results[i].Acquired? ::
              history[i].AcquireCommand? && results[i].snapshot.content == history[i].request.member
  {
    hide Acquirer.Inv, Servable, WellIndexed, AllRecoverable;
    results := [];
    for i := 0 to |history|
      invariant acquirer.Inv()
      invariant |results| == i
      invariant forall j | 0 <= j < i && results[j].Acquired? ::
                  history[j].AcquireCommand? && results[j].snapshot.content == history[j].request.member
    {
      match history[i] {
        case AcquireCommand(request, bindings) =>
          var r := acquirer.Acquire(request, bindings);
          results := results + [r];
        case RecoverCommand(bindings) =>
          var _ := acquirer.Recover(bindings);
          results := results + [NotAcquired];
      }
    }
  }
}
