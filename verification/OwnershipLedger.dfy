/** The SQLite ownership ledger: a table of at most 64 rows, changed only inside transactions whose
    statements may be busy, break, be cut short by a crash, or (COMMIT only) report an error after
    having taken effect. Every statement draws an arbitrary fault, so the contracts hold for every
    pattern of failures; `troubles` counts the statements that did not simply succeed. */
module OwnershipLedger {
  import RecoveryPath

  const CAPACITY: nat := 64
  const RETRY_DELAYS: nat := 3
  const MAX_ATTEMPTS: nat := RETRY_DELAYS + 2
  const NANOS: int := 1_000_000_000

  /** The first second of year 0 and the last of year 9999, counted from the first of year 1. */
  const FIRST_SECOND: int := -366 * 86_400
  const LAST_SECOND: int := 3_652_059 * 86_400 - 1

  /** The 16 random bytes of a token are written as their 32 hexadecimal digits. A creation time is counted in
      nanoseconds from the zero time, the first second of year 1. */
  datatype Record = Record(token: string, remotePath: string, profile: string, targetDigest: string, createdAt: int)

  /** What a row keeps: the creation time only to the second. */
  datatype Row = Row(remotePath: string, profile: string, targetDigest: string, createdSecond: int)

  function RowOf(record: Record): Row {
    Row(record.remotePath, record.profile, record.targetDigest, record.createdAt / NANOS)
  }

  function RecordOf(token: string, row: Row): Record {
    Record(token, row.remotePath, row.profile, row.targetDigest, row.createdSecond * NANOS)
  }

  lemma RowRoundTrip(token: string, row: Row)
    ensures RowOf(RecordOf(token, row)) == row
  {}

  type Table = map<string, Row>

  predicate IsHexDigit(c: char) { '0' <= c <= '9' || 'a' <= c <= 'f' }

  predicate IsToken(token: string) { |token| == 32 && forall c | c in token :: IsHexDigit(c) }

  /** The time is written in 20 characters. */
  predicate FourDigitYear(second: int) { FIRST_SECOND <= second <= LAST_SECOND }

  /** The CHECK constraints of the table. */
  predicate Storable(token: string, row: Row) {
    && IsToken(token) && 1 <= RecoveryPath.ByteLength(row.remotePath) <= RecoveryPath.MAX_PATH
    && 1 <= |row.profile| <= 64 && |row.targetDigest| == 32 && FourDigitYear(row.createdSecond)
  }

  /** UNIQUE(remote_path), seen from a row about to be inserted. */
  predicate PathFree(table: Table, path: string) {
    forall t | t in table :: table[t].remotePath != path
  }

  ghost predicate ValidTable(table: Table) {
    && |table| <= CAPACITY
    && (forall t | t in table :: Storable(t, table[t]))
    && (forall t, u | t in table && u in table && table[t].remotePath == table[u].remotePath :: t == u)
  }

  /** The table has room for this exact record, or holds it already. */
  predicate CanStore(table: Table, record: Record) {
    if record.token in table then table[record.token] == RowOf(record)
    else |table| < CAPACITY && Storable(record.token, RowOf(record)) && PathFree(table, record.remotePath)
  }

  function Stored(table: Table, record: Record): Table { table[record.token := RowOf(record)] }

  lemma StoredIsValid(table: Table, record: Record)
    requires ValidTable(table) && CanStore(table, record)
    ensures ValidTable(Stored(table, record))
  {
    hide Storable;
  }

  /** Storing the same record twice is storing it once. */
  lemma StoreTwice(table: Table, record: Record)
    requires CanStore(table, record)
    ensures CanStore(Stored(table, record), record)
    ensures Stored(Stored(table, record), record) == Stored(table, record)
  {}

  datatype Fault = Healthy | Busy | Broken | BrokenAfter | CrashBefore | CrashAfter

  predicate TakesEffect(f: Fault) { f.Healthy? || f.BrokenAfter? || f.CrashAfter? }

  datatype Refusal = BusyError | StatementError | Mismatch | CapacityExceeded | Invalid
  datatype Result = Done | Refused(reason: Refusal) | Crashed

  function ResultOf(f: Fault): Result {
    match f
    case Healthy => Done
    case Busy => Refused(BusyError)
    case Broken | BrokenAfter => Refused(StatementError)
    case CrashBefore | CrashAfter => Crashed
  }

  datatype Option<T> = None | Some(value: T)

  datatype Listing = Listed(records: seq<Record>) | NotListed(result: Result)

  /** `records` names every row of the table once. */
  ghost predicate Lists(records: seq<Record>, table: Table) {
    && (forall i | 0 <= i < |records| ::
         records[i].token in table && records[i] == RecordOf(records[i].token, table[records[i].token]))
    && (forall i, j | 0 <= i < j < |records| :: records[i].token != records[j].token)
    && (forall t | t in table :: exists i :: 0 <= i < |records| && records[i].token == t)
  }

  /** Taking the first listed row out of the table leaves the others listed. */
  lemma ListsTail(records: seq<Record>, table: Table)
    requires Lists(records, table) && records != []
    ensures Lists(records[1..], table - {records[0].token})
  {
    forall t | t in table - {records[0].token}
      ensures exists i :: 0 <= i < |records[1..]| && records[1..][i].token == t
    {
      var i :| 0 <= i < |records| && records[i].token == t;
      assert records[1..][i - 1].token == t;
    }
  }

  /** Listing one more pending row. */
  lemma ListsSnoc(records: seq<Record>, table: Table, pending: set<string>, token: string)
    requires Lists(records, table - pending) && token in pending && token in table
    ensures Lists(records + [RecordOf(token, table[token])], table - (pending - {token}))
  {
    var more := records + [RecordOf(token, table[token])];
    var listed := table - (pending - {token});
    forall t | t in listed
      ensures exists i :: 0 <= i < |more| && more[i].token == t
    {
      if t == token {
        assert more[|records|].token == t;
      } else {
        assert t in table - pending;
        var i :| 0 <= i < |records| && records[i].token == t;
        assert more[i].token == t;
      }
    }
  }

  class Ledger {
    var rows: Table
    ghost var troubles: nat
    /** The COMMIT statements tried so far, and the troubles of readbacks and waits, which no retry answers. */
    ghost var commits: nat
    ghost var unanswered: nat

    constructor ()
      ensures Valid() && rows == map[] && troubles == 0
    {
      rows := map[];
      troubles, commits, unanswered := 0, 0, 0;
    }

    ghost predicate Valid()
      reads this
    {
      ValidTable(rows)
    }

    method Statement() returns (f: Fault)
      modifies this`troubles
      ensures troubles == if f.Healthy? then old(troubles) else old(troubles) + 1
    {
      f := *;
      if !f.Healthy? { troubles := troubles + 1; }
    }

    /** A statement, or a wait, outside the transaction. */
    method Outside() returns (f: Fault)
      modifies this`troubles, this`unanswered
      ensures troubles == if f.Healthy? then old(troubles) else old(troubles) + 1
      ensures unanswered == if f.Healthy? then old(unanswered) else old(unanswered) + 1
    {
      f := Statement();
      if !f.Healthy? { unanswered := unanswered + 1; }
    }

    /** The statements in front of COMMIT: BEGIN, SELECT, and for a new token COUNT and INSERT. */
    method Prepare(record: Record) returns (stop: Option<Result>)
      requires Valid()
      modifies this`troubles
      ensures troubles >= old(troubles)
      ensures stop.None? ==> CanStore(rows, record) && troubles == old(troubles)
      ensures stop.Some? ==> !stop.value.Done?
      ensures troubles == old(troubles) && CanStore(rows, record) ==> stop.None?
    {
      hide ValidTable, Storable, PathFree;
      var f := Statement();
      if !f.Healthy? { return Some(ResultOf(f)); }
      f := Statement();
      if !f.Healthy? { return Some(ResultOf(f)); }
      if record.token in rows {
        if rows[record.token] != RowOf(record) { return Some(Refused(Mismatch)); }
      } else {
        f := Statement();
        if !f.Healthy? { return Some(ResultOf(f)); }
        if |rows| >= CAPACITY { return Some(Refused(CapacityExceeded)); }
        f := Statement();
        if !f.Healthy? { return Some(ResultOf(f)); }
        if !Storable(record.token, RowOf(record)) || !PathFree(rows, record.remotePath) {
          return Some(Refused(StatementError));
        }
      }
      return None;
    }

    /** One transaction. */
    method AdmitAttempt(record: Record) returns (commitAttempted: bool, result: Result)
      requires Valid()
      modifies this`rows, this`troubles, this`commits
      ensures Valid() && troubles >= old(troubles)
      ensures commits == if commitAttempted then old(commits) + 1 else old(commits)
      ensures rows == old(rows) || (commitAttempted && CanStore(old(rows), record) && rows == Stored(old(rows), record))
      ensures result.Done? ==> commitAttempted && CanStore(old(rows), record) && rows == Stored(old(rows), record)
      ensures commitAttempted ==> CanStore(old(rows), record)
      ensures commitAttempted ==>
        result == Done || result == Refused(BusyError) || result == Refused(StatementError) || result == Crashed
      ensures !commitAttempted ==> !result.Done?
      ensures troubles == old(troubles) && CanStore(old(rows), record) ==> result.Done?
    {
      hide ValidTable, CanStore, Stored;
      var stop := Prepare(record);
      if stop.Some? { return false, stop.value; }
      StoredIsValid(rows, record);
      var f := Statement();
      commits := commits + 1;
      if TakesEffect(f) { rows := Stored(rows, record); }
      return true, ResultOf(f);
    }

    /** Reads the row of the record's token back: true exactly when the very record is stored. */
    method ReadbackExactRecord(record: Record) returns (found: bool, result: Result)
      modifies this`troubles, this`unanswered
      ensures troubles >= old(troubles) && unanswered >= old(unanswered)
      ensures unanswered == old(unanswered) && (record.token in rows ==> rows[record.token] == RowOf(record)) ==>
        result.Done?
      ensures result.Done? ==> (found <==> record.token in rows) && (found ==> rows[record.token] == RowOf(record))
      ensures troubles == old(troubles) && (record.token in rows ==> rows[record.token] == RowOf(record)) ==>
        result.Done?
    {
      var f := Outside();
      if !f.Healthy? { return false, ResultOf(f); }
      if record.token !in rows { return false, Done; }
      if rows[record.token] != RowOf(record) { return false, Refused(Mismatch); }
      return true, Done;
    }

    /** One transaction and the readback that settles it. Unsettled means that the caller may retry. */
    method AdmitOnce(record: Record) returns (settled: bool, result: Result)
      requires Valid()
      modifies this
      ensures Valid() && troubles >= old(troubles)
      ensures rows == old(rows) || (CanStore(old(rows), record) && rows == Stored(old(rows), record))
      ensures result.Done? ==> settled && CanStore(old(rows), record) && rows == Stored(old(rows), record)
      ensures result.Crashed? ==> settled
      ensures unanswered >= old(unanswered) && old(commits) <= commits <= old(commits) + 1
      ensures unanswered == old(unanswered) && settled ==> result != Refused(BusyError)
      ensures unanswered == old(unanswered) && settled && commits > old(commits) && !result.Crashed? ==> result.Done?
      ensures CanStore(old(rows), record) && !(settled && result.Done?) ==> troubles > old(troubles)
    {
      var commitAttempted, failure := AdmitAttempt(record);
      if failure.Crashed? { return true, failure; }
      if !failure.Done? && !commitAttempted { return failure != Refused(BusyError), failure; }
      var found, readback := ReadbackExactRecord(record);
      if !readback.Done? { return true, readback; }
      if found { return true, Done; }
      return failure.Done?, if failure.Done? then Refused(Invalid) else failure;
    }

    /** Up to five transactions, with a wait after each of the first three that stay unsettled. It gives up earlier
        only on a failure that a retry does not answer: a busy statement and a failed COMMIT are always retried. */
    method Admit(record: Record) returns (result: Result, attempts: nat)
      requires Valid()
      modifies this
      ensures Valid() && troubles >= old(troubles)
      ensures 1 <= attempts <= MAX_ATTEMPTS
      ensures rows == old(rows) || (CanStore(old(rows), record) && rows == Stored(old(rows), record))
      ensures result.Done? ==> CanStore(old(rows), record) && rows == Stored(old(rows), record)
      ensures troubles == old(troubles) && CanStore(old(rows), record) ==> result.Done? && attempts == 1
      ensures unanswered == old(unanswered) && result == Refused(BusyError) ==> attempts == MAX_ATTEMPTS
      ensures unanswered == old(unanswered) && commits == old(commits) + attempts ==>
        result.Done? || result.Crashed? || attempts == MAX_ATTEMPTS
    {
      var settled;
      attempts := 0;
      while true
        invariant 0 <= attempts < MAX_ATTEMPTS
        invariant Valid() && troubles >= old(troubles)
        invariant rows == old(rows) || (CanStore(old(rows), record) && rows == Stored(old(rows), record))
        invariant unanswered >= old(unanswered) && commits <= old(commits) + attempts
        invariant attempts > 0 && CanStore(old(rows), record) ==> troubles > old(troubles)
        decreases MAX_ATTEMPTS - attempts
      {
        ghost var earlier := rows;
        settled, result := AdmitOnce(record);
        if earlier != old(rows) { StoreTwice(old(rows), record); }
        attempts := attempts + 1;
        if settled || attempts == MAX_ATTEMPTS { return; }
        if attempts <= RETRY_DELAYS {
          var wait := Outside();
          if !wait.Healthy? { return ResultOf(wait), attempts; }
        }
      }
    }

    /** Deletes the row only when every column matches the record. */
    method Delete(record: Record) returns (result: Result)
      requires Valid()
      modifies this
      ensures Valid() && troubles >= old(troubles)
      ensures rows == old(rows) || (record.token in old(rows) && old(rows)[record.token] == RowOf(record)
        && rows == old(rows) - {record.token})
      ensures result.Done? ==>
        record.token in old(rows) && old(rows)[record.token] == RowOf(record) && rows == old(rows) - {record.token}
      ensures troubles == old(troubles) && record.token in old(rows) && old(rows)[record.token] == RowOf(record) ==>
        result.Done?
    {
      var f := Statement();
      if !f.Healthy? { return ResultOf(f); }
      f := Statement();
      if !f.Healthy? { return ResultOf(f); }
      if record.token !in rows || rows[record.token] != RowOf(record) { return Refused(Invalid); }
      f := Statement();
      if TakesEffect(f) { rows := rows - {record.token}; }
      return ResultOf(f);
    }

    /** Every row once; more than 64 rows is an error that a valid table never meets. */
    method ListRecovery() returns (listing: Listing)
      requires Valid()
      modifies this`troubles
      ensures troubles >= old(troubles)
      ensures listing.Listed? ==> Lists(listing.records, rows)
      ensures listing.NotListed? ==> !listing.result.Done? && listing.result != Refused(CapacityExceeded)
      ensures troubles == old(troubles) ==> listing.Listed?
    {
      var f := Statement();
      if !f.Healthy? { return NotListed(ResultOf(f)); }
      var records: seq<Record> := [];
      var pending := rows.Keys;
      while pending != {}
        invariant pending <= rows.Keys && |records| + |pending| <= CAPACITY
        invariant troubles == old(troubles)
        invariant Lists(records, rows - pending)
        decreases |pending|
      {
        if |records| == CAPACITY { return NotListed(Refused(CapacityExceeded)); }
        var token :| token in pending;
        ListsSnoc(records, rows, pending, token);
        records := records + [RecordOf(token, rows[token])];
        pending := pending - {token};
      }
      assert rows - pending == rows;
      return Listed(records);
    }
  }
}
