/** The newline-framed audit log: durable appends that poison the sink on any storage fault, and the recovery that
    repairs a torn write. Segments are named by their date, a day number. Which bytes are a disk record is an
    arbitrary predicate. */
module AuditLog {
  import opened Utf8
  import S = SourceSnapshot

  type Bytes = seq<byte>

  type Date = int

  type Files = map<Date, Bytes>

  const MAX_RECORD: nat := 1023
  const MAX_SEGMENT: nat := 64 * 0x10_0000

  datatype Option<T> = None | Some(value: T)

  /** Which bodies are disk records, and the body that recovery records. */
  datatype Format = Format(valid: Bytes -> bool, recovery: Bytes)

  predicate IsBody(f: Format, body: Bytes) { NEWLINE !in body && |body| <= MAX_RECORD && f.valid(body) }

  function Line(body: Bytes): Bytes { body + [NEWLINE] }

  /** Every byte belongs to a newline-terminated disk record. */
  predicate Clean(f: Format, data: Bytes)
    decreases |data|
  {
    data == [] ||
      var n := S.NextNewline(data, 0);
      n < |data| && n <= MAX_RECORD && f.valid(data[..n]) && Clean(f, data[n + 1..])
  }

  /** The length of the data up to and including its last newline. */
  function WholeLength(data: Bytes): (n: nat)
    ensures n <= |data|
    ensures n > 0 ==> data[n - 1] == NEWLINE
    ensures forall i | n <= i < |data| :: data[i] != NEWLINE
  {
    if data == [] then 0 else if data[|data| - 1] == NEWLINE then |data| else WholeLength(data[..|data| - 1])
  }

  function Whole(data: Bytes): Bytes { data[..WholeLength(data)] }

  predicate Torn(data: Bytes) { data != [] && data[|data| - 1] != NEWLINE }

  /** What recovery accepts of the newest segment: a torn one must still hold a newline. */
  predicate Repairable(f: Format, data: Bytes) { Clean(f, Whole(data)) && (Torn(data) ==> Whole(data) != []) }

  lemma FirstLine(body: Bytes, rest: Bytes)
    requires NEWLINE !in body
    ensures S.NextNewline(Line(body) + rest, 0) == |body|
    ensures (Line(body) + rest)[..|body|] == body && (Line(body) + rest)[|body| + 1..] == rest
  {
    var data := Line(body) + rest;
    assert data[0..|body|] == body && data[|body|] == NEWLINE;
    S.NextNewlineIs(data, 0, |body|);
  }

  lemma {:induction false} CleanConcat(f: Format, a: Bytes, b: Bytes)
    requires Clean(f, a) && Clean(f, b)
    ensures Clean(f, a + b)
    decreases |a|
  {
    if a == [] {
      assert a + b == b;
    } else {
      var n := S.NextNewline(a, 0);
      assert (a + b)[0..n] == a[0..n] && (a + b)[n] == a[n];
      S.NextNewlineIs(a + b, 0, n);
      assert (a + b)[..n] == a[..n] && (a + b)[n + 1..] == a[n + 1..] + b;
      CleanConcat(f, a[n + 1..], b);
    }
  }

  lemma CleanLine(f: Format, body: Bytes)
    requires IsBody(f, body)
    ensures Clean(f, Line(body))
  {
    FirstLine(body, []);
    assert Line(body) + [] == Line(body);
  }

  function Log(bodies: seq<Bytes>): Bytes { if bodies == [] then [] else Line(bodies[0]) + Log(bodies[1..]) }

  predicate AllBodies(f: Format, bodies: seq<Bytes>) { forall b | b in bodies :: IsBody(f, b) }

  lemma {:induction false} LogIsClean(f: Format, bodies: seq<Bytes>)
    requires AllBodies(f, bodies)
    ensures Clean(f, Log(bodies))
  {
    hide Clean;
    if bodies == [] {
      EmptyIsClean(f);
    } else {
      CleanLine(f, bodies[0]);
      LogIsClean(f, bodies[1..]);
      CleanConcat(f, Line(bodies[0]), Log(bodies[1..]));
    }
  }

  lemma EmptyIsClean(f: Format)
    ensures Clean(f, [])
  {
  }

  lemma {:induction false} BodiesOf(f: Format, data: Bytes) returns (bodies: seq<Bytes>)
    requires Clean(f, data)
    ensures AllBodies(f, bodies) && data == Log(bodies)
    decreases |data|
  {
    if data == [] {
      bodies := [];
    } else {
      var n := S.NextNewline(data, 0);
      assert data[0..n] == data[..n];
      var rest := BodiesOf(f, data[n + 1..]);
      bodies := [data[..n]] + rest;
      assert bodies[1..] == rest && data == Line(data[..n]) + data[n + 1..];
    }
  }

  /** Data is clean exactly when it is what some disk records make, one line each. */
  lemma CleanExactly(f: Format, data: Bytes)
    ensures Clean(f, data) <==> exists bodies :: AllBodies(f, bodies) && data == Log(bodies)
  {
    if Clean(f, data) {
      var bodies := BodiesOf(f, data);
    } else if exists bodies :: AllBodies(f, bodies) && data == Log(bodies) {
      var bodies :| AllBodies(f, bodies) && data == Log(bodies);
      LogIsClean(f, bodies);
    }
  }

  lemma {:induction false} CleanIsWhole(f: Format, data: Bytes)
    requires Clean(f, data)
    ensures Whole(data) == data && !Torn(data)
    decreases |data|
  {
    if data != [] {
      var n := S.NextNewline(data, 0);
      CleanIsWhole(f, data[n + 1..]);
      if n + 1 < |data| { assert data[|data| - 1] == data[n + 1..][|data| - n - 2]; }
    }
  }

  lemma WholeIs(data: Bytes, n: nat)
    requires n <= |data| && (n > 0 ==> data[n - 1] == NEWLINE)
    requires forall i | n <= i < |data| :: data[i] != NEWLINE
    ensures WholeLength(data) == n
  {
  }

  lemma LastByte(f: Format, data: Bytes)
    requires Clean(f, data) && data != []
    ensures data[|data| - 1] == NEWLINE
  {
    CleanIsWhole(f, data);
  }

  /** A write that was cut after `k` bytes: recovery can repair the segment exactly unless it was the segment's
      first record that was cut, and then it gives back what was there before. */
  lemma TornAppend(f: Format, data: Bytes, body: Bytes, k: nat)
    requires Clean(f, data) && IsBody(f, body) && k <= |Line(body)|
    ensures var torn := data + Line(body)[..k];
      && Whole(torn) == (if k == |Line(body)| then data + Line(body) else data)
      && (Repairable(f, torn) <==> !(data == [] && 0 < k < |Line(body)|))
  {
    hide Clean, WholeLength;
    var torn := data + Line(body)[..k];
    CleanIsWhole(f, data);
    if k == |Line(body)| {
      CleanLine(f, body);
      CleanConcat(f, data, Line(body));
      CleanIsWhole(f, data + Line(body));
      assert torn == data + Line(body);
    } else {
      assert forall i | |data| <= i < |torn| :: torn[i] == body[i - |data|];
      if data != [] { LastByte(f, data); }
      WholeIs(torn, |data|);
      assert torn[..|data|] == data;
    }
  }

  // ---- Recovery as a relation ----

  ghost predicate IsNewest(files: Files, newest: Date) {
    newest in files && forall d | d in files :: d <= newest
  }

  /** The newest segment was repaired, and that was recorded. */
  predicate Noted(before: Files, newest: Date, todo: set<Date>) {
    newest in before && newest !in todo && Torn(before[newest])
  }

  function Base(before: Files, newest: Date, todo: set<Date>, d: Date): Bytes {
    if d !in before then [] else if d in todo || d != newest then before[d] else Whole(before[d])
  }

  /** What a segment holds when recovery still has `todo` before it. */
  function Content(f: Format, before: Files, newest: Date, today: Date, todo: set<Date>, d: Date): Bytes {
    Base(before, newest, todo, d) + if d == today && Noted(before, newest, todo) then Line(f.recovery) else []
  }

  ghost predicate Midway(f: Format, before: Files, files: Files, newest: Date, today: Date, cutoff: Date,
                         todo: set<Date>)
  {
    && (forall d :: d in files <==>
          (d in before && (d in todo || d >= cutoff)) || (d == today && Noted(before, newest, todo)))
    && (forall d | d in files :: files[d] == Content(f, before, newest, today, todo, d))
  }

  /** Like Midway without `date` in `todo`, but an old segment is not removed yet. */
  ghost predicate Halfway(f: Format, before: Files, files: Files, newest: Date, today: Date, cutoff: Date,
                          todo: set<Date>, date: Date)
  {
    var rest := todo - {date};
    && (forall d :: d in files <==>
          (d in before && (d in todo || d >= cutoff)) || (d == today && Noted(before, newest, rest)))
    && (forall d | d in files :: files[d] == Content(f, before, newest, today, rest, d))
  }

  /** Like Midway, but the newest segment is repaired. */
  ghost predicate Mended(f: Format, before: Files, files: Files, newest: Date, today: Date, cutoff: Date,
                         todo: set<Date>)
  {
    && newest in before && newest in todo && newest in files && files[newest] == Whole(before[newest])
    && Midway(f, before, files[newest := before[newest]], newest, today, cutoff, todo)
  }

  /** A segment is accepted with or without a repair. */
  predicate Passes(f: Format, data: Bytes, mayRepair: bool) {
    |data| <= MAX_SEGMENT && if mayRepair then Repairable(f, data) else Clean(f, data)
  }

  /** A segment recovery accepts. */
  predicate Acceptable(f: Format, before: Files, newest: Date, d: Date)
    requires d in before
  {
    Passes(f, before[d], d == newest)
  }

  /** There is room to record a repair. */
  predicate Room(f: Format, before: Files, newest: Date, today: Date) {
    newest in before && Torn(before[newest]) ==>
      |if newest == today then Whole(before[newest]) else []| + |Line(f.recovery)| <= MAX_SEGMENT
  }

  /** Every newline-terminated byte from the cutoff on is kept. */
  ghost predicate Keeps(before: Files, after: Files, cutoff: Date) {
    forall d | d in before && d >= cutoff :: d in after && Whole(before[d]) <= after[d]
  }

  /** What a successful recovery has done: terminated records are kept, only the newest segment is shortened, by its
      unterminated tail, everything left is a clean segment dated from the cutoff to today, and exactly the older
      segments are gone. */
  lemma RecoveryKeeps(f: Format, before: Files, after: Files, newest: Date, today: Date, cutoff: Date)
    requires IsBody(f, f.recovery) && cutoff <= today
    requires before != map[] ==> IsNewest(before, newest) && newest <= today
    requires forall d | d in before :: Acceptable(f, before, newest, d)
    requires Midway(f, before, after, newest, today, cutoff, {})
    ensures Keeps(before, after, cutoff)
    ensures forall d | d in after :: cutoff <= d <= today && Clean(f, after[d])
    ensures forall d | d in before :: d in after <==> d >= cutoff
    ensures forall d | d in before && d in after && after[d] != before[d] :: d == newest && Torn(before[d])
  {
    forall d | d in after
      ensures cutoff <= d <= today && Clean(f, after[d])
    {
      SegmentClean(f, before, newest, today, d);
    }
    forall d | d in before && d >= cutoff
      ensures d in after && Whole(before[d]) <= after[d]
      ensures after[d] != before[d] ==> d == newest && Torn(before[d])
    {
      if d != newest { CleanIsWhole(f, before[d]); }
      NewestWhole(before[d]);
    }
  }

  predicate OnlyAppended(before: Files, after: Files, date: Date) {
    && (forall d | d in before :: d in after && (d != date ==> after[d] == before[d]))
    && (forall d | d in after :: d in before || d == date)
  }

  /** The state after a record was appended, or only the first `k` bytes of it. */
  predicate Appended(before: Files, after: Files, date: Date, record: Bytes, k: nat) {
    && OnlyAppended(before, after, date)
    && k <= |record|
    && (k > 0 ==> date in after)
    && (date in after ==> after[date] == (if date in before then before[date] else []) + record[..k])
  }

  datatype Outcome = Ok | Failed | Dead

  /** The files, and whether the sink accepts records. */
  datatype State = State(files: Files, usable: bool)

  /** There is room for the record in its day's segment. */
  predicate Fits(files: Files, date: Date, record: Bytes) {
    (if date in files then |files[date]| else 0) + |record| <= MAX_SEGMENT
  }

  /** How the rewrite of a repair goes: the segment is truncated when it is opened, so a fault after that leaves only
      the first `k` bytes. */
  datatype Cut = Sound | NotOpened(dies: bool) | CutShort(k: nat, dies: bool)

  function Rewritten(data: Bytes, whole: Bytes, cut: Cut): Bytes {
    match cut
    case Sound => whole
    case NotOpened(_) => data
    case CutShort(k, _) => if k < |whole| then whole[..k] else whole
  }

  function RewriteOutcome(cut: Cut): Outcome {
    if cut.Sound? then Ok else if cut.dies then Dead else Failed
  }

  /** A repair that loses terminated records. */
  predicate LosesRecords(data: Bytes, cut: Cut) {
    |data| <= MAX_SEGMENT && Torn(data) && cut.CutShort? && cut.k < |Whole(data)|
  }

  /** The files after a recovery that has ended anyhow; `lost` is where the newest segment was cut. */
  ghost predicate Ending(f: Format, before: Files, after: Files, newest: Date, today: Date, cutoff: Date,
                         lost: Option<nat>)
  {
    && MayHoldAll(f, before, after, today)
    && (forall d | d in before && d >= cutoff ::
         d in after && Left(before[d], after[d], if d == newest then lost else None))
  }

  /** What recovery may leave of a segment: the segment, a beginning of its terminated records, and behind one or the
      other, in the segment of today, a beginning of the record of a repair. */
  predicate MayHold(f: Format, before: Bytes, after: Bytes, today: bool) {
    || after == before || after <= Whole(before)
    || (today && (after <= before + Line(f.recovery) || after <= Whole(before) + Line(f.recovery)))
  }

  ghost predicate MayHoldAll(f: Format, before: Files, after: Files, today: Date) {
    forall d | d in after ::
      (d in before || d == today) && MayHold(f, if d in before then before[d] else [], after[d], d == today)
  }

  predicate Left(before: Bytes, after: Bytes, lost: Option<nat>) {
    if lost.Some? then lost.value < |Whole(before)| && after == Whole(before)[..lost.value] else Whole(before) <= after
  }

  /** The repair of the newest segment is reached and loses records that are not expired. */
  ghost predicate Loses(f: Format, files: Files, foreign: bool, today: Date, cutoff: Date, cut: Cut) {
    && !foreign
    && (forall d | d in files :: d <= today)
    && exists newest :: IsNewest(files, newest) && newest >= cutoff && LosesNewest(f, files, newest, cut)
  }

  predicate LosesNewest(f: Format, files: Files, newest: Date, cut: Cut)
    requires newest in files
  {
    LosesRecords(files[newest], cut) && forall d | d in files && d != newest :: Acceptable(f, files, newest, d)
  }

  /** The files after a loss: the older segments are done with, the newest one ends at the cut. */
  ghost predicate CutTo(before: Files, after: Files, newest: Date, cutoff: Date, k: nat) {
    && newest in before && k < |Whole(before[newest])|
    && (forall d :: d in after <==> d in before && (d == newest || d >= cutoff))
    && (forall d | d in after :: after[d] == if d == newest then Whole(before[newest])[..k] else before[d])
  }

  /** The files after a recovery that succeeds: repaired, the repair recorded, and what has expired removed. */
  ghost predicate Recovered(f: Format, before: Files, after: Files, today: Date, cutoff: Date) {
    && (before == map[] ==> after == map[])
    && forall newest | IsNewest(before, newest) :: Midway(f, before, after, newest, today, cutoff, {})
  }

  /** The rewrite is reached by a recovery without other faults, and fails. */
  ghost predicate Hit(files: Files, cut: Cut) {
    !cut.Sound? && exists newest :: IsNewest(files, newest) && Torn(files[newest])
  }

  /** What opening the sink does to the files. A success leaves exactly the recovered directory; a failure only what
      recovery may leave; terminated records from the cutoff on are kept or the newest segment ends at the cut. If no
      fault but that of the rewrite occurs, the files and that fault decide whether it succeeds and whether it loses
      records. */
  ghost predicate Reopened(f: Format, before: Files, after: Files, foreign: bool, today: Date, cutoff: Date, cut: Cut,
                           r: Outcome, quiet: bool)
  {
    && MayHoldAll(f, before, after, today)
    && (r.Ok? ==> Recovered(f, before, after, today, cutoff) && Recoverable(f, before, foreign, today))
    && (!Keeps(before, after, cutoff) ==>
          && cut.CutShort? && !r.Ok? && Loses(f, before, foreign, today, cutoff, cut)
          && forall d | IsNewest(before, d) :: CutTo(before, after, d, cutoff, cut.k))
    && (quiet ==> (r.Ok? <==> Recoverable(f, before, foreign, today) && !Hit(before, cut)))
    && (quiet ==> (!Keeps(before, after, cutoff) <==> Loses(f, before, foreign, today, cutoff, cut)))
  }

  /** A loss is what keeps a recovery from keeping everything. */
  lemma EndingKeeps(f: Format, before: Files, after: Files, newest: Date, today: Date, cutoff: Date, lost: Option<nat>)
    requires Ending(f, before, after, newest, today, cutoff, lost) && newest in before
    ensures Keeps(before, after, cutoff) <==> !(lost.Some? && newest >= cutoff)
  {
    hide WholeLength;
    if lost.Some? && newest >= cutoff {
      assert Left(before[newest], after[newest], lost);
      assert !(Whole(before[newest]) <= after[newest]);
    }
  }

  lemma Unchanged(f: Format, files: Files, newest: Date, today: Date, cutoff: Date)
    ensures Ending(f, files, files, newest, today, cutoff, None)
  {
  }

  lemma MidwayEnds(f: Format, before: Files, files: Files, newest: Date, today: Date, cutoff: Date, todo: set<Date>)
    requires Midway(f, before, files, newest, today, cutoff, todo)
    ensures Ending(f, before, files, newest, today, cutoff, None)
  {
    hide WholeLength;
  }

  /** What recovery without faults accepts. */
  ghost predicate Recoverable(f: Format, files: Files, foreign: bool, today: Date) {
    && !foreign
    && (forall d | d in files :: d <= today)
    && (forall newest | IsNewest(files, newest) ::
          (forall d | d in files :: Acceptable(f, files, newest, d)) && Room(f, files, newest, today))
  }

  method CheckRecords(f: Format, data0: Bytes) returns (ok: bool)
    ensures ok == Clean(f, data0)
  {
    var data := data0;
    while data != []
      invariant Clean(f, data) == Clean(f, data0)
      decreases |data|
    {
      var newline := 0;
      while newline < |data| && data[newline] != NEWLINE
        invariant 0 <= newline <= |data| && NEWLINE !in data[..newline]
      {
        newline := newline + 1;
      }
      S.NextNewlineIs(data, 0, newline);
      if newline == |data| || newline > MAX_RECORD || !f.valid(data[..newline]) { return false; }
      data := data[newline + 1..];
    }
    return true;
  }

  method LastNewline(data: Bytes) returns (n: nat)
    ensures n == WholeLength(data)
  {
    n := |data|;
    while n > 0 && data[n - 1] != NEWLINE
      invariant n <= |data| && forall i | n <= i < |data| :: data[i] != NEWLINE
    {
      n := n - 1;
    }
    WholeIs(data, n);
  }

  lemma NewestWhole(data: Bytes)
    ensures !Torn(data) ==> Whole(data) == data
  {
  }

  lemma SegmentClean(f: Format, before: Files, newest: Date, today: Date, d: Date)
    requires IsBody(f, f.recovery) && (d in before ==> Acceptable(f, before, newest, d))
    ensures Clean(f, Content(f, before, newest, today, {}, d))
  {
    var base := Base(before, newest, {}, d);
    assert Clean(f, base);
    CleanLine(f, f.recovery);
    CleanConcat(f, base, Line(f.recovery));
    assert base + [] == base;
  }

  /** The sink and the directory it writes to. `Dead` is a crash; `troubles` counts the faults. */
  class AuditFile {
    const format: Format
    const retention: nat
    var files: Files
    /** The directory holds something else than segments and the lock. */
    var foreign: bool
    var segment: Option<Date>
    var poisoned: bool
    var closed: bool
    ghost var troubles: nat

    constructor (format: Format, retention: nat, files: Files, foreign: bool)
      ensures this.format == format && this.retention == retention && this.files == files && this.foreign == foreign
      ensures segment == None && !poisoned && !closed && troubles == 0
    {
      this.format, this.retention, this.files, this.foreign := format, retention, files, foreign;
      segment, poisoned, closed, troubles := None, false, false, 0;
    }

    /** A call that changes nothing on disk. */
    method Gate() returns (r: Outcome)
      modifies this`troubles
      ensures troubles == old(troubles) + if r.Ok? then 0 else 1
    {
      r := *;
      if !r.Ok? { troubles := troubles + 1; }
    }

    /** An append: all of it, or on a fault any part of it. */
    method Append(date: Date, record: Bytes) returns (r: Outcome)
      requires date in files
      modifies this`files, this`troubles
      ensures exists k :: Appended(old(files), files, date, record, k) && (r.Ok? ==> k == |record|)
      ensures troubles == old(troubles) + if r.Ok? then 0 else 1
    {
      r := Gate();
      var k: nat :| k <= |record|;
      if r.Ok? { k := |record|; }
      files := files[date := files[date] + record[..k]];
      assert Appended(old(files), files, date, record, k);
    }

    method Create(date: Date) returns (r: Outcome)
      modifies this`files, this`troubles
      ensures r.Ok? ==> date in files
      ensures files == old(files) || (date !in old(files) && files == old(files)[date := []])
      ensures troubles == old(troubles) + if r.Ok? then 0 else 1
    {
      r := Gate();
      var partly: bool := *;
      if (r.Ok? || partly) && date !in files { files := files[date := []]; }
    }

    /** selectSegment: the segment of `date` is open, exists and has room for `bytes` more. */
    method SelectSegment(date: Date, bytes: nat) returns (r: Outcome)
      requires segment.Some? ==> segment.value in files
      modifies this`files, this`segment, this`troubles
      ensures files == old(files) || (date !in old(files) && files == old(files)[date := []])
      ensures segment.Some? ==> segment.value in files
      ensures r.Ok? ==> segment == Some(date) && |files[date]| + bytes <= MAX_SEGMENT
      ensures troubles >= old(troubles)
      ensures troubles == old(troubles) ==>
        (r.Ok? <==> (if date in old(files) then |old(files)[date]| else 0) + bytes <= MAX_SEGMENT) && !r.Dead?
    {
      if segment == Some(date) {
        r := Gate();
        if r.Ok? && |files[date]| + bytes > MAX_SEGMENT { r := Failed; }
        return;
      }
      if segment.Some? {
        r := Gate();
        if !r.Ok? { return; }
        segment := None;
      }
      r := Create(date);
      if !r.Ok? { return; }
      r := Gate();
      if !r.Ok? { return; }
      if |files[date]| + bytes > MAX_SEGMENT { return Failed; }
      segment := Some(date);
    }

    /** Appends one record and syncs it. */
    method WriteDurably(date: Date, record: Bytes) returns (r: Outcome)
      requires segment.Some? ==> segment.value in files
      modifies this`files, this`segment, this`troubles
      ensures exists k :: Appended(old(files), files, date, record, k) && (r.Ok? ==> k == |record|)
      ensures segment.Some? ==> segment.value in files
      ensures r.Ok? ==> segment == Some(date) && date in files && Appended(old(files), files, date, record, |record|)
      ensures r.Ok? ==> Fits(old(files), date, record)
      ensures troubles >= old(troubles)
      ensures troubles == old(troubles) ==>
        (r.Ok? <==> Fits(old(files), date, record)) && !r.Dead?
    {
      r := SelectSegment(date, |record|);
      if !r.Ok? {
        assert Appended(old(files), files, date, record, 0);
        return;
      }
      ghost var ready := files;
      r := Append(date, record);
      ghost var k :| Appended(ready, files, date, record, k) && (r.Ok? ==> k == |record|);
      if r.Ok? { r := Gate(); }
      assert Appended(old(files), files, date, record, k);
    }

    predicate Usable()
      reads this
    {
      !poisoned && !closed
    }

    ghost function Value(): State
      reads this
    {
      State(files, Usable())
    }

    /** Record: only an acknowledged record is sure to be on disk, whole and at the end of its day's segment; every
        storage fault poisons the sink, and a poisoned or closed sink refuses for good and writes nothing. */
    method Record(date: Date, cancelled: bool, body: Option<Bytes>) returns (r: Outcome)
      requires segment.Some? ==> segment.value in files
      modifies this`files, this`segment, this`poisoned, this`troubles
      ensures segment.Some? ==> segment.value in files
      ensures old(poisoned) || old(closed) || cancelled || body.None? ==>
        r.Failed? && files == old(files) && poisoned == old(poisoned)
      ensures old(poisoned) ==> poisoned
      ensures body.Some? ==> exists k ::
        Appended(old(files), files, date, Line(body.value), k) && (r.Ok? ==> k == |Line(body.value)|)
      ensures r.Ok? ==> !poisoned && date in files
      ensures r.Failed? && !cancelled && body.Some? ==> poisoned || old(closed)
      ensures troubles >= old(troubles)
      ensures troubles == old(troubles) && old(Usable()) && !cancelled && body.Some? ==>
        (r.Ok? <==> Fits(old(files), date, Line(body.value))) && !r.Dead?
    {
      if body.Some? { assert Appended(files, files, date, Line(body.value), 0); }
      if cancelled || body.None? { return Failed; }
      if poisoned || closed { return Failed; }
      r := WriteDurably(date, Line(body.value));
      ghost var k :| Appended(old(files), files, date, Line(body.value), k) && (r.Ok? ==> k == |Line(body.value)|);
      if r.Failed? { poisoned := true; }
      assert Appended(old(files), files, date, Line(body.value), k);
    }

    /** Close: afterwards no record is accepted. */
    method Close() returns (r: Outcome)
      modifies this`closed, this`poisoned, this`troubles
      ensures old(closed) || old(poisoned) ==> r.Failed? && closed == old(closed) && poisoned == old(poisoned)
      ensures closed || poisoned
      ensures r.Failed? && !old(closed) ==> poisoned
    {
      if closed || poisoned { return Failed; }
      closed := true;
      r := Gate();
      if r.Failed? { poisoned := true; }
    }

    method Remove(date: Date) returns (r: Outcome)
      modifies this`files, this`troubles
      ensures r.Ok? ==> files == old(files) - {date}
      ensures files == old(files) || files == old(files) - {date}
      ensures troubles == old(troubles) + if r.Ok? then 0 else 1
    {
      r := Gate();
      var partly: bool := *;
      if r.Ok? || partly { files := files - {date}; }
    }

    /** Rewrites a segment in place. */
    method Rewrite(date: Date, data: Bytes, cut: Cut) returns (r: Outcome)
      requires date in files
      modifies this`files
      ensures r == RewriteOutcome(cut)
      ensures files == old(files)[date := Rewritten(old(files)[date], data, cut)]
    {
      if cut.Sound? {
        files := files[date := data];
      } else if cut.CutShort? {
        files := files[date := []];
        files := files[date := if cut.k < |data| then data[..cut.k] else data];
      }
      r := RewriteOutcome(cut);
    }

    /** validateSegment: every record is checked; the newest segment may lose an unterminated tail. Its terminated
        records are kept, unless the rewrite is cut inside them. */
    method ValidateSegment(date: Date, mayRepair: bool, cut: Cut)
      returns (r: Outcome, repaired: bool, ghost lost: Option<nat>)
      requires date in files
      modifies this`files, this`troubles
      ensures date in files && files == old(files)[date := files[date]]
      ensures r.Ok? ==> Passes(format, old(files)[date], mayRepair) && lost.None?
      ensures r.Ok? ==> files[date] == Whole(old(files)[date]) && (repaired <==> Torn(old(files)[date]))
      ensures Left(old(files)[date], files[date], lost)
      ensures files[date] == old(files)[date] || files[date] <= Whole(old(files)[date])
      ensures lost.Some? ==> mayRepair && LosesRecords(old(files)[date], cut) && cut.CutShort? && lost.value == cut.k
      ensures troubles >= old(troubles)
      ensures troubles == old(troubles) ==> (lost.Some? <==> mayRepair && LosesRecords(old(files)[date], cut))
      ensures troubles == old(troubles) ==>
        (r.Ok? <==> Passes(format, old(files)[date], mayRepair) && (Torn(old(files)[date]) ==> cut.Sound?))
    {
      hide Clean, WholeLength;
      repaired, lost := false, None;
      var data := files[date];
      assert files == files[date := files[date]];
      NewestWhole(data);
      r := Gate();
      if !r.Ok? { return; }
      if |data| > MAX_SEGMENT { return Failed, false, None; }
      if Clean(format, data) { CleanIsWhole(format, data); }
      if |data| > 0 && data[|data| - 1] != NEWLINE {
        if !mayRepair { return Failed, false, None; }
        var n := LastNewline(data);
        if n == 0 { return Failed, false, None; }
        data := data[..n];
        r := Rewrite(date, data, cut);
        if cut.CutShort? && cut.k < n { lost := Some(cut.k); }
        if !r.Ok? { return; }
        repaired := true;
      }
      var clean := CheckRecords(format, data);
      if !clean { r := Failed; }
    }

    /** Only the segment of `today` may be open. */
    ghost predicate OpenToday(today: Date)
      reads this
    {
      segment.Some? ==> segment.value == today && today in files
    }

    /** A repair is synced and recorded. */
    method NoteRepair(ghost before: Files, ghost newest: Date, today: Date, ghost cutoff: Date, ghost todo: set<Date>)
      returns (r: Outcome)
      requires Mended(format, before, files, newest, today, cutoff, todo) && OpenToday(today)
      requires Torn(before[newest]) && newest <= today && IsNewest(before, newest) && todo <= before.Keys
      requires Ending(format, before, files, newest, today, cutoff, None)
      modifies this`files, this`segment, this`troubles
      ensures r.Ok? ==> Halfway(format, before, files, newest, today, cutoff, todo, newest) && OpenToday(today)
      ensures Ending(format, before, files, newest, today, cutoff, None)
      ensures troubles >= old(troubles) && (r.Ok? ==> Room(format, before, newest, today))
      ensures troubles == old(troubles) ==> (r.Ok? <==> Room(format, before, newest, today))
    {
      hide Ending, Halfway, Mended, Room, Torn, IsNewest, Line, Appended, Fits;
      MendedRoom(format, before, files, newest, today, cutoff, todo);
      r := Gate();
      if !r.Ok? { return; }
      ghost var mended := files;
      r := WriteDurably(today, Line(format.recovery));
      AppendEnds(format, before, mended, files, newest, today, cutoff);
      if r.Ok? { NotedHalfway(format, before, mended, files, newest, today, cutoff, todo); }
    }

    /** The first half of a round of recovery: the segment is validated, and a repair is recorded. */
    method RepairSegment(date: Date, ghost before: Files, ghost newest: Date, today: Date, ghost cutoff: Date,
                         ghost todo: set<Date>, mayRepair: bool, cut: Cut)
      returns (r: Outcome, ghost lost: Option<nat>)
      requires Midway(format, before, files, newest, today, cutoff, todo) && OpenToday(today)
      requires date in todo && todo <= before.Keys && IsNewest(before, newest) && newest <= today && cutoff <= today
      requires mayRepair <==> date == newest
      modifies this`files, this`segment, this`troubles
      ensures r.Ok? ==> Acceptable(format, before, newest, date) && OpenToday(today) && lost.None?
      ensures r.Ok? ==> Halfway(format, before, files, newest, today, cutoff, todo, date)
      ensures Ending(format, before, files, newest, today, cutoff, lost)
      ensures lost.Some? ==>
        date in files && files == old(files)[date := files[date]] && Left(before[date], files[date], lost)
      ensures lost.Some? ==> date == newest && LosesRecords(before[date], cut) && cut.CutShort? && lost.value == cut.k
      ensures troubles >= old(troubles)
      ensures troubles == old(troubles) ==> (lost.Some? <==> date == newest && LosesRecords(before[date], cut))
      ensures r.Ok? && date == newest ==> Room(format, before, newest, today)
      ensures troubles == old(troubles) ==> (r.Ok? <==>
        && Acceptable(format, before, newest, date)
        && (date == newest ==> Room(format, before, newest, today) && (Torn(before[newest]) ==> cut.Sound?)))
    {
      hide Clean, Whole, Torn, Ending, Halfway, Mended, Left, LosesRecords, Repairable, IsNewest;
      MidwaySegment(format, before, files, newest, today, cutoff, todo, date);
      ghost var entry := files;
      var repaired;
      r, repaired, lost := ValidateSegment(date, mayRepair, cut);
      SegmentEnds(format, before, entry, files, newest, today, cutoff, date, lost);
      CleanIsNotTorn(format, before[date]);
      hide Midway;
      if !r.Ok? { return; }
      if repaired {
        MidwayMended(format, before, entry, files, newest, today, cutoff, todo);
        r := NoteRepair(before, newest, today, cutoff, todo);
      } else {
        AcceptedHalfway(format, before, entry, files, newest, today, cutoff, todo, date);
      }
    }

    /** One round of recovery: validate, repair and record, and remove what is older than the cutoff. However it ends,
        terminated records from the cutoff on are kept, unless the rewrite of the newest segment is cut inside them. */
    method RecoverSegment(date: Date, ghost before: Files, newest: Date, today: Date, cutoff: Date,
                          ghost todo: set<Date>, cut: Cut)
      returns (r: Outcome, ghost lost: Option<nat>)
      requires Midway(format, before, files, newest, today, cutoff, todo) && OpenToday(today)
      requires date in todo && todo <= before.Keys && IsNewest(before, newest) && newest <= today && cutoff <= today
      modifies this`files, this`segment, this`troubles
      ensures r.Ok? ==> Midway(format, before, files, newest, today, cutoff, todo - {date}) && OpenToday(today)
      ensures r.Ok? ==> Acceptable(format, before, newest, date) && lost.None?
      ensures Ending(format, before, files, newest, today, cutoff, lost)
      ensures lost.Some? ==>
        date in files && files == old(files)[date := files[date]] && Left(before[date], files[date], lost)
      ensures lost.Some? ==> date == newest && LosesRecords(before[date], cut) && cut.CutShort? && lost.value == cut.k
      ensures troubles >= old(troubles)
      ensures troubles == old(troubles) ==> (lost.Some? <==> date == newest && LosesRecords(before[date], cut))
      ensures r.Ok? && date == newest ==> Room(format, before, newest, today)
      ensures troubles == old(troubles) ==> (r.Ok? <==>
        && Acceptable(format, before, newest, date)
        && (date == newest ==> Room(format, before, newest, today) && (Torn(before[newest]) ==> cut.Sound?)))
    {
      hide Acceptable, Room, IsNewest, LosesRecords, Whole, Left, Midway, Halfway, Ending, Torn;
      r, lost := RepairSegment(date, before, newest, today, cutoff, todo, date == newest, cut);
      if !r.Ok? { return; }
      RoundEnds(format, before, files, newest, today, cutoff, todo, date);
      if date < cutoff {
        RemoveEnds(format, before, files, newest, today, cutoff, date);
        r := Remove(date);
        if !r.Ok? { return; }
        r := Gate();
      }
    }

    /** The newest segment date, by a scan of the directory. */
    method FindNewest(dates: set<Date>) returns (newest: Date)
      requires dates != {}
      ensures newest in dates && forall d | d in dates :: d <= newest
    {
      Nonempty(dates);
      newest :| newest in dates;
      var todo := dates - {newest};
      while todo != {}
        invariant newest in dates && todo <= dates
        invariant forall d | d in dates && d !in todo :: d <= newest
        decreases |todo|
      {
        Nonempty(todo);
        var d :| d in todo;
        if d > newest { newest := d; }
        todo := todo - {d};
      }
    }

    /** The rounds of recovery, in the order of the dates, as the directory lists them. */
    method RecoverAll(newest: Date, today: Date, cutoff: Date, cut: Cut) returns (r: Outcome, ghost lost: Option<nat>)
      requires IsNewest(files, newest) && newest <= today && cutoff <= today && segment.None?
      modifies this`files, this`segment, this`troubles
      ensures r.Ok? ==> Midway(format, old(files), files, newest, today, cutoff, {})
      ensures r.Ok? ==> OpenToday(today) && forall d | d in old(files) :: Acceptable(format, old(files), newest, d)
      ensures Ending(format, old(files), files, newest, today, cutoff, lost)
      ensures lost.Some? ==> !r.Ok? && cut.CutShort? && lost.value == cut.k
      ensures lost.Some? ==> CutTo(old(files), files, newest, cutoff, lost.value)
      ensures lost.Some? ==> LosesNewest(format, old(files), newest, cut)
      ensures troubles >= old(troubles)
      ensures troubles == old(troubles) ==> (lost.Some? <==> LosesNewest(format, old(files), newest, cut))
      ensures r.Ok? ==> Room(format, old(files), newest, today)
      ensures troubles == old(troubles) ==> (r.Ok? <==>
        && (forall d | d in old(files) :: Acceptable(format, old(files), newest, d))
        && Room(format, old(files), newest, today) && (Torn(old(files)[newest]) ==> cut.Sound?))
    {
      assert newest in files;
      hide Acceptable, IsNewest, LosesRecords, LosesNewest, Midway, Ending, Room, Accepted, Later, CutTo, Left, Torn;
      ghost var before := files;
      var todo := files.Keys;
      Untouched(format, files, newest, today, cutoff);
      Unchanged(format, files, newest, today, cutoff);
      AllAhead(format, before, newest);
      SoundLosesNothing(before[newest], cut);
      while todo != {}
        invariant todo <= before.Keys && troubles >= old(troubles)
        invariant Midway(format, before, files, newest, today, cutoff, todo) && OpenToday(today)
        invariant Ending(format, before, files, newest, today, cutoff, None)
        invariant Accepted(format, before, newest, todo) && Later(before, todo)
        invariant newest !in todo ==> Room(format, before, newest, today)
        invariant troubles == old(troubles) && newest !in todo ==> Torn(before[newest]) ==> cut.Sound?
        decreases |todo|
      {
        Smallest(todo);
        var d :| d in todo && forall e | e in todo :: d <= e;
        NextAhead(format, before, newest, todo, d, cut);
        ghost var entry := files;
        r, lost := RecoverSegment(d, before, newest, today, cutoff, todo, cut);
        if lost.Some? { LostEnds(format, before, entry, files, newest, today, cutoff, todo, lost.value); }
        if !r.Ok? { return; }
        todo := todo - {d};
      }
      NoneAhead(format, before, newest, cut);
      r, lost := Ok, None;
    }

    /** recover: the listing is checked, then every segment. A success keeps all terminated records from the cutoff on,
        shortens only the newest segment and only by its unterminated tail, and leaves only clean segments dated from
        the cutoff to today. However it ends, it keeps all terminated records from the cutoff on exactly when no rewrite
        was cut inside them. Without other faults the files and the fault of the rewrite decide both. */
    method Recover(today: Date, cut: Cut) returns (r: Outcome, ghost lost: bool)
      requires segment.None? && retention >= 1 && IsBody(format, format.recovery)
      modifies this`files, this`segment, this`troubles
      ensures r.Ok? ==>
        && (forall d | d in files :: today + 1 - retention <= d <= today && Clean(format, files[d]))
        && (forall d | d in old(files) :: d in files <==> d >= today + 1 - retention)
        && (forall d | d in old(files) && d in files && files[d] != old(files)[d] ::
              IsNewest(old(files), d) && Torn(old(files)[d]))
      ensures Keeps(old(files), files, today + 1 - retention) <==> !lost
      ensures troubles >= old(troubles)
      ensures var quiet, cutoff := troubles == old(troubles), today + 1 - retention;
        Reopened(format, old(files), files, foreign, today, cutoff, cut, r, quiet)
      ensures r.Ok? && segment.Some? ==> segment.value in files
    {
      hide Reopened, Acceptable, Midway, LosesRecords, Clean, WholeLength, Torn, IsBody, Room, Ending, CutTo,
           LosesNewest;
      var cutoff := today + 1 - retention;
      lost := false;
      r := Gate();
      NotRecovered(format, files, foreign, today, cutoff, cut, r, troubles == old(troubles));
      if !r.Ok? { return; }
      if foreign { return Failed, false; }
      if exists d | d in files.Keys :: d > today { return Failed, false; }
      if files == map[] { return Ok, false; }
      var newest := FindNewest(files.Keys);
      ghost var at;
      r, at := RecoverAll(newest, today, cutoff, cut);
      lost := at.Some? && newest >= cutoff;
      EndingKeeps(format, old(files), files, newest, today, cutoff, at);
      Recovers(format, old(files), files, newest, foreign, today, cutoff, cut, r, troubles == old(troubles), at);
      if r.Ok? { RecoveryKeeps(format, old(files), files, newest, today, cutoff); }
    }

    /** OpenFile: a new sink over what is on disk, usable exactly after a recovery that succeeds. `quiet` is whether no
        fault but that of the rewrite occurred. */
    method Reopen(today: Date, cut: Cut) returns (r: Outcome, ghost quiet: bool)
      requires retention >= 1 && IsBody(format, format.recovery)
      modifies this
      ensures foreign == old(foreign) && (segment.Some? ==> segment.value in files)
      ensures Usable() <==> r.Ok?
      ensures troubles >= old(troubles) && (quiet <==> troubles == old(troubles))
      ensures Reopened(format, old(files), files, foreign, today, today + 1 - retention, cut, r, quiet)
    {
      hide Reopened, IsBody;
      segment, poisoned, closed := None, false, false;
      ghost var before := troubles;
      ghost var lost;
      r, lost := Recover(today, cut);
      quiet := troubles == before;
      if !r.Ok? { segment, closed := None, true; }
    }
  }

  /** An acknowledged record: its day's segment up to its newline. */
  datatype Entry = Entry(date: Date, content: Bytes)

  ghost predicate Kept(e: Entry, files: Files) { e.date in files && e.content <= files[e.date] }

  ghost predicate Settled(e: Entry, files: Files) { Kept(e, files) && Whole(e.content) == e.content }

  lemma Smallest(dates: set<Date>)
    requires dates != {}
    ensures exists d :: d in dates && forall e | e in dates :: d <= e
    decreases |dates|
  {
    Nonempty(dates);
    var d: Date :| d in dates;
    var rest := dates - {d};
    if rest != {} {
      Smallest(rest);
      var e :| e in rest && forall o | o in rest :: e <= o;
      var least := if d <= e then d else e;
      assert least in dates && forall o | o in dates :: least <= o by {
        forall o | o in dates ensures least <= o { assert o == d || o in rest; }
      }
    } else {
      assert forall o | o in dates :: o == d;
    }
  }

  /** The segments that are not ahead any more were accepted. */
  ghost predicate Accepted(f: Format, before: Files, newest: Date, todo: set<Date>) {
    forall d | d in before && d !in todo :: Acceptable(f, before, newest, d)
  }

  /** What is ahead is later than what is done. */
  ghost predicate Later(before: Files, todo: set<Date>) {
    forall x, e | x in before && x !in todo && e in todo :: x < e
  }

  lemma AllAhead(f: Format, before: Files, newest: Date)
    ensures Accepted(f, before, newest, before.Keys) && Later(before, before.Keys)
  {
  }

  lemma NoneAhead(f: Format, before: Files, newest: Date, cut: Cut)
    requires Accepted(f, before, newest, {}) && newest in before
    ensures forall d | d in before :: Acceptable(f, before, newest, d)
    ensures LosesNewest(f, before, newest, cut) <==> LosesRecords(before[newest], cut)
  {
  }

  /** The next segment in the order of the dates. If it is not accepted, no loss is reached; the newest segment is the
      last one, and decides. */
  lemma NextAhead(f: Format, before: Files, newest: Date, todo: set<Date>, d: Date, cut: Cut)
    requires IsNewest(before, newest) && todo <= before.Keys && d in todo && forall e | e in todo :: d <= e
    requires Accepted(f, before, newest, todo) && Later(before, todo)
    ensures newest in todo && Later(before, todo - {d})
    ensures Acceptable(f, before, newest, d) ==> Accepted(f, before, newest, todo - {d})
    ensures d != newest && !Acceptable(f, before, newest, d) ==> !LosesNewest(f, before, newest, cut)
    ensures d == newest ==> (LosesNewest(f, before, newest, cut) <==> LosesRecords(before[newest], cut))
  {
    hide Acceptable, LosesRecords;
    assert d in before && d <= newest;
    assert newest !in todo ==> newest < d;
    if d == newest {
      forall e | e in before && e != newest
        ensures Acceptable(f, before, newest, e)
      {
        assert e <= newest;
        assert e in todo ==> newest <= e;
      }
    }
  }

  /** A segment whose terminated records are left in place leaves the whole directory in order. */
  lemma SegmentEnds(f: Format, before: Files, entry: Files, files: Files, newest: Date, today: Date, cutoff: Date,
                    date: Date, lost: Option<nat>)
    requires Ending(f, before, entry, newest, today, cutoff, None) && date in entry && date in before
    requires date in files && files == entry[date := files[date]] && entry[date] == before[date]
    requires Left(before[date], files[date], lost) && (lost.Some? ==> date == newest)
    requires files[date] == before[date] || files[date] <= Whole(before[date])
    ensures Ending(f, before, files, newest, today, cutoff, lost)
  {
    hide Whole;
  }

  /** So does a record, or a part of it, behind a segment that was repaired or left alone. */
  lemma AppendEnds(f: Format, before: Files, entry: Files, files: Files, newest: Date, today: Date, cutoff: Date)
    requires Ending(f, before, entry, newest, today, cutoff, None)
    requires exists k :: Appended(entry, files, today, Line(f.recovery), k)
    requires today in entry ==>
      today in before && (entry[today] == before[today] || entry[today] == Whole(before[today]))
    requires today !in entry ==> today !in before
    ensures Ending(f, before, files, newest, today, cutoff, None)
  {
    hide Whole, Line;
    var k: nat :| Appended(entry, files, today, Line(f.recovery), k);
    forall d | d in files
      ensures d in before || d == today
      ensures MayHold(f, if d in before then before[d] else [], files[d], d == today)
    {
      if d == today { assert Line(f.recovery)[..k] <= Line(f.recovery); }
    }
  }

  /** The endings of a recovery that does not reach the segments. */
  lemma NotRecovered(f: Format, files: Files, foreign: bool, today: Date, cutoff: Date, cut: Cut, r: Outcome,
                     quiet: bool)
    ensures Keeps(files, files, cutoff)
    ensures !quiet && !r.Ok? ==> Reopened(f, files, files, foreign, today, cutoff, cut, r, quiet)
    ensures foreign || (exists d | d in files :: d > today) ==>
      Reopened(f, files, files, foreign, today, cutoff, cut, Failed, quiet)
    ensures !foreign && files == map[] ==> Reopened(f, files, files, foreign, today, cutoff, cut, Ok, quiet)
  {
    hide Line, Torn, LosesNewest;
  }

  /** The ending of a recovery that does. */
  lemma Recovers(f: Format, before: Files, after: Files, newest: Date, foreign: bool, today: Date, cutoff: Date,
                 cut: Cut, r: Outcome, quiet: bool, at: Option<nat>)
    requires IsNewest(before, newest) && newest <= today && !foreign
    requires Ending(f, before, after, newest, today, cutoff, at)
    requires Keeps(before, after, cutoff) <==> !(at.Some? && newest >= cutoff)
    requires at.Some? ==> !r.Ok? && cut.CutShort? && at.value == cut.k && CutTo(before, after, newest, cutoff, at.value)
    requires at.Some? ==> LosesNewest(f, before, newest, cut)
    requires r.Ok? ==> Midway(f, before, after, newest, today, cutoff, {}) && Room(f, before, newest, today)
    requires r.Ok? ==> forall d | d in before :: Acceptable(f, before, newest, d)
    requires quiet ==> (at.Some? <==> LosesNewest(f, before, newest, cut))
    requires quiet ==> (r.Ok? <==>
      && (forall d | d in before :: Acceptable(f, before, newest, d))
      && Room(f, before, newest, today) && (Torn(before[newest]) ==> cut.Sound?))
    ensures Reopened(f, before, after, foreign, today, cutoff, cut, r, quiet)
  {
    assert forall n | IsNewest(before, n) :: n == newest;
    hide MayHold, Left, Midway, Room, Acceptable, Torn, LosesNewest, CutTo, Keeps;
  }

  lemma SoundLosesNothing(data: Bytes, cut: Cut)
    ensures LosesRecords(data, cut) ==> Torn(data) && !cut.Sound?
  {
  }

  /** A loss comes last, when only the newest segment is ahead. */
  lemma LostEnds(f: Format, before: Files, entry: Files, files: Files, newest: Date, today: Date, cutoff: Date,
                 todo: set<Date>, k: nat)
    requires Midway(f, before, entry, newest, today, cutoff, todo) && IsNewest(before, newest) && todo <= before.Keys
    requires newest in todo && (forall e | e in todo :: newest <= e)
    requires newest in files && files == entry[newest := files[newest]]
    requires Left(before[newest], files[newest], Some(k))
    ensures CutTo(before, files, newest, cutoff, k)
  {
    hide Whole, Line;
    assert forall d: Bytes :: d + [] == d;
  }

  lemma Nonempty(dates: set<Date>)
    requires dates != {}
    ensures exists d: Date :: d in dates
  {
    assert (forall d: Date :: d !in dates) ==> dates == {};
  }

  lemma Untouched(f: Format, files: Files, newest: Date, today: Date, cutoff: Date)
    ensures Midway(f, files, files, newest, today, cutoff, files.Keys)
  {
    assert forall d | d in files :: files[d] + [] == files[d];
  }

  /** What is ahead has not been touched. */
  lemma MidwaySegment(f: Format, before: Files, files: Files, newest: Date, today: Date, cutoff: Date, todo: set<Date>,
                      date: Date)
    requires Midway(f, before, files, newest, today, cutoff, todo) && date in todo && todo <= before.Keys
    requires IsNewest(before, newest) && newest <= today
    ensures date in files && files[date] == before[date]
    ensures Ending(f, before, files, newest, today, cutoff, None)
  {
    hide Whole;
    MidwayEnds(f, before, files, newest, today, cutoff, todo);
    assert date <= newest;
  }

  lemma CleanIsNotTorn(f: Format, data: Bytes)
    ensures Clean(f, data) ==> !Torn(data)
    ensures !Torn(data) ==> Whole(data) == data
  {
    if Clean(f, data) { CleanIsWhole(f, data); }
  }

  lemma MidwayMended(f: Format, before: Files, entry: Files, files: Files, newest: Date, today: Date, cutoff: Date,
                     todo: set<Date>)
    requires Midway(f, before, entry, newest, today, cutoff, todo) && newest in todo && newest in before
    requires newest in entry && entry[newest] == before[newest]
    requires newest in files && files == entry[newest := files[newest]] && files[newest] == Whole(before[newest])
    ensures Mended(f, before, files, newest, today, cutoff, todo)
  {
    hide Midway, Whole;
    assert files[newest := before[newest]] == entry;
  }

  /** Room for the record of a repair is room in the segment of today. */
  lemma MendedRoom(f: Format, before: Files, files: Files, newest: Date, today: Date, cutoff: Date, todo: set<Date>)
    requires Mended(f, before, files, newest, today, cutoff, todo) && Torn(before[newest]) && IsNewest(before, newest)
    requires newest <= today && todo <= before.Keys
    ensures Room(f, before, newest, today) <==> Fits(files, today, Line(f.recovery))
    ensures today in files ==> today in before && files[today] == Whole(before[today])
    ensures today !in files ==> today !in before
  {
    hide Whole, Line;
    assert today in files && today != newest ==> today in before;
  }

  lemma NotedHalfway(f: Format, before: Files, mended: Files, files: Files, newest: Date, today: Date, cutoff: Date,
                     todo: set<Date>)
    requires Mended(f, before, mended, newest, today, cutoff, todo) && Torn(before[newest]) && IsNewest(before, newest)
    requires newest <= today && todo <= before.Keys
    requires Appended(mended, files, today, Line(f.recovery), |Line(f.recovery)|)
    ensures Halfway(f, before, files, newest, today, cutoff, todo, newest) && today in files
  {
    MendedRoom(f, before, mended, newest, today, cutoff, todo);
    RecordedRepair(mended, files, today, Line(f.recovery));
    hide Whole, Line, Torn;
    assert Noted(before, newest, todo - {newest}) && !Noted(before, newest, todo);
    forall d | d in files
      ensures files[d] == Content(f, before, newest, today, todo - {newest}, d)
    {
      if d != today { assert files[d] == mended[d]; }
    }
  }

  lemma AcceptedHalfway(f: Format, before: Files, entry: Files, files: Files, newest: Date, today: Date, cutoff: Date,
                        todo: set<Date>, date: Date)
    requires Midway(f, before, entry, newest, today, cutoff, todo) && date in todo && todo <= before.Keys
    requires date in entry && files == entry && entry[date] == before[date] && !Torn(before[date])
    ensures Halfway(f, before, files, newest, today, cutoff, todo, date)
  {
    NewestWhole(before[date]);
    hide Whole, Torn;
    assert Noted(before, newest, todo - {date}) == Noted(before, newest, todo);
  }

  /** An accepted segment, and one that has also been removed because it is old. */
  lemma RoundEnds(f: Format, before: Files, files: Files, newest: Date, today: Date, cutoff: Date, todo: set<Date>,
                  date: Date)
    requires Halfway(f, before, files, newest, today, cutoff, todo, date) && date in todo && cutoff <= today
    requires todo <= before.Keys
    ensures date >= cutoff ==> Midway(f, before, files, newest, today, cutoff, todo - {date})
    ensures date < cutoff ==> Midway(f, before, files - {date}, newest, today, cutoff, todo - {date})
  {
    hide Content;
  }

  lemma RemoveEnds(f: Format, before: Files, files: Files, newest: Date, today: Date, cutoff: Date, date: Date)
    requires Ending(f, before, files, newest, today, cutoff, None) && date < cutoff
    ensures Ending(f, before, files - {date}, newest, today, cutoff, None)
  {
    hide MayHold, Left;
  }

  lemma RecordedRepair(before: Files, after: Files, today: Date, record: Bytes)
    requires record != [] && Appended(before, after, today, record, |record|)
    ensures OnlyAppended(before, after, today) && today in after
    ensures after[today] == (if today in before then before[today] else []) + record
  {
    assert record[..|record|] == record;
  }

  lemma {:induction false} WholePrefix(a: Bytes, b: Bytes)
    requires Whole(a) <= b
    ensures Whole(a) <= Whole(b)
  {
    var n := WholeLength(a);
    if n > 0 { assert b[n - 1] == a[n - 1]; }
    assert Whole(a) == b[..n];
  }

  lemma AppendKeeps(before: Files, after: Files, date: Date, record: Bytes, k: nat, cutoff: Date)
    requires Appended(before, after, date, record, k)
    ensures Keeps(before, after, cutoff)
  {
    forall d | d in before && d >= cutoff
      ensures d in after && Whole(before[d]) <= after[d]
    {
      if d == date { assert Whole(before[d]) <= before[d] <= after[d]; }
    }
  }

  /** An acknowledged record is part of what later steps keep. */
  lemma AcknowledgedIsWhole(f: Format, before: Files, after: Files, date: Date, body: Bytes)
    requires IsBody(f, body) && Appended(before, after, date, Line(body), |Line(body)|)
    ensures date in after && Whole(after[date]) == after[date]
    ensures after[date][|after[date]| - |Line(body)|..] == Line(body)
  {
    var earlier := if date in before then before[date] else [];
    assert Line(body)[..|Line(body)|] == Line(body);
    assert after[date] == earlier + Line(body);
    WholeIs(after[date], |after[date]|);
  }

  /** A torn segment whose repair is cut inside its records: they are lost, and the next recovery does not notice. */
  lemma CutRepairLoses(f: Format, data: Bytes, tail: Bytes, date: Date, k: nat)
    requires Clean(f, data) && tail != [] && NEWLINE !in tail && |data + tail| <= MAX_SEGMENT && k < |data|
    ensures var files: Files := map[date := data + tail];
      && Whole(data + tail) == data && IsNewest(files, date) && Loses(f, files, false, date, date, CutShort(k, false))
      && Reopened(f, files, map[date := data[..k]], false, date, date, CutShort(k, false), Failed, true)
      && !Keeps(files, map[date := data[..k]], date)
    ensures Recoverable(f, map[date := []], false, date)
  {
    hide Clean, WholeLength;
    var torn := data + tail;
    if data != [] { LastByte(f, data); }
    assert forall i | |data| <= i < |torn| :: torn[i] == tail[i - |data|];
    WholeIs(torn, |data|);
    assert torn[..|data|] == data;
    var files: Files := map[date := torn];
    assert IsNewest(files, date) && LosesNewest(f, files, date, CutShort(k, false));
    assert forall d | IsNewest(files, d) :: d == date;
    assert !(data <= data[..k]);
    EmptyRecovers(f, date);
  }

  lemma EmptyRecovers(f: Format, date: Date)
    ensures Recoverable(f, map[date := []], false, date)
  {
    var files: Files := map[date := []];
    assert Repairable(f, []);
  }

  datatype Op = RecordOp(date: Date, cancelled: bool, body: Option<Bytes>) | CloseOp | ReopenOp(today: Date, cut: Cut)

  /** How an operation ended, and whether no fault occurred but that of a rewrite. */
  datatype Answer = Answer(outcome: Outcome, quiet: bool)

  /** What one operation does, however it ends. */
  ghost predicate Stepped(f: Format, foreign: bool, retention: nat, op: Op, a: Answer, before: State, after: State) {
    match op
    case RecordOp(date, cancelled, body) =>
      if !before.usable || cancelled || body.None? then a.outcome.Failed? && after == before
      else
        && (exists k: nat ::
              && Appended(before.files, after.files, date, Line(body.value), k)
              && (a.outcome.Ok? ==> k == |Line(body.value)|))
        && (after.usable <==> a.outcome.Ok?)
        && (a.quiet ==> (a.outcome.Ok? <==> Fits(before.files, date, Line(body.value))))
    case CloseOp => after.files == before.files && !after.usable
    case ReopenOp(today, cut) =>
      && Reopened(f, before.files, after.files, foreign, today, today + 1 - retention, cut, a.outcome, a.quiet)
      && (after.usable <==> a.outcome.Ok?)
  }

  /** A run: the states before every operation and after the last one. */
  ghost predicate IsRun(f: Format, foreign: bool, retention: nat, ops: seq<Op>, answers: seq<Answer>,
                        states: seq<State>)
  {
    && |answers| == |ops| && |states| == |ops| + 1
    && forall j | 0 <= j < |ops| :: Stepped(f, foreign, retention, ops[j], answers[j], states[j], states[j + 1])
  }

  /** An opening whose rewrite is cut in front of the record's end, over files whose recovery gets that far. */
  ghost predicate CutsAway(f: Format, foreign: bool, retention: nat, op: Op, before: Files, e: Entry) {
    && op.ReopenOp? && op.cut.CutShort?
    && Loses(f, before, foreign, op.today, op.today + 1 - retention, op.cut)
    && IsNewest(before, e.date) && |e.content| > op.cut.k
  }

  ghost predicate Expires(retention: nat, op: Op, e: Entry) { op.ReopenOp? && e.date < op.today + 1 - retention }

  /** One operation after the acknowledgement. */
  lemma StepKeeps(f: Format, foreign: bool, retention: nat, op: Op, a: Answer, before: State, after: State, e: Entry)
    requires Stepped(f, foreign, retention, op, a, before, after)
    requires Settled(e, before.files) && !Expires(retention, op, e)
    ensures !CutsAway(f, foreign, retention, op, before.files, e) ==> Kept(e, after.files)
    ensures CutsAway(f, foreign, retention, op, before.files, e) && a.quiet ==> !Kept(e, after.files)
  {
    hide WholeLength, Torn, Loses, Recoverable, Recovered, MayHold, Hit;
    WholePrefix(e.content, before.files[e.date]);
    match op {
      case RecordOp(date, cancelled, body) =>
        if before.usable && !cancelled && body.Some? {
          var k: nat :| Appended(before.files, after.files, date, Line(body.value), k);
          AppendKeeps(before.files, after.files, date, Line(body.value), k, e.date);
        }
      case CloseOp =>
      case ReopenOp(today, cut) =>
        if !Keeps(before.files, after.files, today + 1 - retention) {
          OneNewest(before.files, e.date);
        }
    }
  }

  lemma OneNewest(files: Files, date: Date)
    requires date in files
    ensures exists newest :: IsNewest(files, newest)
  {
    Largest(files.Keys);
    var newest :| newest in files.Keys && forall d | d in files.Keys :: d <= newest;
    assert IsNewest(files, newest);
  }

  lemma Largest(dates: set<Date>)
    requires dates != {}
    ensures exists d :: d in dates && forall e | e in dates :: e <= d
    decreases |dates|
  {
    Nonempty(dates);
    var d: Date :| d in dates;
    var rest := dates - {d};
    if rest == {} {
      forall o | o in dates ensures o <= d { assert o == d || o in rest; }
    } else {
      Largest(rest);
      var e :| e in rest && forall o | o in rest :: o <= e;
      var most := if d <= e then e else d;
      assert most in dates && forall o | o in dates :: o <= most by {
        forall o | o in dates ensures o <= most { assert o == d || o in rest; }
      }
    }
  }

  /** The record acknowledged by operation `i`, as it lies on disk then. */
  function Acknowledged(ops: seq<Op>, states: seq<State>, i: nat): Entry
    requires i < |ops| && |states| == |ops| + 1 && ops[i].RecordOp? && ops[i].date in states[i + 1].files
  {
    Entry(ops[i].date, states[i + 1].files[ops[i].date])
  }

  predicate Ends(content: Bytes, line: Bytes) { |line| <= |content| && content[|content| - |line|..] == line }

  /** The record is on disk after each operation up to the `n`th. */
  ghost predicate Stays(states: seq<State>, e: Entry, i: nat, n: nat)
    requires n < |states|
  {
    forall m | i < m <= n :: Settled(e, states[m].files)
  }

  /** No operation behind the `i`th cuts the record away. */
  ghost predicate Uncut(f: Format, foreign: bool, retention: nat, ops: seq<Op>, states: seq<State>, e: Entry, i: nat,
                        n: nat)
    requires n <= |ops| < |states|
  {
    forall j | i < j < n :: !CutsAway(f, foreign, retention, ops[j], states[j].files, e)
  }

  /** The openings that would cut the record away meet no other fault. */
  ghost predicate QuietCuts(f: Format, foreign: bool, retention: nat, ops: seq<Op>, answers: seq<Answer>,
                            states: seq<State>, e: Entry, i: nat, n: nat)
    requires n <= |ops| < |states| && |ops| == |answers|
  {
    forall j | i < j < n && CutsAway(f, foreign, retention, ops[j], states[j].files, e) :: answers[j].quiet
  }

  lemma {:induction false} StaysUncut(f: Format, foreign: bool, retention: nat, ops: seq<Op>, answers: seq<Answer>,
                                      states: seq<State>, e: Entry, i: nat, n: nat)
    requires IsRun(f, foreign, retention, ops, answers, states) && i < n <= |ops|
    requires Settled(e, states[i + 1].files)
    requires forall j | i < j < n :: !Expires(retention, ops[j], e)
    ensures Uncut(f, foreign, retention, ops, states, e, i, n) ==> Stays(states, e, i, n)
    ensures QuietCuts(f, foreign, retention, ops, answers, states, e, i, n) && Stays(states, e, i, n) ==>
      Uncut(f, foreign, retention, ops, states, e, i, n)
    decreases n
  {
    hide Settled, CutsAway, Stepped, Expires;
    if n > i + 1 {
      StaysUncut(f, foreign, retention, ops, answers, states, e, i, n - 1);
      if Stays(states, e, i, n - 1) {
        assert Settled(e, states[n - 1].files);
        assert Stepped(f, foreign, retention, ops[n - 1], answers[n - 1], states[n - 1], states[n]);
        StepSettles(f, foreign, retention, ops[n - 1], answers[n - 1], states[n - 1], states[n], e);
      }
    }
  }

  lemma StepSettles(f: Format, foreign: bool, retention: nat, op: Op, a: Answer, before: State, after: State, e: Entry)
    requires Stepped(f, foreign, retention, op, a, before, after)
    requires Settled(e, before.files) && !Expires(retention, op, e)
    ensures !CutsAway(f, foreign, retention, op, before.files, e) ==> Settled(e, after.files)
    ensures CutsAway(f, foreign, retention, op, before.files, e) && a.quiet ==> !Settled(e, after.files)
  {
    hide Stepped, CutsAway, Expires, Whole;
    StepKeeps(f, foreign, retention, op, a, before, after, e);
  }

  /** Over any run of records, closes and openings, each of which may fail or crash anywhere: an acknowledged record is
      on disk, whole, when it is acknowledged, and it stays there until it expires unless an opening cuts it away. If
      such openings meet no other fault, it stays exactly when there is none. */
  lemma RunKeeps(f: Format, foreign: bool, retention: nat, ops: seq<Op>, answers: seq<Answer>, states: seq<State>,
                 i: nat, n: nat)
    requires IsRun(f, foreign, retention, ops, answers, states) && i < n <= |ops|
    requires answers[i].outcome.Ok? && ops[i].RecordOp? && (ops[i].body.Some? ==> IsBody(f, ops[i].body.value))
    requires forall j | i < j < n && ops[j].ReopenOp? :: ops[i].date >= ops[j].today + 1 - retention
    ensures ops[i].body.Some? && ops[i].date in states[i + 1].files
    ensures var e := Acknowledged(ops, states, i);
      && Ends(e.content, Line(ops[i].body.value))
      && (Uncut(f, foreign, retention, ops, states, e, i, n) ==> Stays(states, e, i, n))
      && (QuietCuts(f, foreign, retention, ops, answers, states, e, i, n) ==>
            (Stays(states, e, i, n) <==> Uncut(f, foreign, retention, ops, states, e, i, n)))
  {
    hide Reopened, IsBody, Whole, Fits, Uncut, QuietCuts, Stays, IsRun;
    RunStep(f, foreign, retention, ops, answers, states, i);
    AcknowledgedIsWhole(f, states[i].files, states[i + 1].files, ops[i].date, ops[i].body.value);
    var e := Acknowledged(ops, states, i);
    StaysUncut(f, foreign, retention, ops, answers, states, e, i, n);
  }

  lemma RunStep(f: Format, foreign: bool, retention: nat, ops: seq<Op>, answers: seq<Answer>, states: seq<State>,
                i: nat)
    requires IsRun(f, foreign, retention, ops, answers, states) && i < |ops|
    ensures |answers| == |ops| && |states| == |ops| + 1
    ensures Stepped(f, foreign, retention, ops[i], answers[i], states[i], states[i + 1])
  {
  }

  /** A run that loses an acknowledged record without a crash: the next append is cut, the repair is cut too, and the
      opening after that succeeds over the empty segment. */
  lemma LosingRun(f: Format, body: Bytes, date: Date)
    requires IsBody(f, body) && body != []
    ensures var add, line := RecordOp(date, false, Some(body)), Line(body);
      var ops := [add, add, ReopenOp(date, CutShort(0, false)), ReopenOp(date, Sound)];
      var answers := [Answer(Ok, true), Answer(Failed, false), Answer(Failed, true), Answer(Ok, true)];
      var states := [State(map[], true), State(map[date := line], true), State(map[date := line + line[..1]], false),
                     State(map[date := []], false), State(map[date := []], true)];
      && IsRun(f, false, 1, ops, answers, states)
      && CutsAway(f, false, 1, ops[2], states[2].files, Entry(date, line))
  {
    var line := Line(body);
    hide Clean, Recoverable, WholeLength, Loses, Keeps, Reopened;
    CleanLine(f, body);
    assert [] + line[..|line|] == line && line[..1] == [body[0]] && |line + line[..1]| <= MAX_SEGMENT;
    CutRepairLoses(f, line, line[..1], date, 0);
    assert Appended(map[], map[date := line], date, line, |line|);
    assert Appended(map[date := line], map[date := line + line[..1]], date, line, 1);
    assert line[..0] == [];
    EmptyReopens(f, date);
  }

  /** An empty segment is a directory like any other. */
  lemma EmptyReopens(f: Format, date: Date)
    ensures Reopened(f, map[date := []], map[date := []], false, date, date, Sound, Ok, true)
  {
    EmptyRecovers(f, date);
    var files: Files := map[date := []];
    assert Whole(files[date]) + [] == [];
    assert forall d | IsNewest(files, d) :: d == date;
  }

  /** Every run of the sink is such a run. A crash ends the sink until it is opened again. */
  method RunOps(sink: AuditFile, ops: seq<Op>) returns (ghost answers: seq<Answer>, ghost states: seq<State>)
    requires sink.retention >= 1 && IsBody(sink.format, sink.format.recovery)
    requires sink.segment.Some? ==> sink.segment.value in sink.files
    modifies sink
    ensures IsRun(sink.format, sink.foreign, sink.retention, ops, answers, states)
    ensures states[0] == old(sink.Value()) && states[|ops|] == sink.Value() && sink.foreign == old(sink.foreign)
  {
    hide Stepped, IsBody;
    answers, states := [], [sink.Value()];
    var i := 0;
    while i < |ops|
      invariant 0 <= i <= |ops| && sink.foreign == old(sink.foreign)
      invariant sink.segment.Some? ==> sink.segment.value in sink.files
      invariant IsRun(sink.format, sink.foreign, sink.retention, ops[..i], answers, states)
      invariant states[0] == old(sink.Value()) && states[i] == sink.Value()
    {
      ghost var a;
      a := RunOp(sink, ops[i]);
      answers, states := answers + [a], states + [sink.Value()];
      i := i + 1;
    }
    assert ops[..i] == ops;
  }

  /** One operation of a run. */
  method RunOp(sink: AuditFile, op: Op) returns (ghost a: Answer)
    requires sink.retention >= 1 && IsBody(sink.format, sink.format.recovery)
    requires sink.segment.Some? ==> sink.segment.value in sink.files
    modifies sink
    ensures sink.foreign == old(sink.foreign) && (sink.segment.Some? ==> sink.segment.value in sink.files)
    ensures Stepped(sink.format, sink.foreign, sink.retention, op, a, old(sink.Value()), sink.Value())
  {
    hide IsBody, Reopened, Appended, Fits;
    ghost var before := sink.troubles;
    var r: Outcome;
    match op {
      case RecordOp(date, cancelled, body) => r := sink.Record(date, cancelled, body);
      case CloseOp => r := sink.Close();
      case ReopenOp(today, cut) =>
        ghost var quiet;
        r, quiet := sink.Reopen(today, cut);
    }
    a := Answer(r, sink.troubles == before);
    if r.Dead? { sink.closed := true; }
  }
}
