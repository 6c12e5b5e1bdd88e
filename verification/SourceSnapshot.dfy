/** An immutable UTF-8 member, its line index, and the pages served from it. The marshaled size of a
    page is an arbitrary function `size`, so nothing below depends on the JSON encoding. */
module SourceSnapshot {
  import opened Utf8

  const MAX_PAGE_LINES: int := 200
  const MAX_PAGE_BYTES: nat := 128 * 1024

  type Bytes = seq<byte>

  datatype Offset = Offset(start: nat, end: nat)

  datatype Snapshot = Snapshot(content: Bytes, lines: seq<Offset>)

  datatype Encoded = Indexed(snapshot: Snapshot) | InvalidEncoding

  datatype Page = Page(startLine: int, lineCount: int, lines: seq<Bytes>, eof: bool, nextStartLine: int)

  datatype PageResult = Served(page: Page) | InvalidRequest | OutOfBounds | ResponseTooLarge

  /** Index of the first newline at or after `from`, or the length. */
  function NextNewline(content: Bytes, from: nat): (k: nat)
    requires from <= |content|
    ensures from <= k <= |content| && NEWLINE !in content[from..k]
    ensures k < |content| ==> content[k] == NEWLINE
    decreases |content| - from
  {
    if from == |content| || content[from] == NEWLINE then from
    else
      var k := NextNewline(content, from + 1);
      assert content[from..k] == [content[from]] + content[from + 1..k];
      k
  }

  /** The records of a member: newline-terminated ones, then an unterminated rest if it is not empty. */
  function Records(content: Bytes, from: nat := 0): seq<Bytes>
    requires from <= |content|
    decreases |content| - from
  {
    var k := NextNewline(content, from);
    if k < |content| then [content[from..k]] + Records(content, k + 1)
    else if from < k then [content[from..k]]
    else []
  }

  /** Each record followed by a newline, the last one only if `terminated`. */
  function Rebuild(records: seq<Bytes>, terminated: bool): Bytes {
    if records == [] then []
    else if |records| == 1 && !terminated then records[0]
    else records[0] + [NEWLINE] + Rebuild(records[1..], terminated)
  }

  predicate Terminated(content: Bytes) { content != [] && content[|content| - 1] == NEWLINE }

  /** No record holds a newline, and only the empty rest has no record. */
  lemma {:induction false} RecordsAreLines(content: Bytes, from: nat)
    requires from <= |content|
    ensures forall r | r in Records(content, from) :: NEWLINE !in r
    ensures Records(content, from) == [] <==> from == |content|
    decreases |content| - from
  {
    var k := NextNewline(content, from);
    if k < |content| { RecordsAreLines(content, k + 1); }
  }

  lemma NextNewlineIs(content: Bytes, from: nat, k: nat)
    requires from <= k <= |content| && NEWLINE !in content[from..k]
    requires k < |content| ==> content[k] == NEWLINE
    ensures NextNewline(content, from) == k
  {
    var n := NextNewline(content, from);
    assert forall i | from <= i < k :: content[i] == content[from..k][i - from];
    assert forall i | from <= i < n :: content[i] == content[from..n][i - from];
  }

  /** The first record behind `from`. */
  lemma RecordsStep(content: Bytes, from: nat, k: nat)
    requires from <= k <= |content| && NEWLINE !in content[from..k]
    requires if k < |content| then content[k] == NEWLINE else from < k
    ensures Records(content, from) == [content[from..k]] + Records(content, if k < |content| then k + 1 else k)
  {
    NextNewlineIs(content, from, k);
  }

  /** Splitting loses nothing: the records and the final newline rebuild the member. */
  lemma {:induction false} RecordsRebuild(content: Bytes, from: nat)
    requires from <= |content|
    ensures Rebuild(Records(content, from), Terminated(content)) == content[from..]
    decreases |content| - from
  {
    if from == |content| {
      NoRecords(content);
    } else {
      var k := NextNewline(content, from);
      hide Records, Rebuild, NextNewline, Terminated;
      RecordsStep(content, from, k);
      if k < |content| {
        RecordsRebuild(content, k + 1);
        MoreOrTerminated(content, k);
        RebuildCons(content[from..k], Records(content, k + 1), Terminated(content));
        RejoinAt(content, from, k);
      } else {
        NoRecords(content);
        RebuildLast(content, from);
      }
    }
  }

  lemma NoRecords(content: Bytes)
    ensures Records(content, |content|) == [] && Rebuild([], Terminated(content)) == content[|content|..]
  {
  }

  lemma MoreOrTerminated(content: Bytes, k: nat)
    requires k < |content| && content[k] == NEWLINE
    ensures Records(content, k + 1) != [] || Terminated(content)
  {
    RecordsAreLines(content, k + 1);
  }

  lemma RebuildLast(content: Bytes, from: nat)
    requires from < |content| && NEWLINE !in content[from..|content|]
    ensures Rebuild([content[from..|content|]] + [], Terminated(content)) == content[from..]
  {
    assert content[from..|content|][|content| - 1 - from] == content[|content| - 1];
    assert [content[from..|content|]] + [] == [content[from..|content|]];
  }

  lemma RebuildCons(first: Bytes, rest: seq<Bytes>, terminated: bool)
    requires rest != [] || terminated
    ensures Rebuild([first] + rest, terminated) == first + [NEWLINE] + Rebuild(rest, terminated)
  {
    assert ([first] + rest)[1..] == rest;
  }

  lemma RejoinAt(content: Bytes, from: nat, k: nat)
    requires from <= k < |content| && content[k] == NEWLINE
    ensures content[from..k] + [NEWLINE] + content[k + 1..] == content[from..]
  {}

  predicate Inside(content: Bytes, lines: seq<Offset>) {
    forall o | o in lines :: o.start <= o.end <= |content|
  }

  function Texts(content: Bytes, lines: seq<Offset>): (texts: seq<Bytes>)
    requires Inside(content, lines)
    ensures |texts| == |lines|
  {
    seq(|lines|, i requires 0 <= i < |lines| => assert lines[i] in lines; content[lines[i].start..lines[i].end])
  }

  predicate WellIndexed(s: Snapshot) {
    Inside(s.content, s.lines) && Texts(s.content, s.lines) == Records(s.content)
  }

  /** `lines` indexes every record that ends before `from`. */
  ghost predicate IndexedTo(content: Bytes, lines: seq<Offset>, from: nat)
    requires from <= |content|
  {
    Inside(content, lines) && Texts(content, lines) + Records(content, from) == Records(content)
  }

  lemma TextsSnoc(content: Bytes, lines: seq<Offset>, next: Offset)
    requires Inside(content, lines) && Inside(content, [next])
    ensures Inside(content, lines + [next])
    ensures Texts(content, lines + [next]) == Texts(content, lines) + [content[next.start..next.end]]
  {
    assert next in [next];
  }

  lemma IndexStep(content: Bytes, lines: seq<Offset>, from: nat, k: nat)
    requires from <= k <= |content| && NEWLINE !in content[from..k]
    requires if k < |content| then content[k] == NEWLINE else from < k
    requires IndexedTo(content, lines, from)
    ensures IndexedTo(content, lines + [Offset(from, k)], if k < |content| then k + 1 else k)
  {
    var line := Offset(from, k);
    RecordsStep(content, from, k);
    assert Inside(content, [line]);
    TextsSnoc(content, lines, line);
    hide Texts, Records;
    var next := if k < |content| then k + 1 else k;
    var done, text := Texts(content, lines), [content[from..k]];
    assert done + (text + Records(content, next)) == (done + text) + Records(content, next);
  }

  /** Accepts exactly the valid UTF-8 members and indexes exactly their records. */
  method NewSnapshot(content: Bytes) returns (r: Encoded)
    ensures r.Indexed? <==> IsUtf8(content)
    ensures r.Indexed? ==> r.snapshot.content == content && WellIndexed(r.snapshot)
  {
    if !IsUtf8(content) { return InvalidEncoding; }
    var lines: seq<Offset> := [];
    var lineStart: nat := 0;
    for index := 0 to |content|
      invariant lineStart <= index
      invariant NEWLINE !in content[lineStart..index]
      invariant IndexedTo(content, lines, lineStart)
    {
      if content[index] == NEWLINE {
        IndexStep(content, lines, lineStart, index);
        lines := lines + [Offset(lineStart, index)];
        lineStart := index + 1;
      } else {
        assert content[lineStart..index + 1] == content[lineStart..index] + [content[index]];
      }
    }
    if lineStart < |content| {
      IndexStep(content, lines, lineStart, |content|);
      lines := lines + [Offset(lineStart, |content|)];
    }
    assert Texts(content, lines) + [] == Texts(content, lines);
    r := Indexed(Snapshot(content, lines));
  }

  /** The page that holds `n` records from `start` on (counted from zero). */
  function Candidate(records: seq<Bytes>, start: nat, n: nat): Page
    requires start + n <= |records|
  {
    var eof := start + n == |records|;
    Page(start + 1, n, records[start..start + n], eof, if eof then 0 else start + n + 1)
  }

  /** How many records a page takes: one more as long as the limit and the size allow. */
  function Fill(records: seq<Bytes>, size: Page -> nat, start: nat, n: nat, maxLines: nat): (m: nat)
    requires start + n <= |records| && n <= maxLines
    ensures n <= m <= maxLines && start + m <= |records|
    decreases maxLines - n
  {
    if start + n < |records| && n < maxLines && size(Candidate(records, start, n + 1)) <= MAX_PAGE_BYTES
    then Fill(records, size, start, n + 1, maxLines)
    else n
  }

  function PageOf(records: seq<Bytes>, size: Page -> nat, startLine: int, maxLines: int): PageResult {
    if startLine < 1 || maxLines < 1 || maxLines > MAX_PAGE_LINES then InvalidRequest
    else if records == [] then (if startLine == 1 then Served(Page(1, 0, [], true, 0)) else OutOfBounds)
    else if startLine > |records| then OutOfBounds
    else
      var n := Fill(records, size, startLine - 1, 0, maxLines);
      if n == 0 then ResponseTooLarge else Served(Candidate(records, startLine - 1, n))
  }

  /** The text of record `index`, cut out of the member by its offsets. */
  function LineText(s: Snapshot, index: nat): (text: Bytes)
    requires WellIndexed(s) && index < |s.lines|
    ensures index < |Records(s.content)| && text == Records(s.content)[index]
  {
    assert s.lines[index] in s.lines;
    assert Texts(s.content, s.lines)[index] == s.content[s.lines[index].start..s.lines[index].end];
    s.content[s.lines[index].start..s.lines[index].end]
  }

  lemma CandidateGrows(records: seq<Bytes>, start: nat, n: nat)
    requires start + n < |records|
    ensures Candidate(records, start, n + 1).lines == Candidate(records, start, n).lines + [records[start + n]]
  {}

  /** The page loop: it grows a page record by record. */
  method FillPage(s: Snapshot, size: Page -> nat, start: nat, maxLines: nat) returns (page: Page)
    requires WellIndexed(s) && start < |s.lines|
    ensures |s.lines| == |Records(s.content)|
    ensures page.lineCount == Fill(Records(s.content), size, start, 0, maxLines)
    ensures page.lineCount > 0 ==> page == Candidate(Records(s.content), start, page.lineCount)
  {
    ghost var records := Records(s.content);
    assert |records| == |s.lines|;
    page := Page(start + 1, 0, [], false, 0);
    while start + page.lineCount < |s.lines| && page.lineCount < maxLines
      invariant 0 <= page.lineCount <= maxLines && start + page.lineCount <= |records|
      invariant page.lines == Candidate(records, start, page.lineCount).lines
      invariant page.lineCount > 0 ==> page == Candidate(records, start, page.lineCount)
      invariant Fill(records, size, start, 0, maxLines) == Fill(records, size, start, page.lineCount, maxLines)
      decreases maxLines - page.lineCount
    {
      var n := page.lineCount;
      CandidateGrows(records, start, n);
      var eof := start + n + 1 == |s.lines|;
      var next := if eof then 0 else start + n + 2;
      var candidate := Page(start + 1, n + 1, page.lines + [LineText(s, start + n)], eof, next);
      assert candidate == Candidate(records, start, n + 1);
      if size(candidate) > MAX_PAGE_BYTES { return; }
      page := candidate;
    }
  }

  /** Page: the range checks, then the loop; an overflowing first record is an error. */
  method PageAt(s: Snapshot, size: Page -> nat, startLine: int, maxLines: int) returns (r: PageResult)
    requires WellIndexed(s)
    ensures r == PageOf(Records(s.content), size, startLine, maxLines)
  {
    if startLine < 1 || maxLines < 1 || maxLines > MAX_PAGE_LINES { return InvalidRequest; }
    assert |Records(s.content)| == |s.lines|;
    if |s.lines| == 0 {
      return if startLine == 1 then Served(Page(1, 0, [], true, 0)) else OutOfBounds;
    }
    if startLine > |s.lines| { return OutOfBounds; }
    var page := FillPage(s, size, startLine - 1, maxLines);
    return if page.lineCount == 0 then ResponseTooLarge else Served(page);
  }

  /** Each refusal is given exactly for its own reason, and an empty member has one page, the empty one. */
  lemma PageRefusals(records: seq<Bytes>, size: Page -> nat, startLine: int, maxLines: int)
    ensures var r := PageOf(records, size, startLine, maxLines);
      var legal := 1 <= startLine && 1 <= maxLines <= MAX_PAGE_LINES;
      && (r.InvalidRequest? <==> !legal)
      && (r.OutOfBounds? <==> legal && startLine > if records == [] then 1 else |records|)
      && (r.ResponseTooLarge? <==>
           legal && startLine <= |records| && size(Candidate(records, startLine - 1, 1)) > MAX_PAGE_BYTES)
      && (r.Served? && records == [] ==> r.page == Page(1, 0, [], true, 0))
  {
    hide Candidate;
    if 1 <= startLine <= |records| && 1 <= maxLines <= MAX_PAGE_LINES {
      FillsNone(records, size, startLine - 1, maxLines);
    }
  }

  lemma FillsNone(records: seq<Bytes>, size: Page -> nat, start: nat, maxLines: nat)
    requires start < |records| && maxLines > 0
    ensures Fill(records, size, start, 0, maxLines) == 0 <==> size(Candidate(records, start, 1)) > MAX_PAGE_BYTES
  {
    hide Candidate;
  }

  /** What the greedy loop means: a served page fits, takes consecutive records from the requested
      line, names the line after it, and stops only at the end, at the line limit, or where the next
      record would overflow. */
  lemma {:induction false} PageIsMaximal(records: seq<Bytes>, size: Page -> nat, startLine: int, maxLines: int)
    requires records != []
    ensures var r := PageOf(records, size, startLine, maxLines);
      r.Served? ==>
        && var p := r.page;
        && 1 <= startLine == p.startLine && 1 <= p.lineCount == |p.lines| <= maxLines <= MAX_PAGE_LINES
        && startLine - 1 + p.lineCount <= |records|
        && p.lines == records[startLine - 1..startLine - 1 + p.lineCount]
        && size(p) <= MAX_PAGE_BYTES
        && (p.eof <==> startLine - 1 + p.lineCount == |records|)
        && p.nextStartLine == (if p.eof then 0 else startLine + p.lineCount)
        && (p.eof || p.lineCount == maxLines
             || size(Candidate(records, startLine - 1, p.lineCount + 1)) > MAX_PAGE_BYTES)
  {
    if 1 <= startLine <= |records| && 1 <= maxLines <= MAX_PAGE_LINES {
      FillStops(records, size, startLine - 1, 0, maxLines);
    }
  }

  lemma {:induction false} FillStops(records: seq<Bytes>, size: Page -> nat, start: nat, n: nat, maxLines: nat)
    requires start + n <= |records| && n <= maxLines
    ensures var m := Fill(records, size, start, n, maxLines);
      && (m > n ==> size(Candidate(records, start, m)) <= MAX_PAGE_BYTES)
      && (start + m == |records| || m == maxLines || size(Candidate(records, start, m + 1)) > MAX_PAGE_BYTES)
    decreases maxLines - n
  {
    if start + n < |records| && n < maxLines && size(Candidate(records, start, n + 1)) <= MAX_PAGE_BYTES {
      FillStops(records, size, start, n + 1, maxLines);
    }
  }

  /** The lines a client collects by following nextStartLine; `limit` is any choice of page sizes. */
  function Follow(records: seq<Bytes>, size: Page -> nat, limit: nat -> int, line: nat): (lines: seq<Bytes>)
    requires 1 <= line <= |records|
    requires EverySingleLineFits(records, size) && LegalLimits(limit)
    decreases |records| - line
  {
    PageIsMaximal(records, size, line, limit(line));
    assert size(Candidate(records, line - 1, 1)) <= MAX_PAGE_BYTES;
    var p := PageOf(records, size, line, limit(line)).page;
    if p.eof then p.lines else p.lines + Follow(records, size, limit, p.nextStartLine)
  }

  ghost predicate LegalLimits(limit: nat -> int) {
    forall n :: 1 <= limit(n) <= MAX_PAGE_LINES
  }

  ghost predicate EverySingleLineFits(records: seq<Bytes>, size: Page -> nat) {
    forall i | 0 <= i < |records| :: size(Candidate(records, i, 1)) <= MAX_PAGE_BYTES
  }

  /** Following the pages from line 1 collects every record once and in order, so the member itself. */
  lemma FollowCollectsMember(content: Bytes, size: Page -> nat, limit: nat -> int)
    requires content != []
    requires EverySingleLineFits(Records(content), size) && LegalLimits(limit)
    ensures Records(content) != []
    ensures Rebuild(Follow(Records(content), size, limit, 1), Terminated(content)) == content
  {
    RecordsRebuild(content, 0);
    RecordsAreLines(content, 0);
    FollowCollects(Records(content), size, limit, 1);
  }

  lemma OneLineServes(records: seq<Bytes>, size: Page -> nat, line: nat, maxLines: int)
    requires 1 <= line <= |records| && 1 <= maxLines <= MAX_PAGE_LINES
    requires size(Candidate(records, line - 1, 1)) <= MAX_PAGE_BYTES
    ensures PageOf(records, size, line, maxLines).Served?
  {
  }

  lemma SplitAt(records: seq<Bytes>, i: nat, j: nat)
    requires i <= j <= |records|
    ensures records[i..] == records[i..j] + records[j..]
  {}

  /** One page on the way. */
  lemma NextPage(records: seq<Bytes>, size: Page -> nat, limit: nat -> int, line: nat)
    requires 1 <= line <= |records|
    requires EverySingleLineFits(records, size) && LegalLimits(limit)
    ensures var r := PageOf(records, size, line, limit(line));
      && r.Served?
      && var next := line + r.page.lineCount;
      && line < next <= |records| + 1 && r.page.lines == records[line - 1..next - 1]
      && (if r.page.eof then next == |records| + 1 else next == r.page.nextStartLine <= |records|)
  {
    assert size(Candidate(records, line - 1, 1)) <= MAX_PAGE_BYTES;
    hide PageOf, Candidate;
    OneLineServes(records, size, line, limit(line));
    PageIsMaximal(records, size, line, limit(line));
  }

  lemma {:induction false} FollowCollects(records: seq<Bytes>, size: Page -> nat, limit: nat -> int, line: nat)
    requires 1 <= line <= |records|
    requires EverySingleLineFits(records, size) && LegalLimits(limit)
    ensures Follow(records, size, limit, line) == records[line - 1..]
    decreases |records| - line
  {
    hide PageOf;
    NextPage(records, size, limit, line);
    var p := PageOf(records, size, line, limit(line)).page;
    if p.eof {
      assert p.lines == records[line - 1..];
    } else {
      FollowCollects(records, size, limit, p.nextStartLine);
      SplitAt(records, line - 1, p.nextStartLine - 1);
    }
  }
}
