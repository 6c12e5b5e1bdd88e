/** Paging a UTF-8 file that arrives in chunks. Text is kept as UTF-8 bytes, so byte limits are exact; the
    marshaled size of a page is an arbitrary function `size`. */
module SourcePage {
  import opened Utf8
  import opened StreamDecoder
  import B = BoundedRead
  import S = SourceSnapshot

  const CARRIAGE_RETURN: byte := 13

  // ---- Lines and pages ----

  /** A line without one trailing carriage return. */
  function Trim(line: Bytes): Bytes {
    if line != [] && line[|line| - 1] == CARRIAGE_RETURN then line[..|line| - 1] else line
  }

  function Trimmed(lines: seq<Bytes>): (r: seq<Bytes>)
    ensures |r| == |lines|
  {
    seq(|lines|, i requires 0 <= i < |lines| => Trim(lines[i]))
  }

  /** The lines of a file: its newline split, each without one trailing carriage return. */
  function Lines(file: Bytes): seq<Bytes> { Trimmed(S.Records(file)) }

  function JoinLines(lines: seq<Bytes>): Bytes {
    if lines == [] then [] else if |lines| == 1 then lines[0]
    else JoinLines(lines[..|lines| - 1]) + [NEWLINE] + lines[|lines| - 1]
  }

  datatype Option<T> = None | Some(value: T)

  datatype Page = Page(content: Bytes, startLine: int, lineCount: nat, eof: bool, nextLine: Option<int>)

  datatype Result = Ok(page: Page) | ResponseTooLarge | InvalidEncoding | Unavailable

  function MakePage(lines: seq<Bytes>, startLine: int, eof: bool): Page {
    Page(JoinLines(lines), startLine, |lines|, eof, if eof then None else Some(startLine + |lines|))
  }

  function Min(a: int, b: int): int { if a < b then a else b }

  /** The page a file has at `startLine`: as many of its lines as the maximum allows, and eof when no line
      follows. */
  function PageOf(lines: seq<Bytes>, startLine: int, maximum: int): Page
    requires startLine >= 1 && maximum >= 1
  {
    var from := Min(startLine - 1, |lines|);
    var to := Min(from + maximum, |lines|);
    MakePage(lines[from..to], startLine, to == |lines|)
  }

  // ---- What a page says ----

  /** The page read back: cut at its newlines, its content is the lines of the file from the start line on, as many as
      it counts; it stops at the maximum or at the end, and names the line behind its last one. */
  predicate Shows(lines: seq<Bytes>, startLine: int, maximum: int, page: Page)
    requires startLine >= 1
  {
    var from, n := Min(startLine - 1, |lines|), page.lineCount;
    && page.startLine == startLine && n <= maximum && from + n <= |lines| && (n == maximum || from + n == |lines|)
    && (if n == 0 then page.content == [] else S.Records(page.content + [NEWLINE]) == lines[from..from + n])
    && (page.eof <==> from + n == |lines|)
    && page.nextLine == if page.eof then None else Some(startLine + n)
  }

  predicate WithoutNewlines(lines: seq<Bytes>) { forall i | 0 <= i < |lines| :: NEWLINE !in lines[i] }

  /** The lines are the records of the file, each without one carriage return at its end. */
  lemma LinesAre(file: Bytes)
    ensures |Lines(file)| == |S.Records(file)| && WithoutNewlines(Lines(file))
    ensures forall i | 0 <= i < |Lines(file)| :: var line, record := Lines(file)[i], S.Records(file)[i];
      if record != [] && record[|record| - 1] == CARRIAGE_RETURN then record == line + [CARRIAGE_RETURN]
      else record == line
  {
    S.RecordsAreLines(file, 0);
    hide S.Records;
    forall i | 0 <= i < |Lines(file)|
      ensures NEWLINE !in Lines(file)[i]
    {
      assert S.Records(file)[i] in S.Records(file);
    }
  }

  /** Records do not depend on what stands in front. */
  lemma {:induction false} RecordsShift(a: Bytes, b: Bytes, from: nat)
    requires from <= |b|
    ensures S.Records(a + b, |a| + from) == S.Records(b, from)
    decreases |b| - from
  {
    hide S.Records, S.NextNewline;
    if from == |b| {
      S.NoRecords(b);
      S.NoRecords(a + b);
    } else {
      var k := S.NextNewline(b, from);
      var all := a + b;
      assert all[|a| + from..|a| + k] == b[from..k];
      if k < |b| {
        assert all[|a| + k] == b[k];
        RecordsShift(a, b, k + 1);
      } else {
        S.NoRecords(b);
        S.NoRecords(all);
      }
      S.RecordsStep(b, from, k);
      S.RecordsStep(all, |a| + from, |a| + k);
    }
  }

  /** One more line in front. */
  lemma RecordsFront(line: Bytes, rest: Bytes)
    requires NEWLINE !in line
    ensures S.Records(line + [NEWLINE] + rest) == [line] + S.Records(rest)
  {
    hide S.Records, S.NextNewline;
    var head := line + [NEWLINE];
    var all := head + rest;
    assert all[0..|line|] == line && all[|line|] == NEWLINE;
    S.RecordsStep(all, 0, |line|);
    RecordsShift(head, rest, 0);
  }

  lemma {:induction false} JoinFront(lines: seq<Bytes>)
    requires |lines| > 1
    ensures JoinLines(lines) == lines[0] + [NEWLINE] + JoinLines(lines[1..])
  {
    if |lines| > 2 {
      var n := |lines| - 1;
      JoinFront(lines[..n]);
      assert lines[..n][1..] == lines[1..][..n - 1];
    }
  }

  /** Joined lines are cut back into themselves. */
  lemma {:induction false} RecordsOfJoin(lines: seq<Bytes>)
    requires lines != [] && WithoutNewlines(lines)
    ensures S.Records(JoinLines(lines) + [NEWLINE]) == lines
  {
    if |lines| == 1 {
      RecordsFront(lines[0], []);
      assert lines[0] + [NEWLINE] + [] == lines[0] + [NEWLINE];
      S.RecordsAreLines([], 0);
      assert [lines[0]] + [] == lines;
    } else {
      RecordsOfJoin(lines[1..]);
      JoinFront(lines);
      hide S.Records, JoinLines;
      var rest := JoinLines(lines[1..]) + [NEWLINE];
      RecordsFront(lines[0], rest);
      assert lines[0] + [NEWLINE] + rest == lines[0] + [NEWLINE] + JoinLines(lines[1..]) + [NEWLINE];
      assert [lines[0]] + lines[1..] == lines;
    }
  }

  lemma PageShows(lines: seq<Bytes>, startLine: int, maximum: int)
    requires startLine >= 1 && maximum >= 1 && WithoutNewlines(lines)
    ensures Shows(lines, startLine, maximum, PageOf(lines, startLine, maximum))
  {
    var from := Min(startLine - 1, |lines|);
    var to := Min(from + maximum, |lines|);
    if from < to { RecordsOfJoin(lines[from..to]); }
    hide S.Records;
  }

  // ---- What a chunking decides ----

  /** What is asked for, and the limit of the answer. */
  datatype Query = Query(startLine: int, maximum: int, limit: nat, size: Page -> nat)

  predicate Legal(q: Query) { q.startLine >= 1 && q.maximum >= 1 }

  /** The last line the page may hold. */
  function LastLine(q: Query): int { q.startLine - 1 + q.maximum }

  predicate PrefixFits(text: Bytes, q: Query, n: int)
    requires Legal(q) && q.startLine <= n <= |Lines(text)|
  {
    q.size(MakePage(Lines(text)[q.startLine - 1..n], q.startLine, false)) <= q.limit
  }

  /** Every page on the way to the last one fits, and so does that. */
  ghost predicate AllFit(text: Bytes, q: Query)
    requires Legal(q)
  {
    && (forall n | q.startLine <= n <= |Lines(text)| && n <= LastLine(q) :: PrefixFits(text, q, n))
    && q.size(PageOf(Lines(text), q.startLine, q.maximum)) <= q.limit
  }

  /** The length of what follows the last newline. */
  function TailLength(s: Bytes): (n: nat)
    ensures n <= |s|
  {
    if s == [] || s[|s| - 1] == NEWLINE then 0 else 1 + TailLength(s[..|s| - 1])
  }

  /** The first `d` bytes of the text complete the page and hold something behind it. */
  predicate Complete(text: Bytes, q: Query, d: nat)
    requires d <= |text|
  {
    d >= 1 && B.Newlines(text[..d - 1]) >= LastLine(q)
  }

  /** A chunk may end behind `d` bytes of text: the page is complete, or the unfinished line is within the limit. */
  predicate MayEnd(text: Bytes, q: Query, d: nat)
    requires d <= |text|
  {
    Complete(text, q, d) || TailLength(text[..d]) <= q.limit
  }

  /** How much text has come out after the first `i` chunks. */
  function TextAfter(chunks: seq<Bytes>, i: nat): nat
    requires i <= |chunks|
  {
    |DecodedText(Concat(chunks[..i]))|
  }

  predicate ChunkMayEnd(chunks: seq<Bytes>, q: Query, i: nat)
    requires i <= |chunks|
  {
    TextAfter(chunks, i) <= |DecodedText(Concat(chunks))|
      && MayEnd(DecodedText(Concat(chunks)), q, TextAfter(chunks, i))
  }

  /** Exactly the chunkings of a well-formed file that get their page. */
  ghost predicate Served(chunks: seq<Bytes>, q: Query)
    requires Legal(q)
  {
    && AllFit(DecodedText(Concat(chunks)), q)
    && forall i | 1 <= i <= |chunks| :: ChunkMayEnd(chunks, q, i)
  }

  lemma {:induction false} CompleteGrows(text: Bytes, q: Query, d: nat, e: nat)
    requires d <= e <= |text| && Complete(text, q, d)
    ensures Complete(text, q, e)
  {
    B.NewlinesMonotone(text, d - 1, e - 1);
  }

  lemma {:induction false} TailIs(s: Bytes, start: nat)
    requires start <= |s| && (start == 0 || s[start - 1] == NEWLINE) && NEWLINE !in s[start..]
    ensures TailLength(s) == |s| - start && B.Newlines(s) == B.Newlines(s[..start])
    decreases |s|
  {
    if start == |s| {
      assert s[..start] == s;
    } else {
      var n := |s| - 1;
      assert s[start..][n - start] == s[n];
      assert s[..n][start..] == s[start..][..n - start] && s[..n][..start] == s[..start];
      TailIs(s[..n], start);
    }
  }

  // ---- The reader ----

  class PageReader {
    const query: Query
    ghost const text: Bytes
    var lines: seq<Bytes>
    var currentLine: nat
    var pending: Bytes
    /** How much of the text has come in, and how much of that is split into lines. */
    ghost var decoded: nat
    ghost var split: nat

    constructor (ghost text: Bytes, query: Query)
      requires Legal(query)
      ensures this.text == text && this.query == query
      ensures Valid() && Aligned() && decoded == 0
    {
      this.text, this.query := text, query;
      lines, currentLine, pending, decoded, split := [], 1, [], 0, 0;
      new;
      hide Valid, Aligned;
      Begins();
    }

    lemma NoneTaken()
      requires Legal(query) && lines == []
      ensures HasTaken(0)
    {
      hide Lines, PrefixFits;
    }

    lemma Begins()
      requires Legal(query) && lines == [] && currentLine == 1 && pending == [] && split == decoded == 0
      ensures Valid() && Aligned()
    {
      hide S.Records, Lines, PrefixFits, B.Newlines, HasTaken;
      NothingYet(text);
      NoneTaken();
    }

    /** The first `m` lines are taken: those of the page are kept, and every page on the way fitted. */
    ghost predicate HasTaken(m: nat)
      reads this`lines
      requires Legal(query)
    {
      && m <= |Lines(text)| && lines == Lines(text)[Min(query.startLine - 1, m)..m] && |lines| <= query.maximum
      && forall n | query.startLine <= n <= m :: PrefixFits(text, query, n)
    }

    /** Where the reader stands in the text. */
    ghost predicate Valid()
      reads this
    {
      && Legal(query) && currentLine >= 1
      && split <= decoded <= |text| && pending == text[split..decoded]
      && HasTaken(currentLine - 1)
      && S.Records(text)[currentLine - 1..] == S.Records(text, split)
    }

    /** Only whole lines were taken. */
    ghost predicate Aligned()
      reads this
    {
      && split <= |text| && (split == 0 || text[split - 1] == NEWLINE)
      && B.Newlines(text[..split]) == currentLine - 1
    }

    method AddLine(line: Bytes) returns (stop: Option<Result>)
      requires Legal(query) && currentLine >= 1
      requires HasTaken(currentLine - 1) && |lines| < query.maximum
      requires currentLine - 1 < |Lines(text)| && line == Lines(text)[currentLine - 1]
      modifies this`lines, this`currentLine
      ensures stop.None? ==> currentLine == old(currentLine) + 1 && HasTaken(currentLine - 1)
      ensures stop.Some? ==> stop.value.ResponseTooLarge? && !AllFit(text, query)
    {
      hide Lines, JoinLines;
      var number := currentLine;
      currentLine := currentLine + 1;
      if number < query.startLine { return None; }
      var candidate := lines + [line];
      assert candidate == Lines(text)[query.startLine - 1..number];
      if query.size(MakePage(candidate, query.startLine, false)) > query.limit {
        assert !PrefixFits(text, query, number);
        return Some(ResponseTooLarge);
      }
      lines := candidate;
      return None;
    }

    /** pageResult before the end of the text: the page is full, and it fitted when its last line was added. */
    method FullPage() returns (r: Result)
      requires Legal(query) && currentLine >= 1 && HasTaken(currentLine - 1)
      requires currentLine - 1 < |Lines(text)| && |lines| == query.maximum
      ensures r == Ok(PageOf(Lines(text), query.startLine, query.maximum)) && !r.page.eof && AllFit(text, query)
    {
      var page := MakePage(lines, query.startLine, false);
      assert page == PageOf(Lines(text), query.startLine, query.maximum);
      assert PrefixFits(text, query, currentLine - 1);
      r := if query.size(page) <= query.limit then Ok(page) else ResponseTooLarge;
    }

    /** pageResult at the end of the text. */
    method LastPage() returns (r: Result)
      requires Legal(query) && currentLine >= 1 && HasTaken(currentLine - 1) && currentLine - 1 == |Lines(text)|
      ensures r == if AllFit(text, query) then Ok(PageOf(Lines(text), query.startLine, query.maximum))
        else ResponseTooLarge
    {
      var page := MakePage(lines, query.startLine, true);
      assert page == PageOf(Lines(text), query.startLine, query.maximum);
      r := if query.size(page) <= query.limit then Ok(page) else ResponseTooLarge;
    }

    /** Takes the next line, which ends at the newline at `end` or with the text, off the pending text. */
    method TakeLine(end: nat) returns (stop: Option<Result>)
      requires Valid() && |lines| < query.maximum
      requires end <= |pending| && NEWLINE !in pending[..end]
      requires if end < |pending| then pending[end] == NEWLINE else end > 0 && decoded == |text|
      modifies this`lines, this`currentLine, this`pending, this`split
      ensures stop.None? ==> Valid() && |pending| < old(|pending|) && currentLine == old(currentLine) + 1
      ensures stop.None? ==> split == if old(end == |pending|) then decoded else old(split) + end + 1
      ensures stop.Some? ==> stop.value.ResponseTooLarge? && !AllFit(text, query)
    {
      hide S.Records, S.NextNewline, AllFit, Trim, IsUtf8;
      Slices(text, split, decoded, end);
      NextRecord(text, currentLine - 1, split, split + end);
      var line := Trim(pending[..end]);
      var last := end == |pending|;
      pending := if last then [] else pending[end + 1..];
      split := if last then decoded else split + end + 1;
      stop := AddLine(line);
    }

    /** A stop while the text comes in: the page is complete, or it does not fit. */
    ghost predicate StopsRight(r: Result)
      reads this
      requires Legal(query) && decoded <= |text|
    {
      && (r.Ok? || r.ResponseTooLarge?)
      && (r.Ok? ==> r.page == PageOf(Lines(text), query.startLine, query.maximum) && !r.page.eof)
      && (r.Ok? ==> AllFit(text, query) && Complete(text, query, decoded))
      && (r.ResponseTooLarge? ==> !AllFit(text, query) || !MayEnd(text, query, decoded))
    }

    /** Takes a line that ends at a newline. */
    method TakeWhole(newline: nat) returns (stop: Option<Result>)
      requires Valid() && Aligned() && |lines| != query.maximum
      requires newline < |pending| && newline == S.NextNewline(pending, 0)
      modifies this`lines, this`currentLine, this`pending, this`split
      ensures stop.None? ==> Valid() && Aligned() && |pending| < old(|pending|)
      ensures stop.Some? ==> StopsRight(stop.value)
    {
      hide S.Records, AllFit, Lines, JoinLines, PrefixFits, B.Newlines, Complete, PageOf, S.NextNewline;
      assert pending[0..newline] == pending[..newline];
      WholeLine(text, split, decoded, newline);
      stop := TakeLine(newline);
    }

    /** consumeLines before the end of the text: every finished line. */
    method ConsumeLines() returns (stop: Option<Result>)
      requires Valid() && Aligned()
      modifies this`lines, this`currentLine, this`pending, this`split
      ensures stop.None? ==> Valid() && Aligned() && NEWLINE !in pending
      ensures stop.Some? ==> StopsRight(stop.value)
    {
      hide Valid, Aligned, StopsRight, S.NextNewline;
      var newline := S.NextNewline(pending, 0);
      while newline < |pending|
        invariant Valid() && Aligned() && newline == S.NextNewline(pending, 0)
        decreases |pending|
      {
        if |lines| == query.maximum {
          var r := StopFull();
          return Some(r);
        }
        stop := TakeWhole(newline);
        if stop.Some? { return; }
        newline := S.NextNewline(pending, 0);
      }
      assert pending[0..newline] == pending;
      return None;
    }

    /** The page is full and text follows it. */
    method StopFull() returns (r: Result)
      requires Valid() && Aligned() && |lines| == query.maximum && pending != []
      ensures StopsRight(r)
    {
      hide JoinLines, S.Records, AllFit, B.Newlines;
      MoreFollows(text, currentLine - 1, split);
      B.NewlinesMonotone(text, split, decoded - 1);
      r := FullPage();
    }

    /** The part of the loop behind the decoder: what came out is added and split. */
    method AddText(more: Bytes) returns (stop: Option<Result>)
      requires Valid() && Aligned() && decoded + |more| <= |text| && more == text[decoded..decoded + |more|]
      modifies this`lines, this`currentLine, this`pending, this`split, this`decoded
      ensures decoded == old(decoded) + |more|
      ensures stop.None? ==> Valid() && Aligned() && MayEnd(text, query, decoded) && !Complete(text, query, decoded)
      ensures stop.Some? ==> StopsRight(stop.value)
    {
      hide S.Records, AllFit, Lines, HasTaken, Complete, B.Newlines, TailLength;
      Joined(text, split, decoded, decoded + |more|);
      pending := pending + more;
      decoded := decoded + |more|;
      stop := ConsumeLines();
      if stop.Some? { return; }
      if |lines| == query.maximum && pending != [] {
        var r := StopFull();
        return Some(r);
      }
      NotComplete();
      if |pending| > query.limit { return Some(ResponseTooLarge); }
    }

    lemma NotComplete()
      requires Valid() && Aligned() && NEWLINE !in pending && (|lines| == query.maximum ==> pending == [])
      ensures !Complete(text, query, decoded) && TailLength(text[..decoded]) == |pending|
    {
      hide Lines, JoinLines, S.Records, PrefixFits, Complete, TailLength, B.Newlines;
      NotYetComplete(text, query, decoded, split, currentLine - 1);
    }

    /** The final consumeLines and the last page. */
    method FinishPage() returns (r: Result)
      requires Valid() && decoded == |text|
      modifies this`lines, this`currentLine, this`pending, this`split
      ensures r == if AllFit(text, query) then Ok(PageOf(Lines(text), query.startLine, query.maximum))
        else ResponseTooLarge
    {
      hide AllFit, S.NextNewline, JoinLines, PrefixFits, PageOf, Trim;
      var newline := S.NextNewline(pending, 0);
      while newline < |pending|
        invariant Valid() && newline == S.NextNewline(pending, 0)
        decreases |pending|
      {
        if |lines| == query.maximum {
          MoreFollows(text, currentLine - 1, split);
          r := FullPage();
          return;
        }
        var stop := TakeLine(newline);
        if stop.Some? { return stop.value; }
        newline := S.NextNewline(pending, 0);
      }
      assert pending[..newline] == pending;
      if pending != [] {
        if |lines| == query.maximum {
          MoreFollows(text, currentLine - 1, split);
          r := FullPage();
          return;
        }
        var stop := TakeLine(|pending|);
        if stop.Some? { return stop.value; }
      }
      S.RecordsAreLines(text, split);
      r := LastPage();
    }
  }

  /** The page is not complete while its last line or what follows it is missing. */
  lemma NotYetComplete(text: Bytes, q: Query, decoded: nat, split: nat, n: int)
    requires split <= decoded <= |text| && (split == 0 || text[split - 1] == NEWLINE)
      && NEWLINE !in text[split..decoded]
    requires B.Newlines(text[..split]) == n && (n < LastLine(q) || (n == LastLine(q) && split == decoded && Legal(q)))
    ensures !Complete(text, q, decoded) && TailLength(text[..decoded]) == decoded - split
  {
    hide B.Newlines, TailLength;
    var seen := text[..decoded];
    assert seen[..split] == text[..split] && seen[split..] == text[split..decoded];
    TailIs(seen, split);
    if decoded >= 1 {
      B.NewlinesStep(text, decoded - 1);
      assert seen == text[..decoded - 1 + 1];
    }
  }

  lemma NothingYet(text: Bytes)
    ensures text[..0] == [] && text[0..0] == [] && Lines(text)[0..0] == []
    ensures S.Records(text)[0..] == S.Records(text, 0) && B.Newlines(text[..0]) == 0
  {
    hide S.Records;
  }

  /** A line that ends at a newline leaves the split behind that newline. */
  lemma WholeLine(text: Bytes, split: nat, decoded: nat, end: nat)
    requires split <= decoded <= |text| && split + end < decoded
    requires NEWLINE !in text[split..decoded][..end] && text[split..decoded][end] == NEWLINE
    requires split == 0 || text[split - 1] == NEWLINE
    ensures text[split + end] == NEWLINE && B.Newlines(text[..split + end + 1]) == B.Newlines(text[..split]) + 1
  {
    var seen := text[..split + end];
    assert seen[..split] == text[..split] && seen[split..] == text[split..decoded][..end];
    TailIs(seen, split);
    B.NewlinesStep(text, split + end);
  }

  /** Text behind the lines taken so far holds a line. */
  lemma MoreFollows(text: Bytes, m: nat, split: nat)
    requires split < |text| && m <= |S.Records(text)| && S.Records(text)[m..] == S.Records(text, split)
    ensures m < |S.Records(text)|
  {
    S.RecordsAreLines(text, split);
  }

  /** The record at `split` is the next one; it ends at the first newline there, or at the end. */
  lemma NextRecord(text: Bytes, m: nat, split: nat, end: nat)
    requires split <= end <= |text| && NEWLINE !in text[split..end]
    requires if end < |text| then text[end] == NEWLINE else split < end
    requires m <= |S.Records(text)| && S.Records(text)[m..] == S.Records(text, split)
    ensures m < |S.Records(text)| && S.Records(text)[m] == text[split..end]
    ensures S.Records(text)[m + 1..] == S.Records(text, if end < |text| then end + 1 else |text|)
  {
    S.NextNewlineIs(text, split, end);
    var rest := S.Records(text, split);
    assert S.Records(text)[m..][0] == rest[0];
    assert S.Records(text)[m + 1..] == rest[1..];
  }

  function Concat(chunks: seq<Bytes>): Bytes {
    if chunks == [] then [] else Concat(chunks[..|chunks| - 1]) + chunks[|chunks| - 1]
  }

  lemma Slices(file: Bytes, a: nat, b: nat, k: nat)
    requires a <= b <= |file| && k <= b - a
    ensures file[a..b][..k] == file[a..a + k] && file[a..b][k..] == file[a + k..b]
    ensures k < b - a ==> file[a..b][k + 1..] == file[a + k + 1..b] && file[a..b][k] == file[a + k]
  {
  }

  lemma Joined(text: Bytes, a: nat, b: nat, c: nat)
    requires a <= b <= c <= |text|
    ensures text[a..b] + text[b..c] == text[a..c]
  {
  }

  lemma {:induction false} ConcatPrefix(chunks: seq<Bytes>, i: nat)
    requires i <= |chunks|
    ensures Concat(chunks[..i]) <= Concat(chunks)
    decreases |chunks|
  {
    if i == |chunks| {
      assert chunks[..i] == chunks;
    } else {
      var n := |chunks| - 1;
      ConcatPrefix(chunks[..n], i);
      assert chunks[..n][..i] == chunks[..i];
    }
  }

  /** Chunk by chunk the text only grows. */
  lemma TextAfterGrows(chunks: seq<Bytes>, i: nat, j: nat)
    requires i <= j <= |chunks|
    ensures TextAfter(chunks, i) <= TextAfter(chunks, j) <= |DecodedText(Concat(chunks))|
    ensures DecodedText(Concat(chunks[..j])) <= DecodedText(Concat(chunks))
  {
    hide DecodedText;
    var all, some := Concat(chunks), Concat(chunks[..j]);
    ConcatPrefix(chunks, j);
    TextPrefix(all, |some|);
    assert all[..|some|] == some;
    ConcatPrefix(chunks[..j], i);
    assert chunks[..j][..i] == chunks[..i];
    var few := Concat(chunks[..i]);
    TextPrefix(some, |few|);
    assert some[..|few|] == few;
  }

  /** A well-formed file never makes the decoder fail. */
  lemma ChunkDecodes(chunks: seq<Bytes>, i: nat)
    requires i <= |chunks| && IsUtf8(Concat(chunks))
    ensures var s := Concat(chunks[..i]); StartsRune(s[Scanned(s)..])
  {
    hide Concat, Scanned, StartsRune, IsUtf8;
    var all, s := Concat(chunks), Concat(chunks[..i]);
    ConcatPrefix(chunks, i);
    assert all[..|s|] == s;
    ScannedOfValid(all, |s|);
    var k := Scanned(s);
    assert all[k..|s|] == s[k..];
  }

  lemma ConcatStep(chunks: seq<Bytes>, i: nat)
    requires i < |chunks|
    ensures Concat(chunks[..i + 1]) == Concat(chunks[..i]) + chunks[i]
  {
    assert chunks[..i + 1][..i] == chunks[..i];
  }

  /** Every one of the first `i` chunks may end where it does. */
  ghost predicate Passed(chunks: seq<Bytes>, q: Query, i: nat)
    requires i <= |chunks|
  {
    forall j | 1 <= j <= i :: ChunkMayEnd(chunks, q, j)
  }

  /** A chunk that completes the page settles all later ones. */
  lemma CompleteSettles(chunks: seq<Bytes>, q: Query, i: nat)
    requires Legal(q) && 1 <= i <= |chunks| && Passed(chunks, q, i - 1)
    requires TextAfter(chunks, i) <= |DecodedText(Concat(chunks))|
    requires Complete(DecodedText(Concat(chunks)), q, TextAfter(chunks, i))
    ensures Passed(chunks, q, |chunks|)
  {
    hide DecodedText, Concat, TextAfter, Complete, TailLength;
    forall j | 1 <= j <= |chunks|
      ensures ChunkMayEnd(chunks, q, j)
    {
      if j >= i {
        TextAfterGrows(chunks, i, j);
        CompleteGrows(DecodedText(Concat(chunks)), q, TextAfter(chunks, i), TextAfter(chunks, j));
      }
    }
  }

  /** One chunk in the loop of readPage. */
  method ReadChunk(decoder: Decoder, reader: PageReader, chunks: seq<Bytes>, i: nat) returns (stop: Option<Result>)
    requires i < |chunks| && Reading(decoder, reader, chunks, i)
    modifies decoder, reader`lines, reader`currentLine, reader`pending, reader`split, reader`decoded
    ensures stop.None? ==> Reading(decoder, reader, chunks, i + 1)
    ensures stop.Some? && stop.value.Ok? ==>
      && stop.value.page == PageOf(Lines(reader.text), reader.query.startLine, reader.query.maximum)
      && !stop.value.page.eof && Served(chunks, reader.query)
    ensures stop.Some? && stop.value.ResponseTooLarge? ==> !Served(chunks, reader.query)
    ensures stop.Some? && stop.value.InvalidEncoding? ==> !IsUtf8(Concat(chunks))
    ensures stop.Some? ==> !stop.value.Unavailable?
  {
    hide Concat, DecodedText, StartsRune, Scanned, IsUtf8, Complete, TailLength, Lines, S.Records, PageOf, AllFit,
         PageReader.Valid, PageReader.Aligned;
    ConcatStep(chunks, i);
    TextAfterGrows(chunks, i + 1, i + 1);
    if IsUtf8(Concat(chunks)) { ChunkDecodes(chunks, i + 1); }
    var ok, more := decoder.Decode(chunks[i]);
    if !ok { return Some(InvalidEncoding); }
    var before := reader.decoded;
    Slices(reader.text, 0, TextAfter(chunks, i + 1), before);
    assert more == reader.text[before..before + |more|];
    stop := reader.AddText(more);
    assert stop.Some? && stop.value.ResponseTooLarge? ==>
      !AllFit(reader.text, reader.query) || !ChunkMayEnd(chunks, reader.query, i + 1);
    if stop.Some? && stop.value.Ok? { CompleteSettles(chunks, reader.query, i + 1); }
  }

  /** Decoder and reader have taken the first `i` chunks. */
  ghost predicate Reading(decoder: Decoder, reader: PageReader, chunks: seq<Bytes>, i: nat)
    requires i <= |chunks|
    reads decoder, reader
  {
    && decoder.Valid() && decoder.source == Concat(chunks[..i])
    && reader.Valid() && reader.Aligned() && reader.text == DecodedText(Concat(chunks))
    && Legal(reader.query) && reader.decoded == TextAfter(chunks, i) && Passed(chunks, reader.query, i)
  }

  /** readPage on any split of a file into chunks; the stream breaks before chunk `broken`, if there is one. An ok
      page is the page of the decoded text, whatever the chunks are; a well-formed file gets its page exactly when
      the chunking lets it. */
  method ReadPage(chunks: seq<Bytes>, broken: nat, q: Query) returns (r: Result)
    requires Legal(q)
    ensures r.Ok? ==>
      && r.page == PageOf(Lines(DecodedText(Concat(chunks))), q.startLine, q.maximum) && q.size(r.page) <= q.limit
      && Shows(Lines(DecodedText(Concat(chunks))), q.startLine, q.maximum, r.page)
      && (r.page.eof ==> IsUtf8(Concat(chunks)))
    ensures r.InvalidEncoding? ==> !IsUtf8(Concat(chunks))
    ensures r.Unavailable? ==> broken <= |chunks|
    ensures IsUtf8(Concat(chunks)) && broken > |chunks| ==>
      (r.Ok? <==> Served(chunks, q)) && (r.ResponseTooLarge? <==> !Served(chunks, q))
  {
    hide Concat, DecodedText, StartsRune, Scanned, IsUtf8, Complete, TailLength, Lines, S.Records, PageOf,
         PageReader.Valid, PageReader.Aligned, ChunkMayEnd, PrefixFits;
    ghost var text := DecodedText(Concat(chunks));
    LinesAre(text);
    PageShows(Lines(text), q.startLine, q.maximum);
    hide Shows, WithoutNewlines;
    var decoder := new Decoder();
    var reader := new PageReader(text, q);
    ConcatEnds(chunks);
    var i := 0;
    while i < |chunks|
      invariant 0 <= i <= |chunks|
      invariant fresh(decoder) && fresh(reader) && reader.query == q && Reading(decoder, reader, chunks, i)
    {
      if i == broken { return Unavailable; }
      var stop := ReadChunk(decoder, reader, chunks, i);
      if stop.Some? { return stop.value; }
      i := i + 1;
    }
    if broken == |chunks| { return Unavailable; }
    var ok := decoder.Flush();
    FlushDecides(Concat(chunks));
    if !ok { return InvalidEncoding; }
    r := reader.FinishPage();
  }

  lemma ConcatEnds(chunks: seq<Bytes>)
    ensures Concat(chunks[..0]) == [] && TextAfter(chunks, 0) == 0 && Concat(chunks[..|chunks|]) == Concat(chunks)
  {
    assert chunks[..|chunks|] == chunks && chunks[..0] == [];
  }

  lemma FlushDecides(s: Bytes)
    ensures Scanned(s) == |s| <==> IsUtf8(s)
  {
    assert s[..|s|] == s;
    if IsUtf8(s) { ScannedOfValid(s, |s|); }
  }

  /** What comes behind the long first line of the example: a newline, two letters and a newline. */
  const REST: Bytes := [NEWLINE, 97, 98, NEWLINE]

  lemma {:induction false} AsciiIsValid(s: Bytes)
    requires forall i | 0 <= i < |s| :: s[i] < 0x80
    ensures IsUtf8(s)
    decreases |s|
  {
    if s != [] { AsciiIsValid(s[1..]); }
  }

  lemma ConcatOne(a: Bytes)
    ensures Concat([a]) == a && [a][..1] == [a]
  {
    var none: seq<Bytes> := [];
    assert [a][..0] == none;
    assert none == [] && Concat(none) + a == a;
  }

  lemma ConcatTwo(a: Bytes, b: Bytes)
    ensures Concat([a, b]) == a + b && [a, b][..1] == [a] && Concat([a, b][..1]) == a
  {
    assert [a, b][..1] == [a];
    ConcatOne(a);
  }

  lemma ExampleLines(long: Bytes)
    requires NEWLINE !in long && (long != [] ==> long[|long| - 1] != CARRIAGE_RETURN)
    ensures Lines(long + REST) == [long, [97, 98]]
  {
    hide S.NextNewline;
    var text, n := long + REST, |long|;
    assert text[0..n] == long && text[n] == NEWLINE && text[n + 1..n + 3] == [97, 98] && text[n + 3] == NEWLINE;
    S.NextNewlineIs(text, 0, n);
    S.NextNewlineIs(text, n + 1, n + 3);
    S.RecordsAreLines(text, n + 4);
    assert S.Records(text, n + 1) == [[97, 98]];
    assert S.Records(text) == [long, [97, 98]];
  }

  lemma AsciiDecodes(s: Bytes)
    requires forall i | 0 <= i < |s| :: s[i] < 0x80
    ensures IsUtf8(s) && DecodedText(s) == s
  {
    AsciiIsValid(s);
    DecodedOfValid(s);
  }

  /** A first line of ASCII over the limit, for a page of the second line that fits. */
  ghost predicate LongFirst(long: Bytes, q: Query) {
    && NEWLINE !in long && |long| > q.limit && long[|long| - 1] != CARRIAGE_RETURN
    && (forall i | 0 <= i < |long| :: long[i] < 0x80)
    && q.startLine == 2 && q.maximum >= 1
    && (forall eof :: q.size(MakePage([[97, 98]], 2, eof)) <= q.limit)
  }

  lemma ServedWhole(long: Bytes, q: Query)
    requires LongFirst(long, q)
    ensures Served([long + REST], q)
  {
    hide IsUtf8, DecodedText, Concat, Lines, AllFit;
    var text := long + REST;
    ConcatOne(text);
    AsciiDecodes(text);
    ExampleLines(long);
    ExampleFits(text, q);
    assert text[..|text|] == text;
    assert TailLength(text) == 0;
    assert ChunkMayEnd([text], q, 1);
  }

  lemma RefusedInTwo(long: Bytes, q: Query)
    requires LongFirst(long, q)
    ensures !Served([long, REST], q)
  {
    hide IsUtf8, DecodedText, Concat, Lines, AllFit;
    var text := long + REST;
    ConcatTwo(long, REST);
    AsciiDecodes(text);
    AsciiDecodes(long);
    assert text[..|long|] == long && long[0..] == long;
    TailIs(long, 0);
    B.NewlinesMonotone(text, |long| - 1, |long|);
    assert !ChunkMayEnd([long, REST], q, 1);
  }

  /** The chunks can decide: a first line over the limit is skipped when it arrives with its newline, and refused
      when a chunk ends right behind it. */
  lemma ChunkingDecides(long: Bytes, q: Query)
    requires LongFirst(long, q)
    ensures Concat([long + REST]) == Concat([long, REST]) == long + REST && IsUtf8(long + REST)
    ensures Served([long + REST], q) && !Served([long, REST], q)
  {
    hide Served, Concat, IsUtf8;
    ConcatOne(long + REST);
    ConcatTwo(long, REST);
    ServedWhole(long, q);
    RefusedInTwo(long, q);
    AsciiDecodes(long + REST);
  }

  lemma ExampleFits(text: Bytes, q: Query)
    requires |Lines(text)| == 2 && Lines(text)[1] == [97, 98] && q.startLine == 2 && q.maximum >= 1
    requires forall eof :: q.size(MakePage([[97, 98]], 2, eof)) <= q.limit
    ensures AllFit(text, q)
  {
    hide Lines, JoinLines;
    assert Lines(text)[1..2] == [[97, 98]];
  }

  /** One such case: three hundred letters, a limit of two hundred, and pages of a hundred more than their content. */
  lemma ChunkingDecidesHere()
    ensures var q := Query(2, 200, 200, (p: Page) => |p.content| + 100); var long: Bytes := seq(300, _ => 120);
      Served([long + REST], q) && !Served([long, REST], q)
  {
    var q := Query(2, 200, 200, (p: Page) => |p.content| + 100);
    ChunkingDecides(seq(300, _ => 120), q);
  }

  /** A text without a stretch over the limit is served under every chunking, if its pages fit. */
  lemma ShortStretchesSuffice(chunks: seq<Bytes>, q: Query)
    requires Legal(q) && AllFit(DecodedText(Concat(chunks)), q)
    requires forall d | 0 <= d <= |DecodedText(Concat(chunks))| ::
      TailLength(DecodedText(Concat(chunks))[..d]) <= q.limit
    ensures Served(chunks, q)
  {
    hide DecodedText, Concat, AllFit, TextAfter;
    forall i | 1 <= i <= |chunks|
      ensures ChunkMayEnd(chunks, q, i)
    {
      TextAfterGrows(chunks, i, i);
    }
  }
}
