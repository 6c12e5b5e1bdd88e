/** readBounded: at most so many bytes and lines of a UTF-8 stream, cut between runes. */
module BoundedRead {
  import opened Utf8
  import S = SourceSnapshot

  datatype Result = Ok(data: seq<byte>, lines: nat, truncated: bool) | InvalidUtf8

  function Newlines(s: seq<byte>): (n: nat)
    ensures n <= |s|
  {
    if s == [] then 0 else Newlines(s[..|s| - 1]) + if s[|s| - 1] == NEWLINE then 1 else 0
  }

  /** Lines of a text; an unterminated last line counts. */
  function LineCount(s: seq<byte>): nat {
    Newlines(s) + if s != [] && s[|s| - 1] != NEWLINE then 1 else 0
  }

  lemma {:induction false} NoNewlines(s: seq<byte>, i: nat, j: nat)
    requires i <= j <= |s| && NEWLINE !in s[i..j]
    ensures Newlines(s[..j]) == Newlines(s[..i])
    decreases j
  {
    if i < j {
      assert s[j - 1] == s[i..j][j - 1 - i];
      assert s[i..j - 1] <= s[i..j];
      NewlinesStep(s, j - 1);
      NoNewlines(s, i, j - 1);
    }
  }

  lemma {:induction false} LinesFrom(s: seq<byte>, from: nat)
    requires from <= |s|
    ensures from < |s| ==> Newlines(s[..from]) + |S.Records(s, from)| == LineCount(s)
    decreases |s| - from
  {
    hide S.NextNewline, Newlines;
    var k := S.NextNewline(s, from);
    NoNewlines(s, from, k);
    assert s[..|s|] == s;
    if k < |s| {
      S.RecordsStep(s, from, k);
      NewlinesStep(s, k);
      LinesFrom(s, k + 1);
      if k + 1 == |s| { S.NoRecords(s); }
    } else if from < k {
      S.RecordsStep(s, from, k);
      S.NoRecords(s);
      assert s[from..k][k - 1 - from] == s[k - 1];
    }
  }

  /** The line count of a text is the number of its records. */
  lemma LinesAreRecords(s: seq<byte>)
    ensures LineCount(s) == |S.Records(s)|
  {
    LinesFrom(s, 0);
  }

  /** A prefix of `n` bytes is whole: it ends between runes. */
  predicate Whole(s: seq<byte>, n: nat) { n <= |s| && IsUtf8(s[..n]) }

  /** What the byte limit sees of the stream is well formed: the whole stream if it is short enough, and
      otherwise up to the end of the rune that reaches the limit. */
  ghost predicate Readable(stream: seq<byte>, maxBytes: nat) {
    if |stream| <= maxBytes then IsUtf8(stream)
    else exists n :: maxBytes <= n < maxBytes + RUNE_MAX && Whole(stream, n)
  }

  lemma {:induction false} NewlineEndsRune(s: seq<byte>, i: nat)
    requires IsUtf8(s) && i < |s| && s[i] == NEWLINE
    ensures IsUtf8(s[..i + 1])
    decreases |s|
  {
    var n := RuneLength(s);
    NewlineIsRune(s, i);
    hide RuneLength;
    RunePrefixFree(s, i + 1);
    var head := s[..i + 1];
    if i < n {
      assert RuneLength(head) == 1 && head[1..] == [];
    } else {
      assert s[n..][i - n] == s[i];
      NewlineEndsRune(s[n..], i - n);
      assert head[n..] == s[n..][..i - n + 1];
    }
  }

  /** A newline is a rune of its own. */
  lemma NewlineIsRune(s: seq<byte>, i: nat)
    requires i < |s| && s[i] == NEWLINE
    ensures i < RuneLength(s) ==> i == 0 && RuneLength(s) == 1
  {
  }

  lemma OneMoreRune(s: seq<byte>, b: nat)
    requires Whole(s, b) && RuneLength(s[b..]) > 0
    ensures Whole(s, b + RuneLength(s[b..]))
  {
    hide RuneLength;
    var n := RuneLength(s[b..]);
    RunePrefixFree(s[b..], n);
    var rune := s[b..][..n];
    assert rune[n..] == [] && IsUtf8(rune);
    ConcatValid(s[..b], rune);
    assert s[..b + n] == s[..b] + rune;
  }

  /** A stream of well-formed text is readable at every limit. */
  lemma ValidIsReadable(stream: seq<byte>, maxBytes: nat)
    requires IsUtf8(stream)
    ensures Readable(stream, maxBytes)
  {
    if |stream| > maxBytes {
      var k := Boundary(stream, maxBytes);
      if k < maxBytes {
        BoundaryIsLast(stream, maxBytes, maxBytes);
        StraddlingRune(stream, maxBytes);
        OneMoreRune(stream, k);
        assert Whole(stream, k + RuneLength(stream[k..]));
      } else {
        assert Whole(stream, maxBytes);
      }
    }
  }

  /** Where the search for a boundary goes on a readable stream. */
  lemma ReadableBoundary(stream: seq<byte>, maxBytes: nat, b: nat)
    requires Readable(stream, maxBytes) && |stream| > maxBytes && b <= maxBytes
    requires forall j | b < j <= maxBytes :: !Whole(stream, j)
    ensures !Whole(stream, b) ==> b > 0 && b + RUNE_MAX > maxBytes + 1
    ensures Whole(stream, b) && b < maxBytes ==> RuneLength(stream[b..]) > 1
  {
    hide IsUtf8, RuneLength, Boundary;
    var n :| maxBytes <= n < maxBytes + RUNE_MAX && Whole(stream, n);
    var t := stream[..n];
    var k := Boundary(t, maxBytes);
    assert forall j | 0 <= j <= n :: t[..j] == stream[..j];
    assert Whole(stream, k);
    assert k <= b;
    if k < maxBytes {
      BoundaryIsLast(t, maxBytes, maxBytes);
      if Whole(stream, b) && k < b { BoundaryIsLast(t, maxBytes, b); }
      StraddlingRune(t, maxBytes);
      assert stream[k..] == t[k..] + stream[n..];
      RuneLengthExtends(t[k..], stream[n..]);
    }
  }

  /** The rune that a search ended in front of reaches the limit. */
  lemma FoundIsReadable(stream: seq<byte>, maxBytes: nat, b: nat)
    requires |stream| > maxBytes && b <= maxBytes && Whole(stream, b)
    requires forall j | b < j <= maxBytes :: !Whole(stream, j)
    requires b < maxBytes ==> RuneLength(stream[b..]) > 1
    ensures Readable(stream, maxBytes)
  {
    if b < maxBytes {
      OneMoreRune(stream, b);
      assert b + RuneLength(stream[b..]) > maxBytes;
      assert Whole(stream, b + RuneLength(stream[b..]));
    }
  }

  /** The size that utf8.DecodeRune reports. */
  function DecodedSize(s: seq<byte>): nat {
    if s == [] then 0 else if RuneLength(s) == 0 then 1 else RuneLength(s)
  }

  /** The boundary search over what was read: `maxBytes` and up to four bytes more. */
  method CutBytes(stream: seq<byte>, maxBytes: nat) returns (ok: bool, boundary: nat)
    requires |stream| > maxBytes
    ensures ok <==> Readable(stream, maxBytes)
    ensures ok ==> boundary <= maxBytes && Whole(stream, boundary)
    ensures ok ==> forall j | boundary < j <= maxBytes :: !Whole(stream, j)
  {
    var data := stream[..if |stream| < maxBytes + RUNE_MAX then |stream| else maxBytes + RUNE_MAX];
    assert forall j | 0 <= j <= maxBytes :: data[..j] == stream[..j];
    boundary := maxBytes;
    while boundary > 0 && boundary > maxBytes - RUNE_MAX && !IsUtf8(data[..boundary])
      invariant boundary <= maxBytes
      invariant forall j | boundary < j <= maxBytes :: !Whole(stream, j)
    {
      boundary := boundary - 1;
    }
    if Readable(stream, maxBytes) { ReadableBoundary(stream, maxBytes, boundary); }
    if !IsUtf8(data[..boundary]) { return false, boundary; }
    if boundary < maxBytes {
      SameRune(stream, data, boundary);
      if DecodedSize(data[boundary..]) == 1 { return false, boundary; }
    }
    FoundIsReadable(stream, maxBytes, boundary);
    return true, boundary;
  }

  /** Four more bytes are enough to see the next rune whole. */
  lemma SameRune(stream: seq<byte>, data: seq<byte>, b: nat)
    requires data <= stream && b <= |data| && (data == stream || b + RUNE_MAX <= |data|)
    ensures RuneLength(data[b..]) == RuneLength(stream[b..])
  {
    assert stream[b..] == data[b..] + stream[|data|..];
  }

  lemma NewlinesStep(s: seq<byte>, i: nat)
    requires i < |s|
    ensures Newlines(s[..i + 1]) == Newlines(s[..i]) + if s[i] == NEWLINE then 1 else 0
  {
    assert s[..i + 1][..i] == s[..i];
  }

  lemma {:induction false} NewlinesMonotone(s: seq<byte>, i: nat, j: nat)
    requires i <= j <= |s|
    ensures Newlines(s[..i]) <= Newlines(s[..j])
    decreases j
  {
    if i < j {
      NewlinesMonotone(s, i, j - 1);
      NewlinesStep(s, j - 1);
    }
  }

  /** A line limit cuts behind the last line it allows: every longer prefix has more lines. */
  lemma CutIsLongest(s: seq<byte>, end: nat, n: nat)
    requires 0 < end < n <= |s| && s[end - 1] == NEWLINE
    ensures LineCount(s[..n]) > LineCount(s[..end])
  {
    NewlinesStep(s, end - 1);
    NewlinesStep(s, n - 1);
    NewlinesMonotone(s, end, n - 1);
    assert s[..end][end - 1] == s[end - 1] && s[..n][n - 1] == s[n - 1];
  }

  /** The line loop: the longest prefix within the line limit, and how many newlines it has. */
  method CutLines(data: seq<byte>, maxLines: int) returns (lineEnd: nat, lines: nat)
    requires IsUtf8(data)
    ensures Whole(data, lineEnd) && lines == Newlines(data[..lineEnd])
    ensures maxLines >= 1 ==> LineCount(data[..lineEnd]) <= maxLines
    ensures lineEnd < |data| ==> maxLines >= 1
    ensures forall n | lineEnd < n <= |data| :: LineCount(data[..n]) > maxLines
  {
    lineEnd, lines := |data|, 0;
    var index := 0;
    while index < |data|
      invariant 0 <= index <= |data|
      invariant lines == Newlines(data[..index]) && (maxLines >= 1 ==> lines < maxLines)
    {
      NewlinesStep(data, index);
      if data[index] == NEWLINE {
        lines := lines + 1;
        if lines == maxLines {
          lineEnd := index + 1;
          NewlineEndsRune(data, index);
          assert LineCount(data[..lineEnd]) == maxLines;
          forall n | lineEnd < n <= |data|
            ensures LineCount(data[..n]) > maxLines
          {
            CutIsLongest(data, lineEnd, n);
          }
          return;
        }
      }
      index := index + 1;
    }
    assert data[..|data|] == data;
  }

  /** The result is the longest prefix of the stream that ends between runes and respects both limits; its line
      count matches; truncated holds exactly when it is a proper prefix; and there is an error exactly when the
      bytes up to the limit are not well formed. */
  method ReadBounded(stream: seq<byte>, maxBytes: nat, maxLines: int) returns (r: Result)
    ensures r.Ok? <==> Readable(stream, maxBytes)
    ensures r.Ok? ==>
      && |r.data| <= maxBytes && Whole(stream, |r.data|) && r.data == stream[..|r.data|]
      && r.lines == LineCount(r.data) && (maxLines >= 1 ==> r.lines <= maxLines)
      && (r.truncated <==> |r.data| < |stream|)
    ensures r.Ok? ==> forall n | |r.data| < n <= maxBytes && Whole(stream, n) ::
      maxLines >= 1 && LineCount(stream[..n]) > maxLines
  {
    var truncated := |stream| > maxBytes;
    var data := stream;
    if truncated {
      var ok, boundary := CutBytes(stream, maxBytes);
      if !ok { return InvalidUtf8; }
      data := stream[..boundary];
    } else if !IsUtf8(data) {
      return InvalidUtf8;
    }
    assert data == stream[..|data|];
    var lineEnd, lines := CutLines(data, maxLines);
    if lineEnd < |data| { truncated := true; }
    assert forall n | 0 <= n <= |data| :: data[..n] == stream[..n];
    data := data[..lineEnd];
    if |data| > 0 && data[|data| - 1] != NEWLINE { lines := lines + 1; }
    r := Ok(data, lines, truncated);
  }
}
