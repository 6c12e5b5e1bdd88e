/** Wrapping of wizard text: paragraphs split at newlines, words joined by single spaces, a structural prefix on
    the first line and an equally wide indent on every other line. */
module WrapText {
  /** How many cells a rune takes: none for a combining mark, one otherwise. Wider runes are not modelled. */
  type Widths = char -> nat

  ghost predicate OneCell(w: Widths) { w(' ') == 1 && forall c :: w(c) <= 1 }

  function Cells(s: string, w: Widths): nat {
    if s == [] then 0 else Cells(s[..|s| - 1], w) + w(s[|s| - 1])
  }

  lemma {:induction false} CellsConcat(a: string, b: string, w: Widths)
    ensures Cells(a + b, w) == Cells(a, w) + Cells(b, w)
  {
    if b == [] {
      assert a + b == a;
    } else {
      CellsConcat(a, b[..|b| - 1], w);
      assert (a + b)[..|a + b| - 1] == a + b[..|b| - 1];
    }
  }

  function Spaces(n: nat): (s: string)
    ensures |s| == n
  {
    seq(n, _ => ' ')
  }

  lemma {:induction false} SpacesCells(n: nat, w: Widths)
    requires OneCell(w)
    ensures Cells(Spaces(n), w) == n
  {
    if n > 0 {
      SpacesCells(n - 1, w);
      assert Spaces(n)[..n - 1] == Spaces(n - 1);
    }
  }

  lemma SeparatorCells(w: Widths)
    requires OneCell(w)
    ensures Cells(" ", w) == 1 && Cells("", w) == 0
  {
    assert " "[..0] == "";
  }

  // ---- Words ----

  /** Unicode White_Space. */
  predicate IsSpace(c: char) {
    || '\t' <= c <= '\r' || c == ' ' || c == '\U{85}' || c == '\U{A0}' || c == '\U{1680}'
    || '\U{2000}' <= c <= '\U{200A}' || c == '\U{2028}' || c == '\U{2029}' || c == '\U{202F}'
    || c == '\U{205F}' || c == '\U{3000}'
  }

  /** The length of the leading run without white space. */
  function RunLength(s: string): (n: nat)
    ensures n <= |s|
    ensures forall i | 0 <= i < n :: !IsSpace(s[i])
    ensures n < |s| ==> IsSpace(s[n])
  {
    if s == [] || IsSpace(s[0]) then 0 else 1 + RunLength(s[1..])
  }

  predicate IsWord(s: string) { s != [] && forall i | 0 <= i < |s| :: !IsSpace(s[i]) }

  function Fields(s: string): (words: seq<string>)
    ensures forall i | 0 <= i < |words| :: IsWord(words[i])
    decreases |s|
  {
    if s == [] then []
    else if IsSpace(s[0]) then Fields(s[1..])
    else var n := RunLength(s); [s[..n]] + Fields(s[n..])
  }

  /** The words separated by single spaces. */
  function Join(words: seq<string>): string {
    if words == [] then ""
    else if |words| == 1 then words[0]
    else Join(words[..|words| - 1]) + " " + words[|words| - 1]
  }

  lemma {:induction false} JoinFront(words: seq<string>)
    requires |words| > 1
    ensures Join(words) == words[0] + " " + Join(words[1..])
  {
    if |words| > 2 {
      JoinFront(words[..|words| - 1]);
      assert words[..|words| - 1][1..] == words[1..][..|words| - 2];
    }
  }

  lemma FirstField(first: string, rest: string)
    requires IsWord(first) && (rest == "" || IsSpace(rest[0]))
    ensures Fields(first + rest) == [first] + Fields(rest)
  {
    var s := first + rest;
    assert forall i | 0 <= i < |first| :: s[i] == first[i];
    if rest != "" { assert s[|first|] == rest[0]; }
    assert RunLength(s) == |first|;
    assert s[..|first|] == first && s[|first|..] == rest;
  }

  /** Joined words split back into themselves, so normalized text is a fixed point of normalization. */
  lemma {:induction false} FieldsOfJoin(words: seq<string>)
    requires forall i | 0 <= i < |words| :: IsWord(words[i])
    ensures Fields(Join(words)) == words
  {
    if |words| == 1 {
      FirstField(words[0], "");
      assert words[0] + "" == words[0] && Fields("") == [];
    } else if |words| > 1 {
      JoinFront(words);
      var rest := " " + Join(words[1..]);
      assert Join(words) == words[0] + rest;
      FirstField(words[0], rest);
      assert rest[1..] == Join(words[1..]);
      FieldsOfJoin(words[1..]);
    }
  }

  lemma Regroup(a: string, b: string, c: string)
    ensures (a + b) + c == a + (b + c)
  {
  }

  predicate Blank(s: string) { forall i | 0 <= i < |s| :: IsSpace(s[i]) }

  /** White space around the words: between two words there is some. */
  predicate Gaps(gaps: seq<string>) {
    && (forall i | 0 <= i < |gaps| :: Blank(gaps[i]))
    && (forall i | 0 < i < |gaps| - 1 :: gaps[i] != "")
  }

  /** Gap, word, gap, word, and so on up to the last gap. */
  function Spread(gaps: seq<string>, words: seq<string>): string
    requires |gaps| == |words| + 1
  {
    if words == [] then gaps[0] else gaps[0] + (words[0] + Spread(gaps[1..], words[1..]))
  }

  predicate AllWords(words: seq<string>) { forall i | 0 <= i < |words| :: IsWord(words[i]) }

  /** The words of a text, by what the text is made of. */
  ghost predicate MadeOf(s: string, words: seq<string>) {
    AllWords(words) && exists gaps :: |gaps| == |words| + 1 && Gaps(gaps) && Spread(gaps, words) == s
  }

  lemma RunIsWord(s: string)
    requires s != "" && !IsSpace(s[0])
    ensures IsWord(s[..RunLength(s)]) && Fields(s) == [s[..RunLength(s)]] + Fields(s[RunLength(s)..])
    ensures RunLength(s) > 0 && (RunLength(s) < |s| ==> IsSpace(s[RunLength(s)]))
  {
  }

  /** One more blank in front. */
  lemma BlankFront(c: char, gaps: seq<string>, words: seq<string>)
    requires IsSpace(c) && |gaps| == |words| + 1 && Gaps(gaps)
    ensures var more := [[c] + gaps[0]] + gaps[1..];
      Gaps(more) && Spread(more, words) == [c] + Spread(gaps, words)
  {
    var more := [[c] + gaps[0]] + gaps[1..];
    assert more[1..] == gaps[1..];
    if words != [] { Regroup([c], gaps[0], words[0] + Spread(gaps[1..], words[1..])); }
  }

  /** A word in front of white space or the end. */
  lemma WordFront(word: string, gaps: seq<string>, words: seq<string>)
    requires |gaps| == |words| + 1 && Gaps(gaps) && (words != [] ==> gaps[0] != "")
    ensures Gaps([""] + gaps) && Spread([""] + gaps, [word] + words) == word + Spread(gaps, words)
  {
    var more, all := [""] + gaps, [word] + words;
    assert more[1..] == gaps && all[1..] == words;
    assert "" + (word + Spread(gaps, words)) == word + Spread(gaps, words);
  }

  /** A text is made of its fields, with gaps of white space around them. */
  lemma {:induction false} FieldGaps(s: string) returns (gaps: seq<string>)
    ensures AllWords(Fields(s)) && |gaps| == |Fields(s)| + 1 && Gaps(gaps) && Spread(gaps, Fields(s)) == s
    decreases |s|
  {
    hide Fields, Gaps, Spread, IsWord;
    FieldsCases(s);
    if s == "" {
      gaps := [""];
    } else if IsSpace(s[0]) {
      var rest := FieldGaps(s[1..]);
      BlankFront(s[0], rest, Fields(s[1..]));
      gaps := [[s[0]] + rest[0]] + rest[1..];
      assert [s[0]] + s[1..] == s;
    } else {
      var n := RunLength(s);
      RunIsWord(s);
      var rest := FieldGaps(s[n..]);
      if Fields(s[n..]) != [] { FirstGap(rest, Fields(s[n..]), s[n..]); }
      WordFront(s[..n], rest, Fields(s[n..]));
      gaps := [""] + rest;
      assert s[..n] + s[n..] == s;
    }
  }

  lemma FieldsCases(s: string)
    ensures AllWords(Fields(s))
    ensures s == "" ==> Fields(s) == [] && Gaps([""]) && Spread([""], []) == ""
    ensures s != "" && IsSpace(s[0]) ==> Fields(s) == Fields(s[1..])
  {
  }

  lemma FirstGap(gaps: seq<string>, words: seq<string>, s: string)
    requires |gaps| == |words| + 1 && words != [] && AllWords(words) && Spread(gaps, words) == s
    requires s == "" || IsSpace(s[0])
    ensures gaps[0] != ""
  {
    var rest := words[0] + Spread(gaps[1..], words[1..]);
    assert IsWord(words[0]) && rest[0] == words[0][0];
    assert s == gaps[0] + rest && "" + rest == rest;
  }

  /** Leading white space does not matter. */
  lemma {:induction false} FieldsBehindGap(gap: string, rest: string)
    requires Blank(gap)
    ensures Fields(gap + rest) == Fields(rest)
  {
    if gap == "" {
      assert gap + rest == rest;
    } else {
      FieldsBehindGap(gap[1..], rest);
      assert (gap + rest)[1..] == gap[1..] + rest;
    }
  }

  lemma {:induction false} FieldsOfSpread(gaps: seq<string>, words: seq<string>)
    requires |gaps| == |words| + 1 && Gaps(gaps) && AllWords(words)
    ensures Fields(Spread(gaps, words)) == words
  {
    if words == [] {
      FieldsBehindGap(gaps[0], "");
      assert gaps[0] + "" == gaps[0];
    } else {
      FieldsOfSpread(gaps[1..], words[1..]);
      var rest := Spread(gaps[1..], words[1..]);
      FieldsBehindGap(gaps[0], words[0] + rest);
      if rest != "" { SpreadStarts(gaps[1..], words[1..]); }
      FirstField(words[0], rest);
    }
  }

  lemma SpreadStarts(gaps: seq<string>, words: seq<string>)
    requires |gaps| == |words| + 1 && Spread(gaps, words) != "" && (words != [] ==> gaps[0] != "") && Blank(gaps[0])
    ensures IsSpace(Spread(gaps, words)[0])
  {
    assert gaps[0] != "" && Spread(gaps, words)[0] == gaps[0][0];
  }

  /** The fields of a text are the only words it is made of. */
  lemma FieldsExactly(s: string, words: seq<string>)
    ensures Fields(s) == words <==> MadeOf(s, words)
  {
    if Fields(s) == words {
      var gaps := FieldGaps(s);
    } else if MadeOf(s, words) {
      var gaps :| |gaps| == |words| + 1 && Gaps(gaps) && Spread(gaps, words) == s;
      FieldsOfSpread(gaps, words);
    }
  }

  /** The text without white space. */
  function Solid(s: string): string {
    if s == "" then "" else (if IsSpace(s[0]) then "" else [s[0]]) + Solid(s[1..])
  }

  lemma {:induction false} SolidConcat(a: string, b: string)
    ensures Solid(a + b) == Solid(a) + Solid(b)
  {
    if a == "" {
      assert a + b == b;
    } else {
      SolidConcat(a[1..], b);
      assert (a + b)[1..] == a[1..] + b;
      Regroup(if IsSpace(a[0]) then "" else [a[0]], Solid(a[1..]), Solid(b));
    }
  }

  lemma {:induction false} SolidBlank(s: string)
    requires Blank(s)
    ensures Solid(s) == ""
  {
    if s != "" { SolidBlank(s[1..]); }
  }

  /** Spread out with other gaps, words are the same without white space. */
  lemma {:induction false} SolidSpread(gaps: seq<string>, words: seq<string>)
    requires |gaps| == |words| + 1 && Gaps(gaps)
    ensures Solid(Spread(gaps, words)) == Solid(Join(words))
  {
    SolidBlank(gaps[0]);
    if words != [] {
      var rest := Spread(gaps[1..], words[1..]);
      SolidSpread(gaps[1..], words[1..]);
      SolidConcat(gaps[0], words[0] + rest);
      SolidConcat(words[0], rest);
      SolidJoin(words);
    }
  }

  lemma SolidJoin(words: seq<string>)
    requires words != []
    ensures Solid(Join(words)) == Solid(words[0]) + Solid(Join(words[1..]))
  {
    hide Solid, Join;
    SolidBlank(" ");
    SolidBlank("");
    if |words| == 1 {
      JoinOfOne(words);
    } else {
      JoinFront(words);
      SolidConcat(words[0] + " ", Join(words[1..]));
      SolidConcat(words[0], " ");
    }
  }

  lemma JoinOfOne(words: seq<string>)
    requires |words| == 1
    ensures Join(words) == words[0] && Join(words[1..]) == ""
  {
  }

  /** Normalizing the white space of a text keeps everything else. */
  lemma SolidFields(s: string)
    ensures Solid(Join(Fields(s))) == Solid(s)
  {
    var gaps := FieldGaps(s);
    SolidSpread(gaps, Fields(s));
  }

  function Paragraphs(text: string): (ps: seq<string>)
    ensures ps != []
  {
    if text == [] then [""]
    else if text[0] == '\n' then [""] + Paragraphs(text[1..])
    else var ps := Paragraphs(text[1..]); [[text[0]] + ps[0]] + ps[1..]
  }

  function Lines(ps: seq<string>): string {
    if ps == [] then "" else if |ps| == 1 then ps[0] else ps[0] + "\n" + Lines(ps[1..])
  }

  lemma LinesCons(c: char, ps: seq<string>)
    requires ps != []
    ensures Lines([[c] + ps[0]] + ps[1..]) == [c] + Lines(ps)
  {
    var qs := [[c] + ps[0]] + ps[1..];
    assert qs[1..] == ps[1..];
    if |ps| > 1 {
      Regroup([c], ps[0], "\n");
      Regroup([c], ps[0] + "\n", Lines(ps[1..]));
    }
  }

  /** The paragraphs are the text cut at its newlines. */
  lemma {:induction false} ParagraphsRejoin(text: string)
    ensures Lines(Paragraphs(text)) == text
    ensures forall p | p in Paragraphs(text) :: '\n' !in p
  {
    if text != [] {
      var rest := Paragraphs(text[1..]);
      ParagraphsRejoin(text[1..]);
      assert text == [text[0]] + text[1..] && '\n' !in rest[0];
      if text[0] == '\n' {
        assert ([""] + rest)[1..] == rest && "" + "\n" + text[1..] == text;
      } else {
        LinesCons(text[0], rest);
      }
    }
  }

  // ---- What a wrapped paragraph is ----

  function HeadAt(i: nat, head: string, indent: string): string { if i == 0 then head else indent }

  /** Every line fits and starts with the prefix or the indent that is due. */
  predicate Fits(lines: seq<string>, head: string, indent: string, width: int, w: Widths) {
    forall i | 0 <= i < |lines| :: HeadAt(i, head, indent) <= lines[i] && Cells(lines[i], w) <= width
  }

  /** The text without prefix and indents. */
  function Body(lines: seq<string>, head: string, indent: string): string
    requires forall i | 0 <= i < |lines| :: HeadAt(i, head, indent) <= lines[i]
  {
    if lines == [] then ""
    else
      var n := |lines| - 1;
      Body(lines[..n], head, indent) + lines[n][|HeadAt(n, head, indent)|..]
  }

  function LeadingWord(s: string): string {
    if s == [] || s[0] == ' ' then "" else [s[0]] + LeadingWord(s[1..])
  }

  /** The break between two lines was needed: the first is full, or the word that begins the second would have
      left no free cell on it. The separator is counted twice, so a word that would exactly fill the line moves. */
  predicate Tight(line: string, next: string, indent: string, width: int, w: Widths) {
    Cells(line, w) == width || (|indent| <= |next| && Cells(line, w) + Cells(LeadingWord(next[|indent|..]), w) >= width)
  }

  predicate NeededBreaks(lines: seq<string>, indent: string, width: int, w: Widths) {
    forall i | 0 < i < |lines| :: Tight(lines[i - 1], lines[i], indent, width, w)
  }

  lemma {:induction false} LeadingWordGrows(a: string, b: string, w: Widths)
    ensures Cells(LeadingWord(a), w) <= Cells(LeadingWord(a + b), w)
  {
    if a != [] && a[0] != ' ' {
      LeadingWordGrows(a[1..], b, w);
      assert (a + b)[1..] == a[1..] + b;
      CellsConcat([a[0]], LeadingWord(a[1..]), w);
      CellsConcat([a[0]], LeadingWord(a[1..] + b), w);
    }
  }

  lemma {:induction false} LeadingWordWhole(word: string)
    requires forall i | 0 <= i < |word| :: word[i] != ' '
    ensures LeadingWord(word) == word
  {
    if word != [] { LeadingWordWhole(word[1..]); }
  }

  lemma TightGrows(line: string, next: string, more: string, indent: string, width: int, w: Widths)
    requires indent <= next && Tight(line, next, indent, width, w)
    ensures Tight(line, next + more, indent, width, w)
  {
    assert (next + more)[|indent|..] == next[|indent|..] + more;
    LeadingWordGrows(next[|indent|..], more, w);
  }

  lemma BodyStep(lines: seq<string>, line: string, more: string, head: string, indent: string)
    requires forall i | 0 <= i < |lines| :: HeadAt(i, head, indent) <= lines[i]
    requires HeadAt(|lines|, head, indent) <= line
    ensures HeadAt(|lines|, head, indent) <= line + more
    ensures Body(lines + [line + more], head, indent) == Body(lines + [line], head, indent) + more
  {
    assert (lines + [line])[..|lines|] == lines && (lines + [line + more])[..|lines|] == lines;
    assert (line + more)[|HeadAt(|lines|, head, indent)|..] == line[|HeadAt(|lines|, head, indent)|..] + more;
  }

  lemma BodyBreak(lines: seq<string>, head: string, indent: string)
    requires forall i | 0 <= i < |lines| :: HeadAt(i, head, indent) <= lines[i]
    requires lines != []
    ensures Body(lines + [indent], head, indent) == Body(lines, head, indent)
  {
    assert (lines + [indent])[..|lines|] == lines;
  }

  // ---- Where a word goes ----

  /** The length of the longest leading part of the word that fits. */
  function Taken(word: string, available: int, w: Widths): (n: nat)
    ensures n <= |word|
  {
    if word == "" || w(word[0]) > available then 0 else 1 + Taken(word[1..], available - w(word[0]), w)
  }

  /** The lines after the open one is closed, and the separator that is still to be placed. */
  function Closed(lines: seq<string>, line: string, separator: string, width: int, w: Widths): (seq<string>, string) {
    if separator != "" && Cells(line, w) + Cells(separator, w) <= width then (lines + [line + separator], "")
    else (lines + [line], separator)
  }

  /** The word is kept whole for a fresh line. */
  predicate Moves(line: string, separator: string, word: string, width: int, prefix: string, indent: string,
                  w: Widths)
  {
    && separator != "" && Cells(word, w) <= width - Cells(indent, w)
    && Cells(word, w) + Cells(separator, w) > width - Cells(line, w) - Cells(separator, w)
    && line != indent && line != prefix
  }

  /** The finished lines and the open line after the word. */
  function Placed(lines: seq<string>, line: string, separator: string, word: string, width: int, prefix: string,
                  indent: string, w: Widths): (seq<string>, string)
    requires OneCell(w) && Cells(indent, w) < width && (separator == "" || separator == " ")
    decreases |word|, |separator|, line != indent
  {
    var available := width - Cells(line, w) - Cells(separator, w);
    if word == "" then (lines, line)
    else if Moves(line, separator, word, width, prefix, indent, w) || available < 1 then
      var (closed, left) := Closed(lines, line, separator, width, w);
      SeparatorCells(w);
      Placed(closed, indent, left, word, width, prefix, indent, w)
    else
      var n := Taken(word, available, w);
      var filled := line + (separator + word[..n]);
      if n == |word| then (lines, filled) else Placed(lines + [filled], indent, "", word[n..], width, prefix, indent, w)
  }

  lemma {:induction false} PlacedExtends(lines: seq<string>, line: string, separator: string, word: string, width: int,
                                         prefix: string, indent: string, w: Widths)
    requires OneCell(w) && Cells(indent, w) < width && (separator == "" || separator == " ")
    ensures lines <= Placed(lines, line, separator, word, width, prefix, indent, w).0
    decreases |word|, |separator|, line != indent
  {
    var available := width - Cells(line, w) - Cells(separator, w);
    if word == "" {
    } else if Moves(line, separator, word, width, prefix, indent, w) || available < 1 {
      var (closed, left) := Closed(lines, line, separator, width, w);
      SeparatorCells(w);
      PlacedExtends(closed, indent, left, word, width, prefix, indent, w);
    } else {
      var n := Taken(word, available, w);
      PlacedExtends(lines + [line + (separator + word[..n])], indent, "", word[n..], width, prefix, indent, w);
    }
  }

  lemma {:induction false} TakenWhole(word: string, available: int, w: Widths)
    ensures Taken(word, available, w) == |word| <==> word == "" || Cells(word, w) <= available
  {
    if word != "" {
      TakenWhole(word[1..], available - w(word[0]), w);
      CellsConcat([word[0]], word[1..], w);
      assert [word[0]][..0] == "" && [word[0]] + word[1..] == word;
    }
  }

  /** The word stays on the open line: it leaves a free cell there, or it has cells, fills the line exactly, and is the
      line's first word or does not fit a fresh line either. */
  predicate Stays(line: string, word: string, width: int, prefix: string, indent: string, w: Widths) {
    var cells := Cells(line, w) + 1 + Cells(word, w);
    || cells < width
    || (cells == width && Cells(word, w) > 0 &&
        (line == indent || line == prefix || Cells(word, w) > width - Cells(indent, w)))
  }

  /** A word behind a separator is put whole on the open line exactly when it stays; otherwise that line is closed. */
  lemma StaysExactly(lines: seq<string>, line: string, word: string, width: int, prefix: string, indent: string,
                     w: Widths)
    requires OneCell(w) && Cells(indent, w) < width && IsWord(word)
    ensures var placed := Placed(lines, line, " ", word, width, prefix, indent, w);
      if Stays(line, word, width, prefix, indent, w) then placed == (lines, line + (" " + word))
      else |placed.0| > |lines|
  {
    SeparatorCells(w);
    var available := width - Cells(line, w) - 1;
    TakenWhole(word, available, w);
    var n := Taken(word, available, w);
    var (closed, left) := Closed(lines, line, " ", width, w);
    PlacedExtends(closed, indent, left, word, width, prefix, indent, w);
    PlacedExtends(lines + [line + (" " + word[..n])], indent, "", word[n..], width, prefix, indent, w);
    assert word[..|word|] == word;
  }

  /** A word that does not stay, and would fit a fresh line, goes there whole when its separator still fits the old
      one. */
  lemma MovesWhole(lines: seq<string>, line: string, word: string, width: int, prefix: string, indent: string,
                   w: Widths)
    requires OneCell(w) && Cells(indent, w) < width && IsWord(word)
    requires !Stays(line, word, width, prefix, indent, w) && Cells(word, w) <= width - Cells(indent, w)
    requires line != indent && line != prefix && Cells(line, w) < width
    ensures Placed(lines, line, " ", word, width, prefix, indent, w) == (lines + [line + " "], indent + word)
  {
    hide Cells, Taken;
    SeparatorCells(w);
    assert Moves(line, " ", word, width, prefix, indent, w);
    TakenWhole(word, width - Cells(indent, w), w);
    assert word[..|word|] == word && "" + word == word;
    assert Placed(lines + [line + " "], indent, "", word, width, prefix, indent, w) ==
      (lines + [line + " "], indent + ("" + word));
  }

  function Separator(k: nat): string { if k > 0 then " " else "" }

  /** The finished lines and the open line after the first `k` words. */
  function AfterWords(words: seq<string>, k: nat, width: int, prefix: string, head: string, indent: string, w: Widths)
    : (seq<string>, string)
    requires OneCell(w) && Cells(indent, w) < width && k <= |words|
  {
    if k == 0 then ([], head)
    else
      var (lines, line) := AfterWords(words, k - 1, width, prefix, head, indent, w);
      Placed(lines, line, Separator(k - 1), words[k - 1], width, prefix, indent, w)
  }

  // ---- The wrapping loop ----

  /** The break before `word` is still owed its word: the line is fresh and the word will fit on it whole. */
  predicate Owed(line: string, now: string, word: string, separator: string, indent: string, width: int, w: Widths) {
    && now == indent && separator == "" && Cells(word, w) <= width - Cells(indent, w)
    && Cells(line, w) + Cells(word, w) >= width
  }

  predicate LastBreakNeeded(lines: seq<string>, line: string, word: string, separator: string, indent: string,
                            width: int, w: Widths)
  {
    lines == [] || Tight(lines[|lines| - 1], line, indent, width, w)
    || Owed(lines[|lines| - 1], line, word, separator, indent, width, w)
  }

  /** What the loop keeps about the finished lines, the open line and the rest of the word: nothing of `text`
      is lost, everything fits, every break was needed. */
  ghost predicate State(lines: seq<string>, line: string, separator: string, word: string, text: string,
                        head: string, indent: string, width: int, w: Widths)
  {
    && Fits(lines + [line], head, indent, width, w)
    && Body(lines + [line], head, indent) + separator + word == text
    && NeededBreaks(lines, indent, width, w)
    && LastBreakNeeded(lines, line, word, separator, indent, width, w)
  }

  /** Longest leading part of the word that fits. */
  method Chunk(word: string, available: int, w: Widths) returns (chunk: string)
    requires OneCell(w) && available >= 1
    ensures chunk == word[..Taken(word, available, w)] && Cells(chunk, w) <= available
    ensures chunk != word ==> Cells(chunk, w) == available < Cells(word, w)
    ensures word != "" ==> chunk != ""
  {
    hide Cells, Taken;
    chunk := "";
    NoneTaken(word, available, w);
    while |chunk| < |word|
      invariant chunk <= word && Cells(chunk, w) <= available
      invariant |chunk| + Taken(word[|chunk|..], available - Cells(chunk, w), w) == Taken(word, available, w)
    {
      NextTaken(chunk, word, available, w);
      if Cells(chunk + [word[|chunk|]], w) > available { break; }
      chunk := chunk + [word[|chunk|]];
    }
    NoneTaken(word[|chunk|..], available - Cells(chunk, w), w);
  }

  lemma NoneTaken(word: string, available: int, w: Widths)
    ensures word == "" ==> Taken(word, available, w) == 0
    ensures Cells("", w) == 0 && word[0..] == word
  {
  }

  /** One more rune is taken exactly when it fits. */
  lemma NextTaken(chunk: string, word: string, available: int, w: Widths)
    requires OneCell(w) && chunk <= word && |chunk| < |word| && Cells(chunk, w) <= available
    ensures var next, rest := chunk + [word[|chunk|]], word[|chunk|..];
      var n := Taken(rest, available - Cells(chunk, w), w);
      if Cells(next, w) > available then n == 0 && Cells(chunk, w) == available < Cells(word, w)
      else next <= word && n == 1 + Taken(word[|next|..], available - Cells(next, w), w)
  {
    var next := chunk + [word[|chunk|]];
    assert next[..|chunk|] == chunk;
    assert word[|chunk|..][1..] == word[|next|..] && word == next + word[|next|..];
    CellsConcat(next, word[|next|..], w);
  }

  lemma FitsSnoc(lines: seq<string>, line: string, head: string, indent: string, width: int, w: Widths)
    ensures Fits(lines + [line], head, indent, width, w) <==>
      Fits(lines, head, indent, width, w) && HeadAt(|lines|, head, indent) <= line && Cells(line, w) <= width
  {
    var all := lines + [line];
    assert all[|lines|] == line && forall i | 0 <= i < |lines| :: all[i] == lines[i];
  }

  /** Appending `more` to the open line, taking it off the pending text. */
  lemma Append(lines: seq<string>, line: string, more: string, text: string, separator: string, word: string,
               rest: string, head: string, indent: string, width: int, w: Widths)
    requires Fits(lines + [line], head, indent, width, w)
    requires Body(lines + [line], head, indent) + separator + word == text
    requires separator + word == more + rest && Cells(line, w) + Cells(more, w) <= width
    ensures Fits(lines + [line + more], head, indent, width, w)
    ensures Body(lines + [line + more], head, indent) + "" + rest == text
  {
    FitsSnoc(lines, line, head, indent, width, w);
    FitsSnoc(lines, line + more, head, indent, width, w);
    CellsConcat(line, more, w);
    BodyStep(lines, line, more, head, indent);
    Regroup(Body(lines + [line], head, indent), separator, word);
    Regroup(Body(lines + [line], head, indent), more, rest);
    var b := Body(lines + [line + more], head, indent);
    assert b + "" == b;
  }

  lemma NeededSnoc(lines: seq<string>, line: string, indent: string, width: int, w: Widths)
    requires NeededBreaks(lines, indent, width, w)
    requires lines == [] || Tight(lines[|lines| - 1], line, indent, width, w)
    ensures NeededBreaks(lines + [line], indent, width, w)
  {
    var all := lines + [line];
    assert all[|lines|] == line && forall i | 0 <= i < |lines| :: all[i] == lines[i];
  }

  /** Closing the open line keeps the state, when the line is full or the word is owed a fresh one. */
  lemma CloseLine(lines: seq<string>, line: string, separator: string, word: string, text: string,
                  head: string, indent: string, width: int, w: Widths)
    requires State(lines, line, separator, word, text, head, indent, width, w)
    requires lines == [] || Tight(lines[|lines| - 1], line, indent, width, w)
    requires Cells(line, w) == width || Owed(line, indent, word, separator, indent, width, w)
    requires Cells(indent, w) <= width
    ensures State(lines + [line], indent, separator, word, text, head, indent, width, w)
  {
    FitsSnoc(lines + [line], indent, head, indent, width, w);
    FitsSnoc(lines, line, head, indent, width, w);
    BodyBreak(lines + [line], head, indent);
    NeededSnoc(lines, line, indent, width, w);
  }

  /** Putting the separator on the open line. */
  lemma TakeSeparator(lines: seq<string>, line: string, separator: string, word: string, text: string,
                      head: string, indent: string, width: int, w: Widths)
    requires State(lines, line, separator, word, text, head, indent, width, w)
    requires separator != "" && Cells(line, w) + Cells(separator, w) <= width
    ensures State(lines, line + separator, "", word, text, head, indent, width, w)
    ensures lines == [] || Tight(lines[|lines| - 1], line + separator, indent, width, w)
    ensures Cells(line + separator, w) == Cells(line, w) + Cells(separator, w)
  {
    Append(lines, line, separator, text, separator, word, word, head, indent, width, w);
    CellsConcat(line, separator, w);
    if lines != [] {
      FitsSnoc(lines, line, head, indent, width, w);
      TightGrows(lines[|lines| - 1], line, separator, indent, width, w);
    }
  }

  lemma ChunkSplit(line: string, separator: string, chunk: string, word: string, w: Widths)
    requires chunk <= word
    ensures separator + word == (separator + chunk) + word[|chunk|..]
    ensures Cells(separator + chunk, w) == Cells(separator, w) + Cells(chunk, w)
  {
    CellsConcat(separator, chunk, w);
    Regroup(separator, chunk, word[|chunk|..]);
    assert word == chunk + word[|chunk|..];
  }

  lemma ChunkTight(last: string, line: string, separator: string, chunk: string, word: string, indent: string,
                   width: int, w: Widths)
    requires Tight(last, line, indent, width, w) || Owed(last, line, word, separator, indent, width, w)
    requires IsSuffix(word) && chunk <= word && indent <= line
    requires chunk != word ==> Cells(line, w) + Cells(separator, w) + Cells(chunk, w) == width
    requires chunk != word ==> Cells(line, w) + Cells(separator, w) + Cells(word, w) > width
    ensures Tight(last, line + (separator + chunk), indent, width, w)
  {
    if Tight(last, line, indent, width, w) {
      TightGrows(last, line, separator + chunk, indent, width, w);
    } else {
      assert separator == "" && chunk == word && line == indent;
      assert separator + chunk == word;
      assert (line + word)[|indent|..] == word;
      LeadingWordWhole(word);
    }
  }

  /** Putting the separator and a leading part of the word on the open line. */
  lemma TakeChunk(lines: seq<string>, line: string, separator: string, chunk: string, word: string, text: string,
                  head: string, indent: string, width: int, w: Widths)
    requires State(lines, line, separator, word, text, head, indent, width, w)
    requires IsSuffix(word) && chunk <= word
    requires Cells(line, w) + Cells(separator, w) + Cells(chunk, w) <= width
    requires chunk != word ==> Cells(line, w) + Cells(separator, w) + Cells(chunk, w) == width
    requires chunk != word ==> Cells(line, w) + Cells(separator, w) + Cells(word, w) > width
    ensures State(lines, line + (separator + chunk), "", word[|chunk|..], text, head, indent, width, w)
    ensures lines == [] || Tight(lines[|lines| - 1], line + (separator + chunk), indent, width, w)
    ensures Cells(line + (separator + chunk), w) == Cells(line, w) + Cells(separator, w) + Cells(chunk, w)
  {
    ChunkSplit(line, separator, chunk, word, w);
    CellsConcat(line, separator + chunk, w);
    Append(lines, line, separator + chunk, text, separator, word, word[|chunk|..], head, indent, width, w);
    if lines != [] {
      FitsSnoc(lines, line, head, indent, width, w);
      ChunkTight(lines[|lines| - 1], line, separator, chunk, word, indent, width, w);
    }
  }

  predicate IsSuffix(word: string) { forall i | 0 <= i < |word| :: !IsSpace(word[i]) }

  /** Closes the open line before the word, keeping the separator on it when there is room. */
  method Break(lines0: seq<string>, line: string, separator0: string, ghost word: string, ghost text: string,
               width: int, ghost head: string, indent: string, w: Widths)
    returns (lines: seq<string>, separator: string)
    requires State(lines0, line, separator0, word, text, head, indent, width, w)
    requires separator0 == "" || separator0 == " "
    requires OneCell(w) && Cells(indent, w) < width && Cells(head, w) == Cells(indent, w)
    requires separator0 == "" ==> Cells(line, w) == width
    requires Cells(line, w) + Cells(separator0, w) < width ==>
      Cells(word, w) <= width - Cells(indent, w) && Cells(line, w) + 2 + Cells(word, w) > width
    ensures State(lines, indent, separator, word, text, head, indent, width, w)
    ensures (lines, separator) == Closed(lines0, line, separator0, width, w)
    ensures separator == "" || (separator == separator0 && line != indent)
    ensures separator0 == "" ==> line != indent
  {
    SeparatorCells(w);
    FitsSnoc(lines0, line, head, indent, width, w);
    if separator0 != "" && Cells(line, w) + Cells(separator0, w) <= width {
      TakeSeparator(lines0, line, separator0, word, text, head, indent, width, w);
      CloseLine(lines0, line + separator0, "", word, text, head, indent, width, w);
      return lines0 + [line + separator0], "";
    }
    CloseLine(lines0, line, separator0, word, text, head, indent, width, w);
    return lines0 + [line], separator0;
  }

  /** Fills the open line with the separator and as much of the word as fits, closing it if some is left. */
  method Fill(lines0: seq<string>, line0: string, separator: string, word0: string, ghost text: string,
              width: int, ghost head: string, indent: string, w: Widths)
    returns (lines: seq<string>, line: string, word: string)
    requires State(lines0, line0, separator, word0, text, head, indent, width, w)
    requires OneCell(w) && Cells(indent, w) < width && IsSuffix(word0) && word0 != ""
    requires Cells(line0, w) + Cells(separator, w) < width
    ensures State(lines, line, "", word, text, head, indent, width, w)
    ensures |word| < |word0| && IsSuffix(word)
    ensures var n := Taken(word0, width - Cells(line0, w) - Cells(separator, w), w);
      var filled := line0 + (separator + word0[..n]);
      word == word0[n..] && (lines, line) == if n == |word0| then (lines0, filled) else (lines0 + [filled], indent)
  {
    hide State, OneCell, Cells, Taken;
    var chunk := Chunk(word0, width - Cells(line0, w) - Cells(separator, w), w);
    TakeChunk(lines0, line0, separator, chunk, word0, text, head, indent, width, w);
    lines, line, word := lines0, line0 + (separator + chunk), word0[|chunk|..];
    if word != "" {
      assert chunk != word0 && Cells(line, w) == width;
      CloseLine(lines, line, "", word, text, head, indent, width, w);
      lines, line := lines + [line], indent;
    }
  }

  lemma OpenLineFits(lines: seq<string>, line: string, separator: string, word: string, text: string, head: string,
                     indent: string, width: int, w: Widths)
    requires State(lines, line, separator, word, text, head, indent, width, w)
    ensures Cells(line, w) <= width
  {
    FitsSnoc(lines, line, head, indent, width, w);
  }

  /** Places one word after the open line, breaking lines and splitting the word as needed. */
  method PlaceWord(lines0: seq<string>, line0: string, separator0: string, word0: string, ghost text: string,
                   width: int, prefix: string, ghost head: string, indent: string, w: Widths)
    returns (lines: seq<string>, line: string)
    requires OneCell(w) && IsWord(word0) && (separator0 == "" || separator0 == " ")
    requires Cells(indent, w) < width && Cells(head, w) == Cells(indent, w)
    requires State(lines0, line0, separator0, word0, text, head, indent, width, w)
    ensures State(lines, line, "", "", text, head, indent, width, w)
    ensures (lines, line) == Placed(lines0, line0, separator0, word0, width, prefix, indent, w)
  {
    hide State, OneCell, Cells, Taken, Closed;
    lines, line := lines0, line0;
    var separator, word := separator0, word0;
    SeparatorCells(w);
    while word != ""
      invariant State(lines, line, separator, word, text, head, indent, width, w)
      invariant IsSuffix(word) && (separator == "" || separator == " ")
      invariant word == "" ==> separator == ""
      invariant Placed(lines, line, separator, word, width, prefix, indent, w)
        == Placed(lines0, line0, separator0, word0, width, prefix, indent, w)
      decreases |word|, |separator|, line != indent
    {
      OpenLineFits(lines, line, separator, word, text, head, indent, width, w);
      var available := width - Cells(line, w) - Cells(separator, w);
      var freshCapacity := width - Cells(indent, w);
      if separator != "" && Cells(word, w) <= freshCapacity && Cells(word, w) + Cells(separator, w) > available
         && line != indent && line != prefix
      {
        lines, separator := Break(lines, line, separator, word, text, width, head, indent, w);
        line := indent;
      } else if available < 1 {
        lines, separator := Break(lines, line, separator, word, text, width, head, indent, w);
        line := indent;
      } else {
        lines, line, word := Fill(lines, line, separator, word, text, width, head, indent, w);
        separator := "";
      }
    }
  }

  /** Every word is where it goes. */
  ghost predicate InPlace(lines: seq<string>, words: seq<string>, width: int, prefix: string, head: string,
                          indent: string, w: Widths)
  {
    && OneCell(w) && Cells(indent, w) < width
    && var (done, line) := AfterWords(words, |words|, width, prefix, head, indent, w);
       lines == done + [line]
  }

  /** A wrapped paragraph: every line fits and is headed as due, removing the heads leaves the words joined by
      single spaces, no line was broken early, and every word is where it goes. */
  ghost predicate Wrapped(lines: seq<string>, paragraph: string, head: string, indent: string, width: int,
                          prefix: string, w: Widths)
  {
    && lines != []
    && InPlace(lines, Fields(paragraph), width, prefix, head, indent, w)
    && Fits(lines, head, indent, width, w)
    && Body(lines, head, indent) == Join(Fields(paragraph))
    && MadeOf(paragraph, Fields(paragraph)) && Solid(Body(lines, head, indent)) == Solid(paragraph)
    && NeededBreaks(lines, indent, width, w)
  }

  lemma Finish(lines: seq<string>, line: string, paragraph: string, head: string, indent: string, width: int,
               prefix: string, w: Widths)
    requires State(lines, line, "", "", Join(Fields(paragraph)), head, indent, width, w)
    requires InPlace(lines + [line], Fields(paragraph), width, prefix, head, indent, w)
    ensures Wrapped(lines + [line], paragraph, head, indent, width, prefix, w)
  {
    FieldsExactly(paragraph, Fields(paragraph));
    SolidFields(paragraph);
    hide Fields, Solid, MadeOf;
    FitsSnoc(lines, line, head, indent, width, w);
    Padding(Body(lines + [line], head, indent));
    if lines != [] { assert Cells(lines[|lines| - 1], w) <= width; }
    NeededSnoc(lines, line, indent, width, w);
  }

  lemma FirstLine(head: string, indent: string, width: int, w: Widths)
    requires Cells(head, w) <= width
    ensures State([], head, "", "", "", head, indent, width, w)
  {
    FitsSnoc([], head, head, indent, width, w);
    assert [head][..0] == [] && head[|head|..] == "";
  }

  lemma JoinSnoc(words: seq<string>, k: nat)
    requires k < |words|
    ensures Join(words[..k + 1]) == Join(words[..k]) + Separator(k) + words[k]
  {
    assert words[..k + 1][..k] == words[..k];
    assert k == 0 ==> words[..1] == [words[0]] && Join(words[..0]) + Separator(0) == "";
  }

  lemma Padding(b: string)
    ensures b + "" + "" == b
  {
  }

  /** The next word and its separator become pending. */
  lemma NextWord(lines: seq<string>, line: string, words: seq<string>, k: nat, head: string, indent: string,
                 width: int, w: Widths)
    requires k < |words|
    requires State(lines, line, "", "", Join(words[..k]), head, indent, width, w)
    ensures State(lines, line, Separator(k), words[k], Join(words[..k + 1]), head, indent, width, w)
  {
    FitsSnoc(lines, line, head, indent, width, w);
    if lines != [] { assert Cells(lines[|lines| - 1], w) <= width; }
    Padding(Body(lines + [line], head, indent));
    JoinSnoc(words, k);
  }

  method WrapParagraph(paragraph: string, width: int, prefix: string, head: string, indent: string, w: Widths)
    returns (lines: seq<string>)
    requires OneCell(w) && Cells(indent, w) < width && Cells(head, w) == Cells(indent, w)
    ensures Wrapped(lines, paragraph, head, indent, width, prefix, w)
  {
    hide State, Cells, Placed, Body, Fits, NeededBreaks, Wrapped;
    var words := Fields(paragraph);
    var done, line := [], head;
    FirstLine(head, indent, width, w);
    assert words[..0] == [];
    var k := 0;
    while k < |words|
      invariant 0 <= k <= |words|
      invariant State(done, line, "", "", Join(words[..k]), head, indent, width, w)
      invariant (done, line) == AfterWords(words, k, width, prefix, head, indent, w)
    {
      NextWord(done, line, words, k, head, indent, width, w);
      done, line := PlaceWord(done, line, Separator(k), words[k], Join(words[..k + 1]), width, prefix, head, indent, w);
      k := k + 1;
    }
    assert words[..k] == words;
    Finish(done, line, paragraph, head, indent, width, prefix, w);
    lines := done + [line];
  }

  function Flatten(groups: seq<seq<string>>): seq<string> {
    if groups == [] then [] else Flatten(groups[..|groups| - 1]) + groups[|groups| - 1]
  }

  /** Each paragraph is its own wrapped group; only the first line of all carries the prefix. */
  ghost predicate AllWrapped(groups: seq<seq<string>>, paragraphs: seq<string>, prefix: string, indent: string,
                             width: int, w: Widths)
    requires |groups| <= |paragraphs|
  {
    groups != [] ==>
      var n := |groups| - 1;
      && AllWrapped(groups[..n], paragraphs, prefix, indent, width, w)
      && Wrapped(groups[n], paragraphs[n], HeadAt(n, prefix, indent), indent, width, prefix, w)
  }

  lemma WrappedSnoc(groups: seq<seq<string>>, lines: seq<string>, paragraphs: seq<string>, prefix: string,
                    indent: string, width: int, w: Widths)
    requires |groups| < |paragraphs| && AllWrapped(groups, paragraphs, prefix, indent, width, w)
    requires Wrapped(lines, paragraphs[|groups|], HeadAt(|groups|, prefix, indent), indent, width, prefix, w)
    ensures AllWrapped(groups + [lines], paragraphs, prefix, indent, width, w)
    ensures Flatten(groups + [lines]) == Flatten(groups) + lines
  {
    var all := groups + [lines];
    assert all[..|groups|] == groups && all[|groups|] == lines && |all| - 1 == |groups|;
  }

  function Kept(prefix: string, width: int, w: Widths): string { if Cells(prefix, w) >= width then "" else prefix }

  /** The lines are one wrapped group for each paragraph, blank ones included. */
  ghost predicate WrapsTo(out: seq<string>, paragraphs: seq<string>, prefix: string, indent: string, width: int,
                          w: Widths)
  {
    exists groups ::
      |groups| == |paragraphs| && AllWrapped(groups, paragraphs, prefix, indent, width, w) && out == Flatten(groups)
  }

  /** A prefix that leaves no room is dropped; the indent is as wide as the prefix that is kept. */
  method Wrap(text: string, width: int, prefix: string, w: Widths) returns (out: seq<string>)
    requires OneCell(w)
    ensures width < 1 ==> out == [""]
    ensures width >= 1 ==>
      var kept := Kept(prefix, width, w);
      WrapsTo(out, Paragraphs(text), kept, Spaces(Cells(kept, w)), width, w)
  {
    if width < 1 { return [""]; }
    var kept := Kept(prefix, width, w);
    var indent := Spaces(Cells(kept, w));
    SpacesCells(Cells(kept, w), w);
    assert Cells("", w) == 0;
    out := WrapAll(Paragraphs(text), width, kept, indent, w);
  }

  method WrapAll(paragraphs: seq<string>, width: int, prefix: string, indent: string, w: Widths)
    returns (out: seq<string>)
    requires OneCell(w) && Cells(indent, w) < width && Cells(prefix, w) == Cells(indent, w)
    ensures WrapsTo(out, paragraphs, prefix, indent, width, w)
  {
    hide Wrapped;
    out := [];
    ghost var groups: seq<seq<string>> := [];
    var k := 0;
    while k < |paragraphs|
      invariant 0 <= k == |groups| <= |paragraphs|
      invariant out == Flatten(groups)
      invariant AllWrapped(groups, paragraphs, prefix, indent, width, w)
    {
      var lines := WrapParagraph(paragraphs[k], width, prefix, HeadAt(k, prefix, indent), indent, w);
      WrappedSnoc(groups, lines, paragraphs, prefix, indent, width, w);
      out, groups, k := out + lines, groups + [lines], k + 1;
    }
  }

  lemma {:induction false} OneParagraph(text: string)
    requires '\n' !in text
    ensures Paragraphs(text) == [text]
  {
    if text != [] {
      OneParagraph(text[1..]);
      assert [text[0]] + text[1..] == text;
    }
  }

  lemma OneGroup(out: seq<string>, text: string, width: int, w: Widths)
    requires '\n' !in text && WrapsTo(out, Paragraphs(text), "", "", width, w)
    ensures InPlace(out, Fields(text), width, "", "", "", w)
  {
    OneParagraph(text);
    var groups :| |groups| == 1 && AllWrapped(groups, [text], "", "", width, w) && out == Flatten(groups);
    assert groups[..0] == [] && Flatten(groups) == [] + groups[0];
  }

  lemma TwoWords(a: string, b: string, width: int, w: Widths)
    requires OneCell(w) && IsWord(a) && IsWord(b) && Cells(a + (" " + b), w) == width
    ensures Cells("", w) < width && AfterWords([a, b], 2, width, "", "", "", w) == ([a + " "], b)
  {
    SeparatorCells(w);
    CellsConcat(" ", b, w);
    CellsConcat(a, " " + b, w);
    FirstPlaced(a, width, w);
    hide Cells, Placed;
    MovesWhole([], a, b, width, "", "", w);
    var none: seq<string> := [];
    assert none + [a + " "] == [a + " "] && "" + b == b;
    AfterTwo(a, b, width, w);
  }

  lemma FirstPlaced(word: string, width: int, w: Widths)
    requires OneCell(w) && IsWord(word) && Cells(word, w) <= width && Cells("", w) == 0 < width
    ensures Placed([], "", "", word, width, "", "", w) == ([], word)
  {
    hide Cells, Taken;
    TakenWhole(word, width, w);
    assert word[..|word|] == word && "" + ("" + word) == word;
  }

  lemma AfterTwo(a: string, b: string, width: int, w: Widths)
    requires OneCell(w) && Cells("", w) < width
    requires Placed([], "", "", a, width, "", "", w) == ([], a)
    ensures AfterWords([a, b], 2, width, "", "", "", w) == Placed([], a, " ", b, width, "", "", w)
  {
    hide Cells, Placed;
    var words := [a, b];
    assert AfterWords(words, 0, width, "", "", "", w) == ([], "");
    assert AfterWords(words, 1, width, "", "", "", w) == ([], words[0]);
  }

  /** Two words that would exactly fill a line do not share it. */
  lemma ExactFillMoves(out: seq<string>, a: string, b: string, w: Widths)
    requires OneCell(w) && IsWord(a) && IsWord(b)
    ensures var text := Join([a, b]);
      WrapsTo(out, Paragraphs(text), "", "", Cells(text, w), w) ==> out == [a + " ", b]
  {
    hide Cells, WrapsTo, Paragraphs, IsSpace;
    var text := Join([a, b]);
    if WrapsTo(out, Paragraphs(text), "", "", Cells(text, w), w) {
      JoinOfTwo(a, b);
      assert '\n' !in text by { NoNewline(a); NoNewline(b); }
      OneGroup(out, text, Cells(text, w), w);
      FieldsOfJoin([a, b]);
      assert text == a + (" " + b);
      TwoWords(a, b, Cells(text, w), w);
    }
  }

  lemma JoinOfTwo(a: string, b: string)
    ensures Join([a, b]) == a + " " + b
  {
    assert [a, b][..1] == [a];
  }

  lemma NoNewline(word: string)
    requires IsWord(word)
    ensures '\n' !in word
  {
    assert IsSpace('\n');
  }

  /** So "ab cd" takes two lines of width 5. */
  lemma ExactFillMovesHere(out: seq<string>, text: string, w: Widths)
    requires OneCell(w) && w('a') == 1 && w('b') == 1 && w('c') == 1 && w('d') == 1 && text == "ab cd"
    requires WrapsTo(out, Paragraphs(text), "", "", 5, w)
    ensures out == ["ab ", "cd"]
  {
    var a, b := ['a', 'b'], ['c', 'd'];
    hide Cells, WrapsTo, Paragraphs, Join, IsWord, OneCell;
    TwoLetters('a', 'b', w);
    TwoLetters('c', 'd', w);
    FiveCells(a, b, w);
    assert text == Join([a, b]);
    ExactFillMoves(out, a, b, w);
    assert a + " " == "ab " && b == "cd";
  }

  lemma FiveCells(a: string, b: string, w: Widths)
    requires OneCell(w) && Cells(a, w) == 2 && Cells(b, w) == 2
    ensures Join([a, b]) == a + " " + b && Cells(Join([a, b]), w) == 5
  {
    JoinOfTwo(a, b);
    SeparatorCells(w);
    CellsConcat(a, " ", w);
    CellsConcat(a + " ", b, w);
  }

  lemma TwoLetters(a: char, b: char, w: Widths)
    requires 'a' <= a <= 'z' && 'a' <= b <= 'z'
    ensures IsWord([a, b]) && Cells([a, b], w) == w(a) + w(b)
  {
    assert [a, b][..1] == [a];
    assert [a][..0] == [] && Cells([a], w) == Cells([], w) + w(a);
  }
}
