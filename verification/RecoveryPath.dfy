/** The slash paths of remote temporaries: where an acquisition puts one, and which paths recovery is
    willing to remove. Go's path.Join, path.Clean, path.Dir and path.Base are written on the elements
    between slashes. */
module RecoveryPath {
  import Utf8

  type Elements = seq<string>

  predicate IsElement(e: string) { e != "" && '/' !in e }

  predicate Canonical(es: Elements) {
    forall e | e in es :: IsElement(e) && e != "." && e != ".."
  }

  /** The pieces between slashes, empty pieces included: strings.Split(s, "/"). */
  function Split(s: string): (pieces: seq<string>)
    ensures |pieces| >= 1
    ensures forall p | p in pieces :: '/' !in p
  {
    if s == "" then [""]
    else
      var rest := Split(s[1..]);
      if s[0] == '/' then [""] + rest else [[s[0]] + rest[0]] + rest[1..]
  }

  /** Clean on a rooted path: drops empty pieces and ".", lets ".." cancel the element before it. */
  function CleanElements(pieces: seq<string>): (es: Elements)
    ensures (forall p | p in pieces :: '/' !in p) ==> Canonical(es)
  {
    if pieces == [] then []
    else
      var before := CleanElements(pieces[..|pieces| - 1]);
      var last := pieces[|pieces| - 1];
      if last == "" || last == "." then before
      else if last == ".." && before == [] then []
      else if last == ".." then
        var parent := before[..|before| - 1];
        assert forall e | e in parent :: e in before;
        parent
      else before + [last]
  }

  function Elems(path: string): Elements { CleanElements(Split(path)) }

  /** A slash before each element; the root alone is one slash. */
  function Glue(es: Elements): string {
    if es == [] then "" else Glue(es[..|es| - 1]) + "/" + es[|es| - 1]
  }

  function Render(es: Elements): string { if es == [] then "/" else Glue(es) }

  predicate IsAbs(path: string) { path != "" && path[0] == '/' }

  predicate Contains(s: string, t: string) {
    exists i | 0 <= i <= |s| :: t <= s[i..]
  }

  predicate Forbidden(c: char) { c == '\0' || c == '\\' || c == '\r' || c == '\n' }

  const NAMESPACE := ".bac-nexus"
  const DIRECTORY := "tmp"
  const SUFFIX := ".utf8"
  const MAX_PATH: nat := 1024

  /** The bytes of a character in UTF-8. */
  function Bytes(c: char): nat {
    if c < '\U{80}' then 1 else if c < '\U{800}' then 2 else if c < '\U{10000}' then 3 else 4
  }

  function ByteLength(s: string): nat { if s == "" then 0 else Bytes(s[0]) + ByteLength(s[1..]) }

  function Scalars(s: string): seq<Utf8.Scalar> { if s == "" then [] else [s[0] as int] + Scalars(s[1..]) }

  lemma {:induction false} ByteLengthIs(s: string)
    ensures ByteLength(s) == |Utf8.EncodeAll(Scalars(s))|
  {
    if s != "" {
      ByteLengthIs(s[1..]);
      assert Scalars(s)[1..] == Scalars(s[1..]);
    }
  }

  /** privateDirectory: the directory of the temporaries under an authenticated home, or none. */
  function PrivateDirectory(home: string): (directory: string)
  {
    if !IsAbs(home) || Contains(home, "..") then "" else Render(Elems(home) + [NAMESPACE, DIRECTORY])
  }

  /** The path an acquisition admits for a token. */
  function TemporaryPath(home: string, token: string): string {
    Render(Elems(home) + [NAMESPACE, DIRECTORY, token + SUFFIX])
  }

  /** privateRecoveryPath: the paths recovery removes. */
  predicate PrivateRecoveryPath(path: string) {
    && path != "" && ByteLength(path) <= MAX_PATH
    && Plain(path)
    && IsAbs(path) && Render(Elems(path)) == path
    && var es := Elems(path);
    && |es| >= 4
    && es[|es| - 2] == DIRECTORY && es[|es| - 3] == NAMESPACE
  }

  /** Pieces with a slash between each two. */
  function Joined(pieces: seq<string>): string
    requires pieces != []
  {
    if |pieces| == 1 then pieces[0] else pieces[0] + "/" + Joined(pieces[1..])
  }

  lemma {:induction false} JoinedSplit(s: string)
    ensures Joined(Split(s)) == s
  {
    if s != "" {
      JoinedSplit(s[1..]);
      var rest := Split(s[1..]);
      if s[0] == '/' {
        assert ([""] + rest)[1..] == rest;
        assert Joined([""] + rest) == "/" + s[1..];
      } else {
        assert ([[s[0]] + rest[0]] + rest[1..])[1..] == rest[1..];
        assert |rest| > 1 ==> rest[0] + "/" + Joined(rest[1..]) == s[1..];
      }
      assert s == [s[0]] + s[1..];
    }
  }

  lemma {:induction false} SplitFront(e: string, rest: string)
    requires '/' !in e
    ensures Split(e + "/" + rest) == [e] + Split(rest)
  {
    if e == "" {
      assert (e + "/" + rest)[1..] == rest;
    } else {
      SplitFront(e[1..], rest);
      assert (e + "/" + rest)[1..] == e[1..] + "/" + rest;
      assert [e[0]] + e[1..] == e;
    }
  }

  lemma {:induction false} SplitJoined(pieces: seq<string>)
    requires pieces != [] && forall p | p in pieces :: '/' !in p
    ensures Split(Joined(pieces)) == pieces
  {
    if |pieces| == 1 {
      SplitPlain(pieces[0]);
    } else {
      SplitJoined(pieces[1..]);
      SplitFront(pieces[0], Joined(pieces[1..]));
    }
  }

  /** The pieces of a text are the only slash-free ones that it joins. */
  lemma SplitExactly(s: string, pieces: seq<string>)
    ensures Split(s) == pieces <==> pieces != [] && (forall p | p in pieces :: '/' !in p) && Joined(pieces) == s
  {
    JoinedSplit(s);
    if pieces != [] && (forall p | p in pieces :: '/' !in p) && Joined(pieces) == s { SplitJoined(pieces); }
  }

  /** What stands behind is cleaned by what the front came to. */
  lemma {:induction false} CleanBehind(a: seq<string>, b: seq<string>, rest: seq<string>)
    requires CleanElements(a) == CleanElements(b)
    ensures CleanElements(a + rest) == CleanElements(b + rest)
    decreases |rest|
  {
    if rest == [] {
      assert a + rest == a && b + rest == b;
    } else {
      var n := |rest| - 1;
      CleanBehind(a, b, rest[..n]);
      assert (a + rest)[..|a + rest| - 1] == a + rest[..n] && (b + rest)[..|b + rest| - 1] == b + rest[..n];
    }
  }

  /** The rules of path.Clean on a rooted path: an empty piece or "." is dropped, wherever it stands; ".." goes away
      with the element in front of it; at the root it just goes away; and canonical elements are left alone. */
  lemma CleanRules(front: seq<string>, rest: seq<string>, e: string)
    ensures e == "" || e == "." ==> CleanElements(front + [e] + rest) == CleanElements(front + rest)
    ensures IsElement(e) && e != "." && e != ".." ==>
      CleanElements(front + [e, ".."] + rest) == CleanElements(front + rest)
    ensures CleanElements([".."] + rest) == CleanElements(rest)
    ensures Canonical(rest) ==> CleanElements(rest) == rest
  {
    assert (front + [e])[..|front|] == front;
    assert (front + [e, ".."])[..|front| + 1] == front + [e];
    if e == "" || e == "." {
      CleanBehind(front + [e], front, rest);
    } else if IsElement(e) && e != ".." {
      assert CleanElements(front + [e, ".."]) == CleanElements(front);
      CleanBehind(front + [e, ".."], front, rest);
    }
    CleanBehind([".."], [], rest);
    assert [] + rest == rest;
    if Canonical(rest) { CleanCanonical(rest); }
  }

  lemma {:induction false} CleanCanonical(es: Elements)
    requires Canonical(es)
    ensures CleanElements(es) == es
  {
    if es != [] {
      var front, last := es[..|es| - 1], es[|es| - 1];
      assert forall e | e in front :: e in es;
      assert last in es && front + [last] == es;
      CleanCanonical(front);
    }
  }

  lemma {:induction false} SplitGlued(s: string, e: string)
    requires '/' !in e
    ensures Split(s + "/" + e) == Split(s) + [e]
  {
    if s == "" {
      SplitPlain(e);
      assert (s + "/" + e)[1..] == e;
      assert s + "/" + e == ['/'] + e;
      assert Split(s + "/" + e) == [""] + Split(e);
    } else {
      SplitGlued(s[1..], e);
      assert (s + "/" + e)[1..] == s[1..] + "/" + e;
      var rest := Split(s[1..]);
      assert (rest + [e])[0] == rest[0] && (rest + [e])[1..] == rest[1..] + [e];
    }
  }

  lemma {:induction false} SplitPlain(e: string)
    requires '/' !in e
    ensures Split(e) == [e]
  {
    if e != "" {
      SplitPlain(e[1..]);
      assert [e[0]] + e[1..] == e;
    }
  }

  /** Rendering canonical elements and cleaning the result gives the elements back. */
  lemma {:induction false} CleanRender(es: Elements)
    requires Canonical(es)
    ensures Elems(Render(es)) == es
  {
    if es == [] {
      assert Split("/") == ["", ""];
      assert CleanElements(["", ""][..1]) == [];
    } else {
      CleanGlue(es);
    }
  }

  lemma {:induction false} CleanGlue(es: Elements)
    requires Canonical(es)
    ensures Elems(Glue(es)) == es
  {
    if es == [] {
      assert Split("") == [""];
    } else {
      var front, last := es[..|es| - 1], es[|es| - 1];
      assert forall e | e in front :: e in es;
      assert last in es;
      CleanGlue(front);
      SplitGlued(Glue(front), last);
      var pieces := Split(Glue(front));
      assert (pieces + [last])[..|pieces + [last]| - 1] == pieces;
      assert front + [last] == es;
    }
  }

  /** Every character of a rendered path is a slash or belongs to an element, */
  lemma {:induction false} GlueChars(es: Elements, c: char)
    requires c in Glue(es)
    ensures c == '/' || exists e :: e in es && c in e
  {
    var front, last := es[..|es| - 1], es[|es| - 1];
    if c in Glue(front) {
      GlueChars(front, c);
      if c != '/' {
        var e :| e in front && c in e;
        assert e in es;
      }
    } else if c in last {
      assert last in es;
    }
  }

  /** and every character of an element is in the path. */
  lemma {:induction false} GlueHolds(es: Elements, i: nat, c: char)
    requires i < |es| && c in es[i]
    ensures c in Glue(es)
  {
    if i < |es| - 1 {
      assert es[..|es| - 1][i] == es[i];
      GlueHolds(es[..|es| - 1], i, c);
    }
  }

  lemma {:induction false} GlueStarts(es: Elements)
    requires es != []
    ensures IsAbs(Glue(es))
  {
    if |es| > 1 { GlueStarts(es[..|es| - 1]); }
  }

  predicate Plain(e: string) { forall c | c in e :: !Forbidden(c) }

  predicate AllPlain(es: Elements) { forall e | e in es :: Plain(e) }

  /** A rendered path is free of forbidden characters exactly when its elements are. */
  lemma {:induction false} PlainGlue(es: Elements)
    ensures Plain(Glue(es)) <==> AllPlain(es)
  {
    if AllPlain(es) {
      forall c | c in Glue(es)
        ensures !Forbidden(c)
      {
        GlueChars(es, c);
      }
    } else {
      var i :| 0 <= i < |es| && !Plain(es[i]);
      var c :| c in es[i] && Forbidden(c);
      GlueHolds(es, i, c);
    }
  }

  /** The elements of an admitted path. */
  function TemporaryElements(home: string, token: string): Elements {
    Elems(home) + [NAMESPACE, DIRECTORY, token + SUFFIX]
  }

  lemma TemporaryIsCanonical(home: string, token: string)
    requires IsElement(token)
    ensures Canonical(TemporaryElements(home, token))
    ensures TemporaryPath(home, token) == Glue(TemporaryElements(home, token))
    ensures Elems(TemporaryPath(home, token)) == TemporaryElements(home, token)
    ensures IsAbs(TemporaryPath(home, token))
  {
    var name := token + SUFFIX;
    assert |name| > 2;
    assert '/' !in name;
    CleanRender(TemporaryElements(home, token));
    GlueStarts(TemporaryElements(home, token));
  }

  lemma TemporaryIsPlain(home: string, token: string)
    requires Plain(token)
    ensures AllPlain(TemporaryElements(home, token)) <==> AllPlain(Elems(home))
  {
    var es := TemporaryElements(home, token);
    assert Plain(token + SUFFIX) && Plain(NAMESPACE) && Plain(DIRECTORY);
    if AllPlain(es) {
      forall e | e in Elems(home)
        ensures Plain(e)
      {
        assert e in es;
      }
    }
  }

  /** An admitted temporary is one that recovery will remove exactly when the cleaned home is not the
      root, holds no forbidden character, and leaves room within 1024 bytes. Every other home lets an
      acquisition admit a row that recovery refuses for ever. */
  lemma AdmittedPathIsRecoverable(home: string, token: string)
    requires IsElement(token) && Plain(token)
    ensures PrivateRecoveryPath(TemporaryPath(home, token)) <==>
              Elems(home) != [] && AllPlain(Elems(home)) && ByteLength(TemporaryPath(home, token)) <= MAX_PATH
  {
    var es := TemporaryElements(home, token);
    TemporaryIsCanonical(home, token);
    TemporaryIsPlain(home, token);
    PlainGlue(es);
  }

  lemma RootElements()
    ensures Elems("/") == []
  {
    assert Split("/") == ["", ""];
    assert CleanElements(["", ""][..1]) == [];
  }

  /** The root home is accepted by an acquisition, and its temporary is refused by recovery. */
  lemma RootHomeIsNeverRecovered(token: string)
    requires IsElement(token) && Plain(token)
    ensures PrivateDirectory("/") == "/.bac-nexus/tmp"
    ensures !PrivateRecoveryPath(TemporaryPath("/", token))
  {
    RootElements();
    AdmittedPathIsRecoverable("/", token);
    var es := [NAMESPACE, DIRECTORY];
    assert es[..1] == [NAMESPACE] && [NAMESPACE][..0] == [];
    assert Glue([NAMESPACE]) == "/.bac-nexus";
    assert Glue(es) == "/.bac-nexus" + "/" + "tmp";
    assert [] + es == es;
  }
}
