/** The duplicate-key JSON cursor, over UTF-16 code units as the companion's strings are. Texts follow the grammar
    of section 2 of RFC 8259; the cursor runs on texts that JSON.parse has accepted. */
module StrictJson {
  type unit = u: int | 0 <= u < 0x1_0000

  type Text = seq<unit>

  const QUOTE: unit := 0x22
  const COMMA: unit := 0x2C
  const COLON: unit := 0x3A
  const BACKSLASH: unit := 0x5C
  const OPEN_ARRAY: unit := 0x5B
  const CLOSE_ARRAY: unit := 0x5D
  const OPEN_OBJECT: unit := 0x7B
  const CLOSE_OBJECT: unit := 0x7D
  const MINUS: unit := 0x2D
  const PLUS: unit := 0x2B
  const POINT: unit := 0x2E

  datatype Option<T> = None | Some(value: T)

  // ---- Grammar ----

  /** Insignificant white space of the grammar. */
  predicate Gap(u: unit) { u == 0x20 || u == 0x09 || u == 0x0A || u == 0x0D }

  predicate IsGap(t: Text) { forall i | 0 <= i < |t| :: Gap(t[i]) }

  predicate Digit(u: unit) { 0x30 <= u <= 0x39 }

  function DigitRun(t: Text): (n: nat)
    ensures n <= |t|
    ensures forall i | 0 <= i < n :: Digit(t[i])
  {
    if t == [] || !Digit(t[0]) then 0 else 1 + DigitRun(t[1..])
  }

  predicate IsExponent(t: Text) {
    t == [] || ((t[0] == 0x65 || t[0] == 0x45) &&
      var j := if |t| > 1 && (t[1] == PLUS || t[1] == MINUS) then 2 else 1;
      DigitRun(t[j..]) == |t| - j >= 1)
  }

  predicate IsFraction(t: Text) {
    if t == [] || t[0] != POINT then IsExponent(t)
    else DigitRun(t[1..]) >= 1 && IsExponent(t[1 + DigitRun(t[1..])..])
  }

  predicate IsNumber(t: Text) {
    var i := if t != [] && t[0] == MINUS then 1 else 0;
    var n := DigitRun(t[i..]);
    n >= 1 && (t[i] == 0x30 ==> n == 1) && IsFraction(t[i + n..])
  }

  // The number grammar of section 6 of RFC 8259, production by production.

  predicate Digits(t: Text) { t != [] && forall i | 0 <= i < |t| :: Digit(t[i]) }

  predicate IsInteger(t: Text) { Digits(t) && (t[0] == 0x30 ==> |t| == 1) }

  predicate IsFrac(t: Text) { t == [] || (t[0] == POINT && Digits(t[1..])) }

  predicate IsExp(t: Text) {
    t == [] || ((t[0] == 0x65 || t[0] == 0x45) &&
      (Digits(t[1..]) || (|t| > 1 && (t[1] == PLUS || t[1] == MINUS) && Digits(t[2..]))))
  }

  predicate Produces(sign: Text, whole: Text, frac: Text, exp: Text) {
    (sign == [] || sign == [MINUS]) && IsInteger(whole) && IsFrac(frac) && IsExp(exp)
  }

  lemma {:induction false} RunOf(digits: Text, rest: Text)
    requires forall i | 0 <= i < |digits| :: Digit(digits[i])
    requires rest == [] || !Digit(rest[0])
    ensures DigitRun(digits + rest) == |digits|
  {
    if digits == [] {
      assert digits + rest == rest;
    } else {
      assert (digits + rest)[1..] == digits[1..] + rest;
      RunOf(digits[1..], rest);
    }
  }

  lemma AllRun(t: Text)
    ensures Digits(t) <==> DigitRun(t) == |t| >= 1
  {
    if Digits(t) {
      RunOf(t, []);
      assert t + [] == t;
    }
  }

  lemma ExpIs(t: Text)
    ensures IsExponent(t) <==> IsExp(t)
  {
    if |t| > 0 { AllRun(t[1..]); }
    if |t| > 1 { AllRun(t[2..]); }
  }

  lemma FractionOf(frac: Text, exp: Text)
    requires IsFrac(frac) && IsExp(exp)
    ensures IsFraction(frac + exp)
  {
    ExpIs(exp);
    if frac == [] {
      assert frac + exp == exp;
    } else {
      assert (frac + exp)[1..] == frac[1..] + exp;
      RunOf(frac[1..], exp);
      assert (frac + exp)[|frac|..] == exp;
    }
  }

  lemma FractionIs(t: Text) returns (frac: Text, exp: Text)
    requires IsFraction(t)
    ensures IsFrac(frac) && IsExp(exp) && t == frac + exp
  {
    var n := if t == [] || t[0] != POINT then 0 else 1 + DigitRun(t[1..]);
    frac, exp := t[..n], t[n..];
    ExpIs(exp);
    if n > 0 { assert forall i | 0 <= i < n - 1 :: frac[1..][i] == t[1..][i]; }
  }

  lemma NumberIs(t: Text) returns (sign: Text, whole: Text, frac: Text, exp: Text)
    requires IsNumber(t)
    ensures Produces(sign, whole, frac, exp) && t == sign + whole + frac + exp
  {
    hide IsFraction, IsFrac, IsExp;
    var i := if t != [] && t[0] == MINUS then 1 else 0;
    var n := DigitRun(t[i..]);
    sign, whole := t[..i], t[i..][..n];
    frac, exp := FractionIs(t[i + n..]);
    assert t == sign + whole + t[i + n..];
  }

  lemma NumberOf(sign: Text, whole: Text, frac: Text, exp: Text)
    requires Produces(sign, whole, frac, exp)
    ensures IsNumber(sign + whole + frac + exp)
  {
    FractionOf(frac, exp);
    SignedOf(sign, whole, frac + exp);
    assert sign + whole + frac + exp == sign + whole + (frac + exp);
  }

  lemma SignedOf(sign: Text, whole: Text, rest: Text)
    requires (sign == [] || sign == [MINUS]) && IsInteger(whole)
    requires IsFraction(rest) && (rest == [] || !Digit(rest[0]))
    ensures IsNumber(sign + whole + rest)
  {
    hide IsFraction, DigitRun;
    RunOf(whole, rest);
    assert (whole + rest)[|whole|..] == rest;
    if sign == [] {
      assert sign + whole + rest == whole + rest && (whole + rest)[0..] == whole + rest;
    } else {
      var t := sign + whole + rest;
      assert t[1..] == whole + rest && t[1 + |whole|..] == rest;
    }
  }

  /** A number is exactly what the grammar produces. */
  lemma NumberExactly(t: Text)
    ensures IsNumber(t) <==>
      exists sign, whole, frac, exp :: Produces(sign, whole, frac, exp) && t == sign + whole + frac + exp
  {
    hide IsNumber, Produces;
    if IsNumber(t) {
      var sign, whole, frac, exp := NumberIs(t);
    } else if exists sign, whole, frac, exp :: Produces(sign, whole, frac, exp) && t == sign + whole + frac + exp {
      var sign, whole, frac, exp :| Produces(sign, whole, frac, exp) && t == sign + whole + frac + exp;
      NumberOf(sign, whole, frac, exp);
    }
  }

  const TRUE: Text := [0x74, 0x72, 0x75, 0x65]
  const FALSE: Text := [0x66, 0x61, 0x6C, 0x73, 0x65]
  const NULL: Text := [0x6E, 0x75, 0x6C, 0x6C]

  predicate IsPrimitive(t: Text) { t == TRUE || t == FALSE || t == NULL || IsNumber(t) }

  function HexValue(u: unit): Option<int> {
    if Digit(u) then Some(u - 0x30)
    else if 0x41 <= u <= 0x46 then Some(u - 0x41 + 10)
    else if 0x61 <= u <= 0x66 then Some(u - 0x61 + 10)
    else None
  }

  function Simple(u: unit): Option<unit> {
    if u == QUOTE || u == BACKSLASH || u == 0x2F then Some(u)
    else if u == 0x62 then Some(0x08) else if u == 0x66 then Some(0x0C) else if u == 0x6E then Some(0x0A)
    else if u == 0x72 then Some(0x0D) else if u == 0x74 then Some(0x09)
    else None
  }

  /** The unit written by four hexadecimal digits. */
  function Hex(t: Text): Option<unit>
    requires |t| == 4
  {
    var a, b, c, d := HexValue(t[0]), HexValue(t[1]), HexValue(t[2]), HexValue(t[3]);
    if a.Some? && b.Some? && c.Some? && d.Some?
    then Some(a.value * 0x1000 + b.value * 0x100 + c.value * 0x10 + d.value) else None
  }

  function Prepend(u: unit, rest: Option<Text>): Option<Text> {
    if rest.Some? then Some([u] + rest.value) else None
  }

  /** The meaning of what stands between the quotes of a string, or None. */
  function Decoded(body: Text): Option<Text> {
    if body == [] then Some([])
    else if body[0] == BACKSLASH then
      if |body| >= 6 && body[1] == 0x75 && Hex(body[2..6]).Some?
      then Prepend(Hex(body[2..6]).value, Decoded(body[6..]))
      else if |body| >= 2 && Simple(body[1]).Some? then Prepend(Simple(body[1]).value, Decoded(body[2..]))
      else None
    else if body[0] == QUOTE || body[0] < 0x20 then None
    else Prepend(body[0], Decoded(body[1..]))
  }

  // ---- Writing ----

  /** How a unit is written between the quotes: as it is, by a letter behind a backslash, or by four hexadecimal digits,
      each in one case or the other. */
  datatype Form = Raw | Short | Escaped(a: bool, b: bool, c: bool, d: bool)

  const LOWER: string := "0123456789abcdef"
  const UPPER: string := "0123456789ABCDEF"

  function DigitOf(n: nat, upper: bool): unit
    requires n < 16
  {
    (if upper then UPPER[n] else LOWER[n]) as int
  }

  /** The letter behind the backslash. */
  function Letter(u: unit): Option<unit> {
    match u
    case 0x22 => Some('"' as int)
    case 0x5C => Some('\\' as int)
    case 0x2F => Some('/' as int)
    case 0x08 => Some('b' as int)
    case 0x0C => Some('f' as int)
    case 0x0A => Some('n' as int)
    case 0x0D => Some('r' as int)
    case 0x09 => Some('t' as int)
    case _ => None
  }

  predicate MayWrite(u: unit, form: Form) {
    match form
    case Raw => u >= 0x20 && u != QUOTE && u != BACKSLASH
    case Short => Letter(u).Some?
    case Escaped(_, _, _, _) => true
  }

  function WriteUnit(u: unit, form: Form): Text
    requires MayWrite(u, form)
  {
    match form
    case Raw => [u]
    case Short => [BACKSLASH, Letter(u).value]
    case Escaped(a, b, c, d) =>
      var v := u / 0x10;
      var w := v / 0x10;
      [BACKSLASH, 'u' as int, DigitOf(w / 0x10, a), DigitOf(w % 0x10, b), DigitOf(v % 0x10, c), DigitOf(u % 0x10, d)]
  }

  predicate MayWriteAll(text: Text, forms: seq<Form>) {
    |forms| == |text| && forall i | 0 <= i < |text| :: MayWrite(text[i], forms[i])
  }

  function Write(text: Text, forms: seq<Form>): Text
    requires MayWriteAll(text, forms)
  {
    if text == [] then [] else WriteUnit(text[0], forms[0]) + Write(text[1..], forms[1..])
  }

  lemma DigitValue(n: nat, upper: bool)
    requires n < 16
    ensures HexValue(DigitOf(n, upper)) == Some(n)
  {
  }

  lemma ValueDigit(u: unit) returns (upper: bool)
    requires HexValue(u).Some?
    ensures 0 <= HexValue(u).value < 16 && DigitOf(HexValue(u).value, upper) == u
  {
    upper := 0x41 <= u <= 0x46;
  }

  lemma HexOfUnit(u: unit, form: Form)
    requires form.Escaped?
    ensures Hex(WriteUnit(u, form)[2..6]) == Some(u)
  {
    hide HexValue, DigitOf;
    var v := u / 0x10;
    var w := v / 0x10;
    DigitValue(w / 0x10, form.a);
    DigitValue(w % 0x10, form.b);
    DigitValue(v % 0x10, form.c);
    DigitValue(u % 0x10, form.d);
  }

  /** The four digits of an escape are a writing of the unit they give. */
  lemma UnitOfHex(t: Text) returns (form: Form)
    requires |t| == 4 && Hex(t).Some?
    ensures form.Escaped? && WriteUnit(Hex(t).value, form) == [BACKSLASH, 0x75] + t
  {
    hide Hex, HexValue, DigitOf, WriteUnit;
    HexPlaces(t);
    var a := ValueDigit(t[0]);
    var b := ValueDigit(t[1]);
    var c := ValueDigit(t[2]);
    var d := ValueDigit(t[3]);
    form := Escaped(a, b, c, d);
    FourDigits(HexValue(t[0]).value, HexValue(t[1]).value, HexValue(t[2]).value, HexValue(t[3]).value, form);
    assert t == [t[0], t[1], t[2], t[3]];
  }

  lemma HexPlaces(t: Text)
    requires |t| == 4 && Hex(t).Some?
    ensures forall i | 0 <= i < 4 :: HexValue(t[i]).Some?
    ensures Hex(t).value == HexValue(t[0]).value * 0x1000 + HexValue(t[1]).value * 0x100
      + HexValue(t[2]).value * 0x10 + HexValue(t[3]).value
  {
    hide HexValue;
  }

  lemma FourDigits(a: int, b: int, c: int, d: int, form: Form)
    requires 0 <= a < 16 && 0 <= b < 16 && 0 <= c < 16 && 0 <= d < 16 && form.Escaped?
    ensures var u := a * 0x1000 + b * 0x100 + c * 0x10 + d;
      && 0 <= u < 0x1_0000
      && WriteUnit(u, form) ==
           [BACKSLASH, 0x75, DigitOf(a, form.a), DigitOf(b, form.b), DigitOf(c, form.c), DigitOf(d, form.d)]
  {
    hide DigitOf;
    Places(a, b, c, d);
  }

  lemma Places(a: int, b: int, c: int, d: int)
    requires 0 <= a < 16 && 0 <= b < 16 && 0 <= c < 16 && 0 <= d < 16
    ensures var u := a * 0x1000 + b * 0x100 + c * 0x10 + d; var v := u / 0x10; var w := v / 0x10;
      0 <= u < 0x1_0000 && w / 0x10 == a && w % 0x10 == b && v % 0x10 == c && u % 0x10 == d
  {
    var u := a * 0x1000 + b * 0x100 + c * 0x10 + d;
    Place(a * 0x100 + b * 0x10 + c, d);
    Place(a * 0x10 + b, c);
    Place(a, b);
    assert u == (a * 0x100 + b * 0x10 + c) * 0x10 + d;
  }

  lemma Place(high: int, low: int)
    requires 0 <= low < 16
    ensures (high * 0x10 + low) / 0x10 == high && (high * 0x10 + low) % 0x10 == low
  {
  }

  lemma SimpleLetter(u: unit)
    ensures Letter(u).Some? ==> Simple(Letter(u).value) == Some(u) && Letter(u).value != 0x75
    ensures Simple(u).Some? ==> Letter(Simple(u).value) == Some(u)
  {
  }

  /** One written unit comes back first. */
  lemma DecodedStep(u: unit, form: Form, rest: Text)
    requires MayWrite(u, form)
    ensures Decoded(WriteUnit(u, form) + rest) == Prepend(u, Decoded(rest))
  {
    var body := WriteUnit(u, form) + rest;
    SimpleLetter(u);
    match form {
      case Raw => assert body[1..] == rest;
      case Short => assert body[2..] == rest;
      case Escaped(_, _, _, _) =>
        HexOfUnit(u, form);
        assert body[2..6] == WriteUnit(u, form)[2..6] && body[6..] == rest;
    }
  }

  /** What is written is decoded, however it is written. */
  lemma {:induction false} DecodedOfWriting(text: Text, forms: seq<Form>)
    requires MayWriteAll(text, forms)
    ensures Decoded(Write(text, forms)) == Some(text)
  {
    if text != [] {
      DecodedOfWriting(text[1..], forms[1..]);
      hide Decoded;
      DecodedStep(text[0], forms[0], Write(text[1..], forms[1..]));
      assert [text[0]] + text[1..] == text;
    }
  }

  /** What is decoded was written. */
  lemma {:induction false} WritingOfDecoded(body: Text) returns (forms: seq<Form>)
    requires Decoded(body).Some?
    ensures MayWriteAll(Decoded(body).value, forms) && Write(Decoded(body).value, forms) == body
    decreases |body|
  {
    if body == [] {
      forms := [];
    } else {
      var form, n := FirstWriting(body);
      var u, rest := Decoded(body).value[0], body[n..];
      var more := WritingOfDecoded(rest);
      forms := [form] + more;
      assert Decoded(body).value[1..] == Decoded(rest).value && forms[1..] == more;
      assert body == body[..n] + rest;
    }
  }

  lemma FirstWriting(body: Text) returns (form: Form, n: nat)
    requires body != [] && Decoded(body).Some?
    ensures 1 <= n <= |body| && Decoded(body[n..]).Some?
    ensures var text := Decoded(body).value;
      && text == [text[0]] + Decoded(body[n..]).value
      && MayWrite(text[0], form) && WriteUnit(text[0], form) == body[..n]
  {
    if body[0] != BACKSLASH {
      form, n := Raw, 1;
    } else if |body| >= 6 && body[1] == 0x75 && Hex(body[2..6]).Some? {
      form := UnitOfHex(body[2..6]);
      n := 6;
      assert body[..6] == [BACKSLASH, 0x75] + body[2..6];
    } else {
      SimpleLetter(body[1]);
      form, n := Short, 2;
    }
  }

  /** The body stands for the text: it is one of the ways to write it. */
  ghost predicate Writes(body: Text, text: Text) {
    exists forms :: MayWriteAll(text, forms) && Write(text, forms) == body
  }

  lemma DecodedExactly(body: Text, text: Text)
    ensures Decoded(body) == Some(text) <==> Writes(body, text)
  {
    if Decoded(body) == Some(text) {
      var forms := WritingOfDecoded(body);
    } else if Writes(body, text) {
      var forms :| MayWriteAll(text, forms) && Write(text, forms) == body;
      DecodedOfWriting(text, forms);
    }
  }

  /** A value as it is written, gaps included. A string is given by what stands between its quotes. */
  datatype Value =
    | Str(body: Text)
    | Prim(token: Text)
    | EmptyArr(gap: Text)
    | Arr(items: Items)
    | EmptyObj(gap: Text)
    | Obj(members: Members)

  datatype Items = Items(before: Text, value: Value, after: Text, rest: Option<Items>)

  datatype Members = Members(before: Text, key: Text, gap: Text, inner: Text, value: Value, after: Text,
                             rest: Option<Members>)

  predicate WellFormed(v: Value) {
    match v
    case Str(body) => Decoded(body).Some?
    case Prim(token) => IsPrimitive(token)
    case EmptyArr(gap) => IsGap(gap)
    case Arr(items) => WellFormedItems(items)
    case EmptyObj(gap) => IsGap(gap)
    case Obj(members) => WellFormedMembers(members)
  }

  predicate WellFormedItems(t: Items) {
    IsGap(t.before) && WellFormed(t.value) && IsGap(t.after) && (t.rest.Some? ==> WellFormedItems(t.rest.value))
  }

  predicate WellFormedMembers(m: Members) {
    && IsGap(m.before) && Decoded(m.key).Some? && IsGap(m.gap) && IsGap(m.inner) && WellFormed(m.value)
    && IsGap(m.after) && (m.rest.Some? ==> WellFormedMembers(m.rest.value))
  }

  function Quoted(body: Text): Text { [QUOTE] + (body + [QUOTE]) }

  function Render(v: Value): Text {
    match v
    case Str(body) => Quoted(body)
    case Prim(token) => token
    case EmptyArr(gap) => [OPEN_ARRAY] + (gap + [CLOSE_ARRAY])
    case Arr(items) => [OPEN_ARRAY] + RenderItems(items)
    case EmptyObj(gap) => [OPEN_OBJECT] + (gap + [CLOSE_OBJECT])
    case Obj(members) => [OPEN_OBJECT] + RenderMembers(members)
  }

  /** Up to and including the closing bracket. */
  function RenderItems(t: Items): Text
    decreases t, 1
  {
    t.before + (Render(t.value) + (t.after + ItemsTail(t)))
  }

  function ItemsTail(t: Items): Text
    decreases t, 0
  {
    if t.rest.Some? then [COMMA] + RenderItems(t.rest.value) else [CLOSE_ARRAY]
  }

  function RenderMembers(m: Members): Text
    decreases m, 2
  {
    m.before + RenderMember(m)
  }

  /** From the key on. */
  function RenderMember(m: Members): Text
    decreases m, 1
  {
    Quoted(m.key) + (m.gap + ([COLON] + (m.inner + (Render(m.value) + (m.after + MembersTail(m))))))
  }

  function MembersTail(m: Members): Text
    decreases m, 0
  {
    if m.rest.Some? then [COMMA] + RenderMembers(m.rest.value) else [CLOSE_OBJECT]
  }

  /** The decoded keys of an object in order. */
  function Keys(m: Members): seq<Text>
    requires WellFormedMembers(m)
  {
    [Decoded(m.key).value] + (if m.rest.Some? then Keys(m.rest.value) else [])
  }

  predicate Distinct(keys: seq<Text>) { forall i, j | 0 <= i < j < |keys| :: keys[i] != keys[j] }

  /** Some object at any depth repeats a decoded key. */
  predicate Repeats(v: Value)
    requires WellFormed(v)
  {
    match v
    case Arr(items) => RepeatsInItems(items)
    case Obj(members) => !Distinct(Keys(members)) || RepeatsInMembers(members)
    case _ => false
  }

  predicate RepeatsInItems(t: Items)
    requires WellFormedItems(t)
  {
    Repeats(t.value) || (t.rest.Some? && RepeatsInItems(t.rest.value))
  }

  predicate RepeatsInMembers(m: Members)
    requires WellFormedMembers(m)
  {
    Repeats(m.value) || (m.rest.Some? && RepeatsInMembers(m.rest.value))
  }

  // ---- What the cursor computes ----

  /** The regular expression class \s. */
  predicate Space(u: unit) {
    || 0x09 <= u <= 0x0D || u == 0x20 || u == 0xA0 || u == 0x1680 || 0x2000 <= u <= 0x200A || u == 0x2028
    || u == 0x2029 || u == 0x202F || u == 0x205F || u == 0x3000 || u == 0xFEFF
  }

  predicate Stops(u: unit) { Space(u) || u == COMMA || u == CLOSE_OBJECT || u == CLOSE_ARRAY }

  /** A read ends at a position, throws, or never ends. */
  datatype Outcome = Done(position: nat) | Threw | Hung

  datatype MemberOutcome = Member(position: nat, key: Text) | Stopped(outcome: Outcome)

  datatype StringOutcome = Read(position: nat, key: Text) | BadString

  predicate Has(s: Text, p: nat, u: unit) { p < |s| && s[p] == u }

  function SkipSpace(s: Text, p: nat): (q: nat)
    ensures p <= q && (p <= |s| ==> q <= |s|)
    ensures q < |s| ==> !Space(s[q])
    decreases |s| - p
  {
    if p < |s| && Space(s[p]) then SkipSpace(s, p + 1) else p
  }

  /** One past the closing quote, from inside a string. */
  function StringEnd(s: Text, p: nat): (end: Option<nat>)
    ensures end.Some? ==> p < end.value <= |s|
    decreases |s| - p
  {
    if p >= |s| then None
    else if s[p] == BACKSLASH then StringEnd(s, p + 2)
    else if s[p] == QUOTE then Some(p + 1)
    else StringEnd(s, p + 1)
  }

  function ReadString(s: Text, p: nat): (r: StringOutcome)
    ensures r.Read? ==> p < r.position <= |s|
  {
    if !Has(s, p, QUOTE) then BadString
    else
      var end := StringEnd(s, p + 1);
      if end.None? then BadString
      else
        var key := Decoded(s[p + 1..end.value - 1]);
        if key.Some? then Read(end.value, key.value) else BadString
  }

  function PrimitiveEnd(s: Text, p: nat): (q: nat)
    ensures p <= q && (p <= |s| ==> q <= |s|)
    ensures q < |s| ==> Stops(s[q])
    decreases |s| - p
  {
    if p < |s| && !Stops(s[p]) then PrimitiveEnd(s, p + 1) else p
  }

  /** Past the end nothing stops the loop. */
  function ReadPrimitive(s: Text, p: nat): (r: Outcome)
    ensures r.Done? ==> p < r.position <= |s|
  {
    var q := PrimitiveEnd(s, p);
    if q >= |s| then Hung else if q == p || !IsPrimitive(s[p..q]) then Threw else Done(q)
  }

  function ReadValue(s: Text, p: nat): (r: Outcome)
    ensures r.Done? ==> p < r.position <= |s|
    decreases |s| - p, 2
  {
    var q := SkipSpace(s, p);
    if Has(s, q, OPEN_OBJECT) then ReadObject(s, q)
    else if Has(s, q, OPEN_ARRAY) then ReadArray(s, q)
    else if Has(s, q, QUOTE) then
      var r := ReadString(s, q);
      if r.Read? then Done(r.position) else Threw
    else ReadPrimitive(s, q)
  }

  function ReadObject(s: Text, p: nat): (r: Outcome)
    requires p < |s|
    ensures r.Done? ==> p < r.position <= |s|
    decreases |s| - p, 1
  {
    var q := SkipSpace(s, p + 1);
    if Has(s, q, CLOSE_OBJECT) then Done(q + 1) else ReadMembers(s, q, {})
  }

  /** One member and the space behind it; the key must be new. */
  function ReadMember(s: Text, p: nat, keys: set<Text>): (r: MemberOutcome)
    ensures r.Member? ==> p < r.position <= |s|
    ensures r.Stopped? ==> !r.outcome.Done?
    decreases |s| - p, 3
  {
    var key := ReadString(s, p);
    if key.BadString? || key.key in keys then Stopped(Threw)
    else
      var q := SkipSpace(s, key.position);
      if !Has(s, q, COLON) then Stopped(Threw)
      else
        var value := ReadValue(s, q + 1);
        if value.Done? then Member(SkipSpace(s, value.position), key.key) else Stopped(value)
  }

  function ReadMembers(s: Text, p: nat, keys: set<Text>): (r: Outcome)
    ensures r.Done? ==> p < r.position <= |s|
    decreases |s| - p, 4
  {
    match ReadMember(s, p, keys)
    case Stopped(outcome) => outcome
    case Member(e, key) =>
      if Has(s, e, CLOSE_OBJECT) then Done(e + 1)
      else if !Has(s, e, COMMA) then Threw
      else ReadMembers(s, SkipSpace(s, e + 1), keys + {key})
  }

  function ReadArray(s: Text, p: nat): (r: Outcome)
    requires p < |s|
    ensures r.Done? ==> p < r.position <= |s|
    decreases |s| - p, 1
  {
    var q := SkipSpace(s, p + 1);
    if Has(s, q, CLOSE_ARRAY) then Done(q + 1) else ReadItems(s, q)
  }

  function ReadItems(s: Text, p: nat): (r: Outcome)
    ensures r.Done? ==> p < r.position <= |s|
    decreases |s| - p, 3
  {
    var value := ReadValue(s, p);
    if !value.Done? then value
    else
      var e := SkipSpace(s, value.position);
      if Has(s, e, CLOSE_ARRAY) then Done(e + 1)
      else if !Has(s, e, COMMA) then Threw
      else ReadItems(s, SkipSpace(s, e + 1))
  }

  /** The whole check, after JSON.parse has accepted the text. */
  function Checked(s: Text): Outcome {
    var r := ReadValue(s, 0);
    if !r.Done? then r
    else
      var e := SkipSpace(s, r.position);
      if e == |s| then Done(e) else Threw
  }

  // ---- The cursor ----

  class JSONCursor {
    const source: Text
    var position: nat

    constructor (source: Text)
      ensures this.source == source && position == 0
    {
      this.source, this.position := source, 0;
    }

    method SkipWhitespace()
      modifies this
      ensures position == SkipSpace(source, old(position))
    {
      while position < |source| && Space(source[position])
        invariant SkipSpace(source, position) == SkipSpace(source, old(position))
      {
        position := position + 1;
      }
    }

    method Expect(u: unit) returns (ok: bool)
      modifies this
      ensures ok == Has(source, old(position), u)
      ensures position == if ok then old(position) + 1 else old(position)
    {
      ok := Has(source, position, u);
      if ok { position := position + 1; }
    }

    method ReadStringHere() returns (r: StringOutcome)
      modifies this
      ensures r == ReadString(source, old(position))
      ensures r.Read? ==> position == r.position
    {
      hide Decoded;
      var start := position;
      var ok := Expect(QUOTE);
      if !ok { return BadString; }
      while position < |source|
        invariant start < position
        invariant StringEnd(source, position) == StringEnd(source, start + 1)
        decreases |source| - position
      {
        var character := source[position];
        position := position + 1;
        if character == BACKSLASH {
          position := position + 1;
        } else if character == QUOTE {
          var key := Decoded(source[start + 1..position - 1]);
          return if key.Some? then Read(position, key.value) else BadString;
        }
      }
      return BadString;
    }

    /** The loop runs off the end when nothing there stops it; the model reports that. */
    method ReadPrimitiveHere() returns (r: Outcome)
      modifies this
      ensures r == ReadPrimitive(source, old(position))
      ensures r.Done? ==> position == r.position
    {
      var start := position;
      while position < |source| && !Stops(source[position])
        invariant start <= position
        invariant PrimitiveEnd(source, position) == PrimitiveEnd(source, start)
      {
        position := position + 1;
      }
      if position >= |source| { return Hung; }
      if position == start || !IsPrimitive(source[start..position]) { return Threw; }
      return Done(position);
    }

    method ReadValueHere() returns (r: Outcome)
      requires position <= |source|
      modifies this
      ensures r == ReadValue(source, old(position))
      ensures r.Done? ==> position == r.position
      decreases |source| - position, 2
    {
      SkipWhitespace();
      if Has(source, position, OPEN_OBJECT) {
        r := ReadObjectHere();
      } else if Has(source, position, OPEN_ARRAY) {
        r := ReadArrayHere();
      } else if Has(source, position, QUOTE) {
        var text := ReadStringHere();
        r := if text.Read? then Done(text.position) else Threw;
      } else {
        r := ReadPrimitiveHere();
      }
    }

    method ReadMemberHere(keys: set<Text>) returns (r: MemberOutcome)
      requires position <= |source|
      modifies this
      ensures r == ReadMember(source, old(position), keys)
      ensures r.Member? ==> position == r.position
      decreases |source| - position, 3
    {
      var key := ReadStringHere();
      if key.BadString? || key.key in keys { return Stopped(Threw); }
      SkipWhitespace();
      var ok := Expect(COLON);
      if !ok { return Stopped(Threw); }
      var value := ReadValueHere();
      if !value.Done? { return Stopped(value); }
      SkipWhitespace();
      return Member(position, key.key);
    }

    method ReadObjectHere() returns (r: Outcome)
      requires position < |source|
      modifies this
      ensures r == ReadObject(source, old(position))
      ensures r.Done? ==> position == r.position
      decreases |source| - position, 1
    {
      hide SkipSpace, ReadMember;
      var keys: set<Text> := {};
      position := position + 1;
      SkipWhitespace();
      var ended := Expect(CLOSE_OBJECT);
      if ended { return Done(position); }
      ghost var p0 := position;
      while true
        invariant old(position) < position <= |source|
        invariant ReadMembers(source, position, keys) == ReadMembers(source, p0, {})
        decreases |source| - position
      {
        var member := ReadMemberHere(keys);
        if member.Stopped? { return member.outcome; }
        keys := keys + {member.key};
        ended := Expect(CLOSE_OBJECT);
        if ended { return Done(position); }
        var ok := Expect(COMMA);
        if !ok { return Threw; }
        SkipWhitespace();
      }
    }

    method ReadArrayHere() returns (r: Outcome)
      requires position < |source|
      modifies this
      ensures r == ReadArray(source, old(position))
      ensures r.Done? ==> position == r.position
      decreases |source| - position, 1
    {
      hide SkipSpace, ReadValue;
      position := position + 1;
      SkipWhitespace();
      var ended := Expect(CLOSE_ARRAY);
      if ended { return Done(position); }
      ghost var p0 := position;
      while true
        invariant old(position) < position <= |source|
        invariant ReadItems(source, position) == ReadItems(source, p0)
        decreases |source| - position
      {
        r := ReadValueHere();
        if !r.Done? { return; }
        SkipWhitespace();
        ended := Expect(CLOSE_ARRAY);
        if ended { return Done(position); }
        var ok := Expect(COMMA);
        if !ok { return Threw; }
        SkipWhitespace();
      }
    }
  }

  /** parseStrictJSON after JSON.parse has accepted the text. */
  method ParseStrict(source: Text) returns (r: Outcome)
    ensures r == Checked(source)
  {
    var cursor := new JSONCursor(source);
    r := cursor.ReadValueHere();
    if !r.Done? { return; }
    cursor.SkipWhitespace();
    return if cursor.position == |source| then Done(cursor.position) else Threw;
  }

  // ---- Reading what was rendered ----

  /** `t` stands at position `p`. */
  predicate At(s: Text, p: nat, t: Text) { p + |t| <= |s| && s[p..p + |t|] == t }

  lemma AtSplit(s: Text, p: nat, a: Text, b: Text)
    requires At(s, p, a + b)
    ensures At(s, p, a) && At(s, p + |a|, b)
  {
    var t := a + b;
    assert t[..|a|] == a && t[|a|..] == b;
    assert s[p..p + |a|] == s[p..p + |t|][..|a|];
    assert s[p + |a|..p + |a| + |b|] == s[p..p + |t|][|a|..];
  }

  lemma AtIndex(s: Text, p: nat, t: Text, i: nat)
    requires At(s, p, t) && i < |t|
    ensures Has(s, p + i, t[i])
  {
    assert s[p..p + |t|][i] == t[i];
  }

  lemma {:induction false} SkipGap(s: Text, p: nat, gap: Text)
    requires At(s, p, gap) && IsGap(gap)
    requires p + |gap| < |s| ==> !Space(s[p + |gap|])
    ensures SkipSpace(s, p) == p + |gap|
    decreases |gap|
  {
    if gap != [] {
      AtIndex(s, p, gap, 0);
      assert gap == [gap[0]] + gap[1..];
      AtSplit(s, p, [gap[0]], gap[1..]);
      SkipGap(s, p + 1, gap[1..]);
    }
  }

  lemma {:induction false} StringEndAt(s: Text, p: nat, body: Text)
    requires At(s, p, body) && Has(s, p + |body|, QUOTE) && Decoded(body).Some?
    ensures StringEnd(s, p) == Some(p + |body| + 1)
    decreases |body|, 0
  {
    if body != [] {
      AtIndex(s, p, body, 0);
      if body[0] == BACKSLASH {
        if |body| >= 6 && body[1] == 0x75 && Hex(body[2..6]).Some? {
          HexDigits(s, p, body);
          StringEndRest(s, p, body, 6);
        } else {
          StringEndRest(s, p, body, 2);
        }
      } else {
        StringEndRest(s, p, body, 1);
      }
    }
  }

  lemma {:induction false} StringEndRest(s: Text, p: nat, body: Text, n: nat)
    requires At(s, p, body) && Has(s, p + |body|, QUOTE) && 1 <= n <= |body| && Decoded(body[n..]).Some?
    ensures StringEnd(s, p + n) == Some(p + |body| + 1)
    decreases |body| - n, 1
  {
    hide Decoded;
    assert body == body[..n] + body[n..];
    AtSplit(s, p, body[..n], body[n..]);
    StringEndAt(s, p + n, body[n..]);
  }

  /** The four digits of an escape are passed over one by one. */
  lemma HexDigits(s: Text, p: nat, body: Text)
    requires At(s, p, body) && |body| >= 6 && Hex(body[2..6]).Some?
    ensures StringEnd(s, p + 2) == StringEnd(s, p + 6)
  {
    HexDigit(s, p, body, 2);
    HexDigit(s, p, body, 3);
    HexDigit(s, p, body, 4);
    HexDigit(s, p, body, 5);
  }

  lemma HexDigit(s: Text, p: nat, body: Text, i: nat)
    requires At(s, p, body) && |body| >= 6 && Hex(body[2..6]).Some? && 2 <= i < 6
    ensures StringEnd(s, p + i) == StringEnd(s, p + i + 1)
  {
    AtIndex(s, p, body, i);
    assert body[2..6][i - 2] == body[i];
  }

  lemma ReadStringFrom(s: Text, p: nat, body: Text)
    requires Has(s, p, QUOTE) && At(s, p + 1, body) && StringEnd(s, p + 1) == Some(p + |body| + 2)
    ensures Decoded(body).Some? ==> ReadString(s, p) == Read(p + |body| + 2, Decoded(body).value)
  {
    hide Decoded, StringEnd;
    var end := p + |body| + 2;
    assert s[p + 1..end - 1] == body;
  }

  lemma ReadStringAt(s: Text, p: nat, body: Text)
    requires At(s, p, Quoted(body)) && Decoded(body).Some?
    ensures ReadString(s, p) == Read(p + |body| + 2, Decoded(body).value)
  {
    hide Decoded, StringEnd, ReadString, At;
    AtSplit(s, p, [QUOTE], body + [QUOTE]);
    AtSplit(s, p + 1, body, [QUOTE]);
    AtIndex(s, p, [QUOTE], 0);
    AtIndex(s, p + 1 + |body|, [QUOTE], 0);
    StringEndAt(s, p + 1, body);
    ReadStringFrom(s, p, body);
  }

  /** The cursor's result on a value that was rendered between `p` and `end`. */
  function Expected(repeats: bool, end: nat): Outcome { if repeats then Threw else Done(end) }

  lemma {:induction false} PrimitiveChars(t: Text)
    requires IsPrimitive(t)
    ensures t != [] && forall i | 0 <= i < |t| :: !Stops(t[i])
    ensures t[0] != OPEN_OBJECT && t[0] != OPEN_ARRAY && t[0] != QUOTE
  {
    if IsNumber(t) { NumberChars(t); }
  }

  predicate NumberChar(u: unit) { Digit(u) || u == PLUS || u == MINUS || u == POINT || u == 0x65 || u == 0x45 }

  predicate NumberText(t: Text) { forall i | 0 <= i < |t| :: NumberChar(t[i]) }

  lemma NumberParts(t: Text, i: nat)
    requires i <= |t| && NumberText(t[..i]) && NumberText(t[i..])
    ensures NumberText(t)
  {
    forall k | 0 <= k < |t|
      ensures NumberChar(t[k])
    {
      if k < i { assert t[k] == t[..i][k]; } else { assert t[k] == t[i..][k - i]; }
    }
  }

  lemma DigitsFrom(t: Text, i: nat)
    requires i <= |t| && NumberText(t[..i])
    ensures NumberText(t[..i + DigitRun(t[i..])])
  {
    var n := DigitRun(t[i..]);
    var u := t[..i + n];
    assert forall k | 0 <= k < n :: u[i..][k] == t[i..][k];
    assert u[..i] == t[..i];
    NumberParts(u, i);
  }

  lemma ExponentChars(t: Text)
    requires IsExponent(t)
    ensures NumberText(t)
  {
    if t != [] {
      var j := if |t| > 1 && (t[1] == PLUS || t[1] == MINUS) then 2 else 1;
      DigitsFrom(t, j);
      assert t[..j + DigitRun(t[j..])] == t;
    }
  }

  lemma FractionChars(t: Text)
    requires IsFraction(t)
    ensures NumberText(t)
  {
    if t == [] || t[0] != POINT {
      ExponentChars(t);
    } else {
      var n := DigitRun(t[1..]);
      ExponentChars(t[1 + n..]);
      DigitsFrom(t, 1);
      NumberParts(t, 1 + n);
    }
  }

  lemma NumberChars(t: Text)
    requires IsNumber(t)
    ensures t != [] && NumberText(t)
  {
    hide IsFraction, DigitRun;
    var i := if t != [] && t[0] == MINUS then 1 else 0;
    var n := DigitRun(t[i..]);
    FractionChars(t[i + n..]);
    DigitsFrom(t, i);
    NumberParts(t, i + n);
  }

  lemma {:induction false} PrimitiveEndAt(s: Text, p: nat, t: Text)
    requires At(s, p, t) && forall i | 0 <= i < |t| :: !Stops(t[i])
    requires p + |t| < |s| ==> Stops(s[p + |t|])
    ensures PrimitiveEnd(s, p) == p + |t|
    decreases |t|
  {
    if t != [] {
      AtIndex(s, p, t, 0);
      assert t == [t[0]] + t[1..];
      AtSplit(s, p, [t[0]], t[1..]);
      PrimitiveEndAt(s, p + 1, t[1..]);
    }
  }

  /** A primitive is read to its end when something that stops the loop follows; at the end of the text the loop
      never stops. */
  lemma ReadPrimitiveAt(s: Text, p: nat, t: Text)
    requires At(s, p, t) && IsPrimitive(t)
    requires p + |t| < |s| ==> Stops(s[p + |t|])
    ensures ReadPrimitive(s, p) == if p + |t| < |s| then Done(p + |t|) else Hung
  {
    hide IsPrimitive;
    PrimitiveChars(t);
    PrimitiveEndAt(s, p, t);
  }

  /** The first unit of a value is neither a gap nor a closing bracket. */
  lemma FirstUnit(v: Value)
    requires WellFormed(v)
    ensures Render(v) != []
    ensures !Space(Render(v)[0]) && Render(v)[0] != CLOSE_ARRAY && Render(v)[0] != CLOSE_OBJECT
  {
    if v.Prim? { PrimitiveChars(v.token); }
  }

  lemma AtEmpty(s: Text, p: nat)
    requires p <= |s|
    ensures At(s, p, [])
  {
  }

  lemma AtWithin(s: Text, p: nat, t: Text)
    requires At(s, p, t)
    ensures p + |t| <= |s|
  {
  }

  /** What follows a value: a gap and a separator or closing bracket. */
  lemma AfterValue(s: Text, p: nat, after: Text, tail: Text)
    requires At(s, p, after + tail) && IsGap(after) && tail != []
    requires tail[0] == COMMA || tail[0] == COLON || tail[0] == CLOSE_ARRAY || tail[0] == CLOSE_OBJECT
    ensures SkipSpace(s, p) == p + |after| && At(s, p + |after|, tail) && Has(s, p + |after|, tail[0])
    ensures p < |s| && (tail[0] != COLON ==> Stops(s[p]))
  {
    hide SkipSpace, At;
    AtSplit(s, p, after, tail);
    AtIndex(s, p + |after|, tail, 0);
    SkipGap(s, p, after);
    if after != [] { AtIndex(s, p, after, 0); }
  }

  /** Where a value starts: the gap before it is skipped, and no bracket closes there. */
  lemma BeforeValue(s: Text, p: nat, gap: Text, v: Value)
    requires WellFormed(v) && IsGap(gap) && At(s, p, gap) && At(s, p + |gap|, Render(v))
    ensures SkipSpace(s, p) == p + |gap| && SkipSpace(s, p + |gap|) == p + |gap| < |s|
    ensures Has(s, p + |gap|, Render(v)[0])
    ensures !Has(s, p + |gap|, CLOSE_ARRAY) && !Has(s, p + |gap|, CLOSE_OBJECT)
  {
    hide At, Render;
    FirstUnit(v);
    AtIndex(s, p + |gap|, Render(v), 0);
    SkipGap(s, p, gap);
  }

  /** Whether a run over the members throws, when it has already seen `keys`. */
  predicate RepeatsFrom(m: Members, keys: set<Text>)
    requires WellFormedMembers(m)
  {
    var key := Decoded(m.key).value;
    key in keys || Repeats(m.value) || (m.rest.Some? && RepeatsFrom(m.rest.value, keys + {key}))
  }

  lemma {:induction false} RepeatsFromIs(m: Members, keys: set<Text>)
    requires WellFormedMembers(m)
    ensures RepeatsFrom(m, keys) <==>
      (exists k :: k in Keys(m) && k in keys) || !Distinct(Keys(m)) || RepeatsInMembers(m)
  {
    var key := Decoded(m.key).value;
    if m.rest.Some? {
      var rest := Keys(m.rest.value);
      RepeatsFromIs(m.rest.value, keys + {key});
      assert Keys(m) == [key] + rest;
      assert forall k | k in rest :: k in Keys(m);
      DistinctCons(key, rest);
    } else {
      assert Keys(m) == [key];
    }
  }

  lemma DistinctCons(key: Text, rest: seq<Text>)
    ensures Distinct([key] + rest) <==> key !in rest && Distinct(rest)
  {
    var all := [key] + rest;
    assert forall i | 0 <= i < |rest| :: all[i + 1] == rest[i];
    if key in rest {
      var i :| 0 <= i < |rest| && rest[i] == key;
      assert all[0] == all[i + 1];
    }
    if !Distinct(rest) {
      var i, j :| 0 <= i < j < |rest| && rest[i] == rest[j];
      assert all[i + 1] == all[j + 1];
    }
  }

  /** One item, from its first unit to the separator or bracket behind it. */
  lemma {:induction false} ItemAt(s: Text, p: nat, t: Items)
    requires WellFormedItems(t) && At(s, p, Render(t.value) + (t.after + ItemsTail(t)))
    ensures var e := p + |Render(t.value)|;
      && ReadValue(s, p) == Expected(Repeats(t.value), e)
      && SkipSpace(s, e) == e + |t.after| && At(s, e + |t.after|, ItemsTail(t))
      && Has(s, e + |t.after|, if t.rest.Some? then COMMA else CLOSE_ARRAY)
    decreases t, 0
  {
    hide SkipSpace, At, Render, ReadValue, RenderItems, Repeats;
    AtSplit(s, p, Render(t.value), t.after + ItemsTail(t));
    AfterValue(s, p + |Render(t.value)|, t.after, ItemsTail(t));
    AtWithin(s, p, Render(t.value));
    AtEmpty(s, p);
    ReadValueAt(s, p, [], t.value);
  }

  lemma ItemsEnd(s: Text, p: nat, value: Outcome, e: nat)
    requires ReadValue(s, p) == value
    requires value.Done? ==> SkipSpace(s, value.position) == e && Has(s, e, CLOSE_ARRAY)
    ensures ReadItems(s, p) == if value.Done? then Done(e + 1) else value
  {
  }

  lemma ItemsMore(s: Text, p: nat, value: Outcome, e: nat, next: nat)
    requires ReadValue(s, p) == value
    requires value.Done? ==> SkipSpace(s, value.position) == e && Has(s, e, COMMA) && SkipSpace(s, e + 1) == next
    ensures ReadItems(s, p) == if value.Done? then ReadItems(s, next) else value
  {
    hide SkipSpace, ReadValue;
  }

  lemma ItemsLength(t: Items)
    ensures |RenderItems(t)| == |t.before| + |Render(t.value)| + |t.after| + |ItemsTail(t)|
    ensures |ItemsTail(t)| == if t.rest.Some? then 1 + |RenderItems(t.rest.value)| else 1
  {
    hide Render;
  }

  lemma ItemsSplit(s: Text, p: nat, t: Items)
    requires At(s, p, RenderItems(t))
    ensures var start := p + |t.before|;
      && At(s, p, t.before) && At(s, start, Render(t.value)) && At(s, start, Render(t.value) + (t.after + ItemsTail(t)))
  {
    hide At, Render;
    AtSplit(s, p, t.before, Render(t.value) + (t.after + ItemsTail(t)));
    AtSplit(s, p + |t.before|, Render(t.value), t.after + ItemsTail(t));
  }

  lemma RestSplit(s: Text, e: nat, t: Items)
    requires At(s, e, ItemsTail(t)) && t.rest.Some?
    ensures At(s, e + 1, RenderItems(t.rest.value))
  {
    hide At, RenderItems;
    AtSplit(s, e, [COMMA], RenderItems(t.rest.value));
  }

  lemma {:induction false} ItemsAt(s: Text, p: nat, t: Items)
    requires WellFormedItems(t) && At(s, p, RenderItems(t))
    ensures SkipSpace(s, p) == p + |t.before| && !Has(s, p + |t.before|, CLOSE_ARRAY)
    ensures ReadItems(s, p + |t.before|) == Expected(RepeatsInItems(t), p + |RenderItems(t)|)
    decreases t, 1
  {
    hide SkipSpace, At, Render, RenderItems, ItemsTail, ReadValue, ReadItems, WellFormed, IsGap, Repeats, Has;
    var start := p + |t.before|;
    var end := start + |Render(t.value)|;
    var e := end + |t.after|;
    ItemsSplit(s, p, t);
    BeforeValue(s, p, t.before, t.value);
    ItemAt(s, start, t);
    ItemsLength(t);
    if t.rest.Some? {
      var rest := t.rest.value;
      RestSplit(s, e, t);
      ItemsAt(s, e + 1, rest);
      ItemsMore(s, start, Expected(Repeats(t.value), end), e, e + 1 + |rest.before|);
    } else {
      ItemsEnd(s, start, Expected(Repeats(t.value), end), e);
    }
  }

  /** Where the separator or bracket behind a member stands, counted from its key. */
  function MemberLength(m: Members): nat {
    |m.key| + 2 + |m.gap| + 1 + |m.inner| + |Render(m.value)| + |m.after|
  }

  function MemberExpected(m: Members, e: nat, keys: set<Text>): MemberOutcome
    requires WellFormedMembers(m)
  {
    if Decoded(m.key).value in keys || Repeats(m.value) then Stopped(Threw) else Member(e, Decoded(m.key).value)
  }

  lemma MemberStep(s: Text, p: nat, keys: set<Text>, key: Text, after: nat, colon: nat, value: Outcome, e: nat)
    requires ReadString(s, p) == Read(after, key) && SkipSpace(s, after) == colon && Has(s, colon, COLON)
    requires ReadValue(s, colon + 1) == value && (value.Done? ==> SkipSpace(s, value.position) == e)
    ensures ReadMember(s, p, keys) ==
      if key in keys then Stopped(Threw) else if value.Done? then Member(e, key) else Stopped(value)
  {
    hide SkipSpace, ReadString, ReadValue;
  }

  /** The places of a member's parts. */
  lemma MemberSplit(s: Text, p: nat, m: Members)
    requires WellFormedMembers(m) && At(s, p, RenderMember(m))
    ensures At(s, p, Quoted(m.key))
    ensures var colon := p + |m.key| + 2 + |m.gap|;
      && SkipSpace(s, p + |m.key| + 2) == colon && Has(s, colon, COLON)
      && At(s, colon + 1, m.inner) && At(s, colon + 1 + |m.inner|, Render(m.value))
      && At(s, colon + 1 + |m.inner| + |Render(m.value)|, m.after + MembersTail(m))
  {
    hide SkipSpace, At, Render, RenderMembers, WellFormed;
    var value := Render(m.value) + (m.after + MembersTail(m));
    AtSplit(s, p, Quoted(m.key), m.gap + ([COLON] + (m.inner + value)));
    var colon := p + |m.key| + 2 + |m.gap|;
    AfterValue(s, p + |m.key| + 2, m.gap, [COLON] + (m.inner + value));
    AtSplit(s, colon, [COLON], m.inner + value);
    AtSplit(s, colon + 1, m.inner, value);
    AtSplit(s, colon + 1 + |m.inner|, Render(m.value), m.after + MembersTail(m));
  }

  /** One member, from its key to the separator or bracket behind it. */
  lemma {:induction false} MemberAt(s: Text, p: nat, m: Members, keys: set<Text>)
    requires WellFormedMembers(m) && At(s, p, RenderMember(m))
    ensures At(s, p + MemberLength(m), MembersTail(m)) && Has(s, p + MemberLength(m), MembersTail(m)[0])
    ensures ReadMember(s, p, keys) == MemberExpected(m, p + MemberLength(m), keys)
    decreases m, 0
  {
    hide SkipSpace, At, Render, RenderMember, Decoded, ReadString, ReadValue, ReadMember, Repeats, RenderMembers;
    var after := p + |m.key| + 2;
    var colon := after + |m.gap|;
    var end := colon + 1 + |m.inner| + |Render(m.value)|;
    MemberSplit(s, p, m);
    ReadStringAt(s, p, m.key);
    AfterValue(s, end, m.after, MembersTail(m));
    ReadValueAt(s, colon + 1, m.inner, m.value);
    MemberStep(s, p, keys, Decoded(m.key).value, after, colon, Expected(Repeats(m.value), end), end + |m.after|);
  }

  lemma MembersEnd(s: Text, p: nat, keys: set<Text>, member: MemberOutcome)
    requires ReadMember(s, p, keys) == member
    requires member.Member? ==> Has(s, member.position, CLOSE_OBJECT)
    ensures ReadMembers(s, p, keys) == if member.Member? then Done(member.position + 1) else member.outcome
  {
  }

  lemma MembersMore(s: Text, p: nat, keys: set<Text>, member: MemberOutcome, next: nat)
    requires ReadMember(s, p, keys) == member
    requires member.Member? ==> Has(s, member.position, COMMA) && SkipSpace(s, member.position + 1) == next
    ensures ReadMembers(s, p, keys) ==
      if member.Member? then ReadMembers(s, next, keys + {member.key}) else member.outcome
  {
    hide SkipSpace, ReadMember;
  }

  lemma MembersLength(m: Members)
    ensures |RenderMembers(m)| == |m.before| + MemberLength(m) + |MembersTail(m)|
    ensures m.rest.Some? ==> |MembersTail(m)| == 1 + |RenderMembers(m.rest.value)|
    ensures RenderMember(m) != [] && RenderMember(m)[0] == QUOTE
  {
    hide Render;
  }

  lemma {:induction false} MembersAt(s: Text, p: nat, m: Members, keys: set<Text>)
    requires WellFormedMembers(m) && At(s, p, RenderMembers(m))
    ensures SkipSpace(s, p) == p + |m.before| && !Has(s, p + |m.before|, CLOSE_OBJECT)
    ensures ReadMembers(s, p + |m.before|, keys) == Expected(RepeatsFrom(m, keys), p + |RenderMembers(m)|)
    decreases m, 1
  {
    hide SkipSpace, At, Render, RenderMember, MemberLength, Decoded, ReadMember, ReadMembers, WellFormed, IsGap,
         Repeats;
    var start, e := p + |m.before|, p + |m.before| + MemberLength(m);
    AtSplit(s, p, m.before, RenderMember(m));
    MembersLength(m);
    AtIndex(s, start, RenderMember(m), 0);
    SkipGap(s, p, m.before);
    MemberAt(s, start, m, keys);
    if m.rest.Some? {
      var rest := m.rest.value;
      AtSplit(s, e, [COMMA], RenderMembers(rest));
      MembersAt(s, e + 1, rest, keys + {Decoded(m.key).value});
      MembersMore(s, start, keys, MemberExpected(m, e, keys), e + 1 + |rest.before|);
    } else {
      MembersEnd(s, start, keys, MemberExpected(m, e, keys));
    }
  }

  /** An empty array or object. */
  lemma EmptyAt(s: Text, p: nat, open: unit, inner: Text, close: unit)
    requires At(s, p, [open] + (inner + [close])) && IsGap(inner) && (close == CLOSE_ARRAY || close == CLOSE_OBJECT)
    ensures SkipSpace(s, p + 1) == p + 1 + |inner| && Has(s, p + 1 + |inner|, close)
  {
    hide SkipSpace, At;
    AtSplit(s, p, [open], inner + [close]);
    AfterValue(s, p + 1, inner, [close]);
  }

  /** The cursor on one rendered value: it throws exactly when a key repeats, and otherwise ends exactly at the
      value's end; only a primitive at the very end of the text hangs it. */
  lemma {:induction false} ReadValueAt(s: Text, p: nat, gap: Text, v: Value)
    requires WellFormed(v) && IsGap(gap) && At(s, p, gap) && At(s, p + |gap|, Render(v))
    requires var e := p + |gap| + |Render(v)|; v.Prim? && e < |s| ==> Stops(s[e])
    ensures var e := p + |gap| + |Render(v)|;
      ReadValue(s, p) == if v.Prim? && e == |s| then Hung else Expected(Repeats(v), e)
    decreases v
  {
    hide SkipSpace, At, Decoded, IsPrimitive, ReadString, ReadPrimitive, ReadItems, ReadMembers, IsGap, Quoted;
    var start := p + |gap|;
    BeforeValue(s, p, gap, v);
    AtWithin(s, start, Render(v));
    match v
    case Str(body) =>
      ReadStringAt(s, start, body);
      QuotedShape(body);
    case Prim(token) =>
      PrimitiveChars(token);
      ReadPrimitiveAt(s, start, token);
    case EmptyArr(inner) => EmptyAt(s, start, OPEN_ARRAY, inner, CLOSE_ARRAY);
    case Arr(items) =>
      AtSplit(s, start, [OPEN_ARRAY], RenderItems(items));
      ItemsAt(s, start + 1, items);
    case EmptyObj(inner) => EmptyAt(s, start, OPEN_OBJECT, inner, CLOSE_OBJECT);
    case Obj(members) =>
      AtSplit(s, start, [OPEN_OBJECT], RenderMembers(members));
      MembersAt(s, start + 1, members, {});
      RepeatsFromIs(members, {});
  }

  lemma QuotedShape(body: Text)
    ensures |Quoted(body)| == |body| + 2 && Quoted(body)[0] == QUOTE
  {
  }

  /** The whole check on a well-formed text: a text whose root is an object, array or string is accepted, with the
      cursor exactly at its end, unless some object in it repeats a key, and then it throws. A bare primitive is
      accepted when a gap follows it; at the end of the text the cursor never returns. */
  lemma CheckedExactly(before: Text, v: Value, after: Text)
    requires IsGap(before) && WellFormed(v) && IsGap(after)
    ensures var s := before + (Render(v) + after);
      Checked(s) ==
        if v.Prim? && after == [] then Hung else if Repeats(v) then Threw else Done(|s|)
  {
    hide SkipSpace, Render, ReadValue, Repeats, WellFormed, At;
    var s := before + (Render(v) + after);
    ThreeParts(before, Render(v), after);
    var e := |before| + |Render(v)|;
    if after != [] { GapStops(s, e, after); }
    ReadValueAt(s, 0, before, v);
    SkipGap(s, e, after);
  }

  lemma ThreeParts(a: Text, b: Text, c: Text)
    ensures var s := a + (b + c);
      At(s, 0, a) && At(s, |a|, b) && At(s, |a| + |b|, c) && |s| == |a| + |b| + |c|
  {
    var s := a + (b + c);
    assert At(s, 0, s);
    AtSplit(s, 0, a, b + c);
    AtSplit(s, |a|, b, c);
  }

  lemma GapStops(s: Text, p: nat, gap: Text)
    requires At(s, p, gap) && gap != [] && IsGap(gap)
    ensures p < |s| && Stops(s[p])
  {
    AtIndex(s, p, gap, 0);
  }

  /** Two keys are the same exactly when some text is written by both. */
  lemma SameKeyExactly(a: Text, b: Text)
    requires Decoded(a).Some? && Decoded(b).Some?
    ensures Decoded(a) == Decoded(b) <==> exists text :: Writes(a, text) && Writes(b, text)
  {
    DecodedExactly(a, Decoded(a).value);
    if Decoded(a) == Decoded(b) {
      DecodedExactly(b, Decoded(a).value);
    } else if exists text :: Writes(a, text) && Writes(b, text) {
      var text :| Writes(a, text) && Writes(b, text);
      DecodedExactly(a, text);
      DecodedExactly(b, text);
    }
  }

  /** An object with two keys. */
  function TwoKeys(a: Text, b: Text): Value {
    Obj(Members([], a, [], [], Prim(TRUE), [], Some(Members([], b, [], [], Prim(TRUE), [], None))))
  }

  lemma TwoKeysAre(a: Text, b: Text)
    requires Decoded(a).Some? && Decoded(b).Some?
    ensures WellFormed(TwoKeys(a, b)) && (Decoded(a) == Decoded(b) ==> Repeats(TwoKeys(a, b)))
  {
    hide Decoded;
    var second := Members([], b, [], [], Prim(TRUE), [], None);
    var first := TwoKeys(a, b).members;
    assert WellFormedMembers(second) && first.rest == Some(second);
    assert WellFormedMembers(first);
    assert Keys(second) == [Decoded(b).value] + [];
    assert Keys(first)[0] == Decoded(a).value && Keys(first)[1] == Decoded(b).value;
  }

  /** An object whose second key writes the letter of the first as an escape is refused. */
  lemma EscapedKeyRepeats(letter: unit, form: Form)
    requires letter >= 0x20 && letter != QUOTE && letter != BACKSLASH && form.Escaped?
    ensures var v := TwoKeys([letter], WriteUnit(letter, form));
      WellFormed(v) && Checked(Render(v)) == Threw
  {
    var a, b := WriteUnit(letter, Raw), WriteUnit(letter, form);
    OneUnit(letter, Raw);
    OneUnit(letter, form);
    hide Decoded, WriteUnit, Checked, Render, WellFormed, Repeats;
    TwoKeysAre(a, b);
    NotPrimitive(a, b);
    hide TwoKeys;
    CheckedExactly([], TwoKeys(a, b), []);
    assert [] + (Render(TwoKeys(a, b)) + []) == Render(TwoKeys(a, b));
  }

  lemma NotPrimitive(a: Text, b: Text)
    ensures !TwoKeys(a, b).Prim?
  {
  }

  lemma OneUnit(u: unit, form: Form)
    requires MayWrite(u, form)
    ensures Decoded(WriteUnit(u, form)) == Some([u])
  {
    DecodedOfWriting([u], [form]);
    assert [u][1..] == [] && [form][1..] == [] && WriteUnit(u, form) + [] == WriteUnit(u, form);
  }
}
