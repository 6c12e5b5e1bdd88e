/** Well-formed UTF-8, written from the byte table of section 4 of RFC 3629, and the two facts every
    bounded reader relies on: rune boundaries are exactly the valid prefixes, and they are at most
    four bytes apart. */
module Utf8 {
  type byte = b: nat | b < 256

  const RUNE_MAX: nat := 4
  const NEWLINE: byte := 10

  predicate Tail(b: byte) { 0x80 <= b <= 0xBF }

  /** Length of the rune that starts `s`, or 0 when no well-formed rune does. */
  function RuneLength(s: seq<byte>): (n: nat)
    ensures n <= RUNE_MAX && n <= |s|
  {
    if |s| >= 1 && s[0] <= 0x7F then 1
    else if |s| >= 2 && 0xC2 <= s[0] <= 0xDF && Tail(s[1]) then 2
    else if |s| >= 3 && Tail(s[2]) && ThreeByteLead(s[0], s[1]) then 3
    else if |s| >= 4 && Tail(s[2]) && Tail(s[3]) && FourByteLead(s[0], s[1]) then 4
    else 0
  }

  predicate ThreeByteLead(lead: byte, second: byte) {
    || (lead == 0xE0 && 0xA0 <= second <= 0xBF)
    || (0xE1 <= lead <= 0xEC && Tail(second))
    || (lead == 0xED && 0x80 <= second <= 0x9F)
    || (0xEE <= lead <= 0xEF && Tail(second))
  }

  predicate FourByteLead(lead: byte, second: byte) {
    || (lead == 0xF0 && 0x90 <= second <= 0xBF)
    || (0xF1 <= lead <= 0xF3 && Tail(second))
    || (lead == 0xF4 && 0x80 <= second <= 0x8F)
  }

  predicate IsUtf8(s: seq<byte>)
    decreases |s|
  {
    s == [] || (RuneLength(s) > 0 && IsUtf8(s[RuneLength(s)..]))
  }

  lemma RuneLengthExtends(s: seq<byte>, t: seq<byte>)
    requires RuneLength(s) > 0
    ensures RuneLength(s + t) == RuneLength(s)
  {}

  /** A rune never ends strictly inside another rune: the encoding is prefix free. */
  lemma RunePrefixFree(s: seq<byte>, k: nat)
    requires k <= |s| && RuneLength(s) > 0
    ensures RuneLength(s[..k]) == if k < RuneLength(s) then 0 else RuneLength(s)
  {}

  lemma {:induction false} ConcatValid(a: seq<byte>, b: seq<byte>)
    requires IsUtf8(a) && IsUtf8(b)
    ensures IsUtf8(a + b)
    decreases |a|
  {
    hide RuneLength;
    if a == [] {
      assert a + b == b;
    } else {
      var n := RuneLength(a);
      RuneLengthExtends(a, b);
      ConcatValid(a[n..], b);
      assert (a + b)[n..] == a[n..] + b;
    }
  }

  lemma {:induction false} ValidRest(s: seq<byte>, k: nat)
    requires k <= |s| && IsUtf8(s) && IsUtf8(s[..k])
    ensures IsUtf8(s[k..])
    decreases |s|
  {
    hide RuneLength;
    if k == 0 {
      assert s[k..] == s;
    } else {
      var n := RuneLength(s);
      RunePrefixFree(s, k);
      assert s[..k][n..] == s[n..][..k - n];
      ValidRest(s[n..], k - n);
      assert s[n..][k - n..] == s[k..];
    }
  }

  /** The last rune boundary at or before `limit`. */
  ghost function Boundary(s: seq<byte>, limit: nat): (k: nat)
    requires IsUtf8(s) && limit <= |s|
    ensures k <= limit && IsUtf8(s[..k])
    decreases |s|
  {
    if s == [] || RuneLength(s) > limit then assert s[..0] == []; 0
    else
      var n := RuneLength(s);
      var rest := Boundary(s[n..], limit - n);
      RunePrefixFree(s, n + rest);
      assert s[..n + rest][n..] == s[n..][..rest];
      n + rest
  }

  /** Between the last boundary and the limit no prefix is valid, and the distance is under four bytes. */
  lemma {:induction false} BoundaryIsLast(s: seq<byte>, limit: nat, j: nat)
    requires IsUtf8(s) && limit <= |s|
    requires Boundary(s, limit) < j <= limit
    ensures !IsUtf8(s[..j])
    ensures limit < Boundary(s, limit) + RUNE_MAX
    decreases |s|
  {
    hide RuneLength;
    var n := RuneLength(s);
    RunePrefixFree(s, j);
    if n > limit {
      assert RuneLength(s[..j]) == 0 && s[..j] != [];
    } else {
      assert j >= n;
      BoundaryIsLast(s[n..], limit - n, j - n);
      assert s[..j][n..] == s[n..][..j - n];
    }
  }

  /** A rune that straddles the limit starts at the boundary and is longer than one byte. */
  lemma {:induction false} StraddlingRune(s: seq<byte>, limit: nat)
    requires IsUtf8(s) && limit <= |s| && Boundary(s, limit) < limit
    ensures RuneLength(s[Boundary(s, limit)..]) > limit - Boundary(s, limit)
    decreases |s|
  {
    hide RuneLength;
    var n := RuneLength(s);
    if n <= limit {
      StraddlingRune(s[n..], limit - n);
      var k := Boundary(s[n..], limit - n);
      assert s[n..][k..] == s[n + k..];
    } else {
      assert s[0..] == s;
    }
  }

  // ---- What the byte table means: section 3 of RFC 3629 ----

  /** A Unicode scalar value: a code point that is not a surrogate. */
  type Scalar = v: nat | v < 0xD800 || 0xE000 <= v < 0x11_0000 witness 0

  /** The lowest six bits in a tail byte. */
  function TailOf(v: nat): byte { 0x80 + v % 0x40 }

  /** The bytes of a scalar value: its bits, six to a tail byte. */
  function Encode(v: Scalar): (s: seq<byte>)
    ensures 1 <= |s| <= RUNE_MAX
  {
    if v < 0x80 then [v]
    else if v < 0x800 then [0xC0 + v / 0x40, TailOf(v)]
    else if v < 0x1_0000 then [0xE0 + v / 0x40 / 0x40, TailOf(v / 0x40), TailOf(v)]
    else [0xF0 + v / 0x40 / 0x40 / 0x40, TailOf(v / 0x40 / 0x40), TailOf(v / 0x40), TailOf(v)]
  }

  function EncodeAll(vs: seq<Scalar>): seq<byte> { if vs == [] then [] else Encode(vs[0]) + EncodeAll(vs[1..]) }

  /** An encoded scalar value is one rune, */
  lemma EncodeIsRune(v: Scalar)
    ensures RuneLength(Encode(v)) == |Encode(v)|
  {
    assert v >= 0x1_0000 ==> |Encode(v)| == 4;
  }

  /** Six more bits behind those of `v`. */
  function Shifted(v: nat, tail: byte): (w: nat)
    requires Tail(tail)
    ensures w == v * 0x40 + (tail as int - 0x80) && w / 0x40 == v && TailOf(w) == tail
  {
    v * 0x40 + (tail as int - 0x80)
  }

  /** and every rune encodes a scalar value. */
  lemma RuneIsScalar(s: seq<byte>) returns (v: Scalar)
    requires RuneLength(s) > 0
    ensures s[..RuneLength(s)] == Encode(v)
  {
    var n := RuneLength(s);
    if n == 1 {
      v := s[0];
    } else if n == 2 {
      v := TwoBytes(s[0], s[1]);
    } else if n == 3 {
      v := ThreeBytes(s[0], s[1], s[2]);
    } else {
      v := FourBytes(s[0], s[1], s[2], s[3]);
    }
  }

  lemma TwoBytes(lead: byte, a: byte) returns (v: Scalar)
    requires 0xC2 <= lead <= 0xDF && Tail(a)
    ensures Encode(v) == [lead, a]
  {
    hide TailOf, Shifted;
    v := Shifted(lead as int - 0xC0, a);
  }

  lemma ThreeBytes(lead: byte, a: byte, b: byte) returns (v: Scalar)
    requires ThreeByteLead(lead, a) && Tail(b)
    ensures Encode(v) == [lead, a, b]
  {
    hide TailOf, Shifted;
    var high := Shifted(lead as int - 0xE0, a);
    v := Shifted(high, b);
  }

  lemma FourBytes(lead: byte, a: byte, b: byte, c: byte) returns (v: Scalar)
    requires FourByteLead(lead, a) && Tail(b) && Tail(c)
    ensures Encode(v) == [lead, a, b, c]
  {
    hide TailOf, Shifted;
    var high := Shifted(lead as int - 0xF0, a);
    var middle := Shifted(high, b);
    v := Shifted(middle, c);
  }

  lemma {:induction false} EncodedIsValid(vs: seq<Scalar>)
    ensures IsUtf8(EncodeAll(vs))
  {
    hide RuneLength, Encode;
    if vs != [] {
      EncodeIsRune(vs[0]);
      assert Encode(vs[0])[|Encode(vs[0])|..] == [];
      EncodedIsValid(vs[1..]);
      ConcatValid(Encode(vs[0]), EncodeAll(vs[1..]));
    }
  }

  lemma {:induction false} ValidIsEncoded(s: seq<byte>) returns (vs: seq<Scalar>)
    requires IsUtf8(s)
    ensures s == EncodeAll(vs)
    decreases |s|
  {
    hide RuneLength, Encode;
    if s == [] {
      vs := [];
    } else {
      var n := RuneLength(s);
      var v := RuneIsScalar(s);
      var rest := ValidIsEncoded(s[n..]);
      vs := [v] + rest;
      assert vs[1..] == rest && s == s[..n] + s[n..];
    }
  }

  /** A text is well formed exactly when it encodes some scalar values. */
  lemma ValidExactly(s: seq<byte>)
    ensures IsUtf8(s) <==> exists vs: seq<Scalar> :: s == EncodeAll(vs)
  {
    if IsUtf8(s) {
      var vs := ValidIsEncoded(s);
    } else if exists vs: seq<Scalar> :: s == EncodeAll(vs) {
      var vs: seq<Scalar> :| s == EncodeAll(vs);
      EncodedIsValid(vs);
    }
  }
}
