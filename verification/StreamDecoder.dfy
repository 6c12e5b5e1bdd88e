/** The streaming UTF-8 decoder of the platform with its fatal option: whole runes come out as chunks go in, a rune
    that is cut is held back, and one leading byte order mark is dropped. Text is kept as UTF-8 bytes. */
module StreamDecoder {
  import opened Utf8

  type Bytes = seq<byte>

  const MARK: Bytes := [0xEF, 0xBB, 0xBF]

  function WithoutMark(s: Bytes): Bytes { if MARK <= s then s[|MARK|..] else s }

  /** The start of a rune that is still missing bytes. */
  predicate StartsRune(t: Bytes) {
    || t == []
    || (|t| == 1 && 0xC2 <= t[0] <= 0xF4)
    || (|t| == 2 && (ThreeByteLead(t[0], t[1]) || FourByteLead(t[0], t[1])))
    || (|t| == 3 && FourByteLead(t[0], t[1]) && Tail(t[2]))
  }

  /** How many leading bytes are whole runes. */
  function Scanned(data: Bytes): (k: nat)
    ensures k <= |data| && IsUtf8(data[..k])
    decreases |data|
  {
    var n := RuneLength(data);
    if n == 0 then
      assert data[..0] == [];
      0
    else
      var k := Scanned(data[n..]);
      RunePrefixFree(data, n + k);
      assert data[..n + k][n..] == data[n..][..k];
      n + k
  }

  /** The text that has come out when `s` has gone in. */
  function DecodedText(s: Bytes): Bytes { WithoutMark(s[..Scanned(s)]) }

  /** Of a well-formed text cut anywhere, all is scanned but the rune that was cut. */
  lemma {:induction false} ScannedOfValid(s: Bytes, p: nat)
    requires IsUtf8(s) && p <= |s|
    ensures var k := Scanned(s[..p]); k <= p && StartsRune(s[k..p]) && (p == |s| ==> k == p)
    decreases |s|
  {
    hide RuneLength;
    if s != [] {
      var n := RuneLength(s);
      RunePrefixFree(s, p);
      if p >= n {
        ScannedOfValid(s[n..], p - n);
        assert s[..p][n..] == s[n..][..p - n];
        var k := Scanned(s[n..][..p - n]);
        assert s[n..][k..p - n] == s[n + k..p];
      } else {
        assert s[0..p] == s[..p];
        CutRune(s, p);
      }
    }
  }

  lemma CutRune(s: Bytes, p: nat)
    requires p < RuneLength(s)
    ensures StartsRune(s[..p])
  {
  }

  /** Scanning goes on behind any whole prefix. */
  lemma {:induction false} ScannedSplit(s: Bytes, t: nat)
    requires t <= |s| && IsUtf8(s[..t])
    ensures Scanned(s) == t + Scanned(s[t..])
    decreases |s|
  {
    hide RuneLength;
    if t == 0 {
      assert s[0..] == s;
    } else {
      var n := RuneLength(s[..t]);
      assert s == s[..t] + s[t..];
      RuneLengthExtends(s[..t], s[t..]);
      assert s[..t][n..] == s[n..][..t - n];
      ScannedSplit(s[n..], t - n);
      assert s[n..][t - n..] == s[t..];
    }
  }

  lemma ScannedMore(s: Bytes, p: nat)
    requires p <= |s|
    ensures Scanned(s[..p]) <= Scanned(s) && Scanned(s) == Scanned(s[..p]) + Scanned(s[Scanned(s[..p])..])
  {
    hide Scanned;
    var k := Scanned(s[..p]);
    assert s[..p][..k] == s[..k];
    ScannedSplit(s, k);
  }

  /** Whole runes behind a mark hold all of it. */
  lemma MarkIsWhole(s: Bytes, t: nat)
    requires MARK <= s && 0 < t <= |s| && IsUtf8(s[..t])
    ensures t >= |MARK|
  {
    assert s[0] == 0xEF && s[1] == 0xBB && s[2] == 0xBF;
    assert RuneLength(s) == 3;
    RunePrefixFree(s, t);
  }

  /** Once something is decoded, more whole runes only add to the text. */
  lemma TextGrows(s: Bytes, t: nat, u: nat)
    requires 0 < t <= u <= |s| && IsUtf8(s[..t])
    ensures WithoutMark(s[..u]) == WithoutMark(s[..t]) + s[t..u]
  {
    if MARK <= s[..u] {
      assert MARK <= s;
      MarkIsWhole(s, t);
      assert s[..t][..3] == s[..3] == s[..u][..3];
    }
  }

  /** What has come out early is the beginning of what comes out in the end. */
  lemma TextPrefix(s: Bytes, p: nat)
    requires p <= |s|
    ensures DecodedText(s[..p]) <= DecodedText(s)
  {
    hide Scanned, IsUtf8, WithoutMark;
    var t, u := Scanned(s[..p]), Scanned(s);
    ScannedMore(s, p);
    assert s[..p][..t] == s[..t];
    if t > 0 { TextGrows(s, t, u); } else { NoText(s); }
  }

  lemma NoText(s: Bytes)
    ensures WithoutMark(s[..0]) == []
  {
  }

  /** A well-formed file comes out whole, but for a mark at its start. */
  lemma DecodedOfValid(s: Bytes)
    requires IsUtf8(s)
    ensures DecodedText(s) == WithoutMark(s)
    ensures !(MARK <= s) ==> DecodedText(s) == s
  {
    ScannedOfValid(s, |s|);
    assert s[..|s|] == s;
  }

  /** The mark, one encoded U+FEFF, is not part of the text, and what follows it is, a second mark included. */
  lemma MarkIsDropped(text: Bytes)
    requires IsUtf8(text)
    ensures DecodedText(Encode(0xFEFF) + text) == text
  {
    MarkIsRune();
    hide IsUtf8, DecodedText, Encode;
    ConcatValid(MARK, text);
    DecodedOfValid(MARK + text);
    assert (MARK + text)[|MARK|..] == text;
  }

  lemma MarkIsRune()
    ensures Encode(0xFEFF) == MARK && IsUtf8(MARK)
  {
    EncodedIsValid([0xFEFF]);
    assert EncodeAll([0xFEFF]) == Encode(0xFEFF);
  }

  class Decoder {
    var held: Bytes
    var begun: bool
    /** The bytes that have gone in. */
    ghost var source: Bytes

    constructor ()
      ensures Valid() && source == []
    {
      held, begun, source := [], false, [];
    }

    ghost predicate Valid()
      reads this
    {
      held == source[Scanned(source)..] && (begun <==> Scanned(source) > 0)
    }

    /** decode with { stream: true }; it fails on bytes that no rune can continue. */
    method Decode(chunk: Bytes) returns (ok: bool, text: Bytes)
      requires Valid()
      modifies this
      ensures Valid() && source == old(source) + chunk
      ensures DecodedText(source) == DecodedText(old(source)) + text
      ensures ok <==> StartsRune(source[Scanned(source)..])
    {
      hide IsUtf8, StartsRune, Scanned;
      var data := held + chunk;
      var k := Scanned(data);
      Continued(source, chunk, data, k);
      text := if begun then data[..k] else WithoutMark(data[..k]);
      held, begun := data[k..], begun || k > 0;
      source := source + chunk;
      ok := StartsRune(held);
    }

    /** The final decode: what is still held back is an error. */
    method Flush() returns (ok: bool)
      requires Valid()
      ensures ok <==> Scanned(source) == |source|
    {
      ok := held == [];
    }
  }

  lemma Continued(source: Bytes, chunk: Bytes, data: Bytes, k: nat)
    requires data == source[Scanned(source)..] + chunk && k == Scanned(data)
    ensures var t := Scanned(source); var s := source + chunk;
      && Scanned(s) == t + k && s[t + k..] == data[k..]
      && DecodedText(s) ==
           if t > 0 then DecodedText(source) + data[..k] else DecodedText(source) + WithoutMark(data[..k])
  {
    hide Scanned, WithoutMark, IsUtf8;
    var t, s := Scanned(source), source + chunk;
    assert s[..t] == source[..t] && s[t..] == data;
    ScannedSplit(s, t);
    assert s[t + k..] == data[k..] && s[t..t + k] == data[..k];
    if t > 0 {
      TextGrows(s, t, t + k);
    } else {
      NoText(source);
      assert s[..k] == data[..k];
      assert [] + WithoutMark(data[..k]) == WithoutMark(data[..k]);
    }
  }
}
