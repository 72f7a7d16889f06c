/**
  The Unicode part of plugins/src/character_transcode.cpp: UTF-8 with its exact acceptance set
  (section 4 of RFC 3629), UTF-16 with surrogate pairs (sections 2.1 and 2.2 of RFC 2781) and
  UTF-32, in both byte orders. A mask test such as (b & 0xE0) == 0xC0 is written as the byte
  range it selects.
 */
module Transcode {
  import opened Common

  /** A 32-bit unsigned number. */
  type CodePoint = c: int | 0 <= c <= 0xFFFF_FFFF

  predicate IsSurrogate(c: int) { 0xD800 <= c <= 0xDFFF }

  /** A Unicode scalar value. */
  predicate IsScalar(c: int) { 0 <= c <= 0x10FFFF && !IsSurrogate(c) }

  predicate AllScalar(cs: seq<int>) { forall i :: 0 <= i < |cs| ==> IsScalar(cs[i]) }

  // ---------- UTF-8 ----------

  /** `utf8_append`; it does not look for surrogates. Each `/ 64` is a shift by six bits. */
  function Utf8(c: CodePoint): (r: Option<seq<byte>>)
    ensures r.Some? <==> c <= 0x10FFFF
    ensures r.Some? ==> 1 <= |r.value| <= 4
  {
    if c <= 0x7F then Some([c])
    else if c <= 0x7FF then Some([0xC0 + c / 64, 0x80 + c % 64])
    else if c <= 0xFFFF then Some([0xE0 + c / 64 / 64, 0x80 + c / 64 % 64, 0x80 + c % 64])
    else if c <= 0x10FFFF then
      Some([0xF0 + c / 64 / 64 / 64, 0x80 + c / 64 / 64 % 64, 0x80 + c / 64 % 64, 0x80 + c % 64])
    else None
  }

  predicate Continues(b: byte) { 0x80 <= b <= 0xBF }

  /** The six payload bits of a continuation byte. */
  function Six(b: byte): int { b % 64 }

  datatype Step = Step(codePoint: CodePoint, length: nat)

  /** One turn of the loop of `decode_utf8`: the code point at the front, or a refusal. */
  function Front8(s: seq<byte>): (r: Option<Step>)
    requires s != []
    ensures r.Some? ==> 1 <= r.value.length <= |s|
  {
    var b: int := s[0];
    if b < 0x80 then Some(Step(b, 1))
    else if 0xC0 <= b <= 0xDF then
      if b < 0xC2 || |s| < 2 || !Continues(s[1]) then None
      else Some(Step(b % 32 * 64 + Six(s[1]), 2))
    else if 0xE0 <= b <= 0xEF then
      if |s| < 3 || !Continues(s[1]) || !Continues(s[2]) || (b == 0xE0 && s[1] < 0xA0) || (b == 0xED && s[1] > 0x9F)
      then None
      else Some(Step((b % 16 * 64 + Six(s[1])) * 64 + Six(s[2]), 3))
    else if 0xF0 <= b <= 0xF7 then
      if b > 0xF4 || |s| < 4 || !Continues(s[1]) || !Continues(s[2]) || !Continues(s[3])
         || (b == 0xF0 && s[1] < 0x90) || (b == 0xF4 && s[1] > 0x8F)
      then None
      else Some(Step(((b % 8 * 64 + Six(s[1])) * 64 + Six(s[2])) * 64 + Six(s[3]), 4))
    else None
  }

  lemma ShiftSix(h: int, d: int)
    requires 0 <= d < 64
    ensures (h * 64 + d) / 64 == h && (h * 64 + d) % 64 == d
  {
  }

  lemma Sixes(h: int, d1: int, d2: int, d3: int)
    requires 0 <= d1 < 64 && 0 <= d2 < 64 && 0 <= d3 < 64
    ensures var c := ((h * 64 + d1) * 64 + d2) * 64 + d3;
            && c % 64 == d3 && c / 64 % 64 == d2 && c / 64 / 64 % 64 == d1 && c / 64 / 64 / 64 == h
  {
    ShiftSix(h, d1);
    ShiftSix(h * 64 + d1, d2);
    ShiftSix((h * 64 + d1) * 64 + d2, d3);
  }

  /** What the decoder reads at the front is a scalar value, in its one UTF-8 form. */
  lemma Front8Sound(s: seq<byte>)
    requires s != [] && Front8(s).Some?
    ensures var step := Front8(s).value;
            IsScalar(step.codePoint) && Utf8(step.codePoint) == Some(s[..step.length])
  {
    var b: int := s[0];
    if b < 0x80 {
      assert s[..1] == [b];
    } else if b <= 0xDF {
      ShiftSix(b % 32, Six(s[1]));
      assert s[..2] == [s[0], s[1]];
    } else if b <= 0xEF {
      Sound3(s);
    } else {
      Sound4(s);
    }
  }

  lemma Sound3(s: seq<byte>)
    requires |s| >= 3 && 0xE0 <= s[0] <= 0xEF && Front8(s).Some?
    ensures IsScalar(Front8(s).value.codePoint) && Utf8(Front8(s).value.codePoint) == Some(s[..3])
  {
    var b: int := s[0];
    var h := b % 16 * 64 + Six(s[1]);
    ShiftSix(b % 16, Six(s[1]));
    ShiftSix(h, Six(s[2]));
    assert s[..3] == [s[0], s[1], s[2]];
  }

  lemma Sound4(s: seq<byte>)
    requires |s| >= 4 && 0xF0 <= s[0] && Front8(s).Some?
    ensures IsScalar(Front8(s).value.codePoint) && Utf8(Front8(s).value.codePoint) == Some(s[..4])
  {
    var h: int, d1: int, d2: int, d3: int := s[0] - 0xF0, s[1] - 0x80, s[2] - 0x80, s[3] - 0x80;
    FrontOfFour(s, h, d1, d2, d3);
    hide Front8, Utf8;
    Utf8OfFour(h, d1, d2, d3);
    assert s[..4] == [s[0], s[1], s[2], s[3]];
  }

  lemma FrontOfFour(s: seq<byte>, h: int, d1: int, d2: int, d3: int)
    requires |s| >= 4 && 0xF0 <= s[0] && Front8(s).Some?
    requires h == s[0] - 0xF0 && d1 == s[1] - 0x80 && d2 == s[2] - 0x80 && d3 == s[3] - 0x80
    ensures 0 <= h <= 4 && 0 <= d1 < 64 && 0 <= d2 < 64 && 0 <= d3 < 64
    ensures var c := ((h * 64 + d1) * 64 + d2) * 64 + d3; 0x10000 <= c <= 0x10FFFF && Front8(s) == Some(Step(c, 4))
  {
    var b: int := s[0];
    assert b % 8 == h && Six(s[1]) == d1 && Six(s[2]) == d2 && Six(s[3]) == d3;
  }

  lemma Utf8OfFour(h: int, d1: int, d2: int, d3: int)
    requires 0 <= h <= 4 && 0 <= d1 < 64 && 0 <= d2 < 64 && 0 <= d3 < 64
    requires 0x10000 <= ((h * 64 + d1) * 64 + d2) * 64 + d3 <= 0x10FFFF
    ensures Utf8(((h * 64 + d1) * 64 + d2) * 64 + d3) == Some([0xF0 + h, 0x80 + d1, 0x80 + d2, 0x80 + d3])
  {
    Sixes(h, d1, d2, d3);
  }

  /** Every scalar value is read back, whatever follows it. */
  lemma Front8Complete(c: CodePoint, rest: seq<byte>)
    requires IsScalar(c)
    ensures Front8(Utf8(c).value + rest) == Some(Step(c, |Utf8(c).value|))
  {
    if c <= 0x7FF {
      assert (Utf8(c).value + rest)[0] == Utf8(c).value[0];
    } else if c <= 0xFFFF {
      Complete3(c, c / 64, rest);
    } else {
      Complete4(c, c / 64, c / 64 / 64, rest);
    }
  }

  lemma Complete3(c: CodePoint, c1: int, rest: seq<byte>)
    requires IsScalar(c) && 0x7FF < c <= 0xFFFF && c1 == c / 64
    ensures Front8(Utf8(c).value + rest) == Some(Step(c, 3))
  {
    var s := Utf8(c).value + rest;
    assert s[0] == 0xE0 + c1 / 64 && s[1] == 0x80 + c1 % 64 && s[2] == 0x80 + c % 64;
    assert c == c1 * 64 + c % 64 && c1 == c1 / 64 * 64 + c1 % 64;
  }

  lemma Complete4(c: CodePoint, c1: int, c2: int, rest: seq<byte>)
    requires 0xFFFF < c <= 0x10FFFF && c1 == c / 64 && c2 == c1 / 64
    ensures Front8(Utf8(c).value + rest) == Some(Step(c, 4))
  {
    var s := Utf8(c).value + rest;
    assert s[0] == 0xF0 + c2 / 64 && s[1] == 0x80 + c2 % 64 && s[2] == 0x80 + c1 % 64 && s[3] == 0x80 + c % 64;
    assert c == c1 * 64 + c % 64 && c1 == c2 * 64 + c1 % 64 && c2 == c2 / 64 * 64 + c2 % 64;
    assert 0 <= c2 / 64 <= 4 && Six(s[1]) == c2 % 64 && Six(s[2]) == c1 % 64 && Six(s[3]) == c % 64;
  }

  lemma Front8RefusesSurrogates(c: CodePoint, rest: seq<byte>)
    requires IsSurrogate(c)
    ensures Front8(Utf8(c).value + rest) == None
  {
    var s := Utf8(c).value + rest;
    assert s[0] == 0xE0 + c / 64 / 64 && s[1] == 0x80 + c / 64 % 64;
  }

  function Decoded8(s: seq<byte>): Option<seq<CodePoint>> {
    if s == [] then Some([])
    else
      var front := Front8(s);
      if front.None? then None else Cons(front.value.codePoint, Decoded8(s[front.value.length..]))
  }

  function Cons(c: CodePoint, rest: Option<seq<CodePoint>>): Option<seq<CodePoint>> {
    if rest.None? then None else Some([c] + rest.value)
  }

  function Encoded8(cs: seq<CodePoint>): Option<seq<byte>> {
    if cs == [] then Some([]) else Join(Utf8(cs[0]), Encoded8(cs[1..]))
  }

  function Join(a: Option<seq<byte>>, b: Option<seq<byte>>): Option<seq<byte>> {
    if a.None? || b.None? then None else Some(a.value + b.value)
  }

  /** Acceptance is sound: only scalar values come out, and they spell the input. */
  lemma {:induction false} Utf8Sound(s: seq<byte>)
    requires Decoded8(s).Some?
    ensures AllScalar(Decoded8(s).value) && Encoded8(Decoded8(s).value) == Some(s)
  {
    hide Front8, Utf8;
    if s != [] {
      var step := Front8(s).value;
      Front8Sound(s);
      Utf8Sound(s[step.length..]);
      assert Decoded8(s).value[1..] == Decoded8(s[step.length..]).value;
      assert s == s[..step.length] + s[step.length..];
    }
  }

  /** Acceptance is complete: every string of scalar values encodes, and decodes to itself. */
  lemma {:induction false} Utf8Complete(cs: seq<CodePoint>)
    requires AllScalar(cs)
    ensures Encoded8(cs).Some? && Decoded8(Encoded8(cs).value) == Some(cs)
  {
    hide Front8, Utf8;
    if cs != [] {
      Utf8Complete(cs[1..]);
      var head, tail := Utf8(cs[0]).value, Encoded8(cs[1..]).value;
      Front8Complete(cs[0], tail);
      assert (head + tail)[|head|..] == tail;
      assert [cs[0]] + cs[1..] == cs;
    }
  }

  /** A code point that is not a scalar value does not survive UTF-8. */
  lemma {:induction false} Utf8LosesOthers(cs: seq<CodePoint>)
    requires !AllScalar(cs)
    ensures Encoded8(cs).None? || Decoded8(Encoded8(cs).value).None?
  {
    hide Front8, Utf8;
    if Encoded8(cs).Some? {
      var head, tail := Utf8(cs[0]).value, Encoded8(cs[1..]).value;
      assert (head + tail)[|head|..] == tail;
      if IsScalar(cs[0]) {
        Front8Complete(cs[0], tail);
        assert !AllScalar(cs[1..]);
        Utf8LosesOthers(cs[1..]);
      } else {
        Front8RefusesSurrogates(cs[0], tail);
      }
    }
  }

  // ---------- words in either byte order ----------

  /** The `n` low bytes of a word, most significant first. */
  function BigBytes(v: int, n: nat): (s: seq<byte>)
    ensures |s| == n
    decreases n
  {
    if n == 0 then [] else BigBytes(v / 256, n - 1) + [v % 256]
  }

  function BigValue(s: seq<byte>): (v: int)
    ensures v >= 0
  {
    if s == [] then 0 else BigValue(s[..|s| - 1]) * 256 + s[|s| - 1]
  }

  /** `write_word`. */
  function Word(v: int, little: bool, n: nat): (s: seq<byte>)
    ensures |s| == n
  {
    if little then Reverse<byte>(BigBytes(v, n)) else BigBytes(v, n)
  }

  /** `read_word`. */
  function WordValue(s: seq<byte>, little: bool): int {
    if little then BigValue(Reverse<byte>(s)) else BigValue(s)
  }

  function Bound(n: nat): int {
    if n == 0 then 1 else 256 * Bound(n - 1)
  }

  lemma {:induction false} BigBytesValue(v: int, n: nat)
    requires 0 <= v < Bound(n)
    ensures BigValue(BigBytes(v, n)) == v
    decreases n
  {
    if n > 0 {
      BigBytesValue(v / 256, n - 1);
      assert BigBytes(v, n)[..n - 1] == BigBytes(v / 256, n - 1);
    }
  }

  lemma {:induction false} BigValueBytes(s: seq<byte>)
    ensures BigBytes(BigValue(s), |s|) == s && BigValue(s) < Bound(|s|)
  {
    if s != [] {
      BigValueBytes(s[..|s| - 1]);
      assert s == s[..|s| - 1] + [s[|s| - 1]];
    }
  }

  lemma WordRoundTrip(v: int, little: bool, n: nat)
    requires 0 <= v < Bound(n)
    ensures WordValue(Word(v, little, n), little) == v
  {
    BigBytesValue(v, n);
    ReverseTwice<byte>(BigBytes(v, n));
  }

  lemma WordOfValue(s: seq<byte>, little: bool)
    ensures 0 <= WordValue(s, little) < Bound(|s|) && Word(WordValue(s, little), little, |s|) == s
  {
    BigValueBytes(if little then Reverse<byte>(s) else s);
    ReverseTwice<byte>(s);
  }

  lemma Bounds()
    ensures Bound(2) == 65536 && Bound(4) == TWO32
  {
    assert Bound(1) == 256;
    assert Bound(3) == 16777216;
  }

  // ---------- UTF-16 ----------

  function Utf16(c: CodePoint, little: bool): (r: Option<seq<byte>>)
    ensures r.Some? <==> IsScalar(c)
    ensures r.Some? ==> |r.value| == 2 || |r.value| == 4
  {
    if c <= 0xFFFF then
      if IsSurrogate(c) then None else Some(Word(c, little, 2))
    else if c <= 0x10FFFF then
      Some(Word(0xD800 + (c - 0x10000) / 1024, little, 2) + Word(0xDC00 + (c - 0x10000) % 1024, little, 2))
    else None
  }

  /** One turn of the loop of `decode_utf16`; an unpaired low surrogate is let through. */
  function Front16(s: seq<byte>, little: bool): (r: Option<Step>)
    requires |s| >= 2
    ensures r.Some? ==> 2 <= r.value.length <= |s|
  {
    WordOfValue(s[..2], little);
    Bounds();
    var word := WordValue(s[..2], little);
    if 0xD800 <= word <= 0xDBFF then
      if |s| < 4 then None
      else
        var low := WordValue(s[2..4], little);
        if 0xDC00 <= low <= 0xDFFF then Some(Step(0x10000 + ((word - 0xD800) * 1024 + (low - 0xDC00)), 4)) else None
    else Some(Step(word, 2))
  }

  function Decoded16(s: seq<byte>, little: bool): Option<seq<CodePoint>>
    decreases |s|
  {
    if s == [] then Some([])
    else if |s| % 2 != 0 then None
    else
      var front := Front16(s, little);
      if front.None? then None else Cons(front.value.codePoint, Decoded16(s[front.value.length..], little))
  }

  function Encoded16(cs: seq<CodePoint>, little: bool): Option<seq<byte>> {
    if cs == [] then Some([]) else Join(Utf16(cs[0], little), Encoded16(cs[1..], little))
  }

  lemma Front16Complete(c: CodePoint, little: bool, rest: seq<byte>)
    requires IsScalar(c)
    ensures Front16(Utf16(c, little).value + rest, little) == Some(Step(c, |Utf16(c, little).value|))
  {
    hide Word, WordValue;
    Bounds();
    var s := Utf16(c, little).value + rest;
    if c <= 0xFFFF {
      WordRoundTrip(c, little, 2);
      assert s[..2] == Word(c, little, 2);
    } else {
      var v := c - 0x10000;
      WordRoundTrip(0xD800 + v / 1024, little, 2);
      WordRoundTrip(0xDC00 + v % 1024, little, 2);
      assert s[..2] == Word(0xD800 + v / 1024, little, 2);
      assert s[2..4] == Word(0xDC00 + v % 1024, little, 2);
    }
  }

  lemma Front16Sound(s: seq<byte>, little: bool)
    requires |s| >= 2 && Front16(s, little).Some?
    ensures var step := Front16(s, little).value;
            IsScalar(step.codePoint) ==> Utf16(step.codePoint, little) == Some(s[..step.length])
  {
    hide Word, WordValue;
    Bounds();
    var word := WordValue(s[..2], little);
    WordOfValue(s[..2], little);
    if 0xD800 <= word <= 0xDBFF {
      var low := WordValue(s[2..4], little);
      WordOfValue(s[2..4], little);
      assert ((word - 0xD800) * 1024 + (low - 0xDC00)) / 1024 == word - 0xD800;
      assert s[..4] == s[..2] + s[2..4];
    }
  }

  lemma {:induction false} Utf16Complete(cs: seq<CodePoint>, little: bool)
    requires AllScalar(cs)
    ensures Encoded16(cs, little).Some? && |Encoded16(cs, little).value| % 2 == 0
    ensures Decoded16(Encoded16(cs, little).value, little) == Some(cs)
  {
    hide Front16, Utf16;
    if cs != [] {
      Utf16Complete(cs[1..], little);
      var head, tail := Utf16(cs[0], little).value, Encoded16(cs[1..], little).value;
      Front16Complete(cs[0], little, tail);
      assert (head + tail)[|head|..] == tail;
      assert [cs[0]] + cs[1..] == cs;
    }
  }

  lemma {:induction false} Utf16Sound(s: seq<byte>, little: bool)
    requires Decoded16(s, little).Some? && AllScalar(Decoded16(s, little).value)
    ensures Encoded16(Decoded16(s, little).value, little) == Some(s)
    decreases |s|
  {
    hide Front16, Utf16;
    if s != [] {
      var step := Front16(s, little).value;
      var rest := s[step.length..];
      assert Decoded16(s, little).value[1..] == Decoded16(rest, little).value;
      assert Decoded16(s, little).value[0] == step.codePoint;
      Front16Sound(s, little);
      Utf16Sound(rest, little);
      assert s == s[..step.length] + rest;
    }
  }

  lemma {:induction false} Utf16RefusesOthers(cs: seq<CodePoint>, little: bool)
    ensures Encoded16(cs, little).Some? <==> AllScalar(cs)
  {
    if cs != [] {
      Utf16RefusesOthers(cs[1..], little);
      assert AllScalar(cs) <==> IsScalar(cs[0]) && AllScalar(cs[1..]);
    }
  }

  // ---------- UTF-32 ----------

  function Encoded32(cs: seq<CodePoint>, little: bool): seq<byte> {
    if cs == [] then [] else Word(cs[0], little, 4) + Encoded32(cs[1..], little)
  }

  /** `decode_fixed_width` with four bytes: any word is let through. */
  function Decoded32(s: seq<byte>, little: bool): Option<seq<CodePoint>> {
    if s == [] then Some([])
    else if |s| % 4 != 0 then None
    else
      WordOfValue(s[..4], little);
      Bounds();
      Cons(WordValue(s[..4], little), Decoded32(s[4..], little))
  }

  lemma {:induction false} Utf32Complete(cs: seq<CodePoint>, little: bool)
    ensures |Encoded32(cs, little)| % 4 == 0 && Decoded32(Encoded32(cs, little), little) == Some(cs)
  {
    hide Word, WordValue;
    if cs != [] {
      Utf32Complete(cs[1..], little);
      Bounds();
      WordRoundTrip(cs[0], little, 4);
      var s := Encoded32(cs, little);
      assert s[..4] == Word(cs[0], little, 4) && s[4..] == Encoded32(cs[1..], little);
      assert [cs[0]] + cs[1..] == cs;
    }
  }

  lemma {:induction false} Utf32Sound(s: seq<byte>, little: bool)
    requires Decoded32(s, little).Some?
    ensures Encoded32(Decoded32(s, little).value, little) == s
  {
    hide Word, WordValue;
    if s != [] {
      Utf32Sound(s[4..], little);
      WordOfValue(s[..4], little);
      assert Decoded32(s, little).value[1..] == Decoded32(s[4..], little).value;
      assert s == s[..4] + s[4..];
    }
  }

  // ---------- transcoding ----------

  datatype Charset = Unicode8 | Unicode16(little: bool) | Unicode32(little: bool)

  function Decoded(s: seq<byte>, charset: Charset): Option<seq<CodePoint>> {
    match charset
    case Unicode8 => Decoded8(s)
    case Unicode16(little) => Decoded16(s, little)
    case Unicode32(little) => Decoded32(s, little)
  }

  function Encoded(cs: seq<CodePoint>, charset: Charset): Option<seq<byte>> {
    match charset
    case Unicode8 => Encoded8(cs)
    case Unicode16(little) => Encoded16(cs, little)
    case Unicode32(little) => Some(Encoded32(cs, little))
  }

  /** The plugin: decode from one charset, encode to the other. */
  function Transcoded(s: seq<byte>, from: Charset, to: Charset): Option<seq<byte>> {
    var cs := Decoded(s, from);
    if cs.None? then None else Encoded(cs.value, to)
  }

  predicate RoundTrips(s: seq<byte>, from: Charset, to: Charset) {
    && Transcoded(s, from, to).Some?
    && Transcoded(Transcoded(s, from, to).value, to, from) == Some(s)
  }

  lemma CharsetComplete(cs: seq<CodePoint>, charset: Charset)
    requires AllScalar(cs)
    ensures Encoded(cs, charset).Some? && Decoded(Encoded(cs, charset).value, charset) == Some(cs)
  {
    match charset
    case Unicode8 => Utf8Complete(cs);
    case Unicode16(little) => Utf16Complete(cs, little);
    case Unicode32(little) => Utf32Complete(cs, little);
  }

  lemma CharsetSound(s: seq<byte>, charset: Charset)
    requires Decoded(s, charset).Some? && (charset.Unicode16? ==> AllScalar(Decoded(s, charset).value))
    ensures Encoded(Decoded(s, charset).value, charset) == Some(s)
    ensures charset.Unicode8? ==> AllScalar(Decoded(s, charset).value)
  {
    match charset
    case Unicode8 => Utf8Sound(s);
    case Unicode16(little) => Utf16Sound(s, little);
    case Unicode32(little) => Utf32Sound(s, little);
  }

  // ---------- the words of a text ----------

  predicate IsHigh(w: int) { 0xD800 <= w <= 0xDBFF }

  predicate IsLow(w: int) { 0xDC00 <= w <= 0xDFFF }

  /** Word number `k` of a text of two-byte words. */
  function Word16(s: seq<byte>, k: nat, little: bool): int
    requires 2 * k + 2 <= |s|
  {
    WordValue(s[2 * k..2 * k + 2], little)
  }

  /** A low surrogate that no high surrogate precedes. */
  predicate LoneLow(s: seq<byte>, k: nat, little: bool)
    requires 2 * k + 2 <= |s|
  {
    IsLow(Word16(s, k, little)) && (k == 0 || !IsHigh(Word16(s, k - 1, little)))
  }

  predicate NoLoneLow(s: seq<byte>, little: bool) {
    forall k :: 0 <= k < |s| / 2 ==> !LoneLow(s, k, little)
  }

  lemma WordShift(s: seq<byte>, n: nat, k: nat, little: bool)
    requires 2 * (n + k) + 2 <= |s|
    ensures Word16(s[2 * n..], k, little) == Word16(s, n + k, little)
  {
    hide WordValue;
    assert s[2 * n..][2 * k..2 * k + 2] == s[2 * (n + k)..2 * (n + k) + 2];
  }

  /** Behind a word that is no high surrogate, the rest is judged as a text of its own. */
  lemma LoneShift(s: seq<byte>, n: nat, k: nat, little: bool)
    requires 0 < n && 2 * (n + k) + 2 <= |s| && !IsHigh(Word16(s, n - 1, little))
    ensures LoneLow(s[2 * n..], k, little) <==> LoneLow(s, n + k, little)
  {
    hide Word16;
    WordShift(s, n, k, little);
    if k > 0 { WordShift(s, n, k - 1, little); }
  }

  lemma NoLoneLowRest(s: seq<byte>, n: nat, little: bool)
    requires 1 <= n <= 2 && 2 * n <= |s| && !IsHigh(Word16(s, n - 1, little))
    ensures NoLoneLow(s, little) <==>
            NoLoneLow(s[2 * n..], little) && forall k :: 0 <= k < n ==> !LoneLow(s, k, little)
  {
    hide LoneLow, Word16;
    var rest := s[2 * n..];
    assert |rest| / 2 == |s| / 2 - n;
    forall k | 0 <= k < |rest| / 2 ensures LoneLow(rest, k, little) <==> LoneLow(s, n + k, little) {
      LoneShift(s, n, k, little);
    }
    if NoLoneLow(rest, little) && forall k :: 0 <= k < n ==> !LoneLow(s, k, little) {
      forall k | 0 <= k < |s| / 2 ensures !LoneLow(s, k, little) {
        if k >= n { assert !LoneLow(rest, k - n, little); }
      }
    }
    if NoLoneLow(s, little) {
      forall k | 0 <= k < |rest| / 2 ensures !LoneLow(rest, k, little) {
        assert !LoneLow(s, n + k, little);
      }
    }
  }

  /** One turn of the decoder: how many words it takes, and whether it takes a scalar value. */
  lemma FrontWords(s: seq<byte>, little: bool)
    requires |s| >= 2 && Front16(s, little).Some?
    ensures var step := Front16(s, little).value;
            && (step.length == 2 || step.length == 4) && !IsHigh(Word16(s, step.length / 2 - 1, little))
            && (IsScalar(step.codePoint) <==> forall k :: 0 <= k < step.length / 2 ==> !LoneLow(s, k, little))
  {
    hide WordValue;
    Bounds();
    WordOfValue(s[..2], little);
    assert s[0..2] == s[..2];
    var w := Word16(s, 0, little);
    if IsHigh(w) {
      assert Word16(s, 1, little) == WordValue(s[2..4], little);
      assert !LoneLow(s, 0, little) && !LoneLow(s, 1, little);
    } else {
      assert LoneLow(s, 0, little) <==> IsLow(w);
    }
  }

  lemma AllScalarCons(c: int, cs: seq<int>)
    ensures AllScalar([c] + cs) <==> IsScalar(c) && AllScalar(cs)
  {
    if AllScalar([c] + cs) {
      assert ([c] + cs)[0] == c;
      forall i | 0 <= i < |cs| ensures IsScalar(cs[i]) { assert ([c] + cs)[i + 1] == cs[i]; }
    }
  }

  /** An accepted UTF-16 text decodes to scalar values exactly when it has no lone low surrogate. */
  lemma {:induction false} ScalarWords16(s: seq<byte>, little: bool)
    requires Decoded16(s, little).Some?
    ensures AllScalar(Decoded16(s, little).value) <==> NoLoneLow(s, little)
    decreases |s|
  {
    hide Front16, LoneLow, Word16, IsScalar;
    if s != [] {
      var step := Front16(s, little).value;
      var n := step.length / 2;
      FrontWords(s, little);
      var rest := s[2 * n..];
      assert Decoded16(s, little) == Cons(step.codePoint, Decoded16(rest, little));
      ScalarWords16(rest, little);
      NoLoneLowRest(s, n, little);
      hide Decoded16, AllScalar, NoLoneLow;
      AllScalarCons(step.codePoint, Decoded16(rest, little).value);
    }
  }

  /** Word number `k` of a text of four-byte words. */
  function Word32(s: seq<byte>, k: nat, little: bool): int
    requires 4 * k + 4 <= |s|
  {
    WordValue(s[4 * k..4 * k + 4], little)
  }

  predicate AllWordsScalar(s: seq<byte>, little: bool) {
    forall k :: 0 <= k < |s| / 4 ==> IsScalar(Word32(s, k, little))
  }

  lemma {:induction false} ScalarWords32(s: seq<byte>, little: bool)
    requires Decoded32(s, little).Some?
    ensures AllScalar(Decoded32(s, little).value) <==> AllWordsScalar(s, little)
    decreases |s|
  {
    if s != [] {
      var rest := s[4..];
      ScalarWords32(rest, little);
      hide WordValue, IsScalar;
      WordsBehind(s, little);
      AllScalarCons(WordValue(s[..4], little), Decoded32(rest, little).value);
      hide Decoded32, AllScalar, AllWordsScalar;
    }
  }

  lemma WordsBehind(s: seq<byte>, little: bool)
    requires |s| >= 4 && |s| % 4 == 0
    ensures AllWordsScalar(s, little) <==> IsScalar(WordValue(s[..4], little)) && AllWordsScalar(s[4..], little)
  {
    hide WordValue, IsScalar;
    var rest := s[4..];
    assert s[0..4] == s[..4];
    forall k | 0 <= k < |rest| / 4 ensures Word32(rest, k, little) == Word32(s, k + 1, little) {
      assert rest[4 * k..4 * k + 4] == s[4 * (k + 1)..4 * (k + 1) + 4];
    }
    if AllWordsScalar(s, little) {
      assert IsScalar(Word32(s, 0, little));
      forall k | 0 <= k < |rest| / 4 ensures IsScalar(Word32(rest, k, little)) {
        assert IsScalar(Word32(s, k + 1, little));
      }
    } else if IsScalar(WordValue(s[..4], little)) && AllWordsScalar(rest, little) {
      forall k | 0 <= k < |s| / 4 ensures IsScalar(Word32(s, k, little)) {
        if k > 0 { assert IsScalar(Word32(rest, k - 1, little)); }
      }
    }
  }

  /** Read off the bytes: no lone low surrogate, every four-byte word a scalar value, nothing for UTF-8. */
  predicate ScalarText(s: seq<byte>, charset: Charset) {
    match charset
    case Unicode8 => true
    case Unicode16(little) => NoLoneLow(s, little)
    case Unicode32(little) => AllWordsScalar(s, little)
  }

  lemma ScalarTextDecodes(s: seq<byte>, charset: Charset)
    requires Decoded(s, charset).Some?
    ensures AllScalar(Decoded(s, charset).value) <==> ScalarText(s, charset)
  {
    hide Decoded8, Decoded16, Decoded32, AllScalar, NoLoneLow, AllWordsScalar;
    match charset {
      case Unicode8 => Utf8Sound(s);
      case Unicode16(little) => ScalarWords16(s, little);
      case Unicode32(little) => ScalarWords32(s, little);
    }
  }

  /** A low surrogate alone is accepted as UTF-16 and does not come back from any of the character sets. */
  lemma LoneLowIsLost(to: Charset)
    ensures var s: seq<byte> := [0x00, 0xDC];
            && Decoded(s, Unicode16(true)) == Some([0xDC00]) && !RoundTrips(s, Unicode16(true), to)
  {
    var s: seq<byte> := [0x00, 0xDC];
    LoneLowWord();
    assert Word16(s, 0, true) == 0xDC00 by { assert s[0..2] == s; }
    assert LoneLow(s, 0, true);
    LoneLowDecodes();
    RoundTripExactly(s, Unicode16(true), to);
  }

  lemma LoneLowWord()
    ensures WordValue([0x00, 0xDC], true) == 0xDC00
  {
    var r: seq<byte> := [0xDC, 0x00];
    assert Reverse<byte>([0x00, 0xDC]) == r;
    assert r[..1] == [0xDC] && r[..1][..0] == [];
    assert BigValue(r[..1]) == 0xDC;
  }

  lemma LoneLowDecodes()
    ensures Decoded16([0x00, 0xDC], true) == Some([0xDC00])
  {
    var s: seq<byte> := [0x00, 0xDC];
    LoneLowWord();
    hide WordValue;
    assert s[..2] == s && s[2..] == [];
    assert Front16(s, true) == Some(Step(0xDC00, 2));
    var none: seq<CodePoint> := [];
    assert Decoded16(s[2..], true) == Some(none);
    assert [0xDC00] + none == [0xDC00];
  }

  /**
    Between any two of the five Unicode charsets, accepted text comes back unchanged exactly when its
    words are those of scalar values; only UTF-32 to UTF-32 carries other words.
   */
  lemma RoundTripExactly(s: seq<byte>, from: Charset, to: Charset)
    requires Decoded(s, from).Some?
    ensures RoundTrips(s, from, to) <==> ScalarText(s, from) || (from.Unicode32? && to.Unicode32?)
  {
    hide Decoded8, Decoded16, Decoded32, Encoded8, Encoded16, Encoded32, ScalarText;
    ScalarTextDecodes(s, from);
    var cs := Decoded(s, from).value;
    if AllScalar(cs) {
      CharsetComplete(cs, to);
      CharsetSound(s, from);
    } else if from.Unicode32? && to.Unicode32? {
      Utf32Complete(cs, to.little);
      CharsetSound(s, from);
    } else {
      NotCarried(s, cs, from, to);
    }
  }

  lemma NotCarried(s: seq<byte>, cs: seq<CodePoint>, from: Charset, to: Charset)
    requires Decoded(s, from) == Some(cs) && !AllScalar(cs) && !(from.Unicode32? && to.Unicode32?)
    ensures !RoundTrips(s, from, to)
  {
    hide Decoded8, Decoded16, Decoded32, Encoded8, Encoded16, Encoded32;
    match to
    case Unicode8 =>
      Utf8LosesOthers(cs);
    case Unicode16(little) =>
      Utf16RefusesOthers(cs, little);
    case Unicode32(little) =>
      Utf32Complete(cs, little);
      if from.Unicode8? {
        Utf8Sound(s);
      } else {
        Utf16RefusesOthers(cs, from.little);
      }
  }

  /** Every byte string the UTF-8 decoder accepts survives a trip through any of the others. */
  lemma Utf8Survives(s: seq<byte>, via: Charset)
    requires Decoded8(s).Some?
    ensures RoundTrips(s, Unicode8, via)
  {
    Utf8Sound(s);
    RoundTripExactly(s, Unicode8, via);
  }

  // ---------- the loops ----------

  function Append(a: seq<CodePoint>, b: Option<seq<CodePoint>>): Option<seq<CodePoint>> {
    if b.None? then None else Some(a + b.value)
  }

  lemma AppendCons(a: seq<CodePoint>, c: CodePoint, b: Option<seq<CodePoint>>)
    ensures Append(a, Cons(c, b)) == Append(a + [c], b)
    ensures Append([], b) == b
  {
    if b.Some? {
      assert a + ([c] + b.value) == a + [c] + b.value;
      assert [] + b.value == b.value;
    }
  }

  method DecodeUtf8(input: seq<byte>) returns (r: Option<seq<CodePoint>>)
    ensures r == Decoded8(input)
  {
    hide Front8;
    var out: seq<CodePoint> := [];
    var i := 0;
    AppendCons([], 0, Decoded8(input));
    assert input[0..] == input;
    while i < |input|
      invariant 0 <= i <= |input|
      invariant Append(out, Decoded8(input[i..])) == Decoded8(input)
    {
      var front := Front8(input[i..]);
      if front.None? { return None; }
      ghost var rest := input[i..][front.value.length..];
      assert rest == input[i + front.value.length..];
      AppendCons(out, front.value.codePoint, Decoded8(rest));
      out := out + [front.value.codePoint];
      i := i + front.value.length;
    }
    assert input[i..] == [] && out + [] == out;
    r := Some(out);
  }

  lemma JoinMore(a: seq<byte>, b: Option<seq<byte>>, c: Option<seq<byte>>)
    requires b.Some?
    ensures Join(Some(a), Join(b, c)) == Join(Some(a + b.value), c)
    ensures Join(Some([]), c) == c
  {
    if c.Some? {
      assert a + (b.value + c.value) == a + b.value + c.value;
      assert [] + c.value == c.value;
    }
  }

  method EncodeUtf8(input: seq<CodePoint>) returns (r: Option<seq<byte>>)
    ensures r == Encoded8(input)
  {
    hide Utf8;
    var out: seq<byte> := [];
    JoinMore([], Some([]), Encoded8(input));
    assert input[0..] == input;
    for i := 0 to |input|
      invariant Join(Some(out), Encoded8(input[i..])) == Encoded8(input)
    {
      assert input[i..][1..] == input[i + 1..];
      var bytes := Utf8(input[i]);
      if bytes.None? { return None; }
      JoinMore(out, bytes, Encoded8(input[i + 1..]));
      out := out + bytes.value;
    }
    assert input[|input|..] == [] && out + [] == out;
    r := Some(out);
  }

  method ReadWord(input: seq<byte>, offset: nat, little: bool, bytes: nat) returns (value: CodePoint)
    requires offset + bytes <= |input| && bytes <= 4
    ensures value == WordValue(input[offset..offset + bytes], little)
  {
    var s := if little then Reverse<byte>(input[offset..offset + bytes]) else input[offset..offset + bytes];
    value := 0;
    for i := 0 to bytes
      invariant value == BigValue(s[..i])
    {
      var b := if little then input[offset + (bytes - 1 - i)] else input[offset + i];
      assert s[..i + 1][..i] == s[..i] && s[i] == b;
      ThreeBytes(s[..i]);
      value := (value * 256) % TWO32 + b;
    }
    assert s[..bytes] == s;
  }

  /** At most three bytes are shifted up, so nothing leaves the 32-bit word. */
  lemma ThreeBytes(s: seq<byte>)
    requires |s| <= 3
    ensures BigValue(s) < 16777216 && (BigValue(s) * 256) % TWO32 == BigValue(s) * 256
  {
    hide BigValue;
    BigValueBytes(s);
    SmallBounds(|s|);
    NoWrap(BigValue(s));
  }

  lemma SmallBounds(n: nat)
    requires n <= 3
    ensures Bound(n) <= 16777216
  {
    assert Bound(0) == 1 && Bound(1) == 256 && Bound(2) == 65536 && Bound(3) == 16777216;
  }

  lemma NoWrap(v: int)
    requires 0 <= v < 16777216
    ensures (v * 256) % TWO32 == v * 256
  {
  }

  function ByteAt(v: int, i: nat): byte
    decreases i
  {
    if i == 0 then v % 256 else ByteAt(v / 256, i - 1)
  }

  lemma {:induction false} ByteOfBig(v: int, n: nat, i: nat)
    requires i < n
    ensures BigBytes(v, n)[n - 1 - i] == ByteAt(v, i)
    decreases n
  {
    if i > 0 {
      ByteOfBig(v / 256, n - 1, i - 1);
    }
  }

  lemma WordByte(v: int, little: bool, n: nat, k: nat)
    requires k < n
    ensures Word(v, little, n)[k] == ByteAt(v, if little then k else n - 1 - k)
  {
    ByteOfBig(v, n, if little then k else n - 1 - k);
  }

  method WriteWord(value: CodePoint, little: bool, bytes: nat, out0: seq<byte>) returns (out: seq<byte>)
    ensures out == out0 + Word(value, little, bytes)
  {
    hide Word, ByteAt;
    out := out0;
    for k := 0 to bytes
      invariant out == out0 + Word(value, little, bytes)[..k]
    {
      WordByte(value, little, bytes, k);
      out := out + [ByteAt(value, if little then k else bytes - 1 - k)];
    }
    assert Word(value, little, bytes)[..bytes] == Word(value, little, bytes);
  }

  lemma Front16Cases(s: seq<byte>, little: bool)
    requires |s| >= 2
    ensures var word := WordValue(s[..2], little);
            && 0 <= word < TWO32
            && (!(0xD800 <= word <= 0xDBFF) ==> Front16(s, little) == Some(Step(word, 2)))
            && (0xD800 <= word <= 0xDBFF && |s| < 4 ==> Front16(s, little) == None)
            && (0xD800 <= word <= 0xDBFF && |s| >= 4 ==>
                  var low := WordValue(s[2..4], little);
                  if 0xDC00 <= low <= 0xDFFF
                  then Front16(s, little) == Some(Step(0x10000 + ((word - 0xD800) * 1024 + (low - 0xDC00)), 4))
                  else Front16(s, little) == None)
  {
    hide WordValue;
    WordOfValue(s[..2], little);
    Bounds();
  }

  method DecodeUtf16(input: seq<byte>, little: bool) returns (r: Option<seq<CodePoint>>)
    ensures r == Decoded16(input, little)
  {
    hide WordValue, Front16;
    if |input| % 2 != 0 { return None; }
    var out: seq<CodePoint> := [];
    var i := 0;
    AppendCons([], 0, Decoded16(input, little));
    assert input[0..] == input;
    while i < |input|
      invariant 0 <= i <= |input| && i % 2 == 0
      invariant Append(out, Decoded16(input[i..], little)) == Decoded16(input, little)
    {
      ghost var rest := input[i..];
      Front16Cases(rest, little);
      var word := ReadWord(input, i, little, 2);
      assert rest[..2] == input[i..i + 2];
      var length := 2;
      if 0xD800 <= word <= 0xDBFF {
        if i + 3 >= |input| { return None; }
        var low := ReadWord(input, i + 2, little, 2);
        assert rest[2..4] == input[i + 2..i + 4];
        if low < 0xDC00 || low > 0xDFFF { return None; }
        word := 0x10000 + ((word - 0xD800) * 1024 + (low - 0xDC00));
        length := 4;
      }
      assert rest[length..] == input[i + length..];
      AppendCons(out, word, Decoded16(rest[length..], little));
      out := out + [word];
      i := i + length;
    }
    assert input[i..] == [] && out + [] == out;
    r := Some(out);
  }

  method EncodeUtf16(input: seq<CodePoint>, little: bool) returns (r: Option<seq<byte>>)
    ensures r == Encoded16(input, little)
  {
    hide Word;
    var out: seq<byte> := [];
    JoinMore([], Some([]), Encoded16(input, little));
    assert input[0..] == input;
    for i := 0 to |input|
      invariant Join(Some(out), Encoded16(input[i..], little)) == Encoded16(input, little)
    {
      assert input[i..][1..] == input[i + 1..];
      var c := input[i];
      ghost var before := out;
      if c <= 0xFFFF {
        if IsSurrogate(c) { return None; }
        out := WriteWord(c, little, 2, out);
      } else if c <= 0x10FFFF {
        out := WriteWord(0xD800 + (c - 0x10000) / 1024, little, 2, out);
        out := WriteWord(0xDC00 + (c - 0x10000) % 1024, little, 2, out);
      } else {
        return None;
      }
      assert out == before + Utf16(c, little).value;
      JoinMore(before, Utf16(c, little), Encoded16(input[i + 1..], little));
    }
    assert input[|input|..] == [] && out + [] == out;
    r := Some(out);
  }

  method DecodeFixedWidth(input: seq<byte>, little: bool) returns (r: Option<seq<CodePoint>>)
    ensures r == Decoded32(input, little)
  {
    if |input| % 4 != 0 { return None; }
    hide WordValue, Decoded32, Cons, Append;
    var out: seq<CodePoint> := [];
    var i := 0;
    AppendCons([], 0, Decoded32(input, little));
    assert input[0..] == input;
    while i < |input|
      invariant 0 <= i <= |input| && i % 4 == 0
      invariant Append(out, Decoded32(input[i..], little)) == Decoded32(input, little)
    {
      var word := ReadWord(input, i, little, 4);
      OneWord(input, i, little, word);
      AppendCons(out, word, Decoded32(input[i + 4..], little));
      out := out + [word];
      i := i + 4;
    }
    NoWords(out, little);
    assert input[i..] == [];
    r := Some(out);
  }

  lemma OneWord(input: seq<byte>, i: nat, little: bool, word: CodePoint)
    requires |input| % 4 == 0 && i % 4 == 0 && i + 4 <= |input| && word == WordValue(input[i..i + 4], little)
    ensures Decoded32(input[i..], little) == Cons(word, Decoded32(input[i + 4..], little))
  {
    hide WordValue;
    assert input[i..][..4] == input[i..i + 4] && input[i..][4..] == input[i + 4..];
  }

  lemma NoWords(out: seq<CodePoint>, little: bool)
    ensures Append(out, Decoded32([], little)) == Some(out)
  {
    assert out + [] == out;
  }

  method EncodeFixedWidth(input: seq<CodePoint>, little: bool) returns (out: seq<byte>)
    ensures out == Encoded32(input, little)
  {
    hide Word;
    out := [];
    for i := 0 to |input|
      invariant out + Encoded32(input[i..], little) == Encoded32(input, little)
    {
      assert input[i..][1..] == input[i + 1..];
      ghost var before := out;
      out := WriteWord(input[i], little, 4, out);
      assert before + (Word(input[i], little, 4) + Encoded32(input[i + 1..], little))
          == out + Encoded32(input[i + 1..], little);
    }
    assert input[|input|..] == [] && out + [] == out;
  }

  method Apply(input: seq<byte>, from: Charset, to: Charset) returns (r: Option<seq<byte>>)
    ensures r == Transcoded(input, from, to)
  {
    var cs: Option<seq<CodePoint>>;
    match from {
      case Unicode8 => cs := DecodeUtf8(input);
      case Unicode16(little) => cs := DecodeUtf16(input, little);
      case Unicode32(little) => cs := DecodeFixedWidth(input, little);
    }
    if cs.None? { return None; }
    match to {
      case Unicode8 => r := EncodeUtf8(cs.value);
      case Unicode16(little) => r := EncodeUtf16(cs.value, little);
      case Unicode32(little) =>
        var out := EncodeFixedWidth(cs.value, little);
        r := Some(out);
    }
  }
}
