/**
  What the encodings of Transcode mean, without their own formulas: the byte ranges of section 4 of
  RFC 3629 and the bits of its section 3 for UTF-8, the two halves of section 2.1 of RFC 2781 for
  UTF-16, and the order of the bytes in a word.
 */
module Unicode {
  import opened Common
  import opened Bits
  import opened Transcode

  predicate In(b: byte, low: int, high: int) { low <= b <= high }

  predicate Tails(s: seq<byte>) { forall i :: 0 <= i < |s| ==> In(s[i], 0x80, 0xBF) }

  /** One character, by the syntax of section 4 of RFC 3629. */
  predicate Char8(s: seq<byte>) {
    || (|s| == 1 && In(s[0], 0x00, 0x7F))
    || (|s| == 2 && In(s[0], 0xC2, 0xDF) && Tails(s[1..]))
    || (|s| == 3 && In(s[0], 0xE0, 0xE0) && In(s[1], 0xA0, 0xBF) && Tails(s[2..]))
    || (|s| == 3 && In(s[0], 0xE1, 0xEC) && Tails(s[1..]))
    || (|s| == 3 && In(s[0], 0xED, 0xED) && In(s[1], 0x80, 0x9F) && Tails(s[2..]))
    || (|s| == 3 && In(s[0], 0xEE, 0xEF) && Tails(s[1..]))
    || (|s| == 4 && In(s[0], 0xF0, 0xF0) && In(s[1], 0x90, 0xBF) && Tails(s[2..]))
    || (|s| == 4 && In(s[0], 0xF1, 0xF3) && Tails(s[1..]))
    || (|s| == 4 && In(s[0], 0xF4, 0xF4) && In(s[1], 0x80, 0x8F) && Tails(s[2..]))
  }

  /** The character bits of a sequence, by the table of section 3 of RFC 3629. */
  function Payload(s: seq<byte>): seq<bool> {
    if |s| == 1 then LowBits(s[0], 7)
    else if |s| == 2 then LowBits(s[0], 5) + LowBits(s[1], 6)
    else if |s| == 3 then LowBits(s[0], 4) + LowBits(s[1], 6) + LowBits(s[2], 6)
    else if |s| == 4 then LowBits(s[0], 3) + LowBits(s[1], 6) + LowBits(s[2], 6) + LowBits(s[3], 6)
    else []
  }

  /** The text is made of characters whose bits spell the code points, one after the other. */
  predicate Spells8(s: seq<byte>, cs: seq<int>)
    decreases |cs|
  {
    if cs == [] then s == []
    else exists n :: 1 <= n <= 4 && n <= |s| && Char8(s[..n]) && Number(Payload(s[..n])) == cs[0]
                     && Spells8(s[n..], cs[1..])
  }

  // ---------- bits ----------

  /** The marks of leading and following bytes stand above the bits they carry. */
  lemma MarkBits(d: int)
    ensures LowBits(0x80 + d, 6) == LowBits(d, 6) && LowBits(0xC0 + d, 5) == LowBits(d, 5)
    ensures LowBits(0xE0 + d, 4) == LowBits(d, 4) && LowBits(0xF0 + d, 3) == LowBits(d, 3)
  {
    assert Shl(6, 5) == 192 by { hide Shl; Shl5(6); }
    assert Shl(2, 6) == 128 by { hide Shl; Shl6(2); }
    assert Shl(30, 3) == 240 by { assert Shl(30, 1) == 60; assert Shl(30, 2) == 120; }
    assert Shl(14, 4) == 224 by { assert Shl(14, 1) == 28; assert Shl(14, 2) == 56; assert Shl(14, 3) == 112; }
    hide LowBits, Shl;
    HighBitsIgnored(d, 2, 6, 6);
    HighBitsIgnored(d, 6, 5, 5);
    HighBitsIgnored(d, 14, 4, 4);
    HighBitsIgnored(d, 30, 3, 3);
  }

  lemma {:induction false} NumberOfLow(x: int, n: nat)
    requires 0 <= x < Shl(1, n)
    ensures Number(LowBits(x, n)) == x
    decreases n
  {
    if n > 0 {
      NumberOfLow(x / 2, n - 1);
      assert LowBits(x, n)[..n - 1] == LowBits(x / 2, n - 1);
    }
  }

  lemma Widths()
    ensures Shl(1, 7) == 0x80 && Shl(1, 11) == 0x800 && Shl(1, 16) == 0x10000 && Shl(1, 21) == 0x200000
  {
    hide Shl;
    Shl8(1);
    Shl8(256);
    ShlSum(1, 8, 8);
    Shl5(65536);
    ShlSum(1, 16, 5);
    Shl6(1);
    Shl5(64);
    ShlSum(1, 6, 5);
    Shl6(2);
    ShlSum(1, 1, 6);
    ShlOne();
  }

  lemma ShlOne()
    ensures Shl(1, 1) == 2
  {
  }

  // ---------- UTF-8 ----------

  /** Of every scalar value the encoder makes a character of the syntax, whose bits are those of the value. */
  lemma Utf8Bits(c: CodePoint)
    requires IsScalar(c)
    ensures Char8(Utf8(c).value) && Number(Payload(Utf8(c).value)) == c
  {
    Utf8Syntax(c);
    Utf8Payload(c);
    Widths();
    hide *;
    NumberOfLow(c, if c <= 0x7F then 7 else if c <= 0x7FF then 11 else if c <= 0xFFFF then 16 else 21);
  }

  lemma Utf8Syntax(c: CodePoint)
    requires IsScalar(c)
    ensures Char8(Utf8(c).value)
  {
    hide LowBits;
    var s := Utf8(c).value;
    if c > 0xFFFF { SyntaxOfFour(c, c / 64, c / 64 / 64); } else if c > 0x7FF { SyntaxOfThree(c, c / 64); }
  }

  lemma SyntaxOfThree(c: CodePoint, c1: int)
    requires IsScalar(c) && 0x7FF < c <= 0xFFFF && c1 == c / 64
    ensures Char8(Utf8(c).value)
  {
    var s := Utf8(c).value;
    assert s[0] == 0xE0 + c1 / 64 && s[1] == 0x80 + c1 % 64 && s[2] == 0x80 + c % 64;
    assert 0x20 <= c1 < 0x400 && !(0x360 <= c1 < 0x380);
  }

  lemma SyntaxOfFour(c: CodePoint, c1: int, c2: int)
    requires IsScalar(c) && 0xFFFF < c && c1 == c / 64 && c2 == c1 / 64
    ensures Char8(Utf8(c).value)
  {
    var s := Utf8(c).value;
    assert s[0] == 0xF0 + c2 / 64 && s[1] == 0x80 + c2 % 64 && s[2] == 0x80 + c1 % 64 && s[3] == 0x80 + c % 64;
    assert 0x10 <= c2 < 0x110;
  }

  lemma Utf8Payload(c: CodePoint)
    requires IsScalar(c)
    ensures Payload(Utf8(c).value) ==
            LowBits(c, if c <= 0x7F then 7 else if c <= 0x7FF then 11 else if c <= 0xFFFF then 16 else 21)
  {
    hide LowBits;
    var c1, c2 := c / 64, c / 64 / 64;
    MarkBits(c % 64);
    MarkBits(c1 % 64);
    MarkBits(c2 % 64);
    if c <= 0x7F {
    } else if c <= 0x7FF {
      MarkBits(c1);
      SixBits(c, 5);
    } else if c <= 0xFFFF {
      MarkBits(c2);
      SixBits(c1, 4);
      SixBits(c, 10);
    } else {
      MarkBits(c2 / 64);
      SixBits(c2, 3);
      SixBits(c1, 9);
      SixBits(c, 15);
    }
  }

  /** The decoder reads a character of n bytes exactly where the syntax has one. */
  lemma Front8Exactly(s: seq<byte>, n: nat)
    requires 1 <= n <= 4 && n <= |s|
    ensures Char8(s[..n]) <==> Front8(s).Some? && Front8(s).value.length == n
  {
    var t := s[..n];
    assert n >= 2 ==> t[1..] == s[1..n];
    assert n >= 3 ==> t[2..] == s[2..n];
    assert n >= 2 ==> t[1] == s[1] == t[1..][0];
    assert n >= 3 ==> t[2] == s[2] == t[1..][1] == t[2..][0];
    assert n >= 4 ==> t[3] == s[3] == t[1..][2] == t[2..][1];
  }

  lemma Front8Bits(s: seq<byte>)
    requires s != [] && Front8(s).Some?
    ensures var step := Front8(s).value;
            step.length <= 4 && Char8(s[..step.length]) && Number(Payload(s[..step.length])) == step.codePoint
  {
    Front8Sound(s);
    hide Front8, Utf8, Char8, Payload;
    Utf8Bits(Front8(s).value.codePoint);
  }

  /** A text decodes to code points exactly when the syntax and the bits say so. */
  lemma {:induction false} Utf8Exactly(s: seq<byte>, cs: seq<CodePoint>)
    ensures Decoded8(s) == Some(cs) <==> Spells8(s, cs)
    decreases |s|
  {
    hide Front8, Char8, Payload, Number;
    if s == [] || cs == [] {
      NoText(s, cs);
    } else if Front8(s).None? {
      forall n | 1 <= n <= 4 && n <= |s| ensures !Char8(s[..n]) { Front8Exactly(s, n); }
    } else {
      var step := Front8(s).value;
      Front8Bits(s);
      Utf8Exactly(s[step.length..], cs[1..]);
      forall n | 1 <= n <= 4 && n <= |s| && Char8(s[..n]) ensures n == step.length { Front8Exactly(s, n); }
      FirstAndRest(s, cs, step);
    }
  }

  lemma NoText(s: seq<byte>, cs: seq<CodePoint>)
    requires s == [] || cs == []
    ensures Decoded8(s) == Some(cs) <==> Spells8(s, cs)
  {
    hide Front8, Char8, Payload, Number;
  }

  lemma FirstAndRest(s: seq<byte>, cs: seq<CodePoint>, step: Step)
    requires s != [] && cs != [] && Front8(s) == Some(step)
    ensures Decoded8(s) == Some(cs) <==> step.codePoint == cs[0] && Decoded8(s[step.length..]) == Some(cs[1..])
  {
    hide Front8;
    assert cs == [cs[0]] + cs[1..];
    var rest := Decoded8(s[step.length..]);
    if rest.Some? {
      assert ([step.codePoint] + rest.value)[1..] == rest.value;
    }
  }

  // ---------- UTF-16 and UTF-32 ----------

  /** The number a word spells: its last byte weighs least in big-endian order, its first in little-endian order. */
  lemma WordOrder(s: seq<byte>)
    ensures |s| == 2 ==> WordValue(s, false) == Weighed([s[1], s[0]]) && WordValue(s, true) == Weighed(s)
    ensures |s| == 4 ==>
              WordValue(s, false) == Weighed([s[3], s[2], s[1], s[0]]) && WordValue(s, true) == Weighed(s)
  {
    var r := Reverse<byte>(s);
    if |s| == 2 {
      BigTwo(s);
      BigTwo(r);
      assert [r[1], r[0]] == s;
    }
    if |s| == 4 {
      BigFour(s);
      BigFour(r);
      assert [r[3], r[2], r[1], r[0]] == s;
    }
  }

  /** Byte i weighs 256 to the i. */
  function Weighed(s: seq<byte>): int {
    if |s| == 2 then s[0] as int + 256 * s[1] as int
    else if |s| == 4 then s[0] as int + 256 * s[1] as int + 65536 * s[2] as int + 16777216 * s[3] as int
    else 0
  }

  lemma BigTwo(s: seq<byte>)
    requires |s| == 2
    ensures BigValue(s) == Weighed([s[1], s[0]])
  {
    assert BigValue(s[..1][..0]) == 0;
    assert BigValue(s[..1]) == s[0];
  }

  lemma BigFour(s: seq<byte>)
    requires |s| == 4
    ensures BigValue(s) == Weighed([s[3], s[2], s[1], s[0]])
  {
    BigTwo(s[..2]);
    assert s[..3][..2] == s[..2];
    assert BigValue(s[..3]) == BigValue(s[..2]) * 256 + s[2];
  }

  /** A scalar value is one word, or a high and a low surrogate that hold ten bits each of what exceeds 0x10000. */
  lemma Utf16Words(c: CodePoint, little: bool)
    requires IsScalar(c)
    ensures var s := Utf16(c, little).value;
            if c <= 0xFFFF then |s| == 2 && WordValue(s, little) == c
            else
              && |s| == 4 && IsHigh(Word16(s, 0, little)) && IsLow(Word16(s, 1, little))
              && LowBits(c - 0x10000, 20) == LowBits(Word16(s, 0, little), 10) + LowBits(Word16(s, 1, little), 10)
  {
    hide LowBits, Word16, Word, WordValue, BigBytes;
    Bounds();
    if c <= 0xFFFF {
      WordRoundTrip(c, little, 2);
    } else {
      var v := c - 0x10000;
      assert 0 <= v / 1024 < 1024;
      SurrogateWords(0xD800 + v / 1024, 0xDC00 + v % 1024, little);
      TenBits(v);
    }
  }

  lemma SurrogateWords(high: int, low: int, little: bool)
    requires 0 <= high <= 0xFFFF && 0 <= low <= 0xFFFF
    ensures var s := Word(high, little, 2) + Word(low, little, 2);
            Word16(s, 0, little) == high && Word16(s, 1, little) == low
  {
    hide WordValue, Word;
    Bounds();
    WordRoundTrip(high, little, 2);
    WordRoundTrip(low, little, 2);
    var s := Word(high, little, 2) + Word(low, little, 2);
    assert s[0..2] == Word(high, little, 2) && s[2..4] == Word(low, little, 2);
  }

  lemma TenBits(v: int)
    requires 0 <= v < 0x100000
    ensures LowBits(v, 20) == LowBits(0xD800 + v / 1024, 10) + LowBits(0xDC00 + v % 1024, 10)
  {
    hide LowBits, Shl;
    ShlTen(1);
    ShlTen(54);
    ShlTen(55);
    ShlTen(v / 1024);
    ShiftIn(v / 1024, v % 1024, 10, 10);
    HighBitsIgnored(v / 1024, 54, 10, 10);
    HighBitsIgnored(v % 1024, 55, 10, 10);
  }

  lemma ShlTen(x: int)
    ensures Shl(x, 10) == 1024 * x
  {
    hide Shl;
    Shl5(x);
    Shl5(32 * x);
    ShlSum(x, 5, 5);
  }
}
