/**
  What the numeral codecs write, apart from how they compute it: Base58 and Ascii85 keep the value of the
  big-endian number, Base64 keeps the bit string (section 4 of RFC 4648).
 */
module Notations {
  import opened Common
  import opened Bits
  import opened Base58
  import Ascii85
  import Base64

  // ---------- Base58 ----------

  /** `x` times the radix, n times over. */
  function Raised(x: int, radix: Radix, n: nat): int
    decreases n
  {
    if n == 0 then x else radix.Scale(Raised(x, radix, n - 1))
  }

  /** The value of a numeral: every digit times the radix once for every digit behind it. */
  function Positional(digits: seq<int>, radix: Radix): int
    decreases |digits|
  {
    if digits == [] then 0 else Raised(digits[0], radix, |digits| - 1) + Positional(digits[1..], radix)
  }

  lemma {:induction false} PositionalScales(digits: seq<int>, last: int, radix: Radix)
    ensures Positional(digits + [last], radix) == radix.Scale(Positional(digits, radix)) + last
    decreases |digits|
  {
    if digits == [] {
      assert ([] + [last])[1..] == [];
    } else {
      PositionalScales(digits[1..], last, radix);
      assert (digits + [last])[1..] == digits[1..] + [last];
    }
  }

  lemma {:induction false} BigEndianIsPositional(digits: seq<int>, radix: Radix)
    ensures BigEndian(digits, radix) == Positional(digits, radix)
  {
    if digits != [] {
      var front, last := digits[..|digits| - 1], digits[|digits| - 1];
      BigEndianIsPositional(front, radix);
      PositionalScales(front, last, radix);
      assert front + [last] == digits;
    }
  }

  /** The text is a base-58 numeral of the same value as the bytes, with a `1` for every leading zero byte. */
  lemma Base58Value(input: seq<byte>)
    ensures var symbols := Symbols(Text(input));
            symbols.Some? && Positional(symbols.value, R58) == Positional(input, R256)
    ensures LeadingOnes(Text(input)) == LeadingZeros(input) + if AllZero(input) then 1 else 0
  {
    hide Symbols, BigEndian, DigitsOf, LeadingOnes, Positional;
    SymbolsOfText(LeadingZeros(input), BigEndian(input, R256));
    OnesOfText(LeadingZeros(input), BigEndian(input, R256));
    BigEndianIsPositional(input, R256);
    BigEndianIsPositional(Symbols(Text(input)).value, R58);
    if AllZero(input) { ValueOfZeros(input); } else { ValueOfBytes(input); }
  }

  // ---------- Ascii85 and Z85 ----------

  /** A full group is written as the five base-85 digits of its big-endian value, or as `z` when that is zero. */
  lemma Ascii85Value(group: seq<byte>, z85: bool)
    requires |group| == 4
    ensures var text := Ascii85.GroupText(group, z85);
            var value := ((group[0] as int * 256 + group[1] as int) * 256 + group[2] as int) * 256 + group[3] as int;
            if !z85 && value == 0 then text == [Ascii85.Z]
            else
              && |text| == 5 && (forall i :: 0 <= i < 5 ==> Ascii85.Digit(text[i], z85).Some?)
              && var d := seq(5, i requires 0 <= i < 5 => Ascii85.Digit(text[i], z85).value);
                 (((d[0] * 85 + d[1]) * 85 + d[2]) * 85 + d[3]) * 85 + d[4] == value
  {
    hide Ascii85.Symbol, Ascii85.Digit, Ascii85.FiveDigits;
    var v := Ascii85.Packed(group);
    assert group + Repeat<int>(0, 0) == group;
    assert 0 <= v < TWO32;
    var ds := Ascii85.FiveDigits(v);
    assert ds[..5] == ds;
    forall i | 0 <= i < 5 ensures Ascii85.Digit(Ascii85.Symbol(ds[i], z85), z85) == Some(ds[i]) {
      Ascii85.DigitOfSymbol(ds[i], z85);
    }
    Recombined(v);
  }

  lemma Recombined(v: int)
    requires 0 <= v < TWO32
    ensures var d := Ascii85.FiveDigits(v); (((d[0] * 85 + d[1]) * 85 + d[2]) * 85 + d[3]) * 85 + d[4] == v
  {
    var v1 := v / 85;
    var v2 := v1 / 85;
    var v3 := v2 / 85;
    Quotients(v);
    assert v == v1 * 85 + v % 85 && v1 == v2 * 85 + v1 % 85 && v2 == v3 * 85 + v2 % 85;
    assert v3 == v3 / 85 * 85 + v3 % 85 && v3 / 85 < 85;
  }

  lemma Quotients(v: int)
    requires v >= 0
    ensures v / 85 / 85 == v / 7225 && v / 7225 / 85 == v / 614125 && v / 614125 / 85 == v / 52200625
  {
    Twice(v, 85);
    Twice(v, 7225);
    Twice(v, 614125);
  }

  lemma Twice(v: int, n: int)
    requires v >= 0 && (n == 85 || n == 7225 || n == 614125)
    ensures v / n / 85 == v / (n * 85)
  {
    var q, r := v / n, v % n;
    var a, b := q / 85, q % 85;
    if n == 85 {
      assert v == a * 7225 + (b * 85 + r);
    } else if n == 7225 {
      assert v == a * 614125 + (b * 7225 + r);
    } else {
      assert v == a * 52200625 + (b * 614125 + r);
    }
  }

  // ---------- Base64 ----------

  /** The value of a symbol, nothing for padding. */
  function One(b: byte): seq<int> { if Base64.ValueOf(b).Digit? then [Base64.ValueOf(b).v] else [] }

  /** The values of the symbols of a text, padding left out. */
  function Sextets(text: seq<byte>): seq<int> { if text == [] then [] else One(text[0]) + Sextets(text[1..]) }

  lemma {:induction false} SextetsAppend(a: seq<byte>, b: seq<byte>)
    ensures Sextets(a + b) == Sextets(a) + Sextets(b)
  {
    hide One;
    if a == [] {
      assert a + b == b;
    } else {
      SextetsAppend(a[1..], b);
      assert (a + b)[1..] == a[1..] + b;
      Associates(One(a[0]), Sextets(a[1..]), Sextets(b));
    }
  }

  lemma {:induction false} ConcatAppend(a: seq<int>, b: seq<int>, width: nat)
    ensures Concat(a + b, width) == Concat(a, width) + Concat(b, width)
  {
    hide LowBits;
    if a == [] {
      assert a + b == b;
    } else {
      ConcatAppend(a[1..], b, width);
      assert (a + b)[1..] == a[1..] + b;
      Associates(LowBits(a[0], width), Concat(a[1..], width), Concat(b, width));
    }
  }

  lemma OneSymbol(x: int, width: nat)
    ensures Concat([x], width) == LowBits(x, width)
  {
    assert Concat([x], width) == LowBits(x, width) + Concat([], width);
  }

  /** Six bits more at the end. */
  lemma SixMore(symbols: seq<int>, u: int)
    requires u >= 0 && Concat(symbols, 6) == LowBits(u / 64, 6 * |symbols|)
    ensures Concat(symbols + [u % 64], 6) == LowBits(u, 6 * |symbols| + 6)
  {
    hide LowBits, Concat;
    ConcatAppend(symbols, [u % 64], 6);
    OneSymbol(u % 64, 6);
    SixBits(u, 6 * |symbols|);
  }

  lemma TwoSextets(u: int)
    requires 0 <= u < 4096
    ensures Concat([u / 64, u % 64], 6) == LowBits(u, 12)
  {
    hide LowBits, Concat;
    OneSymbol(u / 64, 6);
    SixMore([u / 64], u);
    assert [u / 64] + [u % 64] == [u / 64, u % 64];
  }

  lemma ThreeSextets(u: int)
    requires 0 <= u < 262144
    ensures Concat([u / 64 / 64, u / 64 % 64, u % 64], 6) == LowBits(u, 18)
  {
    hide LowBits, Concat;
    TwoSextets(u / 64);
    SixMore([u / 64 / 64, u / 64 % 64], u);
    assert [u / 64 / 64, u / 64 % 64] + [u % 64] == [u / 64 / 64, u / 64 % 64, u % 64];
  }

  lemma FourSextets(u: int)
    requires 0 <= u < 16777216
    ensures Concat([u / 64 / 64 / 64, u / 64 / 64 % 64, u / 64 % 64, u % 64], 6) == LowBits(u, 24)
  {
    hide LowBits, Concat;
    ThreeSextets(u / 64);
    var three := [u / 64 / 64 / 64, u / 64 / 64 % 64, u / 64 % 64];
    SixMore(three, u);
    assert three + [u % 64] == [u / 64 / 64 / 64, u / 64 / 64 % 64, u / 64 % 64, u % 64];
  }

  /** Eight bits more at the end. */
  lemma EightMore(bytes: seq<byte>, v: int, b: byte)
    requires Concat(bytes, 8) == LowBits(v, 8 * |bytes|)
    ensures Concat(bytes + [b], 8) == LowBits(v * 256 + b, 8 * |bytes| + 8)
  {
    hide LowBits, Concat, Shl;
    ConcatAppend(bytes, [b], 8);
    OneSymbol(b, 8);
    Shl8(v);
    Shl8(1);
    ShiftIn(v, b, 8 * |bytes|, 8);
  }

  function Number24(group: seq<byte>): int
    requires 1 <= |group| <= 3
  {
    if |group| == 1 then group[0] as int
    else if |group| == 2 then group[0] as int * 256 + group[1] as int
    else (group[0] as int * 256 + group[1] as int) * 256 + group[2] as int
  }

  lemma GroupBytes(group: seq<byte>)
    requires 1 <= |group| <= 3
    ensures Concat(group, 8) == LowBits(Number24(group), 8 * |group|)
  {
    hide LowBits, Concat;
    OneSymbol(group[0], 8);
    assert |group| == 1 ==> group == [group[0]];
    if |group| > 1 {
      EightMore([group[0]], group[0], group[1]);
      assert [group[0]] + [group[1]] == [group[0], group[1]];
      assert |group| == 2 ==> group == [group[0], group[1]];
    }
    if |group| > 2 {
      EightMore([group[0], group[1]], group[0] as int * 256 + group[1] as int, group[2]);
      assert [group[0], group[1]] + [group[2]] == group;
    }
  }

  /** A number followed by zero bits. */
  lemma ZerosMore(v: int, n: nat)
    ensures LowBits(v * 4, n + 2) == LowBits(v, n) + Repeat(false, 2)
    ensures LowBits(v * 16, n + 4) == LowBits(v, n) + Repeat(false, 4)
  {
    assert LowBits(v * 2, n + 1) == LowBits(v, n) + [false];
    assert LowBits(v * 4, n + 2) == LowBits(v * 2, n + 1) + [false];
    assert LowBits(v * 8, n + 3) == LowBits(v * 4, n + 2) + [false];
    assert LowBits(v * 16, n + 4) == LowBits(v * 8, n + 3) + [false];
  }

  lemma FourSymbols(q: seq<byte>)
    requires |q| == 4
    ensures Sextets(q) == One(q[0]) + (One(q[1]) + (One(q[2]) + One(q[3])))
  {
    hide One;
    assert Sextets(q[1..][1..][1..][1..]) == [];
    assert Sextets(q[1..][1..][1..]) == One(q[3]);
    assert Sextets(q[1..][1..]) == One(q[2]) + One(q[3]);
  }

  lemma OneOfSymbol(x: int)
    requires 0 <= x < 64
    ensures One(Base64.Symbol(x)) == [x] && One(Base64.PAD) == []
  {
    Base64.ValueOfSymbol(x);
  }

  /** The symbols of a group hold its bits six at a time, zero bits filling up the last one. */
  lemma GroupSextets(group: seq<byte>)
    requires 1 <= |group| <= 3
    ensures Sextets(Base64.GroupText(group)) == Four(Base64.Packed(group))[..|group| + 1]
  {
    hide One, Base64.Symbol, Base64.Packed;
    var t, q := Base64.Packed(group), Base64.GroupText(group);
    FourSymbols(q);
    OneOfSymbol(t / 64 / 64 / 64 % 64);
    OneOfSymbol(t / 64 / 64 % 64);
    OneOfSymbol(t / 64 % 64);
    OneOfSymbol(t % 64);
  }

  /** Zero bits at the end of a text that is not a whole number of groups. */
  function SpareBits(count: nat): nat { if count == 1 then 4 else if count == 2 then 2 else 0 }

  lemma GroupBits(group: seq<byte>)
    requires 1 <= |group| <= 3
    ensures Concat(Sextets(Base64.GroupText(group)), 6) == Concat(group, 8) + Repeat(false, SpareBits(|group|))
  {
    hide Sextets, Base64.GroupText, LowBits, Concat, Number24, Base64.Packed, Four;
    GroupSextets(group);
    GroupBytes(group);
    PackedNumber(group);
    var v := Number24(group);
    if |group| == 1 {
      OneByte(v);
    } else if |group| == 2 {
      TwoBytes(v);
    } else {
      ThreeBytes(v);
    }
  }

  /** A short group is packed as if zero bytes followed. */
  lemma PackedNumber(group: seq<byte>)
    requires 1 <= |group| <= 3
    ensures var v, t := Number24(group), Base64.Packed(group);
            if |group| == 1 then 0 <= v < 256 && t == v * 65536
            else if |group| == 2 then 0 <= v < 65536 && t == v * 256
            else 0 <= v < 16777216 && t == v
  {
  }

  /** The symbols of the 24 bits of a group. */
  function Four(t: int): (s: seq<int>)
    ensures |s| == 4
  {
    [t / 64 / 64 / 64 % 64, t / 64 / 64 % 64, t / 64 % 64, t % 64]
  }

  lemma OneByte(v: int)
    requires 0 <= v < 256
    ensures Concat(Four(v * 65536)[..2], 6) == LowBits(v, 8) + Repeat(false, 4)
  {
    hide LowBits, Concat;
    assert Four(v * 65536)[..2] == [v * 16 / 64, v * 16 % 64] by { Shifted(v); }
    TwoSextets(v * 16);
    ZerosMore(v, 8);
  }

  lemma TwoBytes(v: int)
    requires 0 <= v < 65536
    ensures Concat(Four(v * 256)[..3], 6) == LowBits(v, 16) + Repeat(false, 2)
  {
    hide LowBits, Concat;
    assert Four(v * 256)[..3] == [v * 4 / 64 / 64, v * 4 / 64 % 64, v * 4 % 64] by { Shifted(v); }
    ThreeSextets(v * 4);
    ZerosMore(v, 16);
  }

  lemma ThreeBytes(v: int)
    requires 0 <= v < 16777216
    ensures Concat(Four(v)[..4], 6) == LowBits(v, 24) + Repeat(false, 0)
  {
    hide LowBits, Concat;
    assert Four(v)[..4] == [v / 64 / 64 / 64, v / 64 / 64 % 64, v / 64 % 64, v % 64];
    FourSextets(v);
    assert LowBits(v, 24) + Repeat(false, 0) == LowBits(v, 24);
  }

  lemma Shifted(v: int)
    requires v >= 0
    ensures v * 65536 / 64 / 64 == v * 16 && v * 256 / 64 == v * 4
  {
    assert v * 65536 / 64 == v * 1024;
  }

  /**
    Every input: the symbols hold the bits of the bytes, six at a time and in order, with zero bits filling up
    the last symbol, and the text is padded to a multiple of four.
   */
  lemma {:induction false} Base64Bits(input: seq<byte>)
    ensures Concat(Sextets(Base64.Encoded(input)), 6) == Concat(input, 8) + Repeat(false, SpareBits(|input| % 3))
    ensures |Base64.Encoded(input)| % 4 == 0
    decreases |input|
  {
    hide Concat, Sextets, Base64.GroupText;
    if |input| <= 3 {
      LastGroup(input);
    } else {
      var group, rest := input[..3], input[3..];
      Base64Bits(rest);
      GroupBits(group);
      SextetsAppend(Base64.GroupText(group), Base64.Encoded(rest));
      ConcatAppend(Sextets(Base64.GroupText(group)), Sextets(Base64.Encoded(rest)), 6);
      ConcatAppend(group, rest, 8);
      assert input == group + rest;
      assert |rest| % 3 == |input| % 3;
      Joined(Concat(group, 8), Concat(rest, 8), Repeat(false, SpareBits(|input| % 3)));
    }
  }

  lemma Joined(a: seq<bool>, b: seq<bool>, pad: seq<bool>)
    ensures (a + Repeat(false, 0)) + (b + pad) == (a + b) + pad
  {
  }

  lemma LastGroup(input: seq<byte>)
    requires |input| <= 3
    ensures Concat(Sextets(Base64.Encoded(input)), 6) == Concat(input, 8) + Repeat(false, SpareBits(|input| % 3))
    ensures |Base64.Encoded(input)| % 4 == 0
  {
    hide Concat, Sextets, Base64.GroupText, Base64.Encoded;
    if input == [] {
      NoBits();
    } else {
      GroupBits(input);
      EncodedShort(input);
      assert |input| % 3 == if |input| == 3 then 0 else |input|;
    }
  }

  lemma EncodedShort(input: seq<byte>)
    requires 1 <= |input| <= 3
    ensures Base64.Encoded(input) == Base64.GroupText(input)
  {
    hide Base64.GroupText;
    assert input[..|input|] == input && input[|input|..] == [];
    assert Base64.GroupText(input) + [] == Base64.GroupText(input);
  }

  lemma NoBits()
    ensures Concat([], 8) == [] && Concat([], 6) == [] && Sextets([]) == []
    ensures Base64.Encoded([]) == [] && Concat(Sextets(Base64.Encoded([])), 6) == Concat([], 8) + Repeat(false, 0)
  {
  }
}
