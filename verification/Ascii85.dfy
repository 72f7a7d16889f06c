/**
  Ascii85 and Z85 (plugins/src/text_codecs.cpp): groups of four bytes become five base-85
  digits; a partial last group is padded with zero bytes to encode and with digit 84 to decode,
  on a 32-bit accumulator.
 */
module Ascii85 {
  import opened Common

  const Z: byte := 122

  // ---------- alphabets ----------

  /** The Z85 punctuation, digits 62 to 84. */
  function Punctuation(d: int): (b: byte)
    requires 62 <= d < 85
  {
    match d
    case 62 => 46 case 63 => 45 case 64 => 58 case 65 => 43 case 66 => 61 case 67 => 94
    case 68 => 33 case 69 => 47 case 70 => 42 case 71 => 63 case 72 => 38 case 73 => 60
    case 74 => 62 case 75 => 40 case 76 => 41 case 77 => 91 case 78 => 93 case 79 => 123
    case 80 => 125 case 81 => 64 case 82 => 37 case 83 => 36 case _ => 35
  }

  function Symbol(d: int, z85: bool): (b: byte)
    requires 0 <= d < 85
  {
    if !z85 then 33 + d
    else if d < 10 then 48 + d
    else if d < 36 then 97 + (d - 10)
    else if d < 62 then 65 + (d - 36)
    else Punctuation(d)
  }

  /** `std::find` over the Z85 alphabet. */
  function FindFrom(b: byte, from: int): (r: Option<int>)
    requires 0 <= from <= 85
    ensures r.Some? ==> from <= r.value < 85 && Symbol(r.value, true) == b
    ensures r.None? ==> forall d :: from <= d < 85 ==> Symbol(d, true) != b
    decreases 85 - from
  {
    if from == 85 then None
    else if Symbol(from, true) == b then Some(from)
    else FindFrom(b, from + 1)
  }

  /** `ascii85_value`. */
  function Digit(b: byte, z85: bool): (r: Option<int>)
    ensures r.Some? ==> 0 <= r.value < 85
  {
    if z85 then FindFrom(b, 0) else if 33 <= b <= 117 then Some(b - 33) else None
  }

  /** Position of a symbol in the Z85 alphabet, read off the table the other way. */
  function Rank(b: byte): int {
    if 48 <= b <= 57 then b - 48
    else if 97 <= b <= 122 then b - 97 + 10
    else if 65 <= b <= 90 then b - 65 + 36
    else match b
      case 46 => 62 case 45 => 63 case 58 => 64 case 43 => 65 case 61 => 66 case 94 => 67
      case 33 => 68 case 47 => 69 case 42 => 70 case 63 => 71 case 38 => 72 case 60 => 73
      case 62 => 74 case 40 => 75 case 41 => 76 case 91 => 77 case 93 => 78 case 123 => 79
      case 125 => 80 case 64 => 81 case 37 => 82 case 36 => 83 case _ => 84
  }

  lemma RankOfSymbol(d: int)
    requires 0 <= d < 85
    ensures Rank(Symbol(d, true)) == d && !IsSpace(Symbol(d, true))
  {
  }

  /** Every digit is spelled by a symbol the decoder reads back, never by a space or by `z`. */
  lemma DigitOfSymbol(d: int, z85: bool)
    requires 0 <= d < 85
    ensures Digit(Symbol(d, z85), z85) == Some(d)
    ensures !IsSpace(Symbol(d, z85)) && (z85 || Symbol(d, z85) != Z)
  {
    if z85 {
      RankOfSymbol(d);
      var found := FindFrom(Symbol(d, true), 0);
      if found.Some? {
        RankOfSymbol(found.value);
      }
    }
  }

  // ---------- one group ----------

  /** The 32-bit value of the group, zero bytes standing in for those it lacks. */
  function Packed(group: seq<int>): int
    requires |group| <= 4
  {
    var g := group + Repeat<int>(0, 4 - |group|);
    ((g[0] * 256 + g[1]) * 256 + g[2]) * 256 + g[3]
  }

  predicate AreBytes(group: seq<int>) {
    forall i :: 0 <= i < |group| ==> 0 <= group[i] < 256
  }

  predicate AreDigits(group: seq<int>) {
    forall i :: 0 <= i < |group| ==> 0 <= group[i] < 85
  }

  /** The five base-85 digits, most significant first. */
  function FiveDigits(v: int): (ds: seq<int>)
    ensures |ds| == 5 && AreDigits(ds)
  {
    [v / 52200625 % 85, v / 614125 % 85, v / 7225 % 85, v / 85 % 85, v % 85]
  }

  /** The accumulator after five digits, on 32 bits. */
  function Accumulated(group: seq<int>): int {
    if group == [] then 0
    else (Accumulated(group[..|group| - 1]) * 85 + group[|group| - 1]) % TWO32
  }

  /** The four bytes of a 32-bit value, most significant first; each `/ 256` is a shift by eight. */
  function FourBytes(v: int): (bytes: seq<byte>)
    ensures |bytes| == 4
  {
    [v / 256 / 256 / 256 % 256, v / 256 / 256 % 256, v / 256 % 256, v % 256]
  }

  lemma AccumulatedFive(g: seq<int>)
    requires |g| == 5
    ensures Accumulated(g)
            == ((((g[0] % TWO32 * 85 + g[1]) % TWO32 * 85 + g[2]) % TWO32 * 85 + g[3]) % TWO32 * 85 + g[4]) % TWO32
  {
    assert g[..4][..3] == g[..3] && g[..3][..2] == g[..2] && g[..2][..1] == g[..1] && g[..1][..0] == [];
    assert Accumulated(g[..1]) == g[0] % TWO32;
    assert Accumulated(g[..2]) == (Accumulated(g[..1]) * 85 + g[1]) % TWO32;
    assert Accumulated(g[..3]) == (Accumulated(g[..2]) * 85 + g[2]) % TWO32;
    assert Accumulated(g[..4]) == (Accumulated(g[..3]) * 85 + g[3]) % TWO32;
  }

  lemma HornerSteps(v: int)
    requires 0 <= v < TWO32
    ensures v == v / 85 * 85 + v % 85 && v / 85 == v / 7225 * 85 + v / 85 % 85
    ensures v / 7225 == v / 614125 * 85 + v / 7225 % 85
    ensures v / 614125 == v / 52200625 * 85 + v / 614125 % 85 && 0 <= v / 52200625 < 85
  {
  }

  /** Five digits whose value fits 32 bits accumulate to that value: no step wraps. */
  lemma NoWrap(g: seq<int>)
    requires |g| == 5 && AreDigits(g)
    requires 52200625 * g[0] + 614125 * g[1] + 7225 * g[2] + 85 * g[3] + g[4] < TWO32
    ensures Accumulated(g) == 52200625 * g[0] + 614125 * g[1] + 7225 * g[2] + 85 * g[3] + g[4]
  {
    AccumulatedFive(g);
    var t1 := 85 * g[0] + g[1];
    var t2 := 85 * t1 + g[2];
    var t3 := 85 * t2 + g[3];
    var t4 := 85 * t3 + g[4];
    assert 0 <= g[0] <= t1 <= t2 <= t3 <= t4 < TWO32;
    Fits(g[0]);
    Fits(t1);
    Fits(t2);
    Fits(t3);
    Fits(t4);
  }

  lemma Fits(v: int)
    requires 0 <= v < TWO32
    ensures v % TWO32 == v
  {
  }

  /** The last value that shares the first `k` base-85 digits of `v`. */
  function Rounded(v: int, k: int): int {
    if k == 5 then v
    else if k == 4 then v / 85 * 85 + 84
    else if k == 3 then v / 7225 * 7225 + 7224
    else v / 614125 * 614125 + 614124
  }

  /** Digits `k` and up replaced by 84 give that value. */
  lemma PaddedDigits(v: int, k: int)
    requires 0 <= v < TWO32 && 2 <= k <= 5
    ensures var g := FiveDigits(v)[..k] + Repeat<int>(84, 5 - k);
            && |g| == 5 && AreDigits(g)
            && 52200625 * g[0] + 614125 * g[1] + 7225 * g[2] + 85 * g[3] + g[4] == Rounded(v, k)
  {
    HornerSteps(v);
  }

  /** `v` is the value of `k - 1` bytes: the bytes after them are zero. */
  predicate LowBytesZero(v: int, k: int) {
    && (k == 2 ==> v % 16777216 == 0)
    && (k == 3 ==> v % 65536 == 0)
    && (k == 4 ==> v % 256 == 0)
  }

  /**
    Padding with 84 never overflows the 32-bit accumulator and leaves the first `k - 1` bytes
    unchanged, because 85^(5-k) - 1 < 256^(5-k).
   */
  lemma PaddedBytes(v: int, k: int)
    requires 0 <= v < TWO32 && 2 <= k <= 5 && LowBytesZero(v, k)
    ensures FourBytes(Accumulated(FiveDigits(v)[..k] + Repeat<int>(84, 5 - k)))[..k - 1] == FourBytes(v)[..k - 1]
  {
    PaddedDigits(v, k);
    TopBytes(v, k);
    NoWrap(FiveDigits(v)[..k] + Repeat<int>(84, 5 - k));
  }

  lemma TopBytes(v: int, k: int)
    requires 0 <= v < TWO32 && 2 <= k <= 5 && LowBytesZero(v, k)
    ensures Rounded(v, k) < TWO32
    ensures FourBytes(Rounded(v, k))[..k - 1] == FourBytes(v)[..k - 1]
  {
    var w := Rounded(v, k);
    Shifts(v);
    Shifts(w);
    if k == 2 {
      assert w / 16777216 == v / 16777216;
    } else if k == 3 {
      assert w / 65536 == v / 65536;
    } else if k == 4 {
      assert w / 256 == v / 256;
    }
  }

  lemma Shifts(v: int)
    requires 0 <= v
    ensures v / 256 / 256 == v / 65536 && v / 65536 / 256 == v / 16777216
  {
  }

  lemma ShiftOut(h: int, b: int)
    requires 0 <= b < 256
    ensures (h * 256 + b) / 256 == h && (h * 256 + b) % 256 == b
  {
  }

  lemma BytesOfPacked(group: seq<int>)
    requires 1 <= |group| <= 4 && AreBytes(group)
    ensures 0 <= Packed(group) < TWO32 && LowBytesZero(Packed(group), |group| + 1)
    ensures FourBytes(Packed(group))[..|group|] == group
  {
    var g := group + Repeat<int>(0, 4 - |group|);
    var h1 := g[0] * 256 + g[1];
    var h2 := h1 * 256 + g[2];
    ShiftOut(h2, g[3]);
    ShiftOut(h1, g[2]);
    ShiftOut(g[0], g[1]);
  }

  // ---------- the codec ----------

  function Spell(digits: seq<int>, z85: bool): (text: seq<byte>)
    requires AreDigits(digits)
    ensures |text| == |digits| && forall i :: 0 <= i < |text| ==> text[i] == Symbol(digits[i], z85)
  {
    seq(|digits|, i requires 0 <= i < |digits| => Symbol(digits[i], z85))
  }

  lemma SpellPrefix(digits: seq<int>, n: int, z85: bool)
    requires AreDigits(digits) && 0 <= n <= |digits|
    ensures Spell(digits[..n], z85) == Spell(digits, z85)[..n]
  {
  }

  function GroupText(group: seq<byte>, z85: bool): seq<byte>
    requires 1 <= |group| <= 4
  {
    var v := Packed(group);
    if !z85 && |group| == 4 && v == 0 then [Z]
    else Spell(FiveDigits(v)[..if z85 then 5 else |group| + 1], z85)
  }

  function Encoded(input: seq<byte>, z85: bool): seq<byte> {
    if input == [] then []
    else
      var count := if |input| < 4 then |input| else 4;
      GroupText(input[..count], z85) + Encoded(input[count..], z85)
  }

  function Prepend(bytes: seq<byte>, rest: Option<seq<byte>>): Option<seq<byte>> {
    if rest.None? then None else Some(bytes + rest.value)
  }

  lemma PrependTwice(a: seq<byte>, b: seq<byte>, rest: Option<seq<byte>>)
    ensures Prepend(a, Prepend(b, rest)) == Prepend(a + b, rest)
    ensures Prepend([], rest) == rest
  {
    if rest.Some? {
      assert a + (b + rest.value) == a + b + rest.value;
      assert [] + rest.value == rest.value;
    }
  }

  /** The end of the text, `group` being the digits not yet decoded. */
  function Finished(group: seq<int>, z85: bool): Option<seq<byte>>
    requires |group| < 5
  {
    if group == [] then Some([])
    else if z85 || |group| == 1 then None
    else Some(FourBytes(Accumulated(group + Repeat<int>(84, 5 - |group|)))[..|group| - 1])
  }

  /** Decoding a text when `group` holds the digits of the group that is still open. */
  function DecodedFrom(text: seq<byte>, group: seq<int>, z85: bool): Option<seq<byte>>
    requires |group| < 5
    decreases |text|
  {
    if text == [] then Finished(group, z85)
    else if IsSpace(text[0]) then DecodedFrom(text[1..], group, z85)
    else if !z85 && text[0] == Z then
      if group != [] then None else Prepend([0, 0, 0, 0], DecodedFrom(text[1..], group, z85))
    else if Digit(text[0], z85).None? then None
    else
      var digits := group + [Digit(text[0], z85).value];
      if |digits| < 5 then DecodedFrom(text[1..], digits, z85)
      else Prepend(FourBytes(Accumulated(digits)), DecodedFrom(text[1..], [], z85))
  }

  /** What the plugin does: Z85 is refused unless the length is a whole number of groups. */
  function EncodedOrRefused(input: seq<byte>, z85: bool): Option<seq<byte>> {
    if z85 && |input| % 4 != 0 then None else Some(Encoded(input, z85))
  }

  function DecodedOrRefused(text: seq<byte>, z85: bool): Option<seq<byte>> {
    if z85 && |text| % 5 != 0 then None else DecodedFrom(text, [], z85)
  }

  method Encode(input: seq<byte>, z85: bool, poll: nat -> bool) returns (r: Option<seq<byte>>)
    ensures r.Some? ==> r == EncodedOrRefused(input, z85)
    ensures NeverCancels(poll) ==> r == EncodedOrRefused(input, z85)
  {
    hide GroupText;
    if z85 && |input| % 4 != 0 { return None; }
    var out: seq<byte> := [];
    var work, i := 0, 0;
    while i < |input|
      invariant 0 <= i <= |input|
      invariant out + Encoded(input[i..], z85) == Encoded(input, z85)
    {
      if Cancelled(poll, work) { return None; }
      work := work + 1;
      var count := if |input| - i < 4 then |input| - i else 4;
      ghost var rest := input[i..];
      assert rest[..count] == input[i..i + count] && rest[count..] == input[i + count..];
      var text := EncodeGroup(input[i..i + count], z85);
      out := out + text;
      i := i + count;
    }
    assert out + [] == out;
    r := Some(out);
  }

  /** One pass of the loop of `ascii85_encode`. */
  method EncodeGroup(group: seq<byte>, z85: bool) returns (text: seq<byte>)
    requires 1 <= |group| <= 4
    ensures text == GroupText(group, z85)
  {
    hide Symbol, FiveDigits, Packed;
    var value := PackGroup(group);
    if !z85 && |group| == 4 && value == 0 { return [Z]; }
    var encoded := SplitDigits(value, z85);
    var emit := if z85 then 5 else |group| + 1;
    SpellPrefix(FiveDigits(value), emit, z85);
    text := encoded[..emit];
  }

  /** The inner loop of `ascii85_encode` that shifts the bytes in. */
  method PackGroup(group: seq<byte>) returns (value: int)
    requires 1 <= |group| <= 4
    ensures value == Packed(group) && 0 <= value < TWO32
  {
    BytesOfPacked(group);
    value := 0;
    var g: seq<int> := group + Repeat<int>(0, 4 - |group|);
    for j := 0 to 4
      invariant j == 0 ==> value == 0
      invariant j == 1 ==> value == g[0]
      invariant j == 2 ==> value == g[0] * 256 + g[1]
      invariant j == 3 ==> value == (g[0] * 256 + g[1]) * 256 + g[2]
      invariant j == 4 ==> value == Packed(group)
    {
      Fits(value * 256);
      value := (value * 256) % TWO32 + (if j < |group| then group[j] else 0);
    }
  }

  /** The inner loop of `ascii85_encode` that divides the digits out, last one first. */
  method SplitDigits(value0: int, z85: bool) returns (encoded: seq<byte>)
    requires 0 <= value0 < TWO32
    ensures encoded == Spell(FiveDigits(value0), z85)
  {
    var value := value0;
    encoded := [];
    HornerSteps(value0);
    for j := 5 downto 0
      invariant encoded == Spell(FiveDigits(value0), z85)[j..]
      invariant value == if j == 5 then value0 else if j == 4 then value0 / 85 else if j == 3 then value0 / 7225
                else if j == 2 then value0 / 614125 else if j == 1 then value0 / 52200625 else 0
    {
      encoded := [Symbol(value % 85, z85)] + encoded;
      value := value / 85;
    }
  }

  method Decode(text: seq<byte>, z85: bool, poll: nat -> bool) returns (r: Option<seq<byte>>)
    ensures r.Some? ==> r == DecodedOrRefused(text, z85)
    ensures NeverCancels(poll) ==> r == DecodedOrRefused(text, z85)
  {
    if z85 && |text| % 5 != 0 { return None; }
    hide Digit, FourBytes, Accumulated, IsSpace;
    var out: seq<byte> := [];
    var group: seq<int> := [];
    var work := 0;
    ghost var goal := DecodedFrom(text, [], z85);
    assert text[0..] == text;
    PrependTwice([], [], goal);
    for i := 0 to |text|
      invariant |group| < 5 && Prepend(out, DecodedFrom(text[i..], group, z85)) == goal
    {
      if Cancelled(poll, work) { return None; }
      work := work + 1;
      var b := text[i];
      assert text[i..][1..] == text[i + 1..];
      if IsSpace(b) { continue; }
      if !z85 && b == Z {
        if group != [] { return None; }
        PrependTwice(out, [0, 0, 0, 0], DecodedFrom(text[i + 1..], [], z85));
        out := out + [0, 0, 0, 0];
        continue;
      }
      var value := Digit(b, z85);
      if value.None? { return None; }
      group := group + [value.value];
      if |group| != 5 { continue; }
      var decoded := Accumulate(group);
      PrependTwice(out, FourBytes(decoded), DecodedFrom(text[i + 1..], [], z85));
      out := out + FourBytes(decoded);
      group := [];
    }
    if group == [] {
      assert out + [] == out;
      return Some(out);
    }
    if z85 || |group| == 1 { return None; }
    var decoded := Accumulate(group + Repeat<int>(84, 5 - |group|));
    r := Some(out + FourBytes(decoded)[..|group| - 1]);
  }

  /** The accumulator loop, which wraps at 32 bits. */
  method Accumulate(group: seq<int>) returns (decoded: int)
    ensures decoded == Accumulated(group)
  {
    decoded := 0;
    for i := 0 to |group|
      invariant decoded == Accumulated(group[..i])
    {
      assert group[..i + 1][..i] == group[..i];
      decoded := (decoded * 85 + group[i]) % TWO32;
    }
    assert group[..|group|] == group;
  }

  // ---------- round trip ----------

  /** Spelled digits that leave the group open are just collected. */
  lemma {:induction false} Collect(digits: seq<int>, rest: seq<byte>, group: seq<int>, z85: bool)
    requires AreDigits(digits) && |group| + |digits| < 5
    ensures DecodedFrom(Spell(digits, z85) + rest, group, z85) == DecodedFrom(rest, group + digits, z85)
    decreases |digits|
  {
    hide Symbol, Digit, IsSpace, FourBytes, Accumulated;
    var text := Spell(digits, z85) + rest;
    if digits == [] {
      assert text == rest && group + digits == group;
    } else {
      DigitOfSymbol(digits[0], z85);
      Collect(digits[1..], rest, group + [digits[0]], z85);
      assert text[1..] == Spell(digits[1..], z85) + rest;
      assert group + [digits[0]] + digits[1..] == group + digits;
    }
  }

  lemma FullGroup(digits: seq<int>, rest: seq<byte>, z85: bool)
    requires |digits| == 5 && AreDigits(digits)
    ensures DecodedFrom(Spell(digits, z85) + rest, [], z85)
            == Prepend(FourBytes(Accumulated(digits)), DecodedFrom(rest, [], z85))
  {
    hide Symbol, Digit, IsSpace, FourBytes, Accumulated;
    var four, last := digits[..4], Symbol(digits[4], z85);
    Collect(four, [last] + rest, [], z85);
    assert Spell(digits, z85) + rest == Spell(four, z85) + ([last] + rest);
    DigitOfSymbol(digits[4], z85);
    assert ([last] + rest)[1..] == rest;
    assert [] + four + [digits[4]] == digits;
  }

  /** A group decodes to its own bytes, whatever follows; a partial group must be the last. */
  lemma GroupRoundTrip(group: seq<byte>, rest: seq<byte>, z85: bool)
    requires 1 <= |group| <= 4 && (|group| < 4 ==> rest == [] && !z85)
    ensures DecodedFrom(GroupText(group, z85) + rest, [], z85) == Prepend(group, DecodedFrom(rest, [], z85))
  {
    hide DecodedFrom, Packed, FiveDigits, Symbol;
    assert FiveDigits(Packed(group))[..5] == FiveDigits(Packed(group));
    if |group| == 4 {
      if !z85 && Packed(group) == 0 {
        ZeroGroup(group, rest);
      } else {
        WholeGroup(group, rest, z85);
      }
    } else {
      PartialGroup(group);
      assert group + [] == group;
      assert DecodedFrom([], [], z85) == Some([]) by { EmptyText(z85); }
      assert GroupText(group, z85) + rest == GroupText(group, z85);
    }
  }

  lemma EmptyText(z85: bool)
    ensures DecodedFrom([], [], z85) == Some([])
  {
  }

  lemma ZeroGroup(group: seq<byte>, rest: seq<byte>)
    requires |group| == 4 && Packed(group) == 0
    ensures DecodedFrom([Z] + rest, [], false) == Prepend(group, DecodedFrom(rest, [], false))
  {
    BytesOfPacked(group);
    assert ([Z] + rest)[1..] == rest;
    assert group == [0, 0, 0, 0];
  }

  lemma WholeGroup(group: seq<byte>, rest: seq<byte>, z85: bool)
    requires |group| == 4
    ensures DecodedFrom(Spell(FiveDigits(Packed(group)), z85) + rest, [], z85)
            == Prepend(group, DecodedFrom(rest, [], z85))
  {
    hide FiveDigits, FourBytes, Accumulated, Packed;
    var digits := FiveDigits(Packed(group));
    BytesOfPacked(group);
    PaddedBytes(Packed(group), 5);
    assert digits[..5] + Repeat<int>(84, 0) == digits;
    assert FourBytes(Accumulated(digits))[..4] == FourBytes(Accumulated(digits));
    assert FourBytes(Packed(group))[..4] == FourBytes(Packed(group));
    FullGroup(digits, rest, z85);
  }

  lemma PartialGroup(group: seq<byte>)
    requires 1 <= |group| < 4
    ensures DecodedFrom(Spell(FiveDigits(Packed(group))[..|group| + 1], false), [], false) == Some(group)
  {
    hide FiveDigits, FourBytes, Accumulated, Packed, Spell;
    var digits := FiveDigits(Packed(group))[..|group| + 1];
    BytesOfPacked(group);
    PaddedBytes(Packed(group), |group| + 1);
    Collect(digits, [], [], false);
    assert [] + digits == digits && Spell(digits, false) + [] == Spell(digits, false);
  }

  /** Ascii85 of every byte string, and Z85 of every whole number of groups, decodes to the input. */
  lemma {:induction false} RoundTrip(input: seq<byte>, z85: bool)
    requires z85 ==> |input| % 4 == 0
    ensures DecodedFrom(Encoded(input, z85), [], z85) == Some(input)
  {
    if input != [] {
      var count := if |input| < 4 then |input| else 4;
      RoundTrip(input[count..], z85);
      GroupRoundTrip(input[..count], Encoded(input[count..], z85), z85);
      assert input[..count] + input[count..] == input;
    }
  }

  lemma {:induction false} Z85Length(input: seq<byte>)
    requires |input| % 4 == 0
    ensures |Encoded(input, true)| == |input| / 4 * 5
  {
    if input != [] {
      hide Spell, Packed, FiveDigits;
      Z85Length(input[4..]);
      assert |GroupText(input[..4], true)| == 5;
    }
  }

  /** Through the plugin's own guards: what it accepts to encode it decodes back. */
  lemma PluginRoundTrip(input: seq<byte>, z85: bool)
    ensures EncodedOrRefused(input, z85).Some? ==>
              DecodedOrRefused(EncodedOrRefused(input, z85).value, z85) == Some(input)
  {
    hide DecodedFrom, Encoded;
    if !(z85 && |input| % 4 != 0) {
      RoundTrip(input, z85);
      if z85 { Z85Length(input); }
    }
  }
}
