/**
  Base64 (plugins/src/base64.c; section 4 of RFC 4648). Decoding validates the text first, allocates
  exactly the output length it computed, and then fills that buffer.
 */
module Base64 {
  import opened Common

  const PAD: byte := 61

  predicate IsWhitespace(b: byte) { b == 32 || b == 9 || b == 10 || b == 13 }

  function Symbol(v: int): (b: byte)
    requires 0 <= v < 64
    ensures b != PAD && !IsWhitespace(b)
  {
    if v < 26 then 65 + v else if v < 52 then 97 + (v - 26) else if v < 62 then 48 + (v - 52)
    else if v == 62 then 43 else 47
  }

  datatype Value = Digit(v: int) | Padding | Invalid

  function ValueOf(b: byte): (r: Value)
    ensures r.Digit? ==> 0 <= r.v < 64
    ensures r.Padding? <==> b == PAD
  {
    if 65 <= b <= 90 then Digit(b - 65)
    else if 97 <= b <= 122 then Digit(b - 97 + 26)
    else if 48 <= b <= 57 then Digit(b - 48 + 52)
    else if b == 43 then Digit(62)
    else if b == 47 then Digit(63)
    else if b == PAD then Padding
    else Invalid
  }

  lemma ValueOfSymbol(v: int)
    requires 0 <= v < 64
    ensures ValueOf(Symbol(v)) == Digit(v)
  {
  }

  /** The text without whitespace. */
  function Stripped(text: seq<byte>): seq<byte> {
    if text == [] then []
    else Stripped(text[..|text| - 1]) + if IsWhitespace(text[|text| - 1]) then [] else [text[|text| - 1]]
  }

  lemma {:induction false} StrippedPrefix(text: seq<byte>, n: nat)
    requires n <= |text|
    ensures Stripped(text[..n]) <= Stripped(text)
    decreases |text| - n
  {
    if n < |text| {
      StrippedPrefix(text, n + 1);
      assert text[..n + 1][..n] == text[..n];
    } else {
      assert text[..n] == text;
    }
  }

  // ---------- validation ----------

  /** The grammar: quartets of digits, of which only the last may end in one or two pads. */
  predicate WellFormed(f: seq<byte>) {
    && |f| % 4 == 0
    && (forall j :: 0 <= j < |f| ==> ValueOf(f[j]).Digit? || (f[j] == PAD && j >= |f| - 2))
    && (|f| >= 2 && f[|f| - 2] == PAD ==> f[|f| - 1] == PAD)
  }

  function PadCount(f: seq<byte>): (n: int)
    ensures 0 <= n <= 2
  {
    if f == [] || f[|f| - 1] != PAD then 0 else if |f| >= 2 && f[|f| - 2] == PAD then 2 else 1
  }

  /** What the validator has accepted so far: digits, then pads in the last places of a quartet. */
  ghost predicate Accepted(f: seq<byte>, padding: nat) {
    && padding <= 2 && padding <= |f|
    && (forall j :: 0 <= j < |f| - padding ==> ValueOf(f[j]).Digit?)
    && (forall j :: |f| - padding <= j < |f| ==> f[j] == PAD && j % 4 >= 2)
  }

  lemma AcceptPad(f: seq<byte>, padding: nat)
    requires Accepted(f, padding) && |f| % 4 >= 2
    ensures Accepted(f + [PAD], padding + 1)
  {
    if padding == 2 {
      TwoPads(f);
    }
  }

  lemma TwoPads(f: seq<byte>)
    requires Accepted(f, 2)
    ensures |f| % 4 == 0
  {
    assert f[|f| - 2] == PAD && f[|f| - 1] == PAD;
  }

  lemma AcceptDigit(f: seq<byte>, b: byte)
    requires Accepted(f, 0) && ValueOf(b).Digit?
    ensures Accepted(f + [b], 0)
  {
  }

  /** At a quartet boundary what was accepted is the grammar. */
  lemma AcceptedWhole(f: seq<byte>, padding: nat)
    requires Accepted(f, padding) && |f| % 4 == 0
    ensures WellFormed(f) && PadCount(f) == padding
  {
    if padding > 0 {
      assert f[|f| - 1] == PAD;
    }
    assert f != [] && padding == 0 ==> ValueOf(f[|f| - 1]).Digit?;
    assert |f| >= 2 && padding <= 1 ==> ValueOf(f[|f| - 2]).Digit?;
  }

  /** Each refusal is right: no continuation of the text could be well formed. */
  lemma RefusedRightly(all: seq<byte>, f: seq<byte>, padding: nat, b: byte)
    requires Accepted(f, padding) && f + [b] <= all
    requires ValueOf(b).Invalid? || (b == PAD && |f| % 4 < 2) || (ValueOf(b).Digit? && padding > 0)
    ensures !WellFormed(all)
  {
    assert all[|f|] == b;
    if ValueOf(b).Digit? {
      assert all[|f| - 1] == f[|f| - 1] == PAD;
    }
  }

  method Validate(text: seq<byte>, poll: nat -> bool) returns (r: Option<(nat, nat)>)
    ensures r.Some? ==> WellFormed(Stripped(text)) && r.value == (|Stripped(text)|, PadCount(Stripped(text)))
    ensures NeverCancels(poll) ==> (r.Some? <==> WellFormed(Stripped(text)))
  {
    hide ValueOf, IsWhitespace, Accepted, WellFormed, PadCount;
    var encodedLength, padding: nat, sawPadding := 0, 0, false;
    NothingAccepted();
    for i := 0 to |text|
      invariant encodedLength == |Stripped(text[..i])| && sawPadding == (padding > 0)
      invariant Accepted(Stripped(text[..i]), padding)
    {
      if Cancelled(poll, i) { return None; }
      var b := text[i];
      ghost var f := Stripped(text[..i]);
      assert text[..i + 1][..i] == text[..i];
      StrippedPrefix(text, i + 1);
      if IsWhitespace(b) {
        assert f + [] == f;
        continue;
      }
      var value := ValueOf(b);
      if value.Invalid? {
        RefusedRightly(Stripped(text), f, padding, b);
        return None;
      }
      if value.Padding? {
        if encodedLength % 4 < 2 {
          RefusedRightly(Stripped(text), f, padding, b);
          return None;
        }
        AcceptPad(f, padding);
        sawPadding := true;
        padding := padding + 1;
      } else {
        if sawPadding {
          RefusedRightly(Stripped(text), f, padding, b);
          return None;
        }
        AcceptDigit(f, b);
      }
      encodedLength := encodedLength + 1;
    }
    assert text[..|text|] == text;
    LengthDecides(text, padding);
    if encodedLength == 0 { return Some((0, 0)); }
    if encodedLength % 4 != 0 || padding > 2 { return None; }
    AcceptedWhole(Stripped(text), padding);
    r := Some((encodedLength, padding));
  }

  lemma NothingAccepted()
    ensures Accepted([], 0)
  {
  }

  lemma LengthDecides(text: seq<byte>, padding: nat)
    requires Accepted(Stripped(text), padding)
    ensures padding <= 2
    ensures Stripped(text) == [] ==> WellFormed(Stripped(text)) && PadCount(Stripped(text)) == 0
    ensures |Stripped(text)| % 4 != 0 ==> !WellFormed(Stripped(text))
  {
  }

  // ---------- encoding ----------

  /** The 24 bits of a group, zero bytes standing in for those it lacks. */
  function Packed(group: seq<int>): int
    requires 1 <= |group| <= 3
  {
    (group[0] * 256 + (if |group| > 1 then group[1] else 0)) * 256 + (if |group| > 2 then group[2] else 0)
  }

  /** One quartet; each `/ 64` is a shift by six bits. */
  function GroupText(group: seq<byte>): (q: seq<byte>)
    requires 1 <= |group| <= 3
    ensures |q| == 4
  {
    var t := Packed(group);
    [Symbol(t / 64 / 64 / 64 % 64), Symbol(t / 64 / 64 % 64),
     if |group| > 1 then Symbol(t / 64 % 64) else PAD, if |group| > 2 then Symbol(t % 64) else PAD]
  }

  function Encoded(input: seq<byte>): seq<byte> {
    if input == [] then []
    else
      var count := if |input| < 3 then |input| else 3;
      GroupText(input[..count]) + Encoded(input[count..])
  }

  function OutputLength(n: int): int { (n + 2) / 3 * 4 }

  const MAX_ENCODABLE: int := (INT64_MAX / 4 - 1) * 3

  /**
    The guard keeps every int64 step of the length computation in range. The exact limit is three
    bytes higher, so the guard is safe and refuses three lengths that would have fitted.
   */
  lemma GuardRulesOutOverflow(n: int)
    requires n >= 0
    ensures n <= MAX_ENCODABLE ==> n + 2 <= INT64_MAX && OutputLength(n) <= INT64_MAX
    ensures OutputLength(n) <= INT64_MAX <==> n <= MAX_ENCODABLE + 3
  {
  }

  lemma {:induction false} EncodedLength(input: seq<byte>)
    ensures |Encoded(input)| == OutputLength(|input|)
  {
    hide GroupText;
    if |input| >= 3 {
      EncodedLength(input[3..]);
    } else if input != [] {
      EncodedLength(input[|input|..]);
    }
  }

  method Store(output: array<byte>, at: nat, bytes: seq<byte>)
    requires at + |bytes| <= output.Length
    modifies output
    ensures output[..at + |bytes|] == old(output[..at]) + bytes
  {
    for i := 0 to |bytes|
      invariant output[..at + i] == old(output[..at]) + bytes[..i]
    {
      output[at + i] := bytes[i];
      assert output[..at + i + 1] == output[..at + i] + [bytes[i]];
    }
    assert bytes[..|bytes|] == bytes;
  }

  method StoreGroup(output: array<byte>, at: nat, group: seq<byte>, ghost later: seq<byte>, ghost all: seq<byte>)
    requires 1 <= |group| <= 3 && at + 4 <= output.Length && output[..at] + (GroupText(group) + later) == all
    modifies output
    ensures output[..at + 4] + later == all
  {
    hide GroupText;
    var q := GroupText(group);
    assert output[..at] + (q + later) == output[..at] + q + later;
    Store(output, at, q);
  }

  method Encode(input: seq<byte>, poll: nat -> bool) returns (r: Option<seq<byte>>)
    ensures r.Some? ==> |input| <= MAX_ENCODABLE && r.value == Encoded(input)
    ensures NeverCancels(poll) ==> (r.Some? <==> |input| <= MAX_ENCODABLE)
  {
    if |input| == 0 { return Some([]); }
    hide GroupText, Encoded;
    if |input| > MAX_ENCODABLE { return None; }
    EncodedLength(input);
    var output := new byte[OutputLength(|input|)];
    var inputIndex, outputIndex := 0, 0;
    assert input[0..] == input;
    while inputIndex < |input|
      invariant 0 <= inputIndex <= |input| && 0 <= outputIndex
      invariant outputIndex + |Encoded(input[inputIndex..])| == output.Length
      invariant output[..outputIndex] + Encoded(input[inputIndex..]) == Encoded(input)
    {
      if Cancelled(poll, inputIndex) { return None; }
      var count := if |input| - inputIndex < 3 then |input| - inputIndex else 3;
      EncodedStep(input, inputIndex, count);
      StoreGroup(output, outputIndex, input[inputIndex..inputIndex + count],
                 Encoded(input[inputIndex + count..]), Encoded(input));
      inputIndex, outputIndex := inputIndex + count, outputIndex + 4;
    }
    EncodedLength(input[inputIndex..]);
    assert output[..outputIndex] == output[..];
    r := Some(output[..]);
  }

  lemma EncodedStep(input: seq<byte>, i: nat, count: nat)
    requires i < |input| && count == if |input| - i < 3 then |input| - i else 3
    ensures Encoded(input[i..]) == GroupText(input[i..i + count]) + Encoded(input[i + count..])
  {
    hide GroupText;
    assert input[i..][..count] == input[i..i + count] && input[i..][count..] == input[i + count..];
  }

  // ---------- decoding ----------

  function DigitOrZero(b: byte): (d: int)
    ensures 0 <= d < 64
  {
    if ValueOf(b).Digit? then ValueOf(b).v else 0
  }

  function Joined(d: seq<int>): int
    requires |d| == 4
  {
    ((d[0] * 64 + d[1]) * 64 + d[2]) * 64 + d[3]
  }

  /** The three bytes of 24 bits; each `/ 256` is a shift by eight. */
  function ThreeBytes(t: int): (s: seq<byte>)
    ensures |s| == 3
  {
    [t / 256 / 256 % 256, t / 256 % 256, t % 256]
  }

  function Digits(q: seq<byte>): (d: seq<int>)
    ensures |d| == |q| && forall i :: 0 <= i < |q| ==> d[i] == DigitOrZero(q[i])
  {
    seq(|q|, i requires 0 <= i < |q| => DigitOrZero(q[i]))
  }

  function QuartetBytes(q: seq<byte>): (s: seq<byte>)
    requires |q| == 4
    ensures |s| == 3
  {
    ThreeBytes(Joined(Digits(q)))
  }

  /** Three bytes for every whole quartet, padding read as zero. */
  function AllBytes(f: seq<byte>): (s: seq<byte>)
    ensures |s| == |f| / 4 * 3
  {
    if |f| < 4 then [] else QuartetBytes(f[..4]) + AllBytes(f[4..])
  }

  function Decoded(text: seq<byte>): Option<seq<byte>> {
    var f := Stripped(text);
    if !WellFormed(f) then None
    else
      PadsFit(f);
      Some(AllBytes(f)[..|f| / 4 * 3 - PadCount(f)])
  }

  lemma PadsFit(f: seq<byte>)
    requires WellFormed(f)
    ensures 0 <= |f| / 4 * 3 - PadCount(f)
  {
  }

  lemma {:induction false} AllBytesAppend(g: seq<byte>, q: seq<byte>)
    requires |g| % 4 == 0 && |q| == 4
    ensures AllBytes(g + q) == AllBytes(g) + QuartetBytes(q)
  {
    hide QuartetBytes;
    if g == [] {
      assert g + q == q && q[..4] == q && q[4..] == [];
    } else {
      AllBytesAppend(g[4..], q);
      assert (g + q)[..4] == g[..4] && (g + q)[4..] == g[4..] + q;
    }
  }

  lemma {:induction false} AllBytesPrefix(g: seq<byte>, f: seq<byte>)
    requires g <= f && |g| % 4 == 0
    ensures AllBytes(g) <= AllBytes(f)
  {
    hide QuartetBytes;
    if g != [] {
      AllBytesPrefix(g[4..], f[4..]);
      assert f[..4] == g[..4];
    }
  }

  /** The three guarded stores of the loop: whatever still fits is written. */
  method StoreQuartet(output: array<byte>, at: nat, t: int) returns (next: nat)
    requires at <= output.Length
    modifies output
    ensures next == Least(at + 3, output.Length)
    ensures output[..next] == old(output[..at]) + ThreeBytes(t)[..next - at]
  {
    hide ThreeBytes;
    next := at;
    var bytes := ThreeBytes(t);
    for k := 0 to 3
      invariant next == Least(at + k, output.Length)
      invariant output[..next] == old(output[..at]) + bytes[..next - at]
    {
      if next < output.Length {
        output[next] := bytes[k];
        assert output[..next + 1] == output[..next] + [bytes[k]];
        next := next + 1;
      }
    }
  }

  /** The buffer has exactly the length computed beforehand, and the loop fills all of it. */
  method Decode(text: seq<byte>, poll: nat -> bool) returns (r: Option<seq<byte>>)
    ensures r.Some? ==> r == Decoded(text)
    ensures NeverCancels(poll) ==> r == Decoded(text)
  {
    hide WellFormed, PadCount, DigitOrZero, IsWhitespace, Digits, AllBytes, Stripped, Reading;
    NoDigits(text);
    var checked := Validate(text, poll);
    if checked.None? { return None; }
    var (encodedLength, padding) := checked.value;
    ghost var f := Stripped(text);
    PadsFit(f);
    if encodedLength == 0 { return Some([]); }
    var output := new byte[encodedLength / 4 * 3 - padding];
    var quartet: seq<int> := [];
    var outputIndex := 0;
    ghost var g: seq<byte>, q: seq<byte> := [], [];
    for i := 0 to |text|
      invariant |q| < 4 && Reading(text, i, g, q, quartet)
      invariant outputIndex == Least(|g| / 4 * 3, output.Length)
      invariant output[..outputIndex] == AllBytes(g)[..outputIndex]
    {
      if Cancelled(poll, i) { return None; }
      ReadingStep(text, i, g, q, quartet);
      if IsWhitespace(text[i]) { continue; }
      q := q + [text[i]];
      quartet := quartet + [DigitOrZero(text[i])];
      if |quartet| < 4 { continue; }
      ReadingWhole(text, i + 1, g, q, quartet);
      outputIndex := WriteQuartet(output, outputIndex, quartet, g, q);
      g := g + q;
      q, quartet := [], [];
    }
    ReadingDone(text, g, q, quartet);
    assert output[..] == output[..outputIndex];
    r := Some(output[..]);
  }

  method WriteQuartet(output: array<byte>, at: nat, quartet: seq<int>, ghost g: seq<byte>, ghost q: seq<byte>)
    returns (next: nat)
    requires |q| == 4 && quartet == Digits(q) && |g| % 4 == 0
    requires at == Least(|g| / 4 * 3, output.Length) && output[..at] == AllBytes(g)[..at]
    modifies output
    ensures next == Least(|g + q| / 4 * 3, output.Length)
    ensures output[..next] == AllBytes(g + q)[..next]
  {
    hide ThreeBytes, Digits, Joined;
    AllBytesAppend(g, q);
    next := StoreQuartet(output, at, Joined(quartet));
  }

  lemma DigitsOne(q: seq<byte>, b: byte)
    ensures Digits(q + [b]) == Digits(q) + [DigitOrZero(b)]
  {
  }

  /** Whole quartets read and the symbols of the next one. */
  ghost predicate Reading(text: seq<byte>, i: nat, g: seq<byte>, q: seq<byte>, quartet: seq<int>) {
    i <= |text| && Stripped(text[..i]) == g + q && |g| % 4 == 0 && quartet == Digits(q)
  }

  lemma NoDigits(text: seq<byte>)
    ensures AllBytes([]) == [] && Reading(text, 0, [], [], [])
  {
  }

  lemma ReadingStep(text: seq<byte>, i: nat, g: seq<byte>, q: seq<byte>, quartet: seq<int>)
    requires i < |text| && Reading(text, i, g, q, quartet)
    ensures IsWhitespace(text[i]) ==> Reading(text, i + 1, g, q, quartet)
    ensures !IsWhitespace(text[i]) ==> Reading(text, i + 1, g, q + [text[i]], quartet + [DigitOrZero(text[i])])
    ensures |quartet| == |q|
  {
    hide Stripped, IsWhitespace, DigitOrZero, Digits;
    StrippedStep(text, i);
    DigitsOne(q, text[i]);
    Associates(g, q, [text[i]]);
  }

  lemma ReadingWhole(text: seq<byte>, i: nat, g: seq<byte>, q: seq<byte>, quartet: seq<int>)
    requires |q| == 4 && Reading(text, i, g, q, quartet)
    ensures quartet == Digits(q) && |g| % 4 == 0 && Reading(text, i, g + q, [], [])
  {
    assert g + q + [] == g + q;
  }

  lemma ReadingDone(text: seq<byte>, g: seq<byte>, q: seq<byte>, quartet: seq<int>)
    requires WellFormed(Stripped(text)) && |q| < 4 && Reading(text, |text|, g, q, quartet)
    ensures Stripped(text) == g && |g| % 4 == 0
  {
    assert text[..|text|] == text;
    WholeQuartets(Stripped(text), g, q);
  }

  lemma StrippedStep(text: seq<byte>, i: nat)
    requires i < |text|
    ensures IsWhitespace(text[i]) ==> Stripped(text[..i + 1]) == Stripped(text[..i])
    ensures !IsWhitespace(text[i]) ==> Stripped(text[..i + 1]) == Stripped(text[..i]) + [text[i]]
  {
    assert text[..i + 1][..i] == text[..i];
  }

  lemma WholeQuartets(f: seq<byte>, g: seq<byte>, q: seq<byte>)
    requires WellFormed(f) && f == g + q && |g| % 4 == 0 && |q| < 4
    ensures f == g
  {
  }

  // ---------- round trip ----------

  lemma SplitSix(t: int)
    requires 0 <= t < 16777216
    ensures ((t / 64 / 64 / 64 % 64 * 64 + t / 64 / 64 % 64) * 64 + t / 64 % 64) * 64 + t % 64 == t
  {
  }

  lemma JoinEight(h: int, b: int)
    requires 0 <= b < 256
    ensures (h * 256 + b) / 256 == h && (h * 256 + b) % 256 == b
  {
  }

  lemma BytesOfPacked(group: seq<byte>)
    requires 1 <= |group| <= 3
    ensures 0 <= Packed(group) < 16777216 && ThreeBytes(Packed(group))[..|group|] == group
    ensures |group| < 3 ==> Packed(group) % 64 == 0
    ensures |group| < 2 ==> Packed(group) / 64 % 64 == 0
  {
    var a: int, b: int, c: int := group[0], if |group| > 1 then group[1] else 0, if |group| > 2 then group[2] else 0;
    ThreeBytesOf(a, b, c);
    DigitsOfBytes(a, b, c);
    hide ThreeBytes;
    assert [a, b, c][..|group|] == group;
  }

  lemma ThreeBytesOf(a: int, b: int, c: int)
    requires 0 <= a < 256 && 0 <= b < 256 && 0 <= c < 256
    ensures ThreeBytes((a * 256 + b) * 256 + c) == [a, b, c]
  {
    JoinEight(a * 256 + b, c);
    JoinEight(a, b);
  }

  lemma GroupRoundTrip(group: seq<byte>)
    requires 1 <= |group| <= 3
    ensures QuartetBytes(GroupText(group))[..|group|] == group
  {
    hide Symbol, ValueOf, ThreeBytes;
    var t, q := Packed(group), GroupText(group);
    BytesOfPacked(group);
    ValueOfSymbol(t / 64 / 64 / 64 % 64);
    ValueOfSymbol(t / 64 / 64 % 64);
    ValueOfSymbol(t / 64 % 64);
    ValueOfSymbol(t % 64);
    SplitSix(t);
    assert Joined(Digits(q)) == t;
  }

  lemma GroupGrammar(group: seq<byte>)
    requires 1 <= |group| <= 3
    ensures var q := GroupText(group);
            && ValueOf(q[0]).Digit? && ValueOf(q[1]).Digit?
            && (if |group| > 1 then ValueOf(q[2]).Digit? else q[2] == PAD)
            && (if |group| > 2 then ValueOf(q[3]).Digit? else q[3] == PAD)
  {
    hide Symbol, ValueOf;
    var t := Packed(group);
    ValueOfSymbol(t / 64 / 64 / 64 % 64);
    ValueOfSymbol(t / 64 / 64 % 64);
    ValueOfSymbol(t / 64 % 64);
    ValueOfSymbol(t % 64);
  }

  /** The first group of an input and what is left of it. */
  function FirstCount(input: seq<byte>): nat { if |input| < 3 then |input| else 3 }

  /** The encoder's output is in the grammar, with as many pads as the last group lacks bytes. */
  lemma {:induction false} EncodedGrammar(input: seq<byte>)
    ensures var f := Encoded(input); WellFormed(f) && |f| / 4 * 3 - PadCount(f) == |input|
  {
    EncodedLength(input);
    if input != [] {
      hide GroupText, ValueOf;
      var group, rest := input[..FirstCount(input)], input[FirstCount(input)..];
      EncodedGrammar(rest);
      GroupGrammar(group);
      EncodedLength(rest);
      hide WellFormed, PadCount;
      QuartetThen(group, GroupText(group), Encoded(rest));
    }
  }

  predicate Begins(all: seq<byte>, start: seq<byte>) {
    |start| <= |all| && all[..|start|] == start
  }

  /** The quartets of the encoder's output hold the input. */
  lemma {:induction false} EncodedBytes(input: seq<byte>)
    ensures Begins(AllBytes(Encoded(input)), input)
  {
    if input != [] {
      var count := FirstCount(input);
      var group, rest := input[..count], input[count..];
      assert Encoded(input) == GroupText(group) + Encoded(rest);
      GroupRoundTrip(group);
      assert Begins(QuartetBytes(GroupText(group)), group);
      assert input == group + rest && (|group| < 3 ==> rest == []);
      hide GroupText, QuartetBytes, AllBytes, Begins, Encoded;
      EncodedBytes(rest);
      AllBytesFirst(GroupText(group), Encoded(rest));
      JoinBegins(group, rest, QuartetBytes(GroupText(group)), AllBytes(Encoded(rest)));
    }
  }

  lemma AllBytesFirst(q: seq<byte>, tail: seq<byte>)
    requires |q| == 4
    ensures AllBytes(q + tail) == QuartetBytes(q) + AllBytes(tail)
  {
    hide QuartetBytes;
    assert (q + tail)[..4] == q && (q + tail)[4..] == tail;
  }

  lemma JoinBegins(group: seq<byte>, rest: seq<byte>, three: seq<byte>, more: seq<byte>)
    requires |three| == 3 && Begins(three, group) && Begins(more, rest) && (|group| < 3 ==> rest == [])
    ensures Begins(three + more, group + rest)
  {
  }

  /** The encoder's output is in the grammar, and decodes to the input. */
  lemma EncodedMeaning(input: seq<byte>)
    ensures var f := Encoded(input);
            && WellFormed(f) && |f| / 4 * 3 - PadCount(f) == |input|
            && |AllBytes(f)| >= |input| && AllBytes(f)[..|input|] == input
  {
    EncodedGrammar(input);
    EncodedBytes(input);
  }

  lemma QuartetThen(group: seq<byte>, q: seq<byte>, tail: seq<byte>)
    requires 1 <= |group| <= 3 && |q| == 4 && WellFormed(tail) && (|group| < 3 ==> tail == [])
    requires ValueOf(q[0]).Digit? && ValueOf(q[1]).Digit?
    requires if |group| > 1 then ValueOf(q[2]).Digit? else q[2] == PAD
    requires if |group| > 2 then ValueOf(q[3]).Digit? else q[3] == PAD
    ensures WellFormed(q + tail)
    ensures PadCount(q + tail) == if tail == [] then 3 - |group| else PadCount(tail)
  {
    var f := q + tail;
    if tail == [] {
      assert f == q;
    } else {
      assert forall j :: 4 <= j < |f| ==> f[j] == tail[j - 4];
    }
  }

  /** Whitespace inserted anywhere into the encoding changes nothing: the input comes back. */
  lemma RoundTrip(input: seq<byte>, text: seq<byte>)
    requires Stripped(text) == Encoded(input)
    ensures Decoded(text) == Some(input)
  {
    EncodedMeaning(input);
  }

  lemma {:induction false} NothingToStrip(f: seq<byte>)
    requires forall j :: 0 <= j < |f| ==> !IsWhitespace(f[j])
    ensures Stripped(f) == f
  {
    if f != [] {
      NothingToStrip(f[..|f| - 1]);
      assert f == f[..|f| - 1] + [f[|f| - 1]];
    }
  }

  lemma PlainRoundTrip(input: seq<byte>)
    ensures Decoded(Encoded(input)) == Some(input)
  {
    hide AllBytes;
    var f := Encoded(input);
    EncodedMeaning(input);
    assert forall j :: 0 <= j < |f| ==> !IsWhitespace(f[j]);
    NothingToStrip(f);
    RoundTrip(input, f);
  }

  // ---------- canonical text ----------

  lemma SymbolInjective(v: int, w: int)
    requires 0 <= v < 64 && 0 <= w < 64
    ensures Symbol(v) == Symbol(w) <==> v == w
  {
    ValueOfSymbol(v);
    ValueOfSymbol(w);
  }

  /** The bytes that four digits spell. */
  lemma BytesOfDigits(a: int, b: int, c: int, d: int)
    requires 0 <= a < 64 && 0 <= b < 64 && 0 <= c < 64 && 0 <= d < 64
    ensures ThreeBytes(((a * 64 + b) * 64 + c) * 64 + d) == [a * 4 + b / 16, b % 16 * 16 + c / 4, c % 4 * 64 + d]
  {
    var t := ((a * 64 + b) * 64 + c) * 64 + d;
    assert t == ((a * 64 + b) * 16 + c / 4) * 256 + (c % 4 * 64 + d);
    JoinEight((a * 64 + b) * 16 + c / 4, c % 4 * 64 + d);
    assert (a * 64 + b) * 16 + c / 4 == (a * 4 + b / 16) * 256 + (b % 16 * 16 + c / 4);
    JoinEight(a * 4 + b / 16, b % 16 * 16 + c / 4);
  }

  /** The digits that three bytes spell. */
  lemma DigitsOfBytes(x: int, y: int, z: int)
    requires 0 <= x < 256 && 0 <= y < 256 && 0 <= z < 256
    ensures var t := (x * 256 + y) * 256 + z;
            && t % 64 == z % 64 && t / 64 % 64 == y % 16 * 4 + z / 64
            && t / 64 / 64 % 64 == x % 4 * 16 + y / 16 && t / 64 / 64 / 64 % 64 == x / 4
  {
    var t := (x * 256 + y) * 256 + z;
    var u, v, w := (x * 256 + y) * 4 + z / 64, x * 16 + y / 16, x / 4;
    assert t == u * 64 + z % 64;
    assert t / 64 == u;
    assert u == v * 64 + (y % 16 * 4 + z / 64);
    assert u / 64 == v;
    assert v == w * 64 + (x % 4 * 16 + y / 16);
  }

  /** Regrouping six-bit digits into bytes and back. */
  lemma Regrouped(a: int, b: int, c: int, d: int)
    requires 0 <= a < 64 && 0 <= b < 64 && 0 <= c < 64 && 0 <= d < 64
    ensures var x, y, z := a * 4 + b / 16, b % 16 * 16 + c / 4, c % 4 * 64 + d;
            && 0 <= x < 256 && 0 <= y < 256 && 0 <= z < 256
            && x / 4 == a && x % 4 == b / 16 && y / 16 == b % 16 && y % 16 == c / 4 && z / 64 == c % 4 && z % 64 == d
  {
  }

  /** The quartet of a group, digit by digit. */
  lemma GroupDigits(x: byte, y: byte, z: byte)
    ensures GroupText([x]) == [Symbol(x / 4), Symbol(x % 4 * 16), PAD, PAD]
    ensures GroupText([x, y]) == [Symbol(x / 4), Symbol(x % 4 * 16 + y / 16), Symbol(y % 16 * 4), PAD]
    ensures GroupText([x, y, z])
            == [Symbol(x / 4), Symbol(x % 4 * 16 + y / 16), Symbol(y % 16 * 4 + z / 64), Symbol(z % 64)]
  {
    hide Symbol;
    DigitsOfBytes(x, 0, 0);
    DigitsOfBytes(x, y, 0);
    DigitsOfBytes(x, y, z);
  }

  /** The bits of the last digit before the padding that no byte takes up. */
  predicate SpareBitsClear(q: seq<byte>)
    requires |q| == 4
  {
    && (q[2] == PAD ==> DigitOrZero(q[1]) % 16 == 0)
    && (q[2] != PAD && q[3] == PAD ==> DigitOrZero(q[2]) % 4 == 0)
  }

  predicate Quartet(q: seq<byte>) {
    && |q| == 4 && ValueOf(q[0]).Digit? && ValueOf(q[1]).Digit?
    && (ValueOf(q[2]).Digit? || (q[2] == PAD && q[3] == PAD)) && (ValueOf(q[3]).Digit? || q[3] == PAD)
  }

  function Carries(q: seq<byte>): (n: int)
    requires |q| == 4
    ensures 1 <= n <= 3
  {
    if q[2] == PAD then 1 else if q[3] == PAD then 2 else 3
  }

  lemma SymbolOfDigit(b: byte)
    ensures ValueOf(b).Digit? ==> Symbol(DigitOrZero(b)) == b && b != PAD
    ensures b == PAD ==> DigitOrZero(b) == 0
  {
  }

  lemma QuartetDigits(q: seq<byte>)
    requires Quartet(q)
    ensures q[0] == Symbol(DigitOrZero(q[0])) && q[1] == Symbol(DigitOrZero(q[1]))
    ensures q[2] == (if q[2] == PAD then PAD else Symbol(DigitOrZero(q[2])))
    ensures q[3] == (if q[3] == PAD then PAD else Symbol(DigitOrZero(q[3])))
    ensures q[2] == PAD ==> q[3] == PAD
    ensures var a, b, c, d := DigitOrZero(q[0]), DigitOrZero(q[1]), DigitOrZero(q[2]), DigitOrZero(q[3]);
            QuartetBytes(q) == [a * 4 + b / 16, b % 16 * 16 + c / 4, c % 4 * 64 + d]
  {
    SymbolOfDigit(q[0]);
    SymbolOfDigit(q[1]);
    SymbolOfDigit(q[2]);
    SymbolOfDigit(q[3]);
    hide Symbol, ValueOf, ThreeBytes, DigitOrZero;
    BytesOfDigits(DigitOrZero(q[0]), DigitOrZero(q[1]), DigitOrZero(q[2]), DigitOrZero(q[3]));
  }

  /** Encoding what a quartet decodes to gives the quartet back exactly when its spare bits are clear. */
  lemma QuartetCanonical(q: seq<byte>)
    requires Quartet(q)
    ensures GroupText(QuartetBytes(q)[..Carries(q)]) == q <==> SpareBitsClear(q)
  {
    assert |q| == 4;
    hide Quartet, Symbol, ValueOf, QuartetBytes, GroupText, DigitOrZero;
    QuartetDigits(q);
    var a, b, c, d := DigitOrZero(q[0]), DigitOrZero(q[1]), DigitOrZero(q[2]), DigitOrZero(q[3]);
    Regrouped(a, b, c, d);
    var bytes := QuartetBytes(q);
    var x, y, z := bytes[0], bytes[1], bytes[2];
    if q[2] == PAD {
      assert bytes[..1] == [x];
      OneCarried(q, a, b, x);
    } else if q[3] == PAD {
      assert bytes[..2] == [x, y];
      TwoCarried(q, a, b, c, x, y);
    } else {
      assert bytes[..3] == [x, y, z];
      AllCarried(q, a, b, c, d, x, y, z);
    }
  }

  lemma OneCarried(q: seq<byte>, a: int, b: int, x: byte)
    requires 0 <= a < 64 && 0 <= b < 64 && x / 4 == a && x % 4 == b / 16
    requires |q| == 4 && q[0] == Symbol(a) && q[1] == Symbol(b) && q[2] == PAD && q[3] == PAD
    ensures GroupText([x]) == q <==> b % 16 == 0
  {
    hide Symbol, GroupText;
    GroupDigits(x, 0, 0);
    SymbolInjective(b / 16 * 16, b);
    assert q == [Symbol(a), Symbol(b), PAD, PAD];
    assert GroupText([x]) == [Symbol(a), Symbol(b / 16 * 16), PAD, PAD];
    assert GroupText([x])[1] == Symbol(b / 16 * 16);
  }

  lemma TwoCarried(q: seq<byte>, a: int, b: int, c: int, x: byte, y: byte)
    requires 0 <= a < 64 && 0 <= b < 64 && 0 <= c < 64
    requires x / 4 == a && x % 4 == b / 16 && y / 16 == b % 16 && y % 16 == c / 4
    requires |q| == 4 && q[0] == Symbol(a) && q[1] == Symbol(b) && q[2] == Symbol(c) && q[3] == PAD
    ensures GroupText([x, y]) == q <==> c % 4 == 0
  {
    hide Symbol, GroupText;
    GroupDigits(x, y, 0);
    SymbolInjective(c / 4 * 4, c);
    assert q == [Symbol(a), Symbol(b), Symbol(c), PAD];
    assert GroupText([x, y]) == [Symbol(a), Symbol(b), Symbol(c / 4 * 4), PAD];
    assert GroupText([x, y])[2] == Symbol(c / 4 * 4);
  }

  lemma AllCarried(q: seq<byte>, a: int, b: int, c: int, d: int, x: byte, y: byte, z: byte)
    requires 0 <= a < 64 && 0 <= b < 64 && 0 <= c < 64 && 0 <= d < 64
    requires x / 4 == a && x % 4 == b / 16 && y / 16 == b % 16 && y % 16 == c / 4 && z / 64 == c % 4 && z % 64 == d
    requires |q| == 4 && q[0] == Symbol(a) && q[1] == Symbol(b) && q[2] == Symbol(c) && q[3] == Symbol(d)
    ensures GroupText([x, y, z]) == q
  {
    hide Symbol, GroupText;
    GroupDigits(x, y, z);
    assert q == [Symbol(a), Symbol(b), Symbol(c), Symbol(d)];
  }

  /** The last quartet of a text, where the padding is. */
  predicate CanonicalEnd(f: seq<byte>) {
    |f| >= 4 ==> SpareBitsClear(f[|f| - 4..])
  }

  /** A text is a quartet and a shorter text; only the last quartet is padded. */
  lemma FirstOf(f: seq<byte>)
    requires WellFormed(f) && f != []
    ensures |f| >= 4 && Quartet(f[..4]) && WellFormed(f[4..])
    ensures |f| > 4 ==> |f| >= 8 && Carries(f[..4]) == 3 && PadCount(f[4..]) == PadCount(f)
  {
    hide ValueOf;
    var q, tail := f[..4], f[4..];
    assert forall j :: 0 <= j < 4 ==> q[j] == f[j];
    assert forall j :: 0 <= j < |tail| ==> tail[j] == f[j + 4];
    assert ValueOf(f[0]).Digit? && ValueOf(f[1]).Digit?;
    assert |f| > 4 ==> ValueOf(f[2]).Digit? && ValueOf(f[3]).Digit?;
  }

  /** The bytes a well-formed text stands for. */
  function BytesOf(f: seq<byte>): seq<byte>
    requires WellFormed(f)
  {
    PadsFit(f);
    AllBytes(f)[..|f| / 4 * 3 - PadCount(f)]
  }

  /** Encoding the decoded bytes gives the text back, whitespace aside, exactly when its spare bits are clear. */
  lemma ReencodedExactly(text: seq<byte>)
    requires Decoded(text).Some?
    ensures Encoded(Decoded(text).value) == Stripped(text) <==> CanonicalEnd(Stripped(text))
  {
    hide Stripped;
    Reencoded(Stripped(text));
  }

  lemma {:induction false} Reencoded(f: seq<byte>)
    requires WellFormed(f)
    ensures Encoded(BytesOf(f)) == f <==> CanonicalEnd(f)
    decreases |f|
  {
    hide WellFormed, GroupText, QuartetBytes, Quartet, SpareBitsClear;
    if f == [] {
      assert BytesOf(f) == [];
    } else {
      FirstOf(f);
      var q, tail := f[..4], f[4..];
      QuartetCanonical(q);
      if |f| == 4 {
        assert q == f && f[0..] == f;
        LastQuartet(f);
      } else {
        FullQuartet(q);
        Reencoded(tail);
        FirstQuartet(f);
        assert f == q + tail;
        assert f[|f| - 4..] == tail[|tail| - 4..];
      }
    }
  }

  lemma FullQuartet(q: seq<byte>)
    requires |q| == 4 && Carries(q) == 3
    ensures SpareBitsClear(q) && QuartetBytes(q)[..3] == QuartetBytes(q)
  {
  }

  lemma LastQuartet(f: seq<byte>)
    requires |f| == 4 && Quartet(f) && WellFormed(f)
    ensures Encoded(BytesOf(f)) == GroupText(QuartetBytes(f)[..Carries(f)])
  {
    hide QuartetBytes, GroupText, Quartet, ValueOf;
    assert f[..4] == f && f[4..] == [] && AllBytes([]) == [];
    assert AllBytes(f) == QuartetBytes(f);
    assert 3 - PadCount(f) == Carries(f);
    var bytes := QuartetBytes(f)[..Carries(f)];
    assert bytes[..|bytes|] == bytes && bytes[|bytes|..] == [] && Encoded([]) == [];
  }

  lemma FirstQuartet(f: seq<byte>)
    requires WellFormed(f) && |f| >= 8 && WellFormed(f[4..]) && PadCount(f[4..]) == PadCount(f)
    ensures Encoded(BytesOf(f)) == GroupText(QuartetBytes(f[..4])) + Encoded(BytesOf(f[4..]))
  {
    hide GroupText, QuartetBytes, WellFormed, PadCount;
    var q, tail := f[..4], f[4..];
    PadsFit(tail);
    var bytes := BytesOf(f);
    assert bytes[..3] == QuartetBytes(q) && bytes[3..] == BytesOf(tail);
  }

  /** "QR==" has nonzero spare bits: it decodes to one byte, whose encoding is "QQ==". */
  lemma SpareBitsAreLost()
    ensures var text: seq<byte> := [81, 82, PAD, PAD];
            && Decoded(text) == Some([65]) && Encoded([65]) == [81, 81, PAD, PAD] != Stripped(text)
  {
    var text: seq<byte> := [81, 82, PAD, PAD];
    NothingToStrip(text);
    assert WellFormed(text) && PadCount(text) == 2;
    ReadsAsA(text);
    hide AllBytes, Encoded, Stripped, WellFormed, PadCount;
    EncodesA();
    assert text[1] == 82 && [81, 81, PAD, PAD][1] == 81;
  }

  lemma ReadsAsA(text: seq<byte>)
    requires text == [81, 82, PAD, PAD]
    ensures AllBytes(text)[..1] == [65]
  {
    assert DigitOrZero(81) == 16 && DigitOrZero(82) == 17 && DigitOrZero(PAD) == 0;
    assert Digits(text) == [16, 17, 0, 0];
    BytesOfDigits(16, 17, 0, 0);
    AllBytesFirst(text, []);
    assert text + [] == text && AllBytes([]) == [];
    hide AllBytes, ThreeBytes;
  }

  lemma EncodesA()
    ensures Encoded([65]) == [81, 81, PAD, PAD]
  {
    GroupDigits(65, 0, 0);
    hide GroupText;
    assert [65][..1] == [65] && [65][1..] == [] && Encoded([]) == [];
  }
}
