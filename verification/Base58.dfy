/**
  Base58 (plugins/src/text_codecs.cpp): the digit vector is a big number changed in place, one
  multiply-and-add per input symbol. The reference is ordinary base conversion of the
  big-endian value.
 */
module Base58 {
  import opened Common

  const MAX_INPUT_BYTES: nat := 64 * 1024

  /** The two bases between which the codec converts. */
  datatype Radix = R58 | R256 {
    function Size(): int { if R58? then 58 else 256 }
    function Scale(n: int): int { if R58? then 58 * n else 256 * n }
    function Quot(n: int): int { if R58? then n / 58 else n / 256 }
    function Rem(n: int): int { if R58? then n % 58 else n % 256 }
    function Other(): Radix { if R58? then R256 else R58 }
  }

  type Digits = seq<int>

  // ---------- base conversion ----------

  /** Value of a digit vector, least significant digit first. */
  function Value(digits: Digits, radix: Radix): (n: int)
    ensures InRadix(digits, radix) ==> n >= 0
  {
    if digits == [] then 0 else digits[0] + radix.Scale(Value(digits[1..], radix))
  }

  /** Value of a symbol string, most significant symbol first. */
  function BigEndian(symbols: Digits, radix: Radix): (n: int)
    ensures InRadix(symbols, radix) ==> n >= 0
  {
    if symbols == [] then 0
    else radix.Scale(BigEndian(symbols[..|symbols| - 1], radix)) + symbols[|symbols| - 1]
  }

  /** The digits of `n`, least significant first, without leading zeros; `[0]` for zero. */
  function DigitsOf(n: nat, radix: Radix): Digits {
    if n < radix.Size() then [n] else [radix.Rem(n)] + DigitsOf(radix.Quot(n), radix)
  }

  predicate InRadix(digits: Digits, radix: Radix) {
    forall i :: 0 <= i < |digits| ==> 0 <= digits[i] < radix.Size()
  }

  predicate Canonical(digits: Digits, radix: Radix) {
    && |digits| >= 1
    && InRadix(digits, radix)
    && (|digits| > 1 ==> digits[|digits| - 1] != 0)
  }

  lemma {:induction false} ValueIsBigEndianReversed(symbols: Digits, radix: Radix)
    ensures Value(Reverse<int>(symbols), radix) == BigEndian(symbols, radix)
  {
    if symbols != [] {
      var front := symbols[..|symbols| - 1];
      ValueIsBigEndianReversed(front, radix);
      assert Reverse<int>(symbols)[1..] == Reverse<int>(front);
    }
  }

  lemma {:induction false} BigEndianLeadingZeros(zeros: nat, symbols: Digits, radix: Radix)
    ensures BigEndian(Repeat<int>(0, zeros) + symbols, radix) == BigEndian(symbols, radix)
    decreases zeros + |symbols|
  {
    var all := Repeat<int>(0, zeros) + symbols;
    if symbols != [] {
      BigEndianLeadingZeros(zeros, symbols[..|symbols| - 1], radix);
      assert all[..|all| - 1] == Repeat<int>(0, zeros) + symbols[..|symbols| - 1];
    } else if zeros > 0 {
      BigEndianLeadingZeros(zeros - 1, symbols, radix);
      assert all[..|all| - 1] == Repeat<int>(0, zeros - 1) + symbols;
    }
  }

  /** A digit vector without leading zeros is determined by its value. */
  lemma {:induction false} CanonicalIsUnique(digits: Digits, radix: Radix)
    requires Canonical(digits, radix)
    ensures digits == DigitsOf(Value(digits, radix), radix)
    ensures digits[|digits| - 1] != 0 ==> Value(digits, radix) > 0
  {
    if |digits| > 1 {
      CanonicalIsUnique(digits[1..], radix);
    } else {
      assert digits[1..] == [];
    }
  }

  lemma {:induction false} DigitsOfCanonical(n: nat, radix: Radix)
    ensures Canonical(DigitsOf(n, radix), radix) && Value(DigitsOf(n, radix), radix) == n
    ensures n > 0 ==> DigitsOf(n, radix)[|DigitsOf(n, radix)| - 1] != 0
  {
    var ds := DigitsOf(n, radix);
    if n < radix.Size() {
      assert ds[1..] == [];
    } else {
      DigitsOfCanonical(radix.Quot(n), radix);
      assert ds[1..] == DigitsOf(radix.Quot(n), radix);
    }
  }

  // ---------- the in-place multiply-and-add ----------

  function Push(carry: nat, radix: Radix): Digits {
    if carry == 0 then [] else [radix.Rem(carry)] + Push(radix.Quot(carry), radix)
  }

  /** Digit vector (in `radix`) after multiplying by the other radix and adding `carry`. */
  function Scaled(digits: Digits, carry: nat, radix: Radix): Digits
    requires InRadix(digits, radix)
  {
    if digits == [] then Push(carry, radix)
    else
      var c := carry + radix.Other().Scale(digits[0]);
      [radix.Rem(c)] + Scaled(digits[1..], radix.Quot(c), radix)
  }

  lemma {:induction false} PushValue(carry: nat, radix: Radix)
    ensures InRadix(Push(carry, radix), radix) && Value(Push(carry, radix), radix) == carry
    ensures carry > 0 ==> Push(carry, radix) != [] && Push(carry, radix)[|Push(carry, radix)| - 1] != 0
  {
    if carry != 0 {
      PushValue(radix.Quot(carry), radix);
      assert Push(carry, radix)[1..] == Push(radix.Quot(carry), radix);
    }
  }

  lemma {:induction false} ScaledValue(digits: Digits, carry: nat, radix: Radix)
    requires InRadix(digits, radix)
    ensures InRadix(Scaled(digits, carry, radix), radix)
    ensures Value(Scaled(digits, carry, radix), radix) == radix.Other().Scale(Value(digits, radix)) + carry
  {
    if digits == [] {
      PushValue(carry, radix);
    } else {
      var c := carry + radix.Other().Scale(digits[0]);
      ScaledValue(digits[1..], radix.Quot(c), radix);
      assert Scaled(digits, carry, radix)[1..] == Scaled(digits[1..], radix.Quot(c), radix);
    }
  }

  lemma {:induction false} ScaledTop(digits: Digits, carry: nat, radix: Radix)
    requires InRadix(digits, radix) && digits != [] && (digits[|digits| - 1] != 0 || |digits| == 1)
    ensures var s := Scaled(digits, carry, radix);
            |s| >= 1 && (|s| > 1 ==> s[|s| - 1] != 0)
    ensures |digits| > 1 ==> |Scaled(digits, carry, radix)| > 1
  {
    var c := carry + radix.Other().Scale(digits[0]);
    var rest := Scaled(digits[1..], radix.Quot(c), radix);
    assert Scaled(digits, carry, radix) == [radix.Rem(c)] + rest;
    if |digits| > 1 {
      ScaledTopNonzero(digits[1..], radix.Quot(c), radix);
    } else {
      assert digits[1..] == [] && rest == Push(radix.Quot(c), radix);
      PushValue(radix.Quot(c), radix);
    }
    hide Scaled, Push;
  }

  lemma {:induction false} ScaledTopNonzero(digits: Digits, carry: nat, radix: Radix)
    requires InRadix(digits, radix) && digits != [] && digits[|digits| - 1] != 0
    ensures var s := Scaled(digits, carry, radix); |s| >= 1 && s[|s| - 1] != 0
  {
    var c := carry + radix.Other().Scale(digits[0]);
    if |digits| > 1 {
      ScaledTopNonzero(digits[1..], radix.Quot(c), radix);
    } else {
      assert digits[1..] == [];
      PushValue(radix.Quot(c), radix);
    }
  }

  lemma ScaledUnfold(digits: Digits, i: nat, carry: nat, radix: Radix)
    requires InRadix(digits, radix) && i < |digits| && carry < radix.Other().Size()
    ensures var c := carry + radix.Other().Scale(digits[i]);
            && radix.Quot(c) < radix.Other().Size()
            && Scaled(digits[i..], carry, radix)
               == [radix.Rem(c)] + Scaled(digits[i + 1..], radix.Quot(c), radix)
  {
    assert digits[i..][1..] == digits[i + 1..];
  }

  /** One multiply-and-add keeps the vector canonical and has the intended value. */
  lemma ScaledMeaning(digits: Digits, add: nat, radix: Radix)
    requires Canonical(digits, radix)
    ensures Canonical(Scaled(digits, add, radix), radix)
    ensures Value(Scaled(digits, add, radix), radix) == radix.Other().Scale(Value(digits, radix)) + add
  {
    ScaledValue(digits, add, radix);
    ScaledTop(digits, add, radix);
  }

  /**
    One input symbol: every digit is multiplied in place and the carry is pushed on, as both
    `base58_encode` (times 256 in base 58) and `base58_decode` (times 58 in base 256) do.
   */
  method MultiplyAdd(digits: Digits, add: nat, radix: Radix, poll: nat -> bool, work0: nat)
    returns (ok: bool, out: Digits, work: nat)
    requires add < radix.Other().Size() && InRadix(digits, radix)
    ensures ok ==> out == Scaled(digits, add, radix)
    ensures NeverCancels(poll) ==> ok
  {
    work := work0;
    out := [];
    var carry: nat := add;
    var i := 0;
    ghost var goal := Scaled(digits, add, radix);
    while i < |digits|
      invariant 0 <= i <= |digits|
      invariant carry < radix.Other().Size()  // so the C `int` never overflows
      invariant out + Scaled(digits[i..], carry, radix) == goal
    {
      if Cancelled(poll, work) { return false, [], work; }
      work := work + 1;
      var c := carry + radix.Other().Scale(digits[i]);
      ScaledUnfold(digits, i, carry, radix);
      out := out + [radix.Rem(c)];
      carry := radix.Quot(c);
      i := i + 1;
    }
    out := PushCarry(out, carry, radix);
    ok := true;
  }

  method PushCarry(digits: Digits, carry0: nat, radix: Radix) returns (out: Digits)
    ensures out == digits + Push(carry0, radix)
  {
    out := digits;
    var carry: nat := carry0;
    while carry != 0
      invariant out + Push(carry, radix) == digits + Push(carry0, radix)
      decreases carry
    {
      out := out + [radix.Rem(carry)];
      carry := radix.Quot(carry);
    }
  }

  // ---------- the codec ----------

  /** `alphabet[d]`, written as its six runs 1-9, A-H, J-N, P-Z, a-k and m-z. */
  function Symbol(d: nat): (b: byte)
    requires d < 58
    ensures !IsSpace(b) && (b == ONE <==> d == 0)
  {
    if d < 9 then 49 + d
    else if d < 17 then 65 + (d - 9)
    else if d < 22 then 74 + (d - 17)
    else if d < 33 then 80 + (d - 22)
    else if d < 44 then 97 + (d - 33)
    else 109 + (d - 44)
  }

  const ONE: byte := 49

  /** `std::find` over the alphabet: index of the first occurrence, or none. */
  function DigitFrom(b: byte, from: nat): (r: Option<nat>)
    requires from <= 58
    ensures r.Some? ==> from <= r.value < 58 && Symbol(r.value) == b
    ensures r.None? ==> forall i :: from <= i < 58 ==> Symbol(i) != b
    decreases 58 - from
  {
    if from == 58 then None
    else if Symbol(from) == b then Some(from)
    else DigitFrom(b, from + 1)
  }

  function Digit(b: byte): (r: Option<nat>)
    ensures r.Some? ==> r.value < 58 && Symbol(r.value) == b
  {
    DigitFrom(b, 0)
  }

  lemma DigitOfSymbol(d: nat)
    requires d < 58
    ensures Digit(Symbol(d)) == Some(d)
  {
    SymbolsDistinct(Digit(Symbol(d)).value, d);
  }

  lemma SymbolsDistinct(d: nat, e: nat)
    requires d < 58 && e < 58 && Symbol(d) == Symbol(e)
    ensures d == e
  {
  }

  /** The symbols of a text, whitespace skipped; none when a symbol is not in the alphabet. */
  function Symbols(text: seq<byte>): (r: Option<Digits>)
    ensures r.Some? ==> InRadix(r.value, R58)
  {
    if text == [] then Some([])
    else
      var front := Symbols(text[..|text| - 1]);
      var last := text[|text| - 1];
      if IsSpace(last) then front
      else if front.None? || Digit(last).None? then None
      else Some(front.value + [Digit(last).value])
  }

  function LeadingZeros(input: seq<byte>): (n: nat)
    ensures n <= |input|
    ensures forall i :: 0 <= i < n ==> input[i] == 0
    ensures n < |input| ==> input[n] != 0
  {
    if input == [] || input[0] != 0 then 0 else 1 + LeadingZeros(input[1..])
  }

  /** How many `1` symbols come first, whitespace skipped. */
  function LeadingOnes(text: seq<byte>): nat {
    if text == [] then 0
    else if text[0] == ONE then 1 + LeadingOnes(text[1..])
    else if IsSpace(text[0]) then LeadingOnes(text[1..])
    else 0
  }

  function Spell(digits: Digits): (text: seq<byte>)
    requires InRadix(digits, R58)
    ensures |text| == |digits| && forall i :: 0 <= i < |text| ==> text[i] == Symbol(digits[i])
  {
    seq(|digits|, i requires 0 <= i < |digits| => Symbol(digits[i]))
  }

  /** Base58 text of a byte string: its value in base 58 after one `1` per leading zero byte. */
  function Text(input: seq<byte>): seq<byte> {
    DigitsOfCanonical(BigEndian(input, R256), R58);
    Repeat<int>(ONE, LeadingZeros(input)) + Spell(Reverse<int>(DigitsOf(BigEndian(input, R256), R58)))
  }

  function Encoded(input: seq<byte>): Option<seq<byte>> {
    if |input| > MAX_INPUT_BYTES then None else Some(Text(input))
  }

  function Bytes(digits: Digits): (bytes: seq<byte>)
    requires InRadix(digits, R256)
    ensures bytes == digits
  {
    seq(|digits|, i requires 0 <= i < |digits| => digits[i])
  }

  function Decoded(text: seq<byte>): Option<seq<byte>> {
    if |text| > MAX_INPUT_BYTES || Symbols(text).None? then None
    else
      var n := BigEndian(Symbols(text).value, R58);
      DigitsOfCanonical(n, R256);
      Some(Repeat<int>(0, LeadingOnes(text)) + Bytes(Reverse<int>(DigitsOf(n, R256))))
  }

  method Encode(input: seq<byte>, poll: nat -> bool) returns (r: Option<seq<byte>>)
    ensures r.Some? ==> r == Encoded(input)
    ensures NeverCancels(poll) ==> r == Encoded(input)
  {
    hide Symbol, BigEndian, DigitsOf, LeadingZeros;
    if |input| > MAX_INPUT_BYTES { return None; }
    var ok, digits, work := ConvertBytes(input, poll);
    if !ok { return None; }
    var out;
    ok, out, work := EmitLeadingZeros(input, poll, work);
    if !ok { return None; }
    ghost var ones := out;
    for j := 0 to |digits|
      invariant out == ones + Spell(Reverse<int>(digits))[..j]
    {
      if Cancelled(poll, work) { return None; }
      work := work + 1;
      out := out + [Symbol(digits[|digits| - 1 - j])];
    }
    assert out == ones + Spell(Reverse<int>(digits));
    r := Some(out);
  }

  /** The first loop of `base58_encode`: the digit vector denotes the consumed prefix. */
  method ConvertBytes(input: seq<byte>, poll: nat -> bool) returns (ok: bool, digits: Digits, work: nat)
    ensures ok ==> InRadix(digits, R58) && digits == DigitsOf(BigEndian(input, R256), R58)
    ensures NeverCancels(poll) ==> ok
  {
    digits, work := [0], 0;
    assert Value(digits, R58) == 0 by { assert digits[1..] == []; }
    for i := 0 to |input|
      invariant Canonical(digits, R58) && Value(digits, R58) == BigEndian(input[..i], R256)
    {
      if Cancelled(poll, work) { return false, [], work; }
      ScaledMeaning(digits, input[i], R58);
      assert input[..i + 1][..i] == input[..i];
      ok, digits, work := MultiplyAdd(digits, input[i], R58, poll, work + 1);
      if !ok { return; }
    }
    assert input[..|input|] == input;
    CanonicalIsUnique(digits, R58);
    ok := true;
  }

  method EmitLeadingZeros(input: seq<byte>, poll: nat -> bool, work0: nat)
    returns (ok: bool, out: seq<byte>, work: nat)
    ensures ok ==> out == Repeat<int>(ONE, LeadingZeros(input))
    ensures NeverCancels(poll) ==> ok
  {
    out, work := [], work0;
    var k := 0;
    while k < |input| && input[k] == 0
      invariant 0 <= k <= |input| && out == Repeat<int>(ONE, k)
      invariant k + LeadingZeros(input[k..]) == LeadingZeros(input)
    {
      if Cancelled(poll, work) { return false, [], work; }
      work := work + 1;
      out := out + [ONE];
      assert input[k..][1..] == input[k + 1..];
      k := k + 1;
    }
    ok := true;
  }

  method Decode(text: seq<byte>, poll: nat -> bool) returns (r: Option<seq<byte>>)
    ensures r.Some? ==> r == Decoded(text)
    ensures NeverCancels(poll) ==> r == Decoded(text)
  {
    hide Symbols, BigEndian, DigitsOf, LeadingOnes;
    if |text| > MAX_INPUT_BYTES { return None; }
    var ok, bytes, work := ConvertSymbols(text, poll);
    if !ok { return None; }
    var out;
    ok, out, work := EmitLeadingOnes(text, poll, work);
    if !ok { return None; }
    ghost var zeros := out;
    for j := 0 to |bytes|
      invariant out == zeros + Bytes(Reverse<int>(bytes))[..j]
    {
      if Cancelled(poll, work) { return None; }
      work := work + 1;
      out := out + [bytes[|bytes| - 1 - j]];
    }
    assert out == zeros + Bytes(Reverse<int>(bytes));
    r := Some(out);
  }

  /** The first loop of `base58_decode`; it also fails on a symbol outside the alphabet. */
  method ConvertSymbols(text: seq<byte>, poll: nat -> bool) returns (ok: bool, bytes: Digits, work: nat)
    ensures ok ==> Symbols(text).Some? && InRadix(bytes, R256)
    ensures ok ==> bytes == DigitsOf(BigEndian(Symbols(text).value, R58), R256)
    ensures NeverCancels(poll) ==> ok == Symbols(text).Some?
  {
    bytes, work := [0], 0;
    assert Value(bytes, R256) == 0 by { assert bytes[1..] == []; }
    for i := 0 to |text|
      invariant Canonical(bytes, R256) && Symbols(text[..i]).Some?
      invariant Value(bytes, R256) == BigEndian(Symbols(text[..i]).value, R58)
    {
      if Cancelled(poll, work) { return false, [], work; }
      work := work + 1;
      ghost var before := Symbols(text[..i]).value;
      assert text[..i + 1][..i] == text[..i];
      if IsSpace(text[i]) { continue; }
      var d := Digit(text[i]);
      if d.None? {
        NoSymbols(text, i + 1);
        return false, [], work;
      }
      ScaledMeaning(bytes, d.value, R256);
      assert (before + [d.value])[..|before|] == before;
      ok, bytes, work := MultiplyAdd(bytes, d.value, R256, poll, work);
      if !ok { return; }
    }
    assert text[..|text|] == text;
    CanonicalIsUnique(bytes, R256);
    ok := true;
  }

  method EmitLeadingOnes(text: seq<byte>, poll: nat -> bool, work0: nat)
    returns (ok: bool, out: seq<byte>, work: nat)
    ensures ok ==> out == Repeat<int>(0, LeadingOnes(text))
    ensures NeverCancels(poll) ==> ok
  {
    out, work := [], work0;
    var k := 0;
    while k < |text| && (text[k] == ONE || IsSpace(text[k]))
      invariant 0 <= k <= |text| && out == Repeat<int>(0, |out|)
      invariant |out| + LeadingOnes(text[k..]) == LeadingOnes(text)
    {
      if Cancelled(poll, work) { return false, [], work; }
      work := work + 1;
      if text[k] == ONE { out := out + [0]; }
      assert text[k..][1..] == text[k + 1..];
      k := k + 1;
    }
    ok := true;
  }

  lemma {:induction false} NoSymbols(text: seq<byte>, n: nat)
    requires n <= |text| && Symbols(text[..n]).None?
    ensures Symbols(text).None?
    decreases |text| - n
  {
    if n < |text| {
      assert text[..n + 1][..n] == text[..n];
      NoSymbols(text, n + 1);
    } else {
      assert text[..n] == text;
    }
  }

  // ---------- what decoding an encoding gives ----------

  predicate AllZero(input: seq<byte>) {
    forall i :: 0 <= i < |input| ==> input[i] == 0
  }

  lemma {:induction false} SymbolsOfSpelling(digits: Digits)
    requires InRadix(digits, R58)
    ensures Symbols(Spell(digits)) == Some(digits)
  {
    if digits != [] {
      var front, last := digits[..|digits| - 1], digits[|digits| - 1];
      SymbolsOfSpelling(front);
      DigitOfSymbol(last);
      assert Spell(digits)[..|digits| - 1] == Spell(front);
      assert digits == front + [last];
    }
  }

  lemma SpellAfterZeros(zeros: nat, digits: Digits)
    requires InRadix(digits, R58)
    ensures Repeat<int>(ONE, zeros) + Spell(digits) == Spell(Repeat<int>(0, zeros) + digits)
  {
  }

  lemma {:induction false} CountOnes(ones: nat, rest: seq<byte>)
    requires rest == [] || (rest[0] != ONE && !IsSpace(rest[0]))
    ensures LeadingOnes(Repeat<int>(ONE, ones) + rest) == ones
  {
    var text := Repeat<int>(ONE, ones) + rest;
    if ones > 0 {
      CountOnes(ones - 1, rest);
      assert text[1..] == Repeat<int>(ONE, ones - 1) + rest;
    } else {
      assert text == rest;
    }
  }

  /** A text of zeros and then digits of `n` denotes `n`. */
  lemma SymbolsOfText(zeros: nat, n: nat)
    ensures var ds := DigitsOf(n, R58);
            && InRadix(ds, R58)
            && Symbols(Repeat<int>(ONE, zeros) + Spell(Reverse<int>(ds)))
               == Some(Repeat<int>(0, zeros) + Reverse<int>(ds))
            && BigEndian(Repeat<int>(0, zeros) + Reverse<int>(ds), R58) == n
  {
    var ds := DigitsOf(n, R58);
    DigitsOfCanonical(n, R58);
    SpellAfterZeros(zeros, Reverse<int>(ds));
    SymbolsOfSpelling(Repeat<int>(0, zeros) + Reverse<int>(ds));
    BigEndianLeadingZeros(zeros, Reverse<int>(ds), R58);
    ValueIsBigEndianReversed(Reverse<int>(ds), R58);
    ReverseTwice(ds);
  }

  /** Leading `1`s count the zeros exactly, unless there is nothing else to count. */
  lemma OnesOfText(zeros: nat, n: nat)
    ensures var ds := DigitsOf(n, R58);
            && InRadix(ds, R58)
            && LeadingOnes(Repeat<int>(ONE, zeros) + Spell(Reverse<int>(ds))) == if n == 0 then zeros + 1 else zeros
  {
    var ds := DigitsOf(n, R58);
    DigitsOfCanonical(n, R58);
    if n == 0 {
      assert Repeat<int>(ONE, zeros) + Spell(Reverse<int>(ds)) == Repeat<int>(ONE, zeros + 1) + [];
      CountOnes(zeros + 1, []);
    } else {
      CountOnes(zeros, Spell(Reverse<int>(ds)));
    }
  }

  lemma {:induction false} ValueOfZeros(input: seq<byte>)
    requires AllZero(input)
    ensures LeadingZeros(input) == |input| && BigEndian(input, R256) == 0
  {
    if input != [] {
      ValueOfZeros(input[..|input| - 1]);
      assert input[|input| - 1] == 0;
    }
  }

  /** The bytes after the leading zeros are the base-256 digits of the value. */
  lemma ValueOfBytes(input: seq<byte>)
    requires !AllZero(input)
    ensures BigEndian(input, R256) > 0
    ensures Reverse<int>(DigitsOf(BigEndian(input, R256), R256)) == input[LeadingZeros(input)..]
  {
    var z := LeadingZeros(input);
    SplitZeros(input);
    BigEndianLeadingZeros(z, input[z..], R256);
    ValueOfNonzero(input[z..]);
  }

  lemma ValueOfNonzero(symbols: Digits)
    requires InRadix(symbols, R256) && symbols != [] && symbols[0] != 0
    ensures BigEndian(symbols, R256) > 0
    ensures Reverse<int>(DigitsOf(BigEndian(symbols, R256), R256)) == symbols
  {
    ValueIsBigEndianReversed(symbols, R256);
    CanonicalIsUnique(Reverse<int>(symbols), R256);
    ReverseTwice(symbols);
  }

  lemma SplitZeros(input: seq<byte>)
    requires !AllZero(input)
    ensures LeadingZeros(input) < |input|
    ensures input == Repeat<int>(0, LeadingZeros(input)) + input[LeadingZeros(input)..]
  {
    hide LeadingZeros;
    var z := LeadingZeros(input);
    var zeros: seq<int> := input[..z];
    assert zeros == Repeat<int>(0, z);
    assert input == input[..z] + input[z..];
  }

  lemma DecodedOfText(zeros: nat, n: nat)
    ensures var ds, bs := DigitsOf(n, R58), DigitsOf(n, R256);
            && InRadix(ds, R58) && InRadix(bs, R256)
            && var text := Repeat<int>(ONE, zeros) + Spell(Reverse<int>(ds));
            && Decoded(text) == if |text| > MAX_INPUT_BYTES then None
                                else Some(Repeat<int>(0, if n == 0 then zeros + 1 else zeros) + Bytes(Reverse<int>(bs)))
  {
    SymbolsOfText(zeros, n);
    OnesOfText(zeros, n);
    DigitsOfCanonical(n, R256);
  }

  /**
    Decoding the text of any byte string. The round trip is exact when some byte is nonzero;
    n zero bytes come back as n + 2, because both loops start from a one-digit zero.
   */
  lemma DecodeText(input: seq<byte>)
    ensures Decoded(Text(input)) ==
            if |Text(input)| > MAX_INPUT_BYTES then None
            else if AllZero(input) then Some(Repeat<int>(0, |input| + 2))
            else Some(input)
  {
    DecodedOfText(LeadingZeros(input), BigEndian(input, R256));
    if AllZero(input) {
      ValueOfZeros(input);
      assert Repeat<int>(0, |input| + 1) + Bytes(Reverse<int>([0])) == Repeat<int>(0, |input| + 2);
    } else {
      ValueOfBytes(input);
      SplitZeros(input);
    }
  }

  /** Encoding then decoding returns the input exactly under the caps and with a nonzero byte. */
  lemma RoundTripExactly(input: seq<byte>)
    ensures (Encoded(input).Some? && Decoded(Encoded(input).value) == Some(input))
            <==> (|input| <= MAX_INPUT_BYTES && |Text(input)| <= MAX_INPUT_BYTES && !AllZero(input))
  {
    DecodeText(input);
  }
}
