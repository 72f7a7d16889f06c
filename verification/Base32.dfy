/**
  Base32, standard and Crockford (plugins/src/text_codecs.cpp). Both directions slide bits through
  a 32-bit buffer that is never cleared and so keeps overflowing; the reference is the bit
  string of section 6 of RFC 4648.
 */
module Base32 {
  import opened Common
  import opened Bits

  const PAD: byte := 61

  // ---------- alphabets ----------

  /** The standard alphabet A-Z 2-7; Crockford's is 0-9 A-H J K M N P-T V-Z. */
  function Symbol(v: int, crockford: bool): (b: byte)
    requires 0 <= v < 32
    ensures !IsSpace(b) && b != PAD
  {
    if !crockford then if v < 26 then 65 + v else 50 + (v - 26)
    else if v < 10 then 48 + v
    else if v < 18 then 65 + (v - 10)
    else if v < 20 then 74 + (v - 18)
    else if v < 22 then 77 + (v - 20)
    else if v < 27 then 80 + (v - 22)
    else 86 + (v - 27)
  }

  function Upper(b: byte): byte {
    if 97 <= b <= 122 then b - 32 else b
  }

  /** `std::find` over the Crockford alphabet. */
  function FindFrom(b: byte, from: int): (r: Option<int>)
    requires 0 <= from <= 32
    ensures r.Some? ==> from <= r.value < 32 && Symbol(r.value, true) == b
    ensures r.None? ==> forall v :: from <= v < 32 ==> Symbol(v, true) != b
    decreases 32 - from
  {
    if from == 32 then None
    else if Symbol(from, true) == b then Some(from)
    else FindFrom(b, from + 1)
  }

  /** `base32_value`: case is ignored, and Crockford reads O as 0 and I or L as 1. */
  function SymbolValue(b: byte, crockford: bool): (r: Option<int>)
    ensures r.Some? ==> 0 <= r.value < 32
  {
    var u := Upper(b);
    if crockford then
      if u == 79 then Some(0) else if u == 73 || u == 76 then Some(1) else FindFrom(u, 0)
    else if 65 <= u <= 90 then Some(u - 65)
    else if 50 <= u <= 55 then Some(u - 50 + 26)
    else None
  }

  lemma SymbolValueOfSymbol(v: int, crockford: bool)
    requires 0 <= v < 32
    ensures SymbolValue(Symbol(v, crockford), crockford) == Some(v)
  {
  }

  // ---------- reference ----------

  predicate AreQuintets(values: seq<int>) {
    forall i :: 0 <= i < |values| ==> 0 <= values[i] < 32
  }

  function Spell(values: seq<int>, crockford: bool): (text: seq<byte>)
    requires AreQuintets(values)
    ensures |text| == |values| && forall i :: 0 <= i < |text| ==> text[i] == Symbol(values[i], crockford)
  {
    seq(|values|, i requires 0 <= i < |values| => Symbol(values[i], crockford))
  }

  /** The input's bits in groups of five, the last one filled with zeros. */
  function Quintets(bits: seq<bool>): (values: seq<int>)
    ensures AreQuintets(values)
  {
    QuintetsInRange(bits);
    Filled(bits, 5)
  }

  lemma {:induction false} QuintetsInRange(bits: seq<bool>)
    ensures AreQuintets(Filled(bits, 5))
  {
    if bits != [] {
      var first := if |bits| < 5 then bits + Repeat(false, 5 - |bits|) else bits[..5];
      BitsOfNumber(first);
      NumberOfFive(Number(first));
      if |bits| >= 5 {
        QuintetsInRange(bits[5..]);
      }
    }
  }

  function Encoded(input: seq<byte>, crockford: bool): seq<byte> {
    var text := Spell(Quintets(Concat(input, 8)), crockford);
    if crockford then text else text + Repeat<byte>(PAD, (8 - |text| % 8) % 8)
  }

  /** The values of the symbols, spaces and padding skipped; none when a symbol has no value. */
  function Values(text: seq<byte>, crockford: bool): Option<seq<int>> {
    if text == [] then Some([])
    else
      var rest := Values(text[1..], crockford);
      if IsSpace(text[0]) || text[0] == PAD then rest
      else if rest.None? || SymbolValue(text[0], crockford).None? then None
      else Some([SymbolValue(text[0], crockford).value] + rest.value)
  }

  function Bytes(bits: seq<bool>): (bytes: seq<byte>) {
    BytesInRange(bits);
    Whole(bits, 8)
  }

  lemma {:induction false} BytesInRange(bits: seq<bool>)
    ensures forall i :: 0 <= i < |Whole(bits, 8)| ==> 0 <= Whole(bits, 8)[i] < 256
  {
    if |bits| >= 8 {
      BitsOfNumber(bits[..8]);
      NumberOfEight(Number(bits[..8]));
      BytesInRange(bits[8..]);
    }
  }

  function Decoded(text: seq<byte>, crockford: bool): Option<seq<byte>> {
    var values := Values(text, crockford);
    if values.None? then None else Some(Bytes(Concat(values.value, 5)))
  }

  // ---------- the codec ----------

  /** The low bits of the buffer after a byte is shifted in: wrapping at 32 bits loses none of them. */
  lemma PushByte(buffer: int, live: nat, b: byte)
    requires 0 <= buffer && live <= 4
    ensures LowBits((buffer * 256) % TWO32 + b, live + 8) == LowBits(buffer, live) + LowBits(b, 8)
  {
    hide *;
    Shl8(buffer);
    Shl8(1);
    ShiftIn(buffer, b, live, 8);
    Truncated(buffer * 256, b, live + 8);
  }

  lemma PushQuintet(buffer: int, live: nat, v: int)
    requires 0 <= buffer && live <= 7 && 0 <= v < 32
    ensures LowBits((buffer * 32) % TWO32 + v, live + 5) == LowBits(buffer, live) + LowBits(v, 5)
  {
    hide *;
    Shl5(buffer);
    Shl5(1);
    ShiftIn(buffer, v, live, 5);
    Truncated(buffer * 32, v, live + 5);
  }

  /** `(buffer >> (live - 5)) & 0x1F` is the first quintet of the live bits. */
  lemma PopQuintet(buffer: int, live: nat, rest: seq<bool>)
    requires 5 <= live
    ensures Quintets(LowBits(buffer, live) + rest)
            == [Shr(buffer, live - 5) % 32] + Quintets(LowBits(buffer, live - 5) + rest)
  {
    hide LowBits, Shr, Number;
    var top := Shr(buffer, live - 5);
    var bits := LowBits(buffer, live) + rest;
    SplitLow(buffer, live, live - 5);
    NumberOfFive(top);
    assert bits[..5] == LowBits(top, 5);
    assert bits[5..] == LowBits(buffer, live - 5) + rest;
  }

  lemma PopByte(buffer: int, live: nat, rest: seq<bool>)
    requires 8 <= live
    ensures Bytes(LowBits(buffer, live) + rest)
            == [Shr(buffer, live - 8) % 256] + Bytes(LowBits(buffer, live - 8) + rest)
  {
    hide LowBits, Shr, Number;
    var top := Shr(buffer, live - 8);
    var bits := LowBits(buffer, live) + rest;
    SplitLow(buffer, live, live - 8);
    NumberOfEight(top);
    assert bits[..8] == LowBits(top, 8);
    assert bits[8..] == LowBits(buffer, live - 8) + rest;
  }

  /** `(buffer << (5 - live)) & 0x1F` is the last quintet, filled with zeros. */
  lemma LastQuintet(buffer: int, live: nat)
    requires 0 <= buffer && 0 < live < 5
    ensures Quintets(LowBits(buffer, live)) == [Shl(buffer, 5 - live) % TWO32 % 32]
  {
    hide LowBits, Shl, Number;
    var shifted := Shl(buffer, 5 - live);
    ShlPositive(5 - live);
    ShiftIn(buffer, 0, live, 5 - live);
    ZeroBits(5 - live);
    NumberOfFive(shifted);
    MaskTwice(shifted);
  }

  lemma MaskTwice(x: int)
    ensures x % TWO32 % 32 == x % 32
  {
  }

  lemma {:induction false} ShlPositive(n: nat)
    ensures Shl(1, n) > 0
  {
    if n > 0 { ShlPositive(n - 1); }
  }

  lemma {:induction false} ZeroBits(n: nat)
    ensures LowBits(0, n) == Repeat(false, n)
  {
    if n > 0 { ZeroBits(n - 1); }
  }

  lemma ConsumeByte(input: seq<byte>, i: nat, buffer: int, live: nat)
    requires i < |input| && 0 <= buffer && live <= 4
    ensures LowBits(buffer, live) + Concat(input[i..], 8)
            == LowBits((buffer * 256) % TWO32 + input[i], live + 8) + Concat(input[i + 1..], 8)
  {
    hide LowBits;
    assert input[i..][1..] == input[i + 1..];
    PushByte(buffer, live, input[i]);
    assert LowBits(buffer, live) + (LowBits(input[i], 8) + Concat(input[i + 1..], 8))
        == LowBits(buffer, live) + LowBits(input[i], 8) + Concat(input[i + 1..], 8);
  }

  lemma ConsumeQuintet(v: int, values: seq<int>, buffer: int, live: nat)
    requires 0 <= v < 32 && 0 <= buffer && live <= 7
    ensures LowBits(buffer, live) + Concat([v] + values, 5)
            == LowBits((buffer * 32) % TWO32 + v, live + 5) + Concat(values, 5)
  {
    hide LowBits;
    assert ([v] + values)[1..] == values;
    PushQuintet(buffer, live, v);
    assert LowBits(buffer, live) + (LowBits(v, 5) + Concat(values, 5))
        == LowBits(buffer, live) + LowBits(v, 5) + Concat(values, 5);
  }

  method Encode(input: seq<byte>, crockford: bool, poll: nat -> bool) returns (r: Option<seq<byte>>)
    ensures r.Some? ==> r.value == Encoded(input, crockford)
    ensures NeverCancels(poll) ==> r.Some?
  {
    hide Symbol, LowBits, Quintets, Concat, Shr, Shl, IsSpace;
    var out: seq<byte> := [];
    var buffer, bits: nat, work := 0, 0, 0;
    ghost var values: seq<int> := [];
    ghost var goal := Quintets(Concat(input, 8));
    NothingYet();
    assert input[0..] == input && [] + Concat(input, 8) == Concat(input, 8);
    for i := 0 to |input|
      invariant 0 <= buffer && bits < 5
      invariant AreQuintets(values) && out == Spell(values, crockford)
      invariant values + Quintets(LowBits(buffer, bits) + Concat(input[i..], 8)) == goal
    {
      if Cancelled(poll, work) { return None; }
      work := work + 1;
      ConsumeByte(input, i, buffer, bits);
      buffer := (buffer * 256) % TWO32 + input[i];
      bits := bits + 8;
      ghost var more;
      out, bits, more := Drain(out, buffer, bits, crockford, values, Concat(input[i + 1..], 8));
      values := values + more;
    }
    assert input[|input|..] == [] && LowBits(buffer, bits) + [] == LowBits(buffer, bits);
    if bits > 0 {
      LastQuintet(buffer, bits);
      var v := Shl(buffer, 5 - bits) % TWO32 % 32;
      values := values + [v];
      out := out + [Symbol(v, crockford)];
    } else {
      assert values + [] == values && LowBits(buffer, bits) == [];
    }
    assert out == Spell(goal, crockford) by { assert values == goal; }
    if !crockford {
      out := Padded(out);
    }
    r := Some(out);
  }

  lemma NothingYet()
    ensures LowBits(0, 0) == [] && Quintets([]) == [] && Concat([], 8) == [] && Concat([], 5) == []
  {
  }

  /** The inner loop of `base32_encode`: whole quintets leave the buffer. */
  method Drain(out0: seq<byte>, buffer: int, bits0: nat, crockford: bool,
               ghost before: seq<int>, ghost rest: seq<bool>)
    returns (out: seq<byte>, bits: nat, ghost more: seq<int>)
    requires bits0 <= 12  // at most twelve live bits
    requires AreQuintets(before) && out0 == Spell(before, crockford)
    ensures bits < 5 && AreQuintets(more) && out == Spell(before + more, crockford)
    ensures Quintets(LowBits(buffer, bits0) + rest) == more + Quintets(LowBits(buffer, bits) + rest)
  {
    hide Symbol, LowBits, Quintets, Shr;
    out, bits, more := out0, bits0, [];
    assert before + [] == before;
    while bits >= 5
      invariant AreQuintets(more) && out == Spell(before + more, crockford)
      invariant Quintets(LowBits(buffer, bits0) + rest) == more + Quintets(LowBits(buffer, bits) + rest)
    {
      PopQuintet(buffer, bits, rest);
      var v := Shr(buffer, bits - 5) % 32;
      assert before + (more + [v]) == before + more + [v];
      more := more + [v];
      out := out + [Symbol(v, crockford)];
      bits := bits - 5;
    }
  }

  /** The padding loop of the standard alphabet. */
  method Padded(text: seq<byte>) returns (out: seq<byte>)
    ensures out == text + Repeat<byte>(PAD, (8 - |text| % 8) % 8)
  {
    out := text;
    while |out| % 8 != 0
      invariant |text| <= |out| <= |text| + (8 - |text| % 8) % 8
      invariant out == text + Repeat<byte>(PAD, |out| - |text|)
      decreases |text| + 8 - |out|
    {
      out := out + [PAD];
    }
  }

  method Decode(text: seq<byte>, crockford: bool, poll: nat -> bool) returns (r: Option<seq<byte>>)
    ensures r.Some? ==> r == Decoded(text, crockford)
    ensures NeverCancels(poll) ==> r == Decoded(text, crockford)
  {
    hide SymbolValue, LowBits, Bytes, Concat, Shr, IsSpace;
    var out: seq<byte> := [];
    var buffer, bits: nat, work := 0, 0, 0;
    ghost var values := Values(text, crockford);
    assert text[0..] == text;
    NothingYet();
    assert values.Some? ==> [] + Concat(values.value, 5) == Concat(values.value, 5);
    for i := 0 to |text|
      invariant 0 <= buffer && bits < 8
      invariant values.Some? <==> Values(text[i..], crockford).Some?
      invariant values.Some? ==>
                  out + Bytes(LowBits(buffer, bits) + Concat(Values(text[i..], crockford).value, 5))
                  == Bytes(Concat(values.value, 5))
    {
      if Cancelled(poll, work) { return None; }
      work := work + 1;
      assert text[i..][1..] == text[i + 1..];
      if IsSpace(text[i]) || text[i] == PAD { continue; }
      var value := SymbolValue(text[i], crockford);
      if value.None? { return None; }
      var v := value.value;
      ghost var rest := Values(text[i + 1..], crockford);
      ghost var later := if rest.Some? then rest.value else [];
      ConsumeQuintet(v, later, buffer, bits);
      buffer := (buffer * 32) % TWO32 + v;
      bits := bits + 5;
      if bits >= 8 {
        PopByte(buffer, bits, Concat(later, 5));
        out := out + [Shr(buffer, bits - 8) % 256];
        bits := bits - 8;
      }
    }
    FewBits(buffer, bits);
    assert LowBits(buffer, bits) + [] == LowBits(buffer, bits);
    assert out + [] == out;
    r := Some(out);
  }

  lemma FewBits(buffer: int, bits: nat)
    requires bits < 8
    ensures Bytes(LowBits(buffer, bits)) == []
  {
  }

  // ---------- round trip ----------

  lemma {:induction false} ValuesOfSpelling(values: seq<int>, pads: nat, crockford: bool)
    requires AreQuintets(values)
    ensures Values(Spell(values, crockford) + Repeat<byte>(PAD, pads), crockford) == Some(values)
    decreases |values|, pads
  {
    hide Symbol, SymbolValue, IsSpace;
    var text := Spell(values, crockford) + Repeat<byte>(PAD, pads);
    if values != [] {
      ValuesOfSpelling(values[1..], pads, crockford);
      SymbolValueOfSymbol(values[0], crockford);
      assert text[1..] == Spell(values[1..], crockford) + Repeat<byte>(PAD, pads);
      assert values == [values[0]] + values[1..];
    } else if pads > 0 {
      ValuesOfSpelling(values, pads - 1, crockford);
      assert text[1..] == Spell(values, crockford) + Repeat<byte>(PAD, pads - 1);
    }
  }

  /** Either alphabet, any input: exactly the encoded bytes come back, no more and no fewer. */
  lemma RoundTrip(input: seq<byte>, crockford: bool)
    ensures Decoded(Encoded(input, crockford), crockford) == Some(input)
  {
    hide Concat, Filled, Whole, Values;
    var bits := Concat(input, 8);
    var values := Quintets(bits);
    var text := Spell(values, crockford);
    ValuesOfSpelling(values, if crockford then 0 else (8 - |text| % 8) % 8, crockford);
    assert text + Repeat<byte>(PAD, 0) == text;
    ConcatFilled(bits, 5);
    var pad: nat :| pad < 5 && Concat(Filled(bits, 5), 5) == bits + Repeat(false, pad);
    WholeConcat(input, Repeat(false, pad));
  }
}
