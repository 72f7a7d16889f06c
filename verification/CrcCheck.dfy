/**
  The check values of the CRC models: what plugins/tests/transform_plugin_tests.cpp expects for the nine
  digits. The register is followed as a number, bit i of which is bit i of the word.
 */
module CrcCheck {
  import opened Common
  import opened Crc

  // ---------- bits of numbers ----------

  function Both(a: bv64, b: bv64): bv64 { a & b }

  function Either(a: bv64, b: bv64): bv64 { a ^ b }

  function Double(v: bv64): bv64 { v << 1 }

  function Nibble(v: bv64): bv64 { v >> 4 }

  function Drop(v: bv64): bv64 { v >> 8 }

  lemma LowBit(a: bv64, b: bv64)
    ensures Odd(Either(a, b)) == (Odd(a) != Odd(b)) && Odd(Both(a, b)) == (Odd(a) && Odd(b))
  {
  }

  lemma OtherBits(a: bv64, b: bv64)
    ensures Half(Either(a, b)) == Either(Half(a), Half(b)) && Half(Both(a, b)) == Both(Half(a), Half(b))
  {
  }

  /** Bitwise operations work bit by bit. */
  lemma {:induction false} BitWise(a: bv64, b: bv64, i: nat)
    ensures Bit(Either(a, b), i) == (Bit(a, i) != Bit(b, i)) && Bit(Both(a, b), i) == (Bit(a, i) && Bit(b, i))
    decreases i
  {
    hide Odd, Half, Either, Both;
    if i == 0 {
      LowBit(a, b);
    } else {
      OtherBits(a, b);
      BitWise(Half(a), Half(b), i - 1);
    }
  }

  lemma BitDouble(v: bv64, i: nat)
    requires v <= 0xFFFF_FFFF
    ensures Bit(Double(v), i) == (i > 0 && Bit(v, i - 1))
  {
    assert Half(Double(v)) == v && !Odd(Double(v));
  }

  lemma {:induction false} ZeroBits(i: nat)
    ensures !Bit(0, i)
    decreases i
  {
    if i > 0 { ZeroBits(i - 1); }
  }

  /** The eight low bits. */
  lemma Low8(v: bv64)
    ensures Bit(v, 0) == (v & 0x01 != 0) && Bit(v, 1) == (v & 0x02 != 0)
    ensures Bit(v, 2) == (v & 0x04 != 0) && Bit(v, 3) == (v & 0x08 != 0)
    ensures Bit(v, 4) == (v & 0x10 != 0) && Bit(v, 5) == (v & 0x20 != 0)
    ensures Bit(v, 6) == (v & 0x40 != 0) && Bit(v, 7) == (v & 0x80 != 0)
  {
    hide Bit;
    Low4(v);
    Skip4(v, 0);
    Skip4(v, 1);
    Skip4(v, 2);
    Skip4(v, 3);
    Low4(Nibble(v));
  }

  lemma Low4(v: bv64)
    ensures Bit(v, 0) == (v & 1 != 0) && Bit(v, 1) == (v & 2 != 0)
    ensures Bit(v, 2) == (v & 4 != 0) && Bit(v, 3) == (v & 8 != 0)
  {
    assert Bit(v, 1) == Odd(Half(v));
    assert Bit(v, 2) == Bit(Half(v), 1) == Odd(Half(Half(v)));
    assert Bit(v, 3) == Bit(Half(v), 2) == Bit(Half(Half(v)), 1) == Odd(Half(Half(Half(v))));
  }

  lemma FourHalves(v: bv64)
    ensures Half(Half(Half(Half(v)))) == Nibble(v)
  {
  }

  lemma Skip4(v: bv64, i: nat)
    ensures Bit(v, i + 4) == Bit(Nibble(v), i)
  {
    hide Half, Odd, Nibble;
    FourHalves(v);
    assert Bit(v, i + 4) == Bit(Half(v), i + 3) == Bit(Half(Half(v)), i + 2) == Bit(Half(Half(Half(v))), i + 1);
  }

  lemma Skip8(v: bv64, i: nat)
    ensures Bit(v, i + 8) == Bit(Drop(v), i)
  {
    hide Bit;
    Skip4(v, i + 4);
    Skip4(Nibble(v), i);
    assert Nibble(Nibble(v)) == Drop(v);
  }

  lemma Same8(v: bv64, i: nat)
    requires i < 8
    ensures v & 0xFF == 0xFF ==> Bit(v, i)
    ensures v & 0xFF == 0 ==> !Bit(v, i)
  {
    hide Bit;
    Low8(v);
  }

  /** Bit i is bit i % 8 of the byte that holds it. */
  function ByteOf(v: bv64, i: nat): bv64
    requires i < 32
  {
    if i < 8 then v else if i < 16 then Drop(v) else if i < 24 then Drop(Drop(v)) else Drop(Drop(Drop(v)))
  }

  lemma BitInByte(v: bv64, i: nat)
    requires i < 32
    ensures Bit(v, i) == Bit(ByteOf(v, i), i % 8)
  {
    hide Bit, Drop;
    if i >= 8 { Skip8(v, i - 8); }
    if i >= 16 { Skip8(Drop(v), i - 16); }
    if i >= 24 { Skip8(Drop(Drop(v)), i - 24); }
  }

  predicate Width(w: nat) { w == 8 || w == 16 || w == 32 }

  function Mask(w: nat): bv64 { if w == 8 then 0xFF else if w == 16 then 0xFFFF else 0xFFFF_FFFF }

  /** All bits below the width are set in its mask. */
  lemma MaskBits(w: nat, i: nat)
    requires Width(w) && i < w
    ensures Bit(Mask(w), i)
  {
    assert ByteOf(Mask(w), i) & 0xFF == 0xFF;
    hide Bit, Drop, Mask;
    BitInByte(Mask(w), i);
    hide ByteOf;
    Same8(ByteOf(Mask(w), i), i % 8);
  }

  function TopBit(w: nat): bv64 { if w == 8 then 0x80 else if w == 16 then 0x8000 else 0x8000_0000 }

  lemma TopIs(v: bv64, w: nat)
    requires Width(w)
    ensures Bit(v, w - 1) == (v & TopBit(w) != 0)
  {
    var b := ByteOf(v, w - 1);
    assert (b & 0x80 != 0) == (v & TopBit(w) != 0);
    hide Bit, TopBit, Drop;
    BitInByte(v, w - 1);
    hide ByteOf;
    Low8(b);
  }

  /** A byte at the top of a register of that width. */
  function AtTop(u: bv64, w: nat): bv64 { if w == 8 then u else if w == 16 then u << 8 else u << 24 }

  lemma TopByte(u: bv64, w: nat, i: nat)
    requires Width(w) && i < w && u <= 0xFF
    ensures if i >= w - 8 then ByteOf(AtTop(u, w), i) == u else ByteOf(AtTop(u, w), i) & 0xFF == 0
  {
  }

  lemma TopBits(u: bv64, w: nat, i: nat)
    requires Width(w) && i < w && u <= 0xFF
    ensures Bit(AtTop(u, w), i) == (i >= w - 8 && Bit(u, i - (w - 8)))
  {
    hide Bit, AtTop, Drop, ByteOf;
    TopByte(u, w, i);
    BitInByte(AtTop(u, w), i);
    if i < w - 8 { Same8(ByteOf(AtTop(u, w), i), i % 8); }
  }

  // ---------- the loop on numbers ----------

  /** The low `w` bits of the word are those of the number. */
  predicate Spells(s: Word, v: bv64, w: nat)
    requires w <= 64
  {
    forall i :: 0 <= i < w ==> s[i] == Bit(v, i)
  }

  /** What is fed back into the register. */
  function Fed(v: bv64, p: bv64, top: bv64): bv64 { if v & top != 0 then p else 0 }

  /** One bit of the loop, as the source has it. */
  function Turn(v: bv64, p: bv64, top: bv64, mask: bv64): bv64 {
    ((v << 1) ^ (if v & top != 0 then p else 0)) & mask
  }

  function Shift(v: bv64, p: bv64, w: nat): bv64 { Turn(v, p, TopBit(w), Mask(w)) }

  function Mixed(d: bv64, f: bv64, mask: bv64): bv64 { (d ^ f) & mask }

  lemma MixedParts(d: bv64, f: bv64, mask: bv64)
    ensures Mixed(d, f, mask) == Both(Either(d, f), mask)
  {
  }

  lemma TurnFed(v: bv64, p: bv64, top: bv64, mask: bv64)
    requires v & top != 0
    ensures Turn(v, p, top, mask) == Mixed(v << 1, p, mask)
  {
  }

  lemma TurnUnfed(v: bv64, p: bv64, top: bv64, mask: bv64)
    requires v & top == 0
    ensures Turn(v, p, top, mask) == Mixed(v << 1, 0, mask)
  {
  }

  lemma TurnParts(v: bv64, p: bv64, top: bv64, mask: bv64)
    ensures Turn(v, p, top, mask) == Both(Either(Double(v), Fed(v, p, top)), mask)
  {
    hide Turn, Mixed, Both, Either;
    if v & top != 0 {
      TurnFed(v, p, top, mask);
      MixedParts(v << 1, p, mask);
    } else {
      TurnUnfed(v, p, top, mask);
      MixedParts(v << 1, 0, mask);
    }
  }

  lemma ShiftBound(v: bv64, p: bv64, w: nat)
    ensures Shift(v, p, w) <= 0xFFFF_FFFF
  {
  }

  lemma StepSpells(s: Word, v: bv64, m: Model, p: bv64)
    requires Width(m.width) && !m.refin && v <= 0xFFFF_FFFF
    requires Spells(s, v, m.width) && Spells(m.polynomial, p, m.width)
    ensures Spells(Step(s, m), Shift(v, p, m.width), m.width)
  {
    hide Bit, Shift, Fed, Step;
    var w, t := m.width, Step(s, m);
    forall i | 0 <= i < w ensures t[i] == Bit(Shift(v, p, w), i) {
      FedBits(s, v, m.polynomial, p, w, i);
      StepBit(s, m, i);
      ShiftBit(v, p, w, i);
    }
  }

  lemma StepBit(s: Word, m: Model, i: nat)
    requires m.Valid() && !m.refin && i < m.width
    ensures Step(s, m)[i] == ((i > 0 && s[i - 1]) != (s[m.width - 1] && m.polynomial[i]))
  {
  }

  lemma ShiftBit(v: bv64, p: bv64, w: nat, i: nat)
    requires Width(w) && i < w && v <= 0xFFFF_FFFF
    ensures Bit(Shift(v, p, w), i) == ((i > 0 && Bit(v, i - 1)) != Bit(Fed(v, p, TopBit(w)), i))
  {
    hide Bit, Double, Either, Both, Mask, Fed, Turn, TopBit;
    TurnParts(v, p, TopBit(w), Mask(w));
    BitDouble(v, i);
    BitWise(Double(v), Fed(v, p, TopBit(w)), i);
    BitWise(Either(Double(v), Fed(v, p, TopBit(w))), Mask(w), i);
    MaskBits(w, i);
  }

  lemma FedBits(s: Word, v: bv64, polynomial: Word, p: bv64, w: nat, i: nat)
    requires Width(w) && i < w && Spells(s, v, w) && Spells(polynomial, p, w)
    ensures Bit(Fed(v, p, TopBit(w)), i) == (s[w - 1] && polynomial[i])
  {
    hide Bit;
    TopIs(v, w);
    ZeroBits(i);
  }

  /** The inner loop. */
  function Shifts(v: bv64, p: bv64, w: nat, n: nat): bv64
    decreases n
  {
    if n == 0 then v else Shifts(Shift(v, p, w), p, w, n - 1)
  }

  lemma {:induction false} StepsSpell(s: Word, v: bv64, m: Model, p: bv64, n: nat)
    requires Width(m.width) && !m.refin && v <= 0xFFFF_FFFF
    requires Spells(s, v, m.width) && Spells(m.polynomial, p, m.width)
    ensures Spells(Steps(s, m, n), Shifts(v, p, m.width, n), m.width)
    decreases n
  {
    hide Spells, Step, Shift;
    if n > 0 {
      StepSpells(s, v, m, p);
      ShiftBound(v, p, m.width);
      StepsSpell(Step(s, m), Shift(v, p, m.width), m, p, n - 1);
    }
  }

  /** One byte of the loop. */
  function Fold(v: bv64, p: bv64, w: nat, u: bv64): bv64 { Eight(Either(v, AtTop(u, w)), p, w) }

  function Four(v: bv64, p: bv64, w: nat): bv64 { Shift(Shift(Shift(Shift(v, p, w), p, w), p, w), p, w) }

  function Eight(v: bv64, p: bv64, w: nat): bv64 { Four(Four(v, p, w), p, w) }

  lemma EightShifts(v: bv64, p: bv64, w: nat)
    ensures Shifts(v, p, w, 8) == Eight(v, p, w) <= 0xFFFF_FFFF
  {
    hide Shift;
    assert Shifts(v, p, w, 8) == Shifts(Four(v, p, w), p, w, 4);
    ShiftBound(Shift(Shift(Shift(Four(v, p, w), p, w), p, w), p, w), p, w);
  }

  /** The octet has the bits of the number. */
  predicate Octet8(b: Octet, u: bv64) { u <= 0xFF && forall i :: 0 <= i < 8 ==> b[i] == Bit(u, i) }

  lemma PlacedBits(s: Word, v: bv64, b: Octet, u: bv64, w: nat)
    requires Width(w) && Spells(s, v, w) && Octet8(b, u)
    ensures Spells(Xor(s, Placed(b, w - 8)), Either(v, AtTop(u, w)), w)
  {
    hide Bit, Either, AtTop;
    forall i | 0 <= i < w ensures Xor(s, Placed(b, w - 8))[i] == Bit(Either(v, AtTop(u, w)), i) {
      TopBits(u, w, i);
      BitWise(v, AtTop(u, w), i);
    }
  }

  lemma PlacedBound(v: bv64, u: bv64, w: nat)
    requires v <= 0xFFFF_FFFF && u <= 0xFF
    ensures Either(v, AtTop(u, w)) <= 0xFFFF_FFFF
  {
  }

  lemma ByteSpells(s: Word, v: bv64, m: Model, p: bv64, b: Octet, u: bv64)
    requires Width(m.width) && !m.refin && v <= 0xFFFF_FFFF && Octet8(b, u)
    requires Spells(s, v, m.width) && Spells(m.polynomial, p, m.width)
    ensures Spells(ByteStep(s, m, b), Fold(v, p, m.width, u), m.width) && Fold(v, p, m.width, u) <= 0xFFFF_FFFF
  {
    hide Either, AtTop, Shifts, Steps, Xor, Placed, Bit, Eight;
    EightShifts(Either(v, AtTop(u, m.width)), p, m.width);
    var w := m.width;
    PlacedBits(s, v, b, u, w);
    PlacedBound(v, u, w);
    StepsSpell(Xor(s, Placed(b, w - 8)), Either(v, AtTop(u, w)), m, p, 8);
  }

  /** The whole loop. */
  function Folds(v: bv64, p: bv64, w: nat, us: seq<bv64>): bv64
    decreases |us|
  {
    if us == [] then v else Folds(Fold(v, p, w, us[0]), p, w, us[1..])
  }

  predicate AllOctets(bytes: seq<Octet>, us: seq<bv64>) {
    |bytes| == |us| && forall i :: 0 <= i < |us| ==> Octet8(bytes[i], us[i])
  }

  lemma {:induction false} MessageSpells(s: Word, v: bv64, m: Model, p: bv64, bytes: seq<Octet>, us: seq<bv64>)
    requires Width(m.width) && !m.refin && v <= 0xFFFF_FFFF && AllOctets(bytes, us)
    requires Spells(s, v, m.width) && Spells(m.polynomial, p, m.width)
    ensures Spells(Updated(s, m, bytes), Folds(v, p, m.width, us), m.width)
    decreases |us|
  {
    hide Spells, ByteStep, Fold, Octet8;
    if us != [] {
      ByteSpells(s, v, m, p, bytes[0], us[0]);
      MessageSpells(ByteStep(s, m, bytes[0]), Fold(v, p, m.width, us[0]), m, p, bytes[1..], us[1..]);
    }
  }

  // ---------- the nine digits ----------

  const DIGITS: seq<bv64> := [0x31, 0x32, 0x33, 0x34, 0x35, 0x36, 0x37, 0x38, 0x39]

  /** The same with the bits of each in reverse order. */
  const MIRRORED: seq<bv64> := [0x8C, 0x4C, 0xCC, 0x2C, 0xAC, 0x6C, 0xEC, 0x1C, 0x9C]

  lemma DigitBits(i: nat)
    requires i < 9
    ensures Octet8(Octets(NINE_DIGITS)[i], DIGITS[i])
  {
    hide Bit;
    Low8(DIGITS[i]);
  }

  lemma MirroredBits(i: nat)
    requires i < 9
    ensures Octet8(Mirror(Octets(NINE_DIGITS)[i]), MIRRORED[i])
  {
    DigitBits(i);
    assert Mirrors8(DIGITS[i], MIRRORED[i]);
    hide Bit, Mirrors8;
    forall j | 0 <= j < 8 ensures Bit(MIRRORED[i], j) == Bit(DIGITS[i], 7 - j) {
      Mirrors8Bits(DIGITS[i], MIRRORED[i], j);
    }
  }

  lemma DigitOctets()
    ensures AllOctets(Octets(NINE_DIGITS), DIGITS) && AllOctets(MirrorAll(Octets(NINE_DIGITS)), MIRRORED)
  {
    hide Octet8;
    forall i | 0 <= i < 9
      ensures Octet8(Octets(NINE_DIGITS)[i], DIGITS[i]) && Octet8(Mirror(Octets(NINE_DIGITS)[i]), MIRRORED[i])
    {
      DigitBits(i);
      MirroredBits(i);
    }
  }

  /** Eight turns, written out. */
  function Turns(v: bv64, p: bv64, top: bv64, mask: bv64): bv64 {
    var v1 := Turn(v, p, top, mask);
    var v2 := Turn(v1, p, top, mask);
    var v3 := Turn(v2, p, top, mask);
    var v4 := Turn(v3, p, top, mask);
    var v5 := Turn(v4, p, top, mask);
    var v6 := Turn(v5, p, top, mask);
    var v7 := Turn(v6, p, top, mask);
    Turn(v7, p, top, mask)
  }

  /** One byte, written out. */
  function Byte(v: bv64, p: bv64, w: nat, u: bv64): bv64 {
    Turns(Entered(v, w, u), p, TopBit(w), Mask(w))
  }

  function Entered(v: bv64, w: nat, u: bv64): bv64 {
    if w == 8 then v ^ u else if w == 16 then v ^ (u << 8) else v ^ (u << 24)
  }

  lemma EnteredParts(v: bv64, w: nat, u: bv64)
    ensures Entered(v, w, u) == Either(v, AtTop(u, w))
  {
    if w == 8 {
      assert Entered(v, w, u) == Either(v, u);
    } else if w == 16 {
      assert Entered(v, w, u) == Either(v, u << 8);
    } else {
      assert Entered(v, w, u) == Either(v, u << 24);
    }
  }

  lemma FoldIsByte(v: bv64, p: bv64, w: nat, u: bv64)
    ensures Fold(v, p, w, u) == Byte(v, p, w, u)
  {
    hide Turns, Eight, Entered, Either, AtTop, TopBit, Mask;
    EightTurns(Either(v, AtTop(u, w)), p, w);
    EnteredParts(v, w, u);
  }

  lemma EightTurns(v: bv64, p: bv64, w: nat)
    ensures Eight(v, p, w) == Turns(v, p, TopBit(w), Mask(w))
  {
    hide Turn, TopBit, Mask;
  }

  /** One byte, with the register after every turn. */
  lemma Traced(v: bv64, p: bv64, w: nat, top: bv64, mask: bv64, u: bv64,
        a0: bv64, a1: bv64, a2: bv64, a3: bv64, a4: bv64, a5: bv64, a6: bv64, a7: bv64, a8: bv64)
    requires top == TopBit(w) && mask == Mask(w) && Entered(v, w, u) == a0
    requires Turn(a0, p, top, mask) == a1 && Turn(a1, p, top, mask) == a2
    requires Turn(a2, p, top, mask) == a3 && Turn(a3, p, top, mask) == a4
    requires Turn(a4, p, top, mask) == a5 && Turn(a5, p, top, mask) == a6
    requires Turn(a6, p, top, mask) == a7 && Turn(a7, p, top, mask) == a8
    ensures Byte(v, p, w, u) == a8
  {
    hide Turn, TopBit, Mask, Entered;
  }

  /** The registers after each byte. */
  lemma {:induction false} FoldsChain(p: bv64, w: nat, us: seq<bv64>, vs: seq<bv64>)
    requires |vs| == |us| + 1 && forall i :: 0 <= i < |us| ==> vs[i + 1] == Byte(vs[i], p, w, us[i])
    ensures Folds(vs[0], p, w, us) == vs[|us|]
    decreases |us|
  {
    hide Fold, Byte;
    if us != [] {
      FoldIsByte(vs[0], p, w, us[0]);
      FoldsChain(p, w, us[1..], vs[1..]);
    }
  }

  // ---------- whole checksums ----------

  lemma HighBits(v: bv64, w: nat, i: nat)
    requires Width(w) && v <= Mask(w) && w <= i
    ensures !Bit(v, i)
  {
    hide Bit;
    Skip8(v, i - 8);
    if w == 8 {
      assert Drop(v) == 0;
      ZeroBits(i - 8);
    } else {
      Skip8(Drop(v), i - 16);
      if w == 16 {
        assert Drop(Drop(v)) == 0;
        ZeroBits(i - 16);
      } else {
        Skip8(Drop(Drop(v)), i - 24);
        Skip8(Drop(Drop(Drop(v))), i - 32);
        assert Drop(Drop(Drop(Drop(v)))) == 0;
        ZeroBits(i - 32);
      }
    }
  }

  /** A word with nothing above the width is the number it spells. */
  lemma SpelledOut(s: Word, v: bv64, w: nat)
    requires Width(w) && v <= Mask(w) && Spells(s, v, w) && s == Masked(s, w)
    ensures s == Bits(v)
  {
    hide Bit, Mask;
    forall i | w <= i < 64 ensures s[i] == Bit(v, i) { HighBits(v, w, i); }
  }

  lemma LeftCheck(m: Model, p: bv64, init: bv64, xor: bv64, bytes: seq<Octet>, us: seq<bv64>, value: bv64)
    requires Width(m.width) && !m.refin && !m.refout && AllOctets(bytes, us)
    requires Spells(m.polynomial, p, m.width) && Spells(m.init, init, m.width) && Spells(m.xorOut, xor, m.width)
    requires Either(Folds(init, p, m.width, us), xor) == value && init <= 0xFFFF_FFFF && value <= Mask(m.width)
    ensures Checksum(m, bytes) == Bits(value)
  {
    hide Updated, Folds, AllOctets, Bit, Either, Mask;
    var w, s, v := m.width, Updated(m.init, m, bytes), Folds(init, p, m.width, us);
    MessageSpells(m.init, init, m, p, bytes, us);
    var t := Masked(Xor(s, m.xorOut), w);
    forall i | 0 <= i < w ensures t[i] == Bit(value, i) { BitWise(v, xor, i); }
    SpelledOut(t, value, w);
  }

  /** The low eight bits of one number are those of the other in reverse order. */
  predicate Mirrors8(a: bv64, b: bv64) {
    && (a & 0x01 != 0) == (b & 0x80 != 0) && (a & 0x02 != 0) == (b & 0x40 != 0)
    && (a & 0x04 != 0) == (b & 0x20 != 0) && (a & 0x08 != 0) == (b & 0x10 != 0)
    && (a & 0x10 != 0) == (b & 0x08 != 0) && (a & 0x20 != 0) == (b & 0x04 != 0)
    && (a & 0x40 != 0) == (b & 0x02 != 0) && (a & 0x80 != 0) == (b & 0x01 != 0)
  }

  lemma Mirrors8Bits(a: bv64, b: bv64, i: nat)
    requires i < 8 && Mirrors8(a, b)
    ensures Bit(b, i) == Bit(a, 7 - i)
  {
    hide Bit;
    Low8(a);
    Low8(b);
  }

  /** The bytes of one number are those of the other, mirrored and in reverse order. */
  predicate Reversal(a: bv64, b: bv64, w: nat)
    requires w <= 32
  {
    && b <= Mask(w)
    && forall i :: 0 <= i < w ==> Mirrors8(ByteOf(a, w - 1 - i), ByteOf(b, i))
  }

  lemma ReversedBits(a: bv64, b: bv64, w: nat)
    requires Width(w) && Reversal(a, b, w)
    ensures Reflected(Bits(a), w) == Bits(b)
  {
    hide Bit, Reversal, Mask;
    var s := Reflected(Bits(a), w);
    forall i | 0 <= i < w ensures s[i] == Bit(b, i) { ReversedBit(a, b, w, i); }
    ReversalBound(a, b, w);
    SpelledOut(s, b, w);
  }

  lemma ReversalBound(a: bv64, b: bv64, w: nat)
    requires w <= 32 && Reversal(a, b, w)
    ensures b <= Mask(w)
  {
    hide Mask, Mirrors8, ByteOf;
  }

  lemma ReversedBit(a: bv64, b: bv64, w: nat, i: nat)
    requires Width(w) && Reversal(a, b, w) && i < w
    ensures Bit(b, i) == Bit(a, w - 1 - i)
  {
    hide Bit, ByteOf, Mirrors8, Mask;
    assert Mirrors8(ByteOf(a, w - 1 - i), ByteOf(b, i));
    BitInByte(a, w - 1 - i);
    BitInByte(b, i);
    assert (w - 1 - i) % 8 == 7 - i % 8;
    Mirrors8Bits(ByteOf(a, w - 1 - i), ByteOf(b, i), i % 8);
  }

  // ---------- the models ----------

  lemma Constants(p: bv64, w: nat)
    requires Width(w)
    ensures Spells(Bits(p), p, w) && Spells(Zero(), 0, w) && Spells(Ones(w), Mask(w), w)
  {
    hide Bit, Mask;
    forall i | 0 <= i < w ensures !Bit(0, i) && Bit(Mask(w), i) {
      ZeroBits(i);
      MaskBits(w, i);
    }
  }

  /** A reflected model whose start and final masks read the same both ways, by way of its mirror image. */
  lemma RightCheck(m: Model, mirrored: bv64, value: bv64)
    requires Width(m.width) && m.refin && m.refout
    requires Reflected(m.init, m.width) == m.init && Reflected(m.xorOut, m.width) == m.xorOut
    requires Checksum(Plain(m), MirrorAll(Octets(NINE_DIGITS))) == Bits(mirrored) && Reversal(mirrored, value, m.width)
    ensures Checksum(m, Octets(NINE_DIGITS)) == Bits(value)
  {
    hide Checksum, Reversal, Bits, Reflected, Octets;
    var bytes := Octets(NINE_DIGITS);
    MirroredTwice(bytes);
    assert Twin(Plain(m)) == m;
    TwinChecksum(Plain(m), MirrorAll(bytes));
    ReversedBits(mirrored, value, m.width);
  }

  function Plain(m: Model): Model { m.(refin := false, refout := false) }

  lemma MirroredTwice(bytes: seq<Octet>)
    ensures MirrorAll(MirrorAll(bytes)) == bytes
  {
    forall i | 0 <= i < |bytes| ensures Mirror(Mirror(bytes[i])) == bytes[i] {
    }
  }

  lemma SameBothWays(w: nat)
    requires w <= 64
    ensures Reflected(Zero(), w) == Zero() && Reflected(Ones(w), w) == Ones(w)
  {
  }

  lemma XmodemFolds()
    ensures Folds(0, 0x1021, 16, DIGITS) == 0x31C3
  {
    hide Byte, Folds;
    Traced(0, 0x1021, 16, 0x8000, 0xFFFF, 0x31, 0x3100, 0x6200, 0xC400, 0x9821, 0x2063, 0x40C6, 0x818C, 0x1339,
           0x2672);
    Traced(0x2672, 0x1021, 16, 0x8000, 0xFFFF, 0x32, 0x1472, 0x28E4, 0x51C8, 0xA390, 0x5701, 0xAE02, 0x4C25, 0x984A,
           0x20B5);
    Traced(0x20B5, 0x1021, 16, 0x8000, 0xFFFF, 0x33, 0x13B5, 0x276A, 0x4ED4, 0x9DA8, 0x2B71, 0x56E2, 0xADC4, 0x4BA9,
           0x9752);
    Traced(0x9752, 0x1021, 16, 0x8000, 0xFFFF, 0x34, 0xA352, 0x5685, 0xAD0A, 0x4A35, 0x946A, 0x38F5, 0x71EA, 0xE3D4,
           0xD789);
    Traced(0xD789, 0x1021, 16, 0x8000, 0xFFFF, 0x35, 0xE289, 0xD533, 0xBA47, 0x64AF, 0xC95E, 0x829D, 0x151B, 0x2A36,
           0x546C);
    Traced(0x546C, 0x1021, 16, 0x8000, 0xFFFF, 0x36, 0x626C, 0xC4D8, 0x9991, 0x2303, 0x4606, 0x8C0C, 0x0839, 0x1072,
           0x20E4);
    Traced(0x20E4, 0x1021, 16, 0x8000, 0xFFFF, 0x37, 0x17E4, 0x2FC8, 0x5F90, 0xBF20, 0x6E61, 0xDCC2, 0xA9A5, 0x436B,
           0x86D6);
    Traced(0x86D6, 0x1021, 16, 0x8000, 0xFFFF, 0x38, 0xBED6, 0x6D8D, 0xDB1A, 0xA615, 0x5C0B, 0xB816, 0x600D, 0xC01A,
           0x9015);
    Traced(0x9015, 0x1021, 16, 0x8000, 0xFFFF, 0x39, 0xA915, 0x420B, 0x8416, 0x180D, 0x301A, 0x6034, 0xC068, 0x90F1,
           0x31C3);
    var vs: seq<bv64> := [0, 0x2672, 0x20B5, 0x9752, 0xD789, 0x546C, 0x20E4, 0x86D6, 0x9015, 0x31C3];
    FoldsChain(0x1021, 16, DIGITS, vs);
  }

  lemma XmodemCheck()
    ensures Checksum(XMODEM, Octets(NINE_DIGITS)) == Bits(0x31C3)
  {
    hide Checksum, Folds, AllOctets, Spells, Bits, Octets;
    XmodemFolds();
    Constants(0x1021, 16);
    DigitOctets();
    LeftCheck(XMODEM, 0x1021, 0, 0, Octets(NINE_DIGITS), DIGITS, 0x31C3);
  }

  lemma CcittFalseFolds()
    ensures Folds(0xFFFF, 0x1021, 16, DIGITS) == 0x29B1
  {
    hide Byte, Folds;
    Traced(0xFFFF, 0x1021, 16, 0x8000, 0xFFFF, 0x31, 0xCEFF, 0x8DDF, 0x0B9F, 0x173E, 0x2E7C, 0x5CF8, 0xB9F0, 0x63C1,
           0xC782);
    Traced(0xC782, 0x1021, 16, 0x8000, 0xFFFF, 0x32, 0xF582, 0xFB25, 0xE66B, 0xDCF7, 0xA9CF, 0x43BF, 0x877E, 0x1EDD,
           0x3DBA);
    Traced(0x3DBA, 0x1021, 16, 0x8000, 0xFFFF, 0x33, 0x0EBA, 0x1D74, 0x3AE8, 0x75D0, 0xEBA0, 0xC761, 0x9EE3, 0x2DE7,
           0x5BCE);
    Traced(0x5BCE, 0x1021, 16, 0x8000, 0xFFFF, 0x34, 0x6FCE, 0xDF9C, 0xAF19, 0x4E13, 0x9C26, 0x286D, 0x50DA, 0xA1B4,
           0x5349);
    Traced(0x5349, 0x1021, 16, 0x8000, 0xFFFF, 0x35, 0x6649, 0xCC92, 0x8905, 0x022B, 0x0456, 0x08AC, 0x1158, 0x22B0,
           0x4560);
    Traced(0x4560, 0x1021, 16, 0x8000, 0xFFFF, 0x36, 0x7360, 0xE6C0, 0xDDA1, 0xAB63, 0x46E7, 0x8DCE, 0x0BBD, 0x177A,
           0x2EF4);
    Traced(0x2EF4, 0x1021, 16, 0x8000, 0xFFFF, 0x37, 0x19F4, 0x33E8, 0x67D0, 0xCFA0, 0x8F61, 0x0EE3, 0x1DC6, 0x3B8C,
           0x7718);
    Traced(0x7718, 0x1021, 16, 0x8000, 0xFFFF, 0x38, 0x4F18, 0x9E30, 0x2C41, 0x5882, 0xB104, 0x7229, 0xE452, 0xD885,
           0xA12B);
    Traced(0xA12B, 0x1021, 16, 0x8000, 0xFFFF, 0x39, 0x982B, 0x2077, 0x40EE, 0x81DC, 0x1399, 0x2732, 0x4E64, 0x9CC8,
           0x29B1);
    var vs: seq<bv64> := [0xFFFF, 0xC782, 0x3DBA, 0x5BCE, 0x5349, 0x4560, 0x2EF4, 0x7718, 0xA12B, 0x29B1];
    FoldsChain(0x1021, 16, DIGITS, vs);
  }

  lemma CcittFalseCheck()
    ensures Checksum(CCITT_FALSE, Octets(NINE_DIGITS)) == Bits(0x29B1)
  {
    hide Checksum, Folds, AllOctets, Spells, Bits, Octets;
    CcittFalseFolds();
    Constants(0x1021, 16);
    DigitOctets();
    LeftCheck(CCITT_FALSE, 0x1021, 0xFFFF, 0, Octets(NINE_DIGITS), DIGITS, 0x29B1);
  }

  lemma Mpeg2Check()
    ensures Checksum(MPEG2, Octets(NINE_DIGITS)) == Bits(0x0376E6E7)
  {
    hide Checksum, Folds, AllOctets, Spells, Bits, Octets;
    Bzip2Folds();
    Constants(0x04C11DB7, 32);
    DigitOctets();
    LeftCheck(MPEG2, 0x04C11DB7, 0xFFFFFFFF, 0, Octets(NINE_DIGITS), DIGITS, 0x0376E6E7);
  }

  lemma Bzip2Folds()
    ensures Folds(0xFFFFFFFF, 0x04C11DB7, 32, DIGITS) == 0x0376E6E7
  {
    hide Byte, Folds;
    Traced(0xFFFFFFFF, 0x04C11DB7, 32, 0x8000_0000, 0xFFFF_FFFF, 0x31, 0xCEFFFFFF, 0x993EE249, 0x36BCD925,
           0x6D79B24A, 0xDAF36494, 0xB127D49F, 0x668EB489, 0xCD1D6912, 0x9EFBCF93);
    Traced(0x9EFBCF93, 0x04C11DB7, 32, 0x8000_0000, 0xFFFF_FFFF, 0x32, 0xACFBCF93, 0x5D368291, 0xBA6D0522,
           0x701B17F3, 0xE0362FE6, 0xC4AD427B, 0x8D9B9941, 0x1FF62F35, 0x3FEC5E6A);
    Traced(0x3FEC5E6A, 0x04C11DB7, 32, 0x8000_0000, 0xFFFF_FFFF, 0x33, 0x0CEC5E6A, 0x19D8BCD4, 0x33B179A8,
           0x6762F350, 0xCEC5E6A0, 0x994AD0F7, 0x3654BC59, 0x6CA978B2, 0xD952F164);
    Traced(0xD952F164, 0x04C11DB7, 32, 0x8000_0000, 0xFFFF_FFFF, 0x34, 0xED52F164, 0xDE64FF7F, 0xB808E349,
           0x74D0DB25, 0xE9A1B64A, 0xD7827123, 0xABC5FFF1, 0x534AE255, 0xA695C4AA);
    Traced(0xA695C4AA, 0x04C11DB7, 32, 0x8000_0000, 0xFFFF_FFFF, 0x35, 0x9395C4AA, 0x23EA94E3, 0x47D529C6,
           0x8FAA538C, 0x1B95BAAF, 0x372B755E, 0x6E56EABC, 0xDCADD578, 0xBD9AB747);
    Traced(0xBD9AB747, 0x04C11DB7, 32, 0x8000_0000, 0xFFFF_FFFF, 0x36, 0x8B9AB747, 0x13F47339, 0x27E8E672,
           0x4FD1CCE4, 0x9FA399C8, 0x3B862E27, 0x770C5C4E, 0xEE18B89C, 0xD8F06C8F);
    Traced(0xD8F06C8F, 0x04C11DB7, 32, 0x8000_0000, 0xFFFF_FFFF, 0x37, 0xEFF06C8F, 0xDB21C4A9, 0xB28294E5,
           0x61C4347D, 0xC38868FA, 0x83D1CC43, 0x03628531, 0x06C50A62, 0x0D8A14C4);
    Traced(0x0D8A14C4, 0x04C11DB7, 32, 0x8000_0000, 0xFFFF_FFFF, 0x38, 0x358A14C4, 0x6B142988, 0xD6285310,
           0xA891BB97, 0x55E26A99, 0xABC4D532, 0x5348B7D3, 0xA6916FA6, 0x49E3C2FB);
    Traced(0x49E3C2FB, 0x04C11DB7, 32, 0x8000_0000, 0xFFFF_FFFF, 0x39, 0x70E3C2FB, 0xE1C785F6, 0xC74E165B,
           0x8A5D3101, 0x107B7FB5, 0x20F6FF6A, 0x41EDFED4, 0x83DBFDA8, 0x0376E6E7);
    var vs: seq<bv64> := [0xFFFFFFFF, 0x9EFBCF93, 0x3FEC5E6A, 0xD952F164, 0xA695C4AA, 0xBD9AB747, 0xD8F06C8F,
                          0x0D8A14C4, 0x49E3C2FB, 0x0376E6E7];
    FoldsChain(0x04C11DB7, 32, DIGITS, vs);
  }

  lemma Bzip2Check()
    ensures Checksum(BZIP2, Octets(NINE_DIGITS)) == Bits(0xFC891918)
  {
    hide Checksum, Folds, AllOctets, Spells, Bits, Octets;
    Bzip2Folds();
    Constants(0x04C11DB7, 32);
    DigitOctets();
    LeftCheck(BZIP2, 0x04C11DB7, 0xFFFFFFFF, 0xFFFFFFFF, Octets(NINE_DIGITS), DIGITS, 0xFC891918);
  }

  lemma Crc8Folds()
    ensures Folds(0, 0x07, 8, DIGITS) == 0xF4
  {
    hide Byte, Folds;
    Traced(0, 0x07, 8, 0x80, 0xFF, 0x31, 0x31, 0x62, 0xC4, 0x8F, 0x19, 0x32, 0x64, 0xC8, 0x97);
    Traced(0x97, 0x07, 8, 0x80, 0xFF, 0x32, 0xA5, 0x4D, 0x9A, 0x33, 0x66, 0xCC, 0x9F, 0x39, 0x72);
    Traced(0x72, 0x07, 8, 0x80, 0xFF, 0x33, 0x41, 0x82, 0x03, 0x06, 0x0C, 0x18, 0x30, 0x60, 0xC0);
    Traced(0xC0, 0x07, 8, 0x80, 0xFF, 0x34, 0xF4, 0xEF, 0xD9, 0xB5, 0x6D, 0xDA, 0xB3, 0x61, 0xC2);
    Traced(0xC2, 0x07, 8, 0x80, 0xFF, 0x35, 0xF7, 0xE9, 0xD5, 0xAD, 0x5D, 0xBA, 0x73, 0xE6, 0xCB);
    Traced(0xCB, 0x07, 8, 0x80, 0xFF, 0x36, 0xFD, 0xFD, 0xFD, 0xFD, 0xFD, 0xFD, 0xFD, 0xFD, 0xFD);
    Traced(0xFD, 0x07, 8, 0x80, 0xFF, 0x37, 0xCA, 0x93, 0x21, 0x42, 0x84, 0x0F, 0x1E, 0x3C, 0x78);
    Traced(0x78, 0x07, 8, 0x80, 0xFF, 0x38, 0x40, 0x80, 0x07, 0x0E, 0x1C, 0x38, 0x70, 0xE0, 0xC7);
    Traced(0xC7, 0x07, 8, 0x80, 0xFF, 0x39, 0xFE, 0xFB, 0xF1, 0xE5, 0xCD, 0x9D, 0x3D, 0x7A, 0xF4);
    var vs: seq<bv64> := [0, 0x97, 0x72, 0xC0, 0xC2, 0xCB, 0xFD, 0x78, 0xC7, 0xF4];
    FoldsChain(0x07, 8, DIGITS, vs);
  }

  lemma Crc8Check()
    ensures Checksum(CRC8, Octets(NINE_DIGITS)) == Bits(0xF4)
  {
    hide Checksum, Folds, AllOctets, Spells, Bits, Octets;
    Crc8Folds();
    Constants(0x07, 8);
    DigitOctets();
    LeftCheck(CRC8, 0x07, 0, 0, Octets(NINE_DIGITS), DIGITS, 0xF4);
  }

  lemma KermitFolds()
    ensures Folds(0, 0x1021, 16, MIRRORED) == 0x9184
  {
    hide Byte, Folds;
    Traced(0, 0x1021, 16, 0x8000, 0xFFFF, 0x8C, 0x8C00, 0x0821, 0x1042, 0x2084, 0x4108, 0x8210, 0x1401, 0x2802,
           0x5004);
    Traced(0x5004, 0x1021, 16, 0x8000, 0xFFFF, 0x4C, 0x1C04, 0x3808, 0x7010, 0xE020, 0xD061, 0xB0E3, 0x71E7, 0xE3CE,
           0xD7BD);
    Traced(0xD7BD, 0x1021, 16, 0x8000, 0xFFFF, 0xCC, 0x1BBD, 0x377A, 0x6EF4, 0xDDE8, 0xABF1, 0x47C3, 0x8F86, 0x0F2D,
           0x1E5A);
    Traced(0x1E5A, 0x1021, 16, 0x8000, 0xFFFF, 0x2C, 0x325A, 0x64B4, 0xC968, 0x82F1, 0x15C3, 0x2B86, 0x570C, 0xAE18,
           0x4C11);
    Traced(0x4C11, 0x1021, 16, 0x8000, 0xFFFF, 0xAC, 0xE011, 0xD003, 0xB027, 0x706F, 0xE0DE, 0xD19D, 0xB31B, 0x7617,
           0xEC2E);
    Traced(0xEC2E, 0x1021, 16, 0x8000, 0xFFFF, 0x6C, 0x802E, 0x107D, 0x20FA, 0x41F4, 0x83E8, 0x17F1, 0x2FE2, 0x5FC4,
           0xBF88);
    Traced(0xBF88, 0x1021, 16, 0x8000, 0xFFFF, 0xEC, 0x5388, 0xA710, 0x5E01, 0xBC02, 0x6825, 0xD04A, 0xB0B5, 0x714B,
           0xE296);
    Traced(0xE296, 0x1021, 16, 0x8000, 0xFFFF, 0x1C, 0xFE96, 0xED0D, 0xCA3B, 0x8457, 0x188F, 0x311E, 0x623C, 0xC478,
           0x98D1);
    Traced(0x98D1, 0x1021, 16, 0x8000, 0xFFFF, 0x9C, 0x04D1, 0x09A2, 0x1344, 0x2688, 0x4D10, 0x9A20, 0x2461, 0x48C2,
           0x9184);
    var vs: seq<bv64> := [0, 0x5004, 0xD7BD, 0x1E5A, 0x4C11, 0xEC2E, 0xBF88, 0xE296, 0x98D1, 0x9184];
    FoldsChain(0x1021, 16, MIRRORED, vs);
  }

  lemma KermitCheck()
    ensures Checksum(KERMIT, Octets(NINE_DIGITS)) == Bits(0x2189)
  {
    hide Checksum, Folds, AllOctets, Spells, Bits, Octets, Reversal, Reflected;
    KermitFolds();
    Constants(0x1021, 16);
    DigitOctets();
    LeftCheck(Plain(KERMIT), 0x1021, 0, 0, MirrorAll(Octets(NINE_DIGITS)), MIRRORED, 0x9184);
    SameBothWays(16);
    KermitReversed();
    RightCheck(KERMIT, 0x9184, 0x2189);
  }

  lemma KermitReversed()
    ensures Reversal(0x9184, 0x2189, 16)
  {
  }

  lemma IbmFolds()
    ensures Folds(0, 0x8005, 16, MIRRORED) == 0xBCDD
  {
    hide Byte, Folds;
    Traced(0, 0x8005, 16, 0x8000, 0xFFFF, 0x8C, 0x8C00, 0x9805, 0xB00F, 0xE01B, 0x4033, 0x8066, 0x80C9, 0x8197,
           0x832B);
    Traced(0x832B, 0x8005, 16, 0x8000, 0xFFFF, 0x4C, 0xCF2B, 0x1E53, 0x3CA6, 0x794C, 0xF298, 0x6535, 0xCA6A, 0x14D1,
           0x29A2);
    Traced(0x29A2, 0x8005, 16, 0x8000, 0xFFFF, 0xCC, 0xE5A2, 0x4B41, 0x9682, 0xAD01, 0xDA07, 0x340B, 0x6816, 0xD02C,
           0x205D);
    Traced(0x205D, 0x8005, 16, 0x8000, 0xFFFF, 0x2C, 0x0C5D, 0x18BA, 0x3174, 0x62E8, 0xC5D0, 0x0BA5, 0x174A, 0x2E94,
           0x5D28);
    Traced(0x5D28, 0x8005, 16, 0x8000, 0xFFFF, 0xAC, 0xF128, 0x6255, 0xC4AA, 0x0951, 0x12A2, 0x2544, 0x4A88, 0x9510,
           0xAA25);
    Traced(0xAA25, 0x8005, 16, 0x8000, 0xFFFF, 0x6C, 0xC625, 0x0C4F, 0x189E, 0x313C, 0x6278, 0xC4F0, 0x09E5, 0x13CA,
           0x2794);
    Traced(0x2794, 0x8005, 16, 0x8000, 0xFFFF, 0xEC, 0xCB94, 0x172D, 0x2E5A, 0x5CB4, 0xB968, 0xF2D5, 0x65AF, 0xCB5E,
           0x16B9);
    Traced(0x16B9, 0x8005, 16, 0x8000, 0xFFFF, 0x1C, 0x0AB9, 0x1572, 0x2AE4, 0x55C8, 0xAB90, 0xD725, 0x2E4F, 0x5C9E,
           0xB93C);
    Traced(0xB93C, 0x8005, 16, 0x8000, 0xFFFF, 0x9C, 0x253C, 0x4A78, 0x94F0, 0xA9E5, 0xD3CF, 0x279B, 0x4F36, 0x9E6C,
           0xBCDD);
    var vs: seq<bv64> := [0, 0x832B, 0x29A2, 0x205D, 0x5D28, 0xAA25, 0x2794, 0x16B9, 0xB93C, 0xBCDD];
    FoldsChain(0x8005, 16, MIRRORED, vs);
  }

  lemma IbmCheck()
    ensures Checksum(IBM, Octets(NINE_DIGITS)) == Bits(0xBB3D)
  {
    hide Checksum, Folds, AllOctets, Spells, Bits, Octets, Reversal, Reflected;
    IbmFolds();
    Constants(0x8005, 16);
    DigitOctets();
    LeftCheck(Plain(IBM), 0x8005, 0, 0, MirrorAll(Octets(NINE_DIGITS)), MIRRORED, 0xBCDD);
    SameBothWays(16);
    IbmReversed();
    RightCheck(IBM, 0xBCDD, 0xBB3D);
  }

  lemma IbmReversed()
    ensures Reversal(0xBCDD, 0xBB3D, 16)
  {
  }

  lemma ModbusFolds()
    ensures Folds(0xFFFF, 0x8005, 16, MIRRORED) == 0xECD2
  {
    hide Byte, Folds;
    Traced(0xFFFF, 0x8005, 16, 0x8000, 0xFFFF, 0x8C, 0x73FF, 0xE7FE, 0x4FF9, 0x9FF2, 0xBFE1, 0xFFC7, 0x7F8B, 0xFF16,
           0x7E29);
    Traced(0x7E29, 0x8005, 16, 0x8000, 0xFFFF, 0x4C, 0x3229, 0x6452, 0xC8A4, 0x114D, 0x229A, 0x4534, 0x8A68, 0x94D5,
           0xA9AF);
    Traced(0xA9AF, 0x8005, 16, 0x8000, 0xFFFF, 0xCC, 0x65AF, 0xCB5E, 0x16B9, 0x2D72, 0x5AE4, 0xB5C8, 0xEB95, 0x572F,
           0xAE5E);
    Traced(0xAE5E, 0x8005, 16, 0x8000, 0xFFFF, 0x2C, 0x825E, 0x84B9, 0x8977, 0x92EB, 0xA5D3, 0xCBA3, 0x1743, 0x2E86,
           0x5D0C);
    Traced(0x5D0C, 0x8005, 16, 0x8000, 0xFFFF, 0xAC, 0xF10C, 0x621D, 0xC43A, 0x0871, 0x10E2, 0x21C4, 0x4388, 0x8710,
           0x8E25);
    Traced(0x8E25, 0x8005, 16, 0x8000, 0xFFFF, 0x6C, 0xE225, 0x444F, 0x889E, 0x9139, 0xA277, 0xC4EB, 0x09D3, 0x13A6,
           0x274C);
    Traced(0x274C, 0x8005, 16, 0x8000, 0xFFFF, 0xEC, 0xCB4C, 0x169D, 0x2D3A, 0x5A74, 0xB4E8, 0xE9D5, 0x53AF, 0xA75E,
           0xCEB9);
    Traced(0xCEB9, 0x8005, 16, 0x8000, 0xFFFF, 0x1C, 0xD2B9, 0x2577, 0x4AEE, 0x95DC, 0xABBD, 0xD77F, 0x2EFB, 0x5DF6,
           0xBBEC);
    Traced(0xBBEC, 0x8005, 16, 0x8000, 0xFFFF, 0x9C, 0x27EC, 0x4FD8, 0x9FB0, 0xBF65, 0xFECF, 0x7D9B, 0xFB36, 0x7669,
           0xECD2);
    var vs: seq<bv64> := [0xFFFF, 0x7E29, 0xA9AF, 0xAE5E, 0x5D0C, 0x8E25, 0x274C, 0xCEB9, 0xBBEC, 0xECD2];
    FoldsChain(0x8005, 16, MIRRORED, vs);
  }

  lemma ModbusCheck()
    ensures Checksum(MODBUS, Octets(NINE_DIGITS)) == Bits(0x4B37)
  {
    hide Checksum, Folds, AllOctets, Spells, Bits, Octets, Reversal, Reflected;
    ModbusFolds();
    Constants(0x8005, 16);
    DigitOctets();
    LeftCheck(Plain(MODBUS), 0x8005, 0xFFFF, 0, MirrorAll(Octets(NINE_DIGITS)), MIRRORED, 0xECD2);
    SameBothWays(16);
    ModbusReversed();
    RightCheck(MODBUS, 0xECD2, 0x4B37);
  }

  lemma ModbusReversed()
    ensures Reversal(0xECD2, 0x4B37, 16)
  {
  }

  lemma Crc32Folds()
    ensures Folds(0xFFFFFFFF, 0x04C11DB7, 32, MIRRORED) == 0x9B63D02C
  {
    hide Byte, Folds;
    Traced(0xFFFFFFFF, 0x04C11DB7, 32, 0x8000_0000, 0xFFFF_FFFF, 0x8C, 0x73FFFFFF, 0xE7FFFFFE, 0xCB3EE24B,
           0x92BCD921, 0x21B8AFF5, 0x43715FEA, 0x86E2BFD4, 0x0904621F, 0x1208C43E);
    Traced(0x1208C43E, 0x04C11DB7, 32, 0x8000_0000, 0xFFFF_FFFF, 0x4C, 0x5E08C43E, 0xBC11887C, 0x7CE20D4F,
           0xF9C41A9E, 0xF749288B, 0xEA534CA1, 0xD06784F5, 0xA40E145D, 0x4CDD350D);
    Traced(0x4CDD350D, 0x04C11DB7, 32, 0x8000_0000, 0xFFFF_FFFF, 0xCC, 0x80DD350D, 0x057B77AD, 0x0AF6EF5A,
           0x15EDDEB4, 0x2BDBBD68, 0x57B77AD0, 0xAF6EF5A0, 0x5A1CF6F7, 0xB439EDEE);
    Traced(0xB439EDEE, 0x04C11DB7, 32, 0x8000_0000, 0xFFFF_FFFF, 0x2C, 0x9839EDEE, 0x34B2C66B, 0x69658CD6,
           0xD2CB19AC, 0xA1572EEF, 0x466F4069, 0x8CDE80D2, 0x1D7C1C13, 0x3AF83826);
    Traced(0x3AF83826, 0x04C11DB7, 32, 0x8000_0000, 0xFFFF_FFFF, 0xAC, 0x96F83826, 0x29316DFB, 0x5262DBF6,
           0xA4C5B7EC, 0x4D4A726F, 0x9A94E4DE, 0x31E8D40B, 0x63D1A816, 0xC7A3502C);
    Traced(0xC7A3502C, 0x04C11DB7, 32, 0x8000_0000, 0xFFFF_FFFF, 0x6C, 0xABA3502C, 0x5387BDEF, 0xA70F7BDE,
           0x4ADFEA0B, 0x95BFD416, 0x2FBEB59B, 0x5F7D6B36, 0xBEFAD66C, 0x7934B16F);
    Traced(0x7934B16F, 0x04C11DB7, 32, 0x8000_0000, 0xFFFF_FFFF, 0xEC, 0x9534B16F, 0x2EA87F69, 0x5D50FED2,
           0xBAA1FDA4, 0x7182E6FF, 0xE305CDFE, 0xC2CA864B, 0x81541121, 0x06693FF5);
    Traced(0x06693FF5, 0x04C11DB7, 32, 0x8000_0000, 0xFFFF_FFFF, 0x1C, 0x1A693FF5, 0x34D27FEA, 0x69A4FFD4,
           0xD349FFA8, 0xA252E2E7, 0x4064D879, 0x80C9B0F2, 0x05527C53, 0x0AA4F8A6);
    Traced(0x0AA4F8A6, 0x04C11DB7, 32, 0x8000_0000, 0xFFFF_FFFF, 0x9C, 0x96A4F8A6, 0x2988ECFB, 0x5311D9F6,
           0xA623B3EC, 0x48867A6F, 0x910CF4DE, 0x26D8F40B, 0x4DB1E816, 0x9B63D02C);
    var vs: seq<bv64> := [0xFFFFFFFF, 0x1208C43E, 0x4CDD350D, 0xB439EDEE, 0x3AF83826, 0xC7A3502C, 0x7934B16F,
                          0x06693FF5, 0x0AA4F8A6, 0x9B63D02C];
    FoldsChain(0x04C11DB7, 32, MIRRORED, vs);
  }

  lemma Crc32Check()
    ensures Checksum(CRC32, Octets(NINE_DIGITS)) == Bits(0xCBF43926)
  {
    hide Checksum, Folds, AllOctets, Spells, Bits, Octets, Reversal, Reflected;
    Crc32Folds();
    Constants(0x04C11DB7, 32);
    DigitOctets();
    LeftCheck(Plain(CRC32), 0x04C11DB7, 0xFFFFFFFF, 0xFFFFFFFF, MirrorAll(Octets(NINE_DIGITS)), MIRRORED, 0x649C2FD3);
    SameBothWays(32);
    Crc32Reversed();
    RightCheck(CRC32, 0x649C2FD3, 0xCBF43926);
  }

  lemma Crc32Reversed()
    ensures Reversal(0x649C2FD3, 0xCBF43926, 32)
  {
  }

  lemma Crc32CFolds()
    ensures Folds(0xFFFFFFFF, 0x1EDC6F41, 32, MIRRORED) == 0x3EB69F38
  {
    hide Byte, Folds;
    Traced(0xFFFFFFFF, 0x1EDC6F41, 32, 0x8000_0000, 0xFFFF_FFFF, 0x8C, 0x73FFFFFF, 0xE7FFFFFE, 0xD12390BD,
           0xBC9B4E3B, 0x67EAF337, 0xCFD5E66E, 0x8177A39D, 0x1C33287B, 0x386650F6);
    Traced(0x386650F6, 0x1EDC6F41, 32, 0x8000_0000, 0xFFFF_FFFF, 0x4C, 0x746650F6, 0xE8CCA1EC, 0xCF452C99,
           0x80563673, 0x1E7003A7, 0x3CE0074E, 0x79C00E9C, 0xF3801D38, 0xF9DC5531);
    Traced(0xF9DC5531, 0x1EDC6F41, 32, 0x8000_0000, 0xFFFF_FFFF, 0xCC, 0x35DC5531, 0x6BB8AA62, 0xD77154C4,
           0xB03EC6C9, 0x7EA1E2D3, 0xFD43C5A6, 0xE45BE40D, 0xD66BA75B, 0xB20B21F7);
    Traced(0xB20B21F7, 0x1EDC6F41, 32, 0x8000_0000, 0xFFFF_FFFF, 0x2C, 0x9E0B21F7, 0x22CA2CAF, 0x4594595E,
           0x8B28B2BC, 0x088D0A39, 0x111A1472, 0x223428E4, 0x446851C8, 0x88D0A390);
    Traced(0x88D0A390, 0x1EDC6F41, 32, 0x8000_0000, 0xFFFF_FFFF, 0xAC, 0x24D0A390, 0x49A14720, 0x93428E40,
           0x385973C1, 0x70B2E782, 0xE165CF04, 0xDC17F149, 0xA6F38DD3, 0x533B74E7);
    Traced(0x533B74E7, 0x1EDC6F41, 32, 0x8000_0000, 0xFFFF_FFFF, 0x6C, 0x3F3B74E7, 0x7E76E9CE, 0xFCEDD39C,
           0xE707C879, 0xD0D3FFB3, 0xBF7B9027, 0x602B4F0F, 0xC0569E1E, 0x9E71537D);
    Traced(0x9E71537D, 0x1EDC6F41, 32, 0x8000_0000, 0xFFFF_FFFF, 0xEC, 0x7271537D, 0xE4E2A6FA, 0xD71922B5,
           0xB0EE2A2B, 0x7F003B17, 0xFE00762E, 0xE2DC831D, 0xDB65697B, 0xA816BDB7);
    Traced(0xA816BDB7, 0x1EDC6F41, 32, 0x8000_0000, 0xFFFF_FFFF, 0x1C, 0xB416BDB7, 0x76F1142F, 0xEDE2285E,
           0xC5183FFD, 0x94EC10BB, 0x37044E37, 0x6E089C6E, 0xDC1138DC, 0xA6FE1EF9);
    Traced(0xA6FE1EF9, 0x1EDC6F41, 32, 0x8000_0000, 0xFFFF_FFFF, 0x9C, 0x3AFE1EF9, 0x75FC3DF2, 0xEBF87BE4,
           0xC92C9889, 0x8C855E53, 0x07D6D3E7, 0x0FADA7CE, 0x1F5B4F9C, 0x3EB69F38);
    var vs: seq<bv64> := [0xFFFFFFFF, 0x386650F6, 0xF9DC5531, 0xB20B21F7, 0x88D0A390, 0x533B74E7, 0x9E71537D,
                          0xA816BDB7, 0xA6FE1EF9, 0x3EB69F38];
    FoldsChain(0x1EDC6F41, 32, MIRRORED, vs);
  }

  lemma Crc32CCheck()
    ensures Checksum(CRC32C, Octets(NINE_DIGITS)) == Bits(0xE3069283)
  {
    hide Checksum, Folds, AllOctets, Spells, Bits, Octets, Reversal, Reflected;
    Crc32CFolds();
    Constants(0x1EDC6F41, 32);
    DigitOctets();
    LeftCheck(Plain(CRC32C), 0x1EDC6F41, 0xFFFFFFFF, 0xFFFFFFFF, MirrorAll(Octets(NINE_DIGITS)), MIRRORED, 0xC14960C7);
    SameBothWays(32);
    Crc32CReversed();
    RightCheck(CRC32C, 0xC14960C7, 0xE3069283);
  }

  lemma Crc32CReversed()
    ensures Reversal(0xC14960C7, 0xE3069283, 32)
  {
  }

  /** All ten models on the nine digits. */
  lemma CheckValues()
    ensures Checksum(CRC32, Octets(NINE_DIGITS)) == Bits(0xCBF43926)
    ensures Checksum(CRC32C, Octets(NINE_DIGITS)) == Bits(0xE3069283)
    ensures Checksum(MPEG2, Octets(NINE_DIGITS)) == Bits(0x0376E6E7)
    ensures Checksum(BZIP2, Octets(NINE_DIGITS)) == Bits(0xFC891918)
    ensures Checksum(IBM, Octets(NINE_DIGITS)) == Bits(0xBB3D)
    ensures Checksum(MODBUS, Octets(NINE_DIGITS)) == Bits(0x4B37)
    ensures Checksum(CCITT_FALSE, Octets(NINE_DIGITS)) == Bits(0x29B1)
    ensures Checksum(XMODEM, Octets(NINE_DIGITS)) == Bits(0x31C3)
    ensures Checksum(KERMIT, Octets(NINE_DIGITS)) == Bits(0x2189)
    ensures Checksum(CRC8, Octets(NINE_DIGITS)) == Bits(0xF4)
  {
    hide Checksum, Bits, Octets;
    Crc32Check();
    Crc32CCheck();
    Mpeg2Check();
    Bzip2Check();
    IbmCheck();
    ModbusCheck();
    CcittFalseCheck();
    XmodemCheck();
    KermitCheck();
    Crc8Check();
  }
}
