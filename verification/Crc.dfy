/**
  The CRC engine of plugins/src/common_checksums.cpp. A 64-bit word is its sequence of bits, bit i
  at index i, so that shifts and masks are moves of that sequence. One loop serves the
  most-significant-bit-first models and another the reflected ones; the two are mirror images.
 */
module Crc {
  import opened Common
  import opened Streaming

  type Word = s: seq<bool> | |s| == 64 witness Repeat(false, 64)
  type Octet = s: seq<bool> | |s| == 8 witness Repeat(false, 8)

  function Zero(): Word { Repeat(false, 64) }

  function Xor(a: Word, b: Word): (r: Word)
    ensures forall i :: 0 <= i < 64 ==> r[i] == (a[i] != b[i])
  { seq(64, i requires 0 <= i < 64 => a[i] != b[i]) }

  function ShiftLeft(a: Word): (r: Word)
    ensures !r[0] && forall i :: 1 <= i < 64 ==> r[i] == a[i - 1]
  { [false] + a[..63] }

  function ShiftRight(a: Word): (r: Word)
    ensures !r[63] && forall i :: 0 <= i < 63 ==> r[i] == a[i + 1]
  { a[1..] + [false] }

  /** The octet's bits at positions `at` and up. */
  function Placed(b: Octet, at: nat): (r: Word)
    requires at <= 56
    ensures forall i :: 0 <= i < 64 ==> r[i] == (at <= i < at + 8 && b[i - at])
  { seq(64, i requires 0 <= i < 64 => at <= i < at + 8 && b[i - at]) }

  /** `state & mask_for_width(width)`. */
  function Masked(a: Word, width: nat): (r: Word)
    ensures forall i :: 0 <= i < 64 ==> r[i] == (i < width && a[i])
  { seq(64, i requires 0 <= i < 64 => i < width && a[i]) }

  /** `reflect_bits`: the low `width` bits in reverse order. */
  function Reflected(a: Word, width: nat): (r: Word)
    requires width <= 64
    ensures forall i :: 0 <= i < 64 ==> r[i] == (i < width && a[width - 1 - i])
  { seq(64, i requires 0 <= i < 64 => i < width && a[width - 1 - i]) }

  function Mirror(b: Octet): (r: Octet)
    ensures forall i :: 0 <= i < 8 ==> r[i] == b[7 - i]
  { seq(8, i requires 0 <= i < 8 => b[7 - i]) }

  function MirrorAll(bytes: seq<Octet>): (r: seq<Octet>)
    ensures |r| == |bytes| && forall i :: 0 <= i < |r| ==> r[i] == Mirror(bytes[i])
  { seq(|bytes|, i requires 0 <= i < |bytes| => Mirror(bytes[i])) }

  method ReflectBits(value: Word, width: nat) returns (reflected: Word)
    requires width <= 64
    ensures reflected == Reflected(value, width)
  {
    reflected := Zero();
    for i := 0 to width
      invariant forall k :: 0 <= k < 64 ==> reflected[k] == (width - i <= k < width && value[width - 1 - k])
    {
      if value[i] { reflected := reflected[width - 1 - i := true]; }
    }
  }

  datatype Model = Model(width: nat, polynomial: Word, init: Word, xorOut: Word, refin: bool, refout: bool) {
    /** The widths for which the shifts of the source are defined. */
    predicate Valid() { 8 <= width <= 64 }
  }

  // ---------- one bit, one byte, a string ----------

  function StepLeft(s: Word, width: nat, polynomial: Word): Word
    requires 8 <= width <= 64
  {
    if s[width - 1] then Xor(ShiftLeft(s), polynomial) else ShiftLeft(s)
  }

  function StepRight(s: Word, width: nat, polynomial: Word): Word
    requires 8 <= width <= 64
  {
    if s[0] then Xor(ShiftRight(s), Reflected(polynomial, width)) else ShiftRight(s)
  }

  function Step(s: Word, m: Model): Word
    requires m.Valid()
  {
    if m.refin then StepRight(s, m.width, m.polynomial) else StepLeft(s, m.width, m.polynomial)
  }

  function Steps(s: Word, m: Model, n: nat): Word
    requires m.Valid()
    decreases n
  {
    if n == 0 then s else Steps(Step(s, m), m, n - 1)
  }

  function ByteStep(s: Word, m: Model, b: Octet): Word
    requires m.Valid()
  {
    Masked(Steps(Xor(s, Placed(b, if m.refin then 0 else m.width - 8)), m, 8), m.width)
  }

  function Updated(s: Word, m: Model, bytes: seq<Octet>): Word
    requires m.Valid()
    decreases |bytes|
  {
    if bytes == [] then s else Updated(ByteStep(s, m, bytes[0]), m, bytes[1..])
  }

  function Finalized(s: Word, m: Model): Word
    requires m.Valid()
  {
    Masked(Xor(if m.refin != m.refout then Reflected(s, m.width) else s, m.xorOut), m.width)
  }

  function Checksum(m: Model, bytes: seq<Octet>): Word
    requires m.Valid()
  {
    Finalized(Updated(m.init, m, bytes), m)
  }

  method Update(state0: Word, m: Model, bytes: seq<Octet>) returns (state: Word)
    requires m.Valid()
    ensures state == Updated(state0, m, bytes)
  {
    hide Xor, Step, Masked, Placed;
    state := state0;
    assert bytes[0..] == bytes;
    for i := 0 to |bytes|
      invariant Updated(state, m, bytes[i..]) == Updated(state0, m, bytes)
    {
      assert bytes[i..][1..] == bytes[i + 1..];
      ghost var goal := ByteStep(state, m, bytes[i]);
      state := Xor(state, Placed(bytes[i], if m.refin then 0 else m.width - 8));
      for bit := 0 to 8
        invariant Masked(Steps(state, m, 8 - bit), m.width) == goal
      {
        state := Step(state, m);
      }
      state := Masked(state, m.width);
    }
  }

  method Finalize(state0: Word, m: Model) returns (crc: Word)
    requires m.Valid()
    ensures crc == Finalized(state0, m)
  {
    var state := state0;
    if m.refin != m.refout { state := ReflectBits(state, m.width); }
    crc := Masked(Xor(state, m.xorOut), m.width);
  }

  /** Chunks: updating by a concatenation is updating twice. */
  lemma {:induction false} UpdatedAppend(s: Word, m: Model, a: seq<Octet>, b: seq<Octet>)
    requires m.Valid()
    ensures Updated(s, m, a + b) == Updated(Updated(s, m, a), m, b)
    decreases |a|
  {
    hide ByteStep;
    if a == [] {
      assert a + b == b;
    } else {
      UpdatedAppend(ByteStep(s, m, a[0]), m, a[1..], b);
      assert (a + b)[1..] == a[1..] + b;
    }
  }

  function UpdatedByChunks(s: Word, m: Model, chunks: seq<seq<Octet>>): Word
    requires m.Valid()
    decreases |chunks|
  {
    if chunks == [] then s else UpdatedByChunks(Updated(s, m, chunks[0]), m, chunks[1..])
  }

  /** Every way of cutting the content into chunks gives the checksum of the content. */
  lemma {:induction false} ChunksDoNotMatter(s: Word, m: Model, chunks: seq<seq<Octet>>)
    requires m.Valid()
    ensures UpdatedByChunks(s, m, chunks) == Updated(s, m, Flatten(chunks))
    decreases |chunks|
  {
    hide Updated;
    if chunks != [] {
      ChunksDoNotMatter(Updated(s, m, chunks[0]), m, chunks[1..]);
      UpdatedAppend(s, m, chunks[0], Flatten(chunks[1..]));
    } else {
      NoBytes(s, m);
    }
  }

  /** The bits of a byte, least significant first. */
  function BitsOf(b: byte): Octet {
    [b % 2 == 1, b / 2 % 2 == 1, b / 4 % 2 == 1, b / 8 % 2 == 1,
     b / 16 % 2 == 1, b / 32 % 2 == 1, b / 64 % 2 == 1, b / 128 % 2 == 1]
  }

  function Octets(bytes: seq<byte>): (r: seq<Octet>)
    ensures |r| == |bytes| && forall i :: 0 <= i < |r| ==> r[i] == BitsOf(bytes[i])
  { seq(|bytes|, i requires 0 <= i < |bytes| => BitsOf(bytes[i])) }

  lemma OctetsAppend(a: seq<byte>, b: seq<byte>)
    ensures Octets(a + b) == Octets(a) + Octets(b)
  {
    hide BitsOf;
  }

  /** The plugin's run: whatever the chunks, the result is the one-shot checksum of the content. */
  method Digest(content: seq<byte>, m: Model, preferred: int, granted: (int, int) -> int, poll: nat -> bool)
    returns (r: Option<Word>)
    requires m.Valid()
    ensures r.Some? ==> r.value == Checksum(m, Octets(content))
    ensures GoodReader(granted) && NeverCancels(poll) ==> r.Some?
  {
    hide Updated, Finalized, Octets, GoodReader;
    var ok, chunks := ForEachChunk(content, preferred, granted, poll);
    if !ok { return None; }
    var state := m.init;
    NoBytes(state, m);
    assert Octets([]) == [];
    for i := 0 to |chunks|
      invariant state == Updated(m.init, m, Octets(Flatten(chunks[..i])))
    {
      FlattenOne(chunks[..i], chunks[i]);
      assert chunks[..i + 1] == chunks[..i] + [chunks[i]];
      OctetsAppend(Flatten(chunks[..i]), chunks[i]);
      UpdatedAppend(m.init, m, Octets(Flatten(chunks[..i])), Octets(chunks[i]));
      state := Update(state, m, Octets(chunks[i]));
    }
    assert chunks[..|chunks|] == chunks;
    var crc := Finalize(state, m);
    r := Some(crc);
  }

  lemma NoBytes(s: Word, m: Model)
    requires m.Valid()
    ensures Updated(s, m, []) == s
  {
  }

  // ---------- the mirror ----------

  /** `r` holds the low `width` bits of `s` in reverse order, and nothing above them. */
  ghost predicate Mirrors(s: Word, r: Word, width: nat)
    requires width <= 64
  {
    forall i :: 0 <= i < 64 ==> r[i] == (i < width && s[width - 1 - i])
  }

  lemma MirrorsIsReflected(s: Word, r: Word, width: nat)
    requires width <= 64
    ensures Mirrors(s, r, width) <==> r == Reflected(s, width)
  {
  }

  function Left(m: Model): Model { m.(refin := false) }
  function Right(m: Model): Model { m.(refin := true) }

  lemma MirrorStep(s: Word, r: Word, m: Model)
    requires m.Valid() && Mirrors(s, r, m.width)
    ensures Mirrors(Step(s, Left(m)), Step(r, Right(m)), m.width)
  {
    var p := Reflected(m.polynomial, m.width);
    assert s[m.width - 1] == r[0];
    MirrorsIsReflected(m.polynomial, p, m.width);
    MirrorShift(s, r, m.width);
    MirrorXor(ShiftLeft(s), ShiftRight(r), m.polynomial, p, m.width);
    hide Mirrors, Xor, ShiftLeft, ShiftRight, Reflected;
  }

  lemma MirrorShift(s: Word, r: Word, width: nat)
    requires 8 <= width <= 64 && Mirrors(s, r, width)
    ensures Mirrors(ShiftLeft(s), ShiftRight(r), width)
  {
    var t, u := ShiftLeft(s), ShiftRight(r);
    forall i | 0 <= i < 64 ensures u[i] == (i < width && t[width - 1 - i]) {
      if i < 63 { assert u[i] == r[i + 1]; }
    }
  }

  lemma {:induction false} MirrorSteps(s: Word, r: Word, m: Model, n: nat)
    requires m.Valid() && Mirrors(s, r, m.width)
    ensures Mirrors(Steps(s, Left(m), n), Steps(r, Right(m), n), m.width)
    decreases n
  {
    hide Step, Mirrors;
    if n > 0 {
      MirrorStep(s, r, m);
      MirrorSteps(Step(s, Left(m)), Step(r, Right(m)), m, n - 1);
    }
  }

  lemma MirrorXor(s: Word, r: Word, t: Word, u: Word, width: nat)
    requires width <= 64 && Mirrors(s, r, width) && Mirrors(t, u, width)
    ensures Mirrors(Xor(s, t), Xor(r, u), width)
    ensures Mirrors(Masked(s, width), Masked(r, width), width)
  {
  }

  lemma MirrorPlaced(b: Octet, width: nat)
    requires 8 <= width <= 64
    ensures Mirrors(Placed(b, width - 8), Placed(Mirror(b), 0), width)
  {
  }

  lemma MirrorByte(s: Word, r: Word, m: Model, b: Octet)
    requires m.Valid() && Mirrors(s, r, m.width)
    ensures Mirrors(ByteStep(s, Left(m), b), ByteStep(r, Right(m), Mirror(b)), m.width)
  {
    hide Step, Steps, Mirrors, Xor, Placed, Masked;
    var t, u := Placed(b, m.width - 8), Placed(Mirror(b), 0);
    MirrorPlaced(b, m.width);
    MirrorXor(s, r, t, u, m.width);
    var x, y := Xor(s, t), Xor(r, u);
    MirrorSteps(x, y, m, 8);
    MirrorXor(Steps(x, Left(m), 8), Steps(y, Right(m), 8), t, u, m.width);
  }

  /**
    Duality: for every width, polynomial, state and byte string, the reflected loop on the
    reflected state and bit-reversed bytes gives the reflection of the other loop's result.
   */
  lemma {:induction false} Duality(s: Word, r: Word, m: Model, bytes: seq<Octet>)
    requires m.Valid() && r == Reflected(s, m.width)
    ensures Updated(r, Right(m), MirrorAll(bytes)) == Reflected(Updated(s, Left(m), bytes), m.width)
    decreases |bytes|
  {
    hide ByteStep, Mirrors, Reflected;
    if bytes != [] {
      MirrorsIsReflected(s, r, m.width);
      MirrorByte(s, r, m, bytes[0]);
      var s', r' := ByteStep(s, Left(m), bytes[0]), ByteStep(r, Right(m), Mirror(bytes[0]));
      MirrorsIsReflected(s', r', m.width);
      Duality(s', r', m, bytes[1..]);
      assert MirrorAll(bytes)[1..] == MirrorAll(bytes[1..]);
    }
  }

  /** The reflected twin of a model. */
  function Twin(m: Model): Model
    requires m.Valid()
  {
    Model(m.width, m.polynomial, Reflected(m.init, m.width), Reflected(m.xorOut, m.width), true, true)
  }

  /** Whole checksums: a model's twin sees mirrored bytes as the mirror of the model's result. */
  lemma TwinChecksum(m: Model, bytes: seq<Octet>)
    requires m.Valid() && !m.refin && !m.refout
    ensures Checksum(Twin(m), MirrorAll(bytes)) == Reflected(Checksum(m, bytes), m.width)
  {
    hide Updated, Xor, Masked, Reflected, Mirrors;
    var r := Reflected(m.init, m.width);
    Duality(m.init, r, m, bytes);
    SameLoop(r, Right(m), Twin(m), MirrorAll(bytes));
    assert Left(m) == m;
    var s := Updated(m.init, m, bytes);
    ReflectedXor(s, m.xorOut, m.width);
  }

  lemma ReflectedXor(a: Word, b: Word, width: nat)
    requires width <= 64
    ensures Masked(Xor(Reflected(a, width), Reflected(b, width)), width) == Reflected(Masked(Xor(a, b), width), width)
  {
  }

  /** The loop depends on the width, the polynomial and the direction only. */
  lemma {:induction false} SameLoop(s: Word, m: Model, m': Model, bytes: seq<Octet>)
    requires m.Valid() && m'.width == m.width && m'.polynomial == m.polynomial && m'.refin == m.refin
    ensures Updated(s, m', bytes) == Updated(s, m, bytes)
    decreases |bytes|
  {
    hide Xor, Masked, Placed, Step;
    if bytes != [] {
      SameSteps(Xor(s, Placed(bytes[0], if m.refin then 0 else m.width - 8)), m, m', 8);
      SameLoop(ByteStep(s, m, bytes[0]), m, m', bytes[1..]);
    }
  }

  lemma {:induction false} SameSteps(s: Word, m: Model, m': Model, n: nat)
    requires m.Valid() && m'.width == m.width && m'.polynomial == m.polynomial && m'.refin == m.refin
    ensures Steps(s, m', n) == Steps(s, m, n)
    decreases n
  {
    hide StepLeft, StepRight;
    if n > 0 {
      SameSteps(Step(s, m), m, m', n - 1);
    }
  }

  // ---------- bits above the width ----------

  ghost predicate AgreeBelow(s: Word, t: Word, width: nat) {
    forall i :: 0 <= i < 64 && i < width ==> s[i] == t[i]
  }

  lemma {:induction false} AgreeSteps(s: Word, t: Word, m: Model, n: nat)
    requires m.Valid() && !m.refin && AgreeBelow(s, t, m.width)
    ensures AgreeBelow(Steps(s, m, n), Steps(t, m, n), m.width)
    decreases n
  {
    if n > 0 {
      AgreeStep(s, t, m);
      hide Step, AgreeBelow;
      AgreeSteps(Step(s, m), Step(t, m), m, n - 1);
    }
  }

  lemma AgreeStep(s: Word, t: Word, m: Model)
    requires m.Valid() && !m.refin && AgreeBelow(s, t, m.width)
    ensures AgreeBelow(Step(s, m), Step(t, m), m.width)
  {
  }

  /** What the left-shifting loop leaves above the width inside a byte never reaches the result. */
  lemma HighBitsIgnored(s: Word, t: Word, m: Model, b: Octet)
    requires m.Valid() && !m.refin && AgreeBelow(s, t, m.width)
    ensures ByteStep(s, m, b) == ByteStep(t, m, b)
  {
    hide Steps;
    var p := Placed(b, m.width - 8);
    assert AgreeBelow(Xor(s, p), Xor(t, p), m.width);
    AgreeSteps(Xor(s, p), Xor(t, p), m, 8);
    MaskedAgree(Steps(Xor(s, p), m, 8), Steps(Xor(t, p), m, 8), m.width);
  }

  lemma MaskedAgree(s: Word, t: Word, width: nat)
    requires AgreeBelow(s, t, width)
    ensures Masked(s, width) == Masked(t, width)
  {
  }

  // ---------- a message followed by its own CRC ----------

  function TopByte(s: Word, width: nat): Octet
    requires 8 <= width <= 64
  { s[width - 8..width] }

  function Dropped(s: Word, width: nat): (r: Word)
    ensures forall i :: 0 <= i < 64 ==> r[i] == (8 <= i < width && s[i - 8])
  { seq(64, i requires 0 <= i < 64 => 8 <= i < width && s[i - 8]) }

  /** The register as bytes, most significant first. */
  function RegisterBytes(s: Word, width: nat, n: nat): seq<Octet>
    requires 8 <= width <= 64
    decreases n
  {
    if n == 0 then [] else [TopByte(s, width)] + RegisterBytes(Dropped(s, width), width, n - 1)
  }

  lemma {:induction false} QuietSteps(s: Word, m: Model, n: nat)
    requires m.Valid() && !m.refin && n <= 8 && forall i :: m.width - n <= i < m.width ==> !s[i]
    ensures forall i :: 0 <= i < m.width ==> Steps(s, m, n)[i] == (i >= n && s[i - n])
    decreases n
  {
    hide Step, ShiftLeft;
    if n > 0 {
      var t := ShiftLeft(s);
      QuietStep(s, m);
      QuietSteps(t, m, n - 1);
      assert Steps(s, m, n) == Steps(t, m, n - 1);
    }
  }

  lemma QuietStep(s: Word, m: Model)
    requires m.Valid() && !m.refin && !s[m.width - 1]
    ensures Step(s, m) == ShiftLeft(s)
  {
  }

  /** A register fed its own top byte just moves up: no feedback happens. */
  lemma FeedTop(s: Word, m: Model)
    requires m.Valid() && !m.refin
    ensures ByteStep(s, m, TopByte(s, m.width)) == Dropped(s, m.width)
  {
    hide Steps;
    var x := Xor(s, Placed(TopByte(s, m.width), m.width - 8));
    QuietSteps(x, m, 8);
  }

  lemma {:induction false} FlushToZero(s: Word, m: Model, zeros: nat, n: nat)
    requires m.Valid() && !m.refin && zeros + 8 * n >= m.width
    requires forall i :: 0 <= i < 64 && (i < zeros || i >= m.width) ==> !s[i]
    ensures Updated(s, m, RegisterBytes(s, m.width, n)) == Zero()
    decreases n
  {
    hide ByteStep;
    var bytes := RegisterBytes(s, m.width, n);
    if n > 0 {
      var t := Dropped(s, m.width);
      FeedTop(s, m);
      FlushToZero(t, m, zeros + 8, n - 1);
      assert bytes[1..] == RegisterBytes(t, m.width, n - 1);
    }
  }

  /** Appending the CRC bytes, most significant first, to any message leaves a zero register. */
  lemma Residue(s: Word, m: Model, message: seq<Octet>)
    requires m.Valid() && !m.refin && s == Masked(s, m.width)
    ensures var crc := Updated(s, m, message);
            Updated(s, m, message + RegisterBytes(crc, m.width, (m.width + 7) / 8)) == Zero()
  {
    hide Updated, RegisterBytes;
    var crc := Updated(s, m, message);
    UpdatedAppend(s, m, message, RegisterBytes(crc, m.width, (m.width + 7) / 8));
    UpdatedMasked(s, m, message);
    FlushToZero(crc, m, 0, (m.width + 7) / 8);
  }

  lemma {:induction false} UpdatedMasked(s: Word, m: Model, bytes: seq<Octet>)
    requires m.Valid() && s == Masked(s, m.width)
    ensures Updated(s, m, bytes) == Masked(Updated(s, m, bytes), m.width)
    decreases |bytes|
  {
    if bytes != [] {
      hide Steps, Xor, Placed;
      var t := ByteStep(s, m, bytes[0]);
      assert t == Masked(t, m.width);
      UpdatedMasked(t, m, bytes[1..]);
    }
  }

  // ---------- the models of the plugin ----------

  predicate Odd(v: bv64) { v & 1 == 1 }

  function Half(v: bv64): bv64 { v >> 1 }

  predicate Bit(v: bv64, i: nat)
    decreases i
  {
    if i == 0 then Odd(v) else Bit(Half(v), i - 1)
  }

  /** The word of a number, bit i at index i. */
  function Bits(v: bv64): Word { seq(64, i requires 0 <= i < 64 => Bit(v, i)) }

  /** `width` one bits, such as 0xFFFFFFFF for 32. */
  function Ones(width: nat): Word { seq(64, i requires 0 <= i < 64 => i < width) }

  const CRC32: Model := Model(32, Bits(0x04C11DB7), Ones(32), Ones(32), true, true)
  const CRC32C: Model := Model(32, Bits(0x1EDC6F41), Ones(32), Ones(32), true, true)
  const MPEG2: Model := Model(32, Bits(0x04C11DB7), Ones(32), Zero(), false, false)
  const BZIP2: Model := Model(32, Bits(0x04C11DB7), Ones(32), Ones(32), false, false)
  const IBM: Model := Model(16, Bits(0x8005), Zero(), Zero(), true, true)
  const MODBUS: Model := Model(16, Bits(0x8005), Ones(16), Zero(), true, true)
  const CCITT_FALSE: Model := Model(16, Bits(0x1021), Ones(16), Zero(), false, false)
  const XMODEM: Model := Model(16, Bits(0x1021), Zero(), Zero(), false, false)
  const KERMIT: Model := Model(16, Bits(0x1021), Zero(), Zero(), true, true)
  const CRC8: Model := Model(8, Bits(0x07), Zero(), Zero(), false, false)

  /** `crc_model_for`. */
  function ModelFor(algorithm: string): (m: Option<Model>)
    ensures m.Some? ==> m.value.Valid()
  {
    if algorithm == "crc32" then Some(CRC32)
    else if algorithm == "crc32c" then Some(CRC32C)
    else if algorithm == "crc32-mpeg2" then Some(MPEG2)
    else if algorithm == "crc32-bzip2" then Some(BZIP2)
    else if algorithm == "crc16-ibm" || algorithm == "crc16-arc" then Some(IBM)
    else if algorithm == "crc16-modbus" then Some(MODBUS)
    else if algorithm == "crc16-ccitt-false" then Some(CCITT_FALSE)
    else if algorithm == "crc16-xmodem" then Some(XMODEM)
    else if algorithm == "crc16-kermit" then Some(KERMIT)
    else if algorithm == "crc8" then Some(CRC8)
    else None
  }

  /** crc16-kermit mirrors crc16-xmodem, and crc32 mirrors crc32-bzip2. */
  lemma MirroredModels(bytes: seq<Octet>)
    ensures Checksum(KERMIT, MirrorAll(bytes)) == Reflected(Checksum(XMODEM, bytes), 16)
    ensures Checksum(CRC32, MirrorAll(bytes)) == Reflected(Checksum(BZIP2, bytes), 32)
  {
    hide Checksum, Bits;
    assert Reflected(Zero(), 16) == Zero();
    assert Reflected(Ones(32), 32) == Ones(32);
    TwinChecksum(XMODEM, bytes);
    TwinChecksum(BZIP2, bytes);
  }
}
