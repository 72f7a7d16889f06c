/** Big-endian bit strings of integers, the vocabulary in which section 6 of RFC 4648 is written. */
module Bits {
  import opened Common

  /** The low `n` bits of `x`, most significant first. */
  function LowBits(x: int, n: nat): (bits: seq<bool>)
    ensures |bits| == n
    decreases n
  {
    if n == 0 then [] else LowBits(x / 2, n - 1) + [x % 2 == 1]
  }

  /** `x >> n` and `x << n` without a width. */
  function Shr(x: int, n: nat): int
    decreases n
  {
    if n == 0 then x else Shr(x / 2, n - 1)
  }

  function Shl(x: int, n: nat): int
    decreases n
  {
    if n == 0 then x else 2 * Shl(x, n - 1)
  }

  /** The number a bit string denotes, most significant bit first. */
  function Number(bits: seq<bool>): (x: int)
    ensures x >= 0
  {
    if bits == [] then 0
    else 2 * Number(bits[..|bits| - 1]) + (if bits[|bits| - 1] then 1 else 0)
  }

  lemma {:induction false} SplitLow(x: int, n: nat, m: nat)
    requires m <= n
    ensures LowBits(x, n) == LowBits(Shr(x, m), n - m) + LowBits(x, m)
    decreases n
  {
    if m > 0 {
      SplitLow(x / 2, n - 1, m - 1);
    }
  }

  /** Adding a multiple of 2^k leaves the low k bits alone. */
  lemma {:induction false} HighBitsIgnored(x: int, q: int, n: nat, k: nat)
    requires n <= k
    ensures LowBits(x + Shl(q, k), n) == LowBits(x, n)
    decreases n
  {
    if n > 0 {
      HighBitsIgnored(x / 2, q, n - 1, k - 1);
      assert (x + Shl(q, k)) / 2 == x / 2 + Shl(q, k - 1);
    }
  }

  lemma {:induction false} ShlSum(x: int, m: nat, n: nat)
    ensures Shl(Shl(x, m), n) == Shl(x, m + n)
    decreases n
  {
    if n > 0 {
      ShlSum(x, m, n - 1);
    }
  }

  lemma Shl5(x: int)
    ensures Shl(x, 5) == 32 * x
  {
    assert Shl(x, 1) == 2 * x;
    assert Shl(x, 2) == 4 * x;
    assert Shl(x, 3) == 8 * x;
    assert Shl(x, 4) == 16 * x;
  }

  lemma Shl8(x: int)
    ensures Shl(x, 8) == 256 * x
  {
    Shl5(x);
    assert Shl(x, 6) == 64 * x;
    assert Shl(x, 7) == 128 * x;
  }

  lemma Shl32(x: int)
    ensures Shl(x, 32) == TWO32 * x
  {
    Shl8(x);
    Shl8(256 * x);
    Shl8(65536 * x);
    Shl8(16777216 * x);
    ShlSum(x, 8, 8);
    ShlSum(x, 16, 8);
    ShlSum(x, 24, 8);
  }

  /** A 32-bit word keeps the low bits of the number it truncates. */
  lemma Truncated(x: int, b: int, n: nat)
    requires n <= 32
    ensures LowBits(x % TWO32 + b, n) == LowBits(x + b, n)
  {
    hide LowBits, Shl;
    Shl32(x / TWO32);
    HighBitsIgnored(x % TWO32 + b, x / TWO32, n, 32);
  }

  /** A number is its low bits and the rest shifted back. */
  lemma {:induction false} Recompose(x: int, n: nat)
    ensures x == Number(LowBits(x, n)) + Shl(Shr(x, n), n)
    ensures Number(LowBits(x, n)) < Shl(1, n)
    decreases n
  {
    if n > 0 {
      Recompose(x / 2, n - 1);
      assert LowBits(x, n)[..n - 1] == LowBits(x / 2, n - 1);
    }
  }

  lemma NumberOfFive(x: int)
    ensures Number(LowBits(x, 5)) == x % 32
  {
    hide *;
    Recompose(x, 5);
    Shl5(1);
    Shl5(Shr(x, 5));
  }

  lemma NumberOfEight(x: int)
    ensures Number(LowBits(x, 8)) == x % 256
  {
    hide *;
    Recompose(x, 8);
    Shl8(1);
    Shl8(Shr(x, 8));
  }

  lemma {:induction false} BitsOfNumber(bits: seq<bool>)
    ensures LowBits(Number(bits), |bits|) == bits
  {
    if bits != [] {
      BitsOfNumber(bits[..|bits| - 1]);
      assert bits == bits[..|bits| - 1] + [bits[|bits| - 1]];
    }
  }

  /** Shifting `m` bits in at the bottom. */
  lemma {:induction false} ShiftIn(a: int, b: int, n: nat, m: nat)
    requires 0 <= b < Shl(1, m)
    ensures LowBits(Shl(a, m) + b, n + m) == LowBits(a, n) + LowBits(b, m)
    decreases m
  {
    if m > 0 {
      ShiftIn(a, b / 2, n, m - 1);
      assert (Shl(a, m) + b) / 2 == Shl(a, m - 1) + b / 2;
      assert (Shl(a, m) + b) % 2 == b % 2;
    }
  }

  lemma Shl6(x: int)
    ensures Shl(x, 6) == 64 * x
  {
    Shl5(x);
  }

  /** The low six bits, and what stands above them. */
  lemma SixBits(c: int, n: nat)
    requires c >= 0
    ensures LowBits(c, n + 6) == LowBits(c / 64, n) + LowBits(c % 64, 6)
  {
    hide LowBits, Shl;
    Shl6(c / 64);
    Shl6(1);
    ShiftIn(c / 64, c % 64, n, 6);
  }

  // ---------- strings of fixed-size symbols ----------

  /** The bits of a string of `width`-bit symbols. */
  function Concat(symbols: seq<int>, width: nat): seq<bool> {
    if symbols == [] then [] else LowBits(symbols[0], width) + Concat(symbols[1..], width)
  }

  /** Whole symbols only: bits left over at the end are dropped. */
  function Whole(bits: seq<bool>, width: nat): seq<int>
    requires width > 0
  {
    if |bits| < width then [] else [Number(bits[..width])] + Whole(bits[width..], width)
  }

  /** Symbols with the last one filled up with zero bits. */
  function Filled(bits: seq<bool>, width: nat): seq<int>
    requires width > 0
  {
    if bits == [] then []
    else if |bits| < width then [Number(bits + Repeat(false, width - |bits|))]
    else [Number(bits[..width])] + Filled(bits[width..], width)
  }

  /** Filling loses nothing: the symbols spell the bits and fewer than `width` zeros. */
  lemma {:induction false} ConcatFilled(bits: seq<bool>, width: nat)
    requires width > 0
    ensures exists pad: nat :: pad < width && Concat(Filled(bits, width), width) == bits + Repeat(false, pad)
  {
    hide LowBits, Number;
    if bits == [] {
      assert Concat(Filled(bits, width), width) == bits + Repeat(false, 0);
    } else if |bits| < width {
      var pad := width - |bits|;
      var all := bits + Repeat(false, pad);
      BitsOfNumber(all);
      assert Filled(bits, width) == [Number(all)];
      assert Concat([Number(all)], width) == LowBits(Number(all), width) + Concat([], width);
      assert Concat(Filled(bits, width), width) == bits + Repeat(false, pad);
    } else {
      ConcatFilled(bits[width..], width);
      var pad: nat :| pad < width && Concat(Filled(bits[width..], width), width) == bits[width..] + Repeat(false, pad);
      BitsOfNumber(bits[..width]);
      assert Filled(bits, width)[1..] == Filled(bits[width..], width);
      assert bits == bits[..width] + bits[width..];
      assert Concat(Filled(bits, width), width) == bits + Repeat(false, pad);
    }
  }

  /** Reading bytes back, when fewer than eight bits follow them. */
  lemma {:induction false} WholeConcat(bytes: seq<byte>, tail: seq<bool>)
    requires |tail| < 8
    ensures Whole(Concat(bytes, 8) + tail, 8) == bytes
  {
    hide LowBits, Number;
    var bits := Concat(bytes, 8) + tail;
    if bytes != [] {
      WholeConcat(bytes[1..], tail);
      NumberOfEight(bytes[0]);
      assert bits[..8] == LowBits(bytes[0], 8);
      assert bits[8..] == Concat(bytes[1..], 8) + tail;
    }
  }
}
