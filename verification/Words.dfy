/** 32- and 64-bit unsigned arithmetic of the hashes, on bit vectors, which wrap as the source's integers do. */
module Words {
  import opened Common

  /** The length counter of a hash: bytes seen, modulo 2^64. */
  function Wrap64(x: int): (r: int)
    ensures 0 <= r < TWO64
  { x % TWO64 }

  lemma Wrap64Sum(a: int, b: int)
    ensures Wrap64(Wrap64(a) + b) == Wrap64(a + b)
  {
  }

  function Low32(length: nat): bv32 { (length % TWO32) as bv32 }

  function Low64(length: nat): bv64 { (length % TWO64) as bv64 }

  function Read32le(s: seq<byte>): bv32
    requires |s| >= 4
  { Joined(s[0], s[1], s[2], s[3]) }

  function Joined(a: byte, b: byte, c: byte, d: byte): bv32 {
    (a as bv32) | ((b as bv32) << 8) | ((c as bv32) << 16) | ((d as bv32) << 24)
  }

  function Read64le(s: seq<byte>): bv64
    requires |s| >= 8
  { Wide(Read32le(s), Read32le(s[4..])) }

  function Wide(low: bv32, high: bv32): bv64 { (low as bv64) | ((high as bv64) << 32) }
}
