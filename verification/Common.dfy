/** Types and small arithmetic facts shared by the other modules. */
module Common {

  datatype Option<+T> = None | Some(value: T)

  /** One octet, `omega_byte_t` in the plugins. */
  type byte = i: int | 0 <= i < 256

  const TWO32: int := 0x1_0000_0000
  const TWO64: int := 0x1_0000_0000_0000_0000
  const INT64_MAX: int := 0x7FFF_FFFF_FFFF_FFFF

  function Least(a: int, b: int): int { if a < b then a else b }

  /** `std::isspace` in the C locale. */
  predicate IsSpace(b: byte) {
    b == 32 || 9 <= b <= 13
  }

  /** How often the codecs poll for cancellation (one poll every 4096 units of work). */
  const POLL_INTERVAL: nat := 4096

  /** The cancellation test made before unit of work number `work`; `poll` is the host's answer. */
  predicate Cancelled(poll: nat -> bool, work: nat) {
    work % POLL_INTERVAL == 0 && poll(work)
  }

  /** A host that never asks for cancellation. */
  ghost predicate NeverCancels(poll: nat -> bool) {
    forall n :: !poll(n)
  }

  function Pow(base: nat, exponent: nat): (p: nat)
    requires base >= 1
    ensures p >= 1
  {
    if exponent == 0 then 1 else base * Pow(base, exponent - 1)
  }

  function Repeat<T>(x: T, n: nat): (s: seq<T>)
    ensures |s| == n
    ensures forall i :: 0 <= i < n ==> s[i] == x
  {
    seq(n, _ => x)
  }

  function Reverse<T>(s: seq<T>): (r: seq<T>)
    ensures |r| == |s|
    ensures forall i :: 0 <= i < |s| ==> r[i] == s[|s| - 1 - i]
  {
    seq(|s|, i requires 0 <= i < |s| => s[|s| - 1 - i])
  }

  lemma ReverseTwice<T>(s: seq<T>)
    ensures Reverse(Reverse(s)) == s
  {
  }

  lemma Associates<T>(a: seq<T>, b: seq<T>, c: seq<T>)
    ensures a + (b + c) == a + b + c
  {
  }

  /** Concatenation of the pieces, in order. */
  function Flatten<T>(pieces: seq<seq<T>>): seq<T> {
    if pieces == [] then [] else pieces[0] + Flatten(pieces[1..])
  }

  lemma {:induction false} FlattenAppend<T>(a: seq<seq<T>>, b: seq<seq<T>>)
    ensures Flatten(a + b) == Flatten(a) + Flatten(b)
  {
    if a == [] {
      assert a + b == b;
    } else {
      assert (a + b)[1..] == a[1..] + b && (a + b)[0] == a[0];
      assert Flatten(a + b) == a[0] + Flatten(a[1..] + b) && Flatten(a) == a[0] + Flatten(a[1..]);
      hide Flatten;
      FlattenAppend(a[1..], b);
      Associates(a[0], Flatten(a[1..]), Flatten(b));
    }
  }

  lemma FlattenOne<T>(a: seq<seq<T>>, x: seq<T>)
    ensures Flatten(a + [x]) == Flatten(a) + x
  {
    FlattenAppend(a, [x]);
    assert Flatten([x]) == x + Flatten([x][1..]);
  }

  /** The text on which the tests of the plugin state every checksum: the digits from 1 to 9. */
  const NINE_DIGITS: seq<byte> := [0x31, 0x32, 0x33, 0x34, 0x35, 0x36, 0x37, 0x38, 0x39]
}
