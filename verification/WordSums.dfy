/**
  The 16-bit word sums of plugins/src/common_checksums.cpp: the Internet checksum (section 1 of
  RFC 1071) and Fletcher-32. Both pair up bytes and carry an odd byte from chunk to chunk.
 */
module WordSums {
  import opened Common
  import opened Streaming

  /** The big-endian word of a pair. */
  function PairWord(pair: seq<byte>): (w: int)
    ensures 0 <= w <= 0xFFFF
  {
    if |pair| < 2 then 0 else var hi: int, lo: int := pair[0], pair[1]; hi * 256 + lo
  }

  // ---------- pairing across chunks ----------

  class PairState<S> {
    const step: (S, seq<byte>) -> S
    const start: S
    var sums: S
    var haveOdd: bool
    var odd: byte

    ghost var absorbed: seq<byte>
    ghost var paired: seq<byte>

    ghost predicate Valid()
      reads this
    {
      && Whole(2, |paired|) && sums == Folded(step, 2, start, paired)
      && absorbed == paired + if haveOdd then [odd] else []
    }

    constructor (step: (S, seq<byte>) -> S, start: S)
      ensures Valid() && absorbed == [] && this.step == step && this.start == start
    {
      this.step, this.start, sums, haveOdd, odd := step, start, start, false, 0;
      absorbed, paired := [], [];
    }

    /** A word formed by a byte left over from before and the next one, or by the next two. */
    method Pair(pair: seq<byte>)
      requires Valid() && |pair| == 2 && (haveOdd ==> pair[0] == odd)
      modifies this
      ensures Valid() && !haveOdd
      ensures absorbed == old(absorbed) + if old(haveOdd) then [pair[1]] else pair
    {
      FoldedBlock(step, 2, start, paired, pair);
      assert haveOdd ==> pair == [odd] + [pair[1]];
      sums, haveOdd := step(sums, pair), false;
      paired := paired + pair;
      absorbed := paired;
    }

    method Update(bytes: seq<byte>)
      requires Valid()
      modifies this
      ensures Valid() && absorbed == old(absorbed) + bytes
    {
      hide Folded, Whole;
      var i := 0;
      while i < |bytes|
        invariant Valid() && 0 <= i <= |bytes| && absorbed == old(absorbed) + bytes[..i]
      {
        if haveOdd {
          assert bytes[..i + 1] == bytes[..i] + [bytes[i]];
          Pair([odd, bytes[i]]);
          i := i + 1;
        } else if i + 1 < |bytes| {
          assert bytes[..i + 2] == bytes[..i] + [bytes[i], bytes[i + 1]];
          Pair([bytes[i], bytes[i + 1]]);
          i := i + 2;
        } else {
          assert bytes[..i + 1] == bytes[..i] + [bytes[i]];
          odd, haveOdd := bytes[i], true;
          absorbed := absorbed + [odd];
          i := i + 1;
        }
      }
      assert bytes[..i] == bytes;
    }

    lemma OneShot()
      requires Valid()
      ensures sums == Folded(step, 2, start, absorbed)
      ensures Remainder(2, absorbed) == if haveOdd then [odd] else []
    {
      FoldedTail(step, 2, start, paired, if haveOdd then [odd] else []);
    }
  }

  /** Every chunk of a content, in order. */
  method Absorb<S>(state: PairState<S>, chunks: seq<seq<byte>>)
    requires state.Valid() && state.absorbed == []
    modifies state
    ensures state.Valid() && state.absorbed == Flatten(chunks)
  {
    for i := 0 to |chunks|
      invariant state.Valid() && state.absorbed == Flatten(chunks[..i])
    {
      FlattenOne(chunks[..i], chunks[i]);
      assert chunks[..i + 1] == chunks[..i] + [chunks[i]];
      state.Update(chunks[i]);
    }
    assert chunks[..|chunks|] == chunks;
  }

  // ---------- the Internet checksum ----------

  /** End-around carry, once. */
  function FoldCarry(s: int): int { s % 65536 + s / 65536 }

  function AddWord(sum: int, pair: seq<byte>): int { FoldCarry(sum + PairWord(pair)) }

  function LastByte(tail: seq<byte>): (x: int)
    ensures 0 <= x <= 0xFF00
  { if |tail| == 1 then tail[0] as int * 256 else 0 }

  /** Sum of all words, an odd last byte counting as a high byte; no carries. */
  ghost function WordTotal(data: seq<byte>): (t: int)
    ensures t >= 0
  {
    if |data| < 2 then LastByte(data) else PairWord(data[..2]) + WordTotal(data[2..])
  }

  /** Residue of a total under ones' complement addition: zero only for zero. */
  function Residue(t: int): (r: int)
    ensures t >= 0 ==> 0 <= r <= 0xFFFF && (r == 0 <==> t == 0)
  {
    if t == 0 then 0 else 1 + (t - 1) % 65535
  }

  /** The checksum by its meaning: the complement of the ones' complement sum of the words. */
  ghost function Internet(data: seq<byte>): int { 0xFFFF - Residue(WordTotal(data)) }

  lemma ResidueStep(t: int, w: int)
    requires t >= 0 && 0 <= w <= 0xFFFF
    ensures FoldCarry(Residue(t) + w) == Residue(t + w)
  {
    if t > 0 {
      ResidueShift(t, w);
    }
  }

  lemma ResidueShift(t: int, w: int)
    requires t > 0 && 0 <= w <= 0xFFFF
    ensures Residue(t + w) == if Residue(t) + w <= 0xFFFF then Residue(t) + w else Residue(t) + w - 65535
  {
    var q, b := (t - 1) / 65535, (t - 1) % 65535;
    assert t - 1 == 65535 * q + b;
    if b + w < 65535 {
      assert (t + w - 1) == 65535 * q + (b + w);
    } else {
      assert (t + w - 1) == 65535 * (q + 1) + (b + w - 65535);
    }
  }

  /** The running sum stays within 16 bits and is the residue of the words so far. */
  lemma {:induction false} RunningSum(t: int, data: seq<byte>)
    requires t >= 0
    ensures 0 <= Folded(AddWord, 2, Residue(t), data) <= 0xFFFF
    ensures FoldCarry(Folded(AddWord, 2, Residue(t), data) + LastByte(Remainder(2, data)))
            == Residue(t + WordTotal(data))
    decreases |data|
  {
    hide FoldCarry, Residue, LastByte, PairWord;
    if |data| < 2 {
      ResidueStep(t, LastByte(data));
    } else {
      var w := PairWord(data[..2]);
      ResidueStep(t, w);
      RunningSum(t + w, data[2..]);
      assert AddWord(Residue(t), data[..2]) == Residue(t + w);
    }
  }

  method InternetChecksum(content: seq<byte>, preferred: int, granted: (int, int) -> int, poll: nat -> bool)
    returns (r: Option<int>)
    ensures r.Some? ==> r.value == Internet(content)
    ensures GoodReader(granted) && NeverCancels(poll) ==> r.Some?
  {
    hide FoldCarry, Residue, WordTotal, Folded;
    var ok, chunks := ForEachChunk(content, preferred, granted, poll);
    if !ok { return None; }
    var state := new PairState<int>(AddWord, 0);
    Absorb(state, chunks);
    state.OneShot();
    NoTotal();
    RunningSum(0, content);
    var sum := state.sums;
    if state.haveOdd { sum := sum + state.odd as int * 256; }
    Settled(sum, WordTotal(content));
    sum := Settle(sum);
    r := Some(0xFFFF - sum);
  }

  lemma NoTotal()
    ensures Residue(0) == 0
  {
  }

  /** The closing loop `while (sum >> 16)`. */
  method Settle(sum0: int) returns (sum: int)
    requires 0 <= sum0 <= 0x1FFFE
    ensures sum == if sum0 <= 0xFFFF then sum0 else FoldCarry(sum0)
  {
    sum := sum0;
    while sum / 65536 != 0
      invariant 0 <= sum <= 0x1FFFE && (sum == sum0 || (sum0 > 0xFFFF && sum == FoldCarry(sum0) <= 0xFFFF))
      decreases sum
    {
      sum := FoldCarry(sum);
    }
  }

  lemma Settled(sum: int, total: int)
    requires 0 <= sum <= 0x1FFFE && FoldCarry(sum) == Residue(total)
    ensures sum <= 0xFFFF ==> sum == FoldCarry(sum)
  {
  }

  // ---------- what the Internet checksum guarantees ----------

  /** A receiver that sums an even-length message together with its checksum gets zero. */
  lemma {:induction false} ChecksumVerifies(data: seq<byte>)
    requires |data| % 2 == 0
    ensures var c := Internet(data); 0 <= c <= 0xFFFF && Internet(data + [c / 256, c % 256]) == 0
  {
    var c := Internet(data);
    var t := WordTotal(data);
    TotalAppend(data, [c / 256, c % 256]);
    assert PairWord([c / 256, c % 256]) == c;
    assert WordTotal([c / 256, c % 256]) == c by {
      assert [c / 256, c % 256][..2] == [c / 256, c % 256];
      assert WordTotal([c / 256, c % 256][2..]) == 0;
    }
    if t > 0 {
      ResidueShift(t, c);
    }
  }

  lemma {:induction false} TotalAppend(a: seq<byte>, b: seq<byte>)
    requires |a| % 2 == 0
    ensures WordTotal(a + b) == WordTotal(a) + WordTotal(b)
  {
    if a == [] {
      assert a + b == b;
    } else {
      TotalAppend(a[2..], b);
      assert (a + b)[..2] == a[..2] && (a + b)[2..] == a[2..] + b;
    }
  }

  /** A message given as words. */
  function WordBytes(words: seq<int>): (data: seq<byte>)
    ensures |data| == 2 * |words|
  {
    if words == [] then [] else [words[0] / 256 % 256, words[0] % 256] + WordBytes(words[1..])
  }

  ghost function Sum(words: seq<int>): int {
    if words == [] then 0 else words[0] + Sum(words[1..])
  }

  lemma {:induction false} TotalOfWords(words: seq<int>)
    requires forall i :: 0 <= i < |words| ==> 0 <= words[i] <= 0xFFFF
    ensures WordTotal(WordBytes(words)) == Sum(words)
  {
    if words != [] {
      var data := WordBytes(words);
      TotalOfWords(words[1..]);
      assert data[..2] == [words[0] / 256 % 256, words[0] % 256];
      assert data[2..] == WordBytes(words[1..]);
    }
  }

  lemma {:induction false} SumWithout(words: seq<int>, i: nat)
    requires i < |words|
    ensures Sum(words) == words[i] + Sum(words[..i] + words[i + 1..])
  {
    var rest := words[..i] + words[i + 1..];
    if i == 0 {
      assert rest == words[1..];
    } else {
      SumWithout(words[1..], i - 1);
      assert rest[1..] == words[1..][..i - 1] + words[1..][i..];
    }
  }

  lemma {:induction false} SumOfPermutation(a: seq<int>, b: seq<int>)
    requires multiset(a) == multiset(b)
    ensures Sum(a) == Sum(b)
  {
    if a == [] {
      assert |multiset(b)| == 0;
    } else {
      assert a[0] in multiset(b);
      var i :| 0 <= i < |b| && b[i] == a[0];
      var rest := b[..i] + b[i + 1..];
      assert multiset(a) == multiset{a[0]} + multiset(a[1..]) by { assert a == [a[0]] + a[1..]; }
      assert multiset(b) == multiset{b[i]} + multiset(rest) by {
        assert b == b[..i] + ([b[i]] + b[i + 1..]);
      }
      assert multiset(a[1..]) == multiset(a) - multiset{a[0]};
      assert multiset(rest) == multiset(b) - multiset{b[i]};
      SumOfPermutation(a[1..], rest);
      SumWithout(b, i);
    }
  }

  /** The order of the words does not matter. */
  lemma WordOrderDoesNotMatter(a: seq<int>, b: seq<int>)
    requires multiset(a) == multiset(b) && forall i :: 0 <= i < |a| ==> 0 <= a[i] <= 0xFFFF
    ensures Internet(WordBytes(a)) == Internet(WordBytes(b))
  {
    forall i | 0 <= i < |b| ensures 0 <= b[i] <= 0xFFFF {
      assert b[i] in multiset(b);
      assert b[i] in a;
    }
    TotalOfWords(a);
    TotalOfWords(b);
    SumOfPermutation(a, b);
  }

  // ---------- Fletcher-32 ----------

  datatype Sums = Sums(a: int, b: int)

  function FletcherStep(s: Sums, pair: seq<byte>): Sums {
    var a := (s.a + PairWord(pair)) % 65535;
    Sums(a, (s.b + a) % 65535)
  }

  /** The two sums without any reduction: the words, and their running totals. */
  function PlainStep(s: Sums, pair: seq<byte>): Sums {
    Sums(s.a + PairWord(pair), s.b + (s.a + PairWord(pair)))
  }

  function Reduced(s: Sums): Sums { Sums(s.a % 65535, s.b % 65535) }

  function Closed(s: Sums, tail: seq<byte>, step: (Sums, seq<byte>) -> Sums): Sums {
    if |tail| == 1 then step(s, [tail[0], 0]) else s
  }

  /** Fletcher-32 by its meaning: plain sums of the zero-padded words, reduced once at the end. */
  ghost function Fletcher32(data: seq<byte>): int {
    var s := Reduced(Closed(Folded(PlainStep, 2, Sums(0, 0), data), Remainder(2, data), PlainStep));
    s.b * 65536 + s.a
  }

  lemma ReducedStep(s: Sums, pair: seq<byte>)
    ensures FletcherStep(Reduced(s), pair) == Reduced(PlainStep(s, pair))
  {
    hide PairWord;
    ModSum(s.a, PairWord(pair));
    ModSum(s.b, (s.a + PairWord(pair)) % 65535);
    ModSum(s.a + PairWord(pair), s.b);
  }

  lemma ModSum(x: int, y: int)
    ensures (x % 65535 + y) % 65535 == (x + y) % 65535
  {
    var q := x / 65535;
    assert x % 65535 + y == x + y - 65535 * q;
  }

  lemma {:induction false} ReducedFold(s: Sums, data: seq<byte>)
    ensures Folded(FletcherStep, 2, Reduced(s), data) == Reduced(Folded(PlainStep, 2, s, data))
    decreases |data|
  {
    hide FletcherStep, PlainStep, Reduced;
    if |data| >= 2 {
      ReducedStep(s, data[..2]);
      ReducedFold(PlainStep(s, data[..2]), data[2..]);
    }
  }

  method Fletcher32Checksum(content: seq<byte>, preferred: int, granted: (int, int) -> int, poll: nat -> bool)
    returns (r: Option<int>)
    ensures r.Some? ==> r.value == Fletcher32(content)
    ensures GoodReader(granted) && NeverCancels(poll) ==> r.Some?
  {
    hide FletcherStep, PlainStep, Folded;
    var ok, chunks := ForEachChunk(content, preferred, granted, poll);
    if !ok { return None; }
    var state := new PairState<Sums>(FletcherStep, Sums(0, 0));
    Absorb(state, chunks);
    state.OneShot();
    ReducedFold(Sums(0, 0), content);
    ghost var plain := Folded(PlainStep, 2, Sums(0, 0), content);
    var s := state.sums;
    if state.haveOdd {
      ReducedStep(plain, [state.odd, 0]);
      s := FletcherStep(s, [state.odd, 0]);
    }
    r := Some(s.b * 65536 + s.a);
  }

  // ---------- both sums in closed form ----------

  /** The big-endian words of the content; an odd last byte is a high byte. */
  function WordsOf(data: seq<byte>): (words: seq<int>)
    ensures |words| == (|data| + 1) / 2
  {
    if data == [] then []
    else if |data| == 1 then [256 * data[0] as int]
    else [256 * data[0] as int + data[1] as int] + WordsOf(data[2..])
  }

  /** Every word times the number of words from it to the end. */
  ghost function Weighted(words: seq<int>): int {
    if words == [] then 0 else |words| * words[0] + Weighted(words[1..])
  }

  lemma {:induction false} TotalIsSum(data: seq<byte>)
    ensures WordTotal(data) == Sum(WordsOf(data))
    decreases |data|
  {
    if |data| >= 2 {
      TotalIsSum(data[2..]);
      assert WordsOf(data)[1..] == WordsOf(data[2..]);
    } else if |data| == 1 {
      assert WordsOf(data)[1..] == [];
    }
  }

  /** The Internet checksum is the complement of the sum of the words, reduced to 1 .. 65535 unless it is zero. */
  lemma InternetClosed(data: seq<byte>)
    ensures var t := Sum(WordsOf(data)); Internet(data) == 0xFFFF - if t == 0 then 0 else 1 + (t - 1) % 65535
  {
    TotalIsSum(data);
  }

  /** An odd content is summed as if a zero byte followed. */
  lemma {:induction false} OddIsPadded(data: seq<byte>)
    requires |data| % 2 == 1
    ensures WordsOf(data + [0]) == WordsOf(data)
    decreases |data|
  {
    if |data| == 1 {
      assert (data + [0])[2..] == [];
    } else {
      OddIsPadded(data[2..]);
      assert (data + [0])[2..] == data[2..] + [0];
    }
  }

  lemma OddInternet(data: seq<byte>)
    requires |data| % 2 == 1
    ensures Internet(data + [0]) == Internet(data)
  {
    OddIsPadded(data);
    TotalIsSum(data);
    TotalIsSum(data + [0]);
  }

  /** The plain sums after a content, from any sums before it. */
  lemma {:induction false} PlainClosed(s: Sums, data: seq<byte>)
    ensures var w := WordsOf(data);
            Closed(Folded(PlainStep, 2, s, data), Remainder(2, data), PlainStep) ==
            Sums(s.a + Sum(w), s.b + |w| * s.a + Weighted(w))
    decreases |data|
  {
    if |data| == 1 {
      assert WordsOf(data)[1..] == [];
      assert PairWord([data[0], 0]) == 256 * data[0] as int;
    } else if |data| >= 2 {
      var w, rest := WordsOf(data), WordsOf(data[2..]);
      var next := PlainStep(s, data[..2]);
      PlainClosed(next, data[2..]);
      assert w[1..] == rest && next == Sums(s.a + w[0], s.b + (s.a + w[0]));
      Distributes(|rest|, s.a, w[0]);
    }
  }

  lemma Distributes(n: int, a: int, b: int)
    ensures n * (a + b) + (a + b) == (n + 1) * a + (n + 1) * b
  {
  }

  /** Fletcher-32: the sum of the words, and the sum of each times its distance from the end, modulo 65535. */
  lemma FletcherClosed(data: seq<byte>)
    ensures var w := WordsOf(data); Fletcher32(data) == Weighted(w) % 65535 * 65536 + Sum(w) % 65535
  {
    hide PlainStep, Folded, Closed;
    PlainClosed(Sums(0, 0), data);
  }

  lemma DigitWords()
    ensures WordsOf(NINE_DIGITS) == [0x3132, 0x3334, 0x3536, 0x3738, 0x3900]
  {
    var d := NINE_DIGITS;
    assert d[2..][2..] == d[4..] && d[4..][2..] == d[6..] && d[6..][2..] == d[8..];
    assert WordsOf(d[8..]) == [0x3900];
    assert WordsOf(d[6..]) == [0x3738] + WordsOf(d[8..]);
    assert WordsOf(d[4..]) == [0x3536] + WordsOf(d[6..]);
    assert WordsOf(d[2..]) == [0x3334] + WordsOf(d[4..]);
  }

  lemma DigitSums()
    ensures var w := [0x3132, 0x3334, 0x3536, 0x3738, 0x3900]; Sum(w) == 0x109D4 && Weighted(w) == 0x309DC
  {
  }

  /** What plugins/tests/transform_plugin_tests.cpp expects for the nine digits. */
  lemma CheckValues()
    ensures Internet(NINE_DIGITS) == 0xF62A && Fletcher32(NINE_DIGITS) == 0x09DF09D5
  {
    hide Internet, Fletcher32, Sum, Weighted, WordsOf;
    DigitWords();
    DigitSums();
    InternetClosed(NINE_DIGITS);
    FletcherClosed(NINE_DIGITS);
  }
}
