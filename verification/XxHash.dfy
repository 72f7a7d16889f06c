/**
  xxHash32 and xxHash64 (plugins/src/common_checksums.cpp). Both keep four lanes and a buffer of one
  stripe, and differ in the stripe's size and arithmetic, so one state class serves both.
 */
module XxHash {
  import opened Common
  import opened Streaming
  import opened Words

  datatype Lanes<T> = Lanes(v1: T, v2: T, v3: T, v4: T)

  // ---------- 32 bits ----------

  const P1: bv32 := 2654435761
  const P2: bv32 := 2246822519
  const P3: bv32 := 3266489917
  const P4: bv32 := 668265263
  const P5: bv32 := 374761393

  const START32: Lanes<bv32> := Lanes(P1 + P2, P2, 0, 0 - P1)

  function Round32(acc: bv32, input: bv32): bv32 { (acc + input * P2).RotateLeft(13) * P1 }

  function Stripe32(v: Lanes<bv32>, s: seq<byte>): Lanes<bv32> {
    if |s| < 16 then v
    else Lanes(Round32(v.v1, Read32le(s)), Round32(v.v2, Read32le(s[4..])),
               Round32(v.v3, Read32le(s[8..])), Round32(v.v4, Read32le(s[12..])))
  }

  function Word32(h: bv32, word: bv32): bv32 { (h + word * P3).RotateLeft(17) * P4 }

  function Byte32(h: bv32, b: byte): bv32 { (h + (b as bv32) * P5).RotateLeft(11) * P1 }

  /** The words and then the bytes left in the buffer. */
  function Tail32(h: bv32, tail: seq<byte>): bv32
    decreases |tail|
  {
    if |tail| >= 4 then Tail32(Word32(h, Read32le(tail)), tail[4..])
    else if tail != [] then Tail32(Byte32(h, tail[0]), tail[1..])
    else h
  }

  function Avalanche32(h: bv32): bv32 {
    var a := (h ^ (h >> 15)) * P2;
    var b := (a ^ (a >> 13)) * P3;
    b ^ (b >> 16)
  }

  function Merged32(v: Lanes<bv32>, length: nat): bv32 {
    (if length >= 16 then Sum32(v) else P5) + Low32(length)
  }

  function Sum32(v: Lanes<bv32>): bv32 {
    v.v1.RotateLeft(1) + v.v2.RotateLeft(7) + v.v3.RotateLeft(12) + v.v4.RotateLeft(18)
  }

  ghost function Hash32(data: seq<byte>): bv32 {
    var length := Wrap64(|data|);
    Avalanche32(Tail32(Merged32(Folded(Stripe32, 16, START32, data), length), Remainder(16, data)))
  }

  // ---------- 64 bits ----------

  const Q1: bv64 := 11400714785074694791
  const Q2: bv64 := 14029467366897019727
  const Q3: bv64 := 1609587929392839161
  const Q4: bv64 := 9650029242287828579
  const Q5: bv64 := 2870177450012600261

  const START64: Lanes<bv64> := Lanes(Q1 + Q2, Q2, 0, 0 - Q1)

  function Round64(acc: bv64, input: bv64): bv64 { (acc + input * Q2).RotateLeft(31) * Q1 }

  function MergeRound64(acc: bv64, value: bv64): bv64 { Joined64(acc, Round64(0, value)) }

  function Joined64(acc: bv64, round: bv64): bv64 { (acc ^ round) * Q1 + Q4 }

  function Stripe64(v: Lanes<bv64>, s: seq<byte>): Lanes<bv64> {
    if |s| < 32 then v
    else Lanes(Round64(v.v1, Read64le(s)), Round64(v.v2, Read64le(s[8..])),
               Round64(v.v3, Read64le(s[16..])), Round64(v.v4, Read64le(s[24..])))
  }

  function Long64(h: bv64, word: bv64): bv64 { Turned64(h, Round64(0, word)) }

  function Turned64(h: bv64, round: bv64): bv64 { (h ^ round).RotateLeft(27) * Q1 + Q4 }

  function Word64(h: bv64, word: bv32): bv64 { (h ^ ((word as bv64) * Q1)).RotateLeft(23) * Q2 + Q3 }

  function Byte64(h: bv64, b: byte): bv64 { (h ^ ((b as bv64) * Q5)).RotateLeft(11) * Q1 }

  function Tail64(h: bv64, tail: seq<byte>): bv64
    decreases |tail|
  {
    if |tail| >= 8 then Tail64(Long64(h, Read64le(tail)), tail[8..])
    else if |tail| >= 4 then Tail64(Word64(h, Read32le(tail)), tail[4..])
    else if tail != [] then Tail64(Byte64(h, tail[0]), tail[1..])
    else h
  }

  function Avalanche64(h: bv64): bv64 {
    var a := (h ^ (h >> 33)) * Q2;
    var b := (a ^ (a >> 29)) * Q3;
    b ^ (b >> 32)
  }

  function Merged64(v: Lanes<bv64>, length: nat): bv64 {
    (if length >= 32 then
       MergeRound64(MergeRound64(MergeRound64(MergeRound64(Sum64(v), v.v1), v.v2), v.v3), v.v4)
     else Q5)
    + Low64(length)
  }

  function Sum64(v: Lanes<bv64>): bv64 {
    v.v1.RotateLeft(1) + v.v2.RotateLeft(7) + v.v3.RotateLeft(12) + v.v4.RotateLeft(18)
  }

  ghost function Hash64(data: seq<byte>): bv64 {
    var length := Wrap64(|data|);
    Avalanche64(Tail64(Merged64(Folded(Stripe64, 32, START64, data), length), Remainder(32, data)))
  }

  // ---------- the streaming state ----------

  class State<T> {
    const size: nat
    const stripe: (Lanes<T>, seq<byte>) -> Lanes<T>
    const start: Lanes<T>
    var lanes: Lanes<T>
    var length: nat
    const memory: array<byte>
    var memorySize: nat

    ghost var absorbed: seq<byte>
    ghost var stripes: seq<byte>

    ghost predicate Held()
      reads this`lanes, this`memorySize, this`stripes
    {
      && size > 0 && memory.Length == size && memorySize < size
      && Whole(size, |stripes|) && lanes == Folded(stripe, size, start, stripes)
    }

    /** Stripes and buffer together: the bytes seen so far, in order. */
    ghost function Seen(): seq<byte>
      reads this`lanes, this`memorySize, this`stripes, memory
      requires Held()
    {
      stripes + memory[..memorySize]
    }

    ghost predicate Valid()
      reads this, memory
    {
      Held() && absorbed == Seen() && length == Wrap64(|absorbed|)
    }

    constructor (size: nat, stripe: (Lanes<T>, seq<byte>) -> Lanes<T>, start: Lanes<T>)
      requires size > 0
      ensures Valid() && absorbed == [] && fresh(memory)
      ensures this.size == size && this.stripe == stripe && this.start == start
    {
      this.size, this.stripe, this.start := size, stripe, start;
      lanes, length, memorySize := start, 0, 0;
      memory := new byte[size](_ => 0);
      absorbed, stripes := [], [];
    }

    /** One stripe goes through the lanes, the buffer being empty or just used up. */
    method Stripe(block: seq<byte>)
      requires Held() && |block| == size
      modifies this`lanes, this`stripes, this`memorySize
      ensures Held() && memorySize == 0 && Seen() == old(stripes) + block
    {
      FoldedBlock(stripe, size, start, stripes, block);
      lanes, stripes := stripe(lanes, block), stripes + block;
      memorySize := 0;
      assert memory[..memorySize] == [];
    }

    /** `memcpy` to the end of the buffered bytes. */
    method Copy(at: nat, bytes: seq<byte>)
      requires at + |bytes| <= memory.Length
      modifies memory
      ensures memory[..at + |bytes|] == old(memory[..at]) + bytes
    {
      for i := 0 to |bytes|
        invariant memory[..at + i] == old(memory[..at]) + bytes[..i]
      {
        memory[at + i] := bytes[i];
        assert memory[..at + i + 1] == memory[..at + i] + [bytes[i]];
      }
      assert bytes[..|bytes|] == bytes;
    }

    method Buffer(bytes: seq<byte>)
      requires Held() && memorySize + |bytes| < size
      modifies this`memorySize, memory
      ensures Held() && Seen() == old(Seen()) + bytes
    {
      Copy(memorySize, bytes);
      memorySize := memorySize + |bytes|;
    }

    /** Completes a partly filled buffer; returns how many bytes that took. */
    method FillBuffer(bytes: seq<byte>) returns (index: nat)
      requires Held() && 0 < memorySize && memorySize + |bytes| >= size
      modifies this`lanes, this`stripes, this`memorySize, memory
      ensures Held() && memorySize == 0 && index <= |bytes| && Seen() == old(Seen()) + bytes[..index]
    {
      index := size - memorySize;
      Copy(memorySize, bytes[..index]);
      assert memory[..size] == memory[..];
      Stripe(memory[..]);
    }

    method Update(bytes: seq<byte>)
      requires Valid()
      modifies this, memory
      ensures Valid() && absorbed == old(absorbed) + bytes
    {
      hide Wrap64, Seen, Folded, Whole;
      Wrap64Sum(|absorbed|, |bytes|);
      length := Wrap64(length + |bytes|);
      absorbed := absorbed + bytes;
      if memorySize + |bytes| < size {
        Buffer(bytes);
        return;
      }
      if memorySize > 0 {
        var index := FillBuffer(bytes);
        TakeRest(bytes, index);
        Associates(old(Seen()), bytes[..index], bytes[index..]);
        assert bytes[..index] + bytes[index..] == bytes;
      } else {
        TakeRest(bytes, 0);
        assert bytes[0..] == bytes;
      }
    }

    /** Whole stripes, then what is left into the buffer. */
    method TakeRest(bytes: seq<byte>, index: nat)
      requires Held() && memorySize == 0 && index <= |bytes|
      modifies this`lanes, this`stripes, this`memorySize, memory
      ensures Held() && Seen() == old(Seen()) + bytes[index..]
    {
      hide Seen, Folded, Whole;
      var next := Stripes(bytes, index);
      Associates(old(Seen()), bytes[index..next], bytes[next..]);
      assert bytes[index..next] + bytes[next..] == bytes[index..];
      if next < |bytes| {
        Buffer(bytes[next..]);
      } else {
        assert bytes[index..next] == bytes[index..];
      }
    }

    /** Whole stripes straight from the input, as long as there are any. */
    method Stripes(bytes: seq<byte>, start0: nat) returns (index: nat)
      requires Held() && memorySize == 0 && start0 <= |bytes|
      modifies this`lanes, this`stripes, this`memorySize
      ensures Held() && memorySize == 0 && start0 <= index <= |bytes| < index + size
      ensures Seen() == old(Seen()) + bytes[start0..index]
    {
      hide Seen, Folded, Whole;
      index := start0;
      while index + size <= |bytes|
        invariant Held() && memorySize == 0 && start0 <= index <= |bytes|
        invariant Seen() == old(Seen()) + bytes[start0..index]
      {
        assert bytes[start0..index + size] == bytes[start0..index] + bytes[index..index + size];
        EmptyBuffer();
        Stripe(bytes[index..index + size]);
        index := index + size;
      }
    }

    lemma EmptyBuffer()
      requires Held() && memorySize == 0
      ensures Seen() == stripes
    {
      assert memory[..0] == [];
    }

    /** The stripes and the buffer are what one pass over the whole input would have left. */
    lemma OneShot()
      requires Valid()
      ensures lanes == Folded(stripe, size, start, absorbed)
      ensures memory[..memorySize] == Remainder(size, absorbed)
    {
      FoldedTail(stripe, size, start, stripes, memory[..memorySize]);
    }
  }

  method Final32(state: State<bv32>) returns (r: bv32)
    requires state.Valid() && state.size == 16 && state.stripe == Stripe32 && state.start == START32
    ensures r == Hash32(state.absorbed)
  {
    hide Word32, Byte32, Avalanche32, Merged32, Stripe32, Read32le;
    state.OneShot();
    var h := Merged32(state.lanes, state.length);
    var tail := state.memory[..state.memorySize];
    ghost var goal := Tail32(h, tail);
    assert tail[0..] == tail;
    hide Folded;
    var index := 0;
    while index + 4 <= state.memorySize
      invariant index <= state.memorySize && Tail32(h, tail[index..]) == goal
    {
      assert tail[index..][4..] == tail[index + 4..];
      h := Word32(h, Read32le(tail[index..]));
      index := index + 4;
    }
    while index < state.memorySize
      invariant index <= state.memorySize < index + 4 && Tail32(h, tail[index..]) == goal
    {
      assert tail[index..][1..] == tail[index + 1..];
      h := Byte32(h, state.memory[index]);
      index := index + 1;
    }
    r := Avalanche32(h);
  }

  method Final64(state: State<bv64>) returns (r: bv64)
    requires state.Valid() && state.size == 32 && state.stripe == Stripe64 && state.start == START64
    ensures r == Hash64(state.absorbed)
  {
    hide Long64, Word64, Byte64, Avalanche64, Merged64, Stripe64, Read32le, Read64le;
    state.OneShot();
    var h := Merged64(state.lanes, state.length);
    var tail := state.memory[..state.memorySize];
    ghost var goal := Tail64(h, tail);
    assert tail[0..] == tail;
    hide Folded;
    var index := 0;
    while index + 8 <= state.memorySize
      invariant index <= state.memorySize && Tail64(h, tail[index..]) == goal
    {
      assert tail[index..][8..] == tail[index + 8..];
      h := Long64(h, Read64le(tail[index..]));
      index := index + 8;
    }
    if index + 4 <= state.memorySize {
      assert tail[index..][4..] == tail[index + 4..];
      h := Word64(h, Read32le(tail[index..]));
      index := index + 4;
    }
    while index < state.memorySize
      invariant index <= state.memorySize < index + 4 && Tail64(h, tail[index..]) == goal
    {
      assert tail[index..][1..] == tail[index + 1..];
      h := Byte64(h, state.memory[index]);
      index := index + 1;
    }
    r := Avalanche64(h);
  }

  /** Feeds every chunk to the state, in order. */
  method Absorb<T>(state: State<T>, chunks: seq<seq<byte>>)
    requires state.Valid() && state.absorbed == []
    modifies state, state.memory
    ensures state.Valid() && state.absorbed == Flatten(chunks)
  {
    for i := 0 to |chunks|
      invariant state.Valid() && state.absorbed == Flatten(chunks[..i])
    {
      FlattenOne(chunks[..i], chunks[i]);
      assert chunks[..i + 1] == chunks[..i] + [chunks[i]];
      state.Update(chunks[i]);
    }
    assert chunks[..|chunks|] == chunks;
  }

  /** The plugin's runs: whatever the chunks, the result is the one-shot hash of the content. */
  method Digest32(content: seq<byte>, preferred: int, granted: (int, int) -> int, poll: nat -> bool)
    returns (r: Option<bv32>)
    ensures r.Some? ==> r.value == Hash32(content)
    ensures GoodReader(granted) && NeverCancels(poll) ==> r.Some?
  {
    var ok, chunks := ForEachChunk(content, preferred, granted, poll);
    if !ok { return None; }
    var state := new State<bv32>(16, Stripe32, START32);
    Absorb(state, chunks);
    var hash := Final32(state);
    r := Some(hash);
  }

  method Digest64(content: seq<byte>, preferred: int, granted: (int, int) -> int, poll: nat -> bool)
    returns (r: Option<bv64>)
    ensures r.Some? ==> r.value == Hash64(content)
    ensures GoodReader(granted) && NeverCancels(poll) ==> r.Some?
  {
    var ok, chunks := ForEachChunk(content, preferred, granted, poll);
    if !ok { return None; }
    var state := new State<bv64>(32, Stripe64, START64);
    Absorb(state, chunks);
    var hash := Final64(state);
    r := Some(hash);
  }
}
