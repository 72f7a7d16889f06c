/** MurmurHash3, 32 bits (plugins/src/common_checksums.cpp): four-byte blocks and a tail of up to three. */
module Murmur3 {
  import opened Common
  import opened Streaming
  import opened Words

  const C1: bv32 := 0xcc9e2d51
  const C2: bv32 := 0x1b873593

  function Scramble(k: bv32): bv32 { (k * C1).RotateLeft(15) * C2 }

  function Mix(h: bv32, block: seq<byte>): bv32 {
    if |block| < 4 then h else Mixed(h, Scramble(Read32le(block)))
  }

  function Mixed(h: bv32, k: bv32): bv32 { (h ^ k).RotateLeft(13) * 5 + 0xe6546b64 }

  /** The tail word; the three `case` labels of the source fall through. */
  function TailWord(tail: seq<byte>): bv32 {
    (if |tail| >= 3 then (tail[2] as bv32) << 16 else 0)
    ^ (if |tail| >= 2 then (tail[1] as bv32) << 8 else 0)
    ^ (if |tail| >= 1 then tail[0] as bv32 else 0)
  }

  function Finish(h: bv32, tail: seq<byte>, length: nat): bv32 {
    var r0 := if 1 <= |tail| <= 3 then h ^ Scramble(TailWord(tail)) else h;
    Avalanche(r0 ^ Low32(length))
  }

  function Avalanche(r1: bv32): bv32 {
    var r2 := (r1 ^ (r1 >> 16)) * 0x85ebca6b;
    var r3 := (r2 ^ (r2 >> 13)) * 0xc2b2ae35;
    r3 ^ (r3 >> 16)
  }

  /** The hash of a byte string, in one shot. */
  ghost function Hash(data: seq<byte>): bv32 {
    Finish(Folded(Mix, 4, 0, data), Remainder(4, data), Wrap64(|data|))
  }

  class State {
    var h: bv32
    var length: nat
    const tail: array<byte>
    var tailLength: nat

    /** Everything absorbed so far, and the part of it that went through `block`. */
    ghost var absorbed: seq<byte>
    ghost var blocks: seq<byte>

    ghost predicate Held()
      reads this`h, this`tailLength, this`blocks
    {
      && tail.Length == 4 && tailLength <= 4
      && Whole(4, |blocks|) && h == Folded(Mix, 4, 0, blocks)
    }

    /** Blocks and tail together: the bytes seen so far, in order. */
    ghost function Seen(): seq<byte>
      reads this`h, this`tailLength, this`blocks, tail
      requires Held()
    {
      blocks + tail[..tailLength]
    }

    ghost predicate Valid()
      reads this, tail
    {
      Held() && tailLength < 4 && absorbed == Seen() && length == Wrap64(|absorbed|)
    }

    constructor ()
      ensures Valid() && absorbed == [] && fresh(tail)
    {
      h, length, tailLength := 0, 0, 0;
      tail := new byte[4](_ => 0);
      absorbed, blocks := [], [];
    }

    method Block(bytes: seq<byte>)
      requires Held() && |bytes| == 4
      modifies this`h, this`blocks
      ensures Held() && blocks == old(blocks) + bytes
      ensures tailLength == 0 ==> Seen() == old(Seen()) + bytes
    {
      hide Mix, Scramble, Read32le, Folded, Whole;
      FoldedBlock(Mix, 4, 0, blocks, bytes);
      h := Mix(h, bytes);
      blocks := blocks + bytes;
      assert tailLength == 0 ==> tail[..tailLength] == [];
    }

    /** `tail[tail_length++] = byte`. */
    method Keep(b: byte)
      requires Held() && tailLength < 4
      modifies this`tailLength, tail
      ensures Held() && Seen() == old(Seen()) + [b] && tailLength == old(tailLength) + 1
    {
      hide Mix, Folded, Whole;
      tail[tailLength] := b;
      tailLength := tailLength + 1;
      assert tail[..tailLength] == old(tail[..tailLength]) + [b];
    }

    /** Completes an open tail; returns how many bytes that took. */
    method FillTail(bytes: seq<byte>) returns (index: nat)
      requires Held() && 0 < tailLength < 4
      modifies this`tailLength, this`h, this`blocks, tail
      ensures Held() && tailLength < 4 && index <= |bytes| && (tailLength == 0 || index == |bytes|)
      ensures Seen() == old(Seen()) + bytes[..index]
    {
      hide Mix, Scramble, Read32le, Folded, Whole;
      index := 0;
      while tailLength < 4 && index < |bytes|
        invariant Held() && 0 < tailLength && index <= |bytes|
        invariant Seen() == old(Seen()) + bytes[..index]
      {
        assert bytes[..index + 1] == bytes[..index] + [bytes[index]];
        Keep(bytes[index]);
        index := index + 1;
      }
      if tailLength == 4 {
        assert tail[..4] == tail[..];
        Block(tail[..]);
        tailLength := 0;
      }
    }

    method Update(bytes: seq<byte>)
      requires Valid()
      modifies this, tail
      ensures Valid() && absorbed == old(absorbed) + bytes
    {
      hide Held, Seen, Wrap64, Mix, Folded;
      Wrap64Sum(|absorbed|, |bytes|);
      var index := 0;
      if tailLength > 0 {
        index := FillTail(bytes);
      }
      while index + 4 <= |bytes|
        invariant Held() && index <= |bytes| && tailLength < 4 && (tailLength == 0 || index == |bytes|)
        invariant Seen() == old(Seen()) + bytes[..index]
        invariant absorbed == old(absorbed) && length == old(length)
      {
        Block(bytes[index..index + 4]);
        assert bytes[..index + 4] == bytes[..index] + bytes[index..index + 4];
        index := index + 4;
      }
      KeepRest(bytes[index..]);
      assert bytes[..index] + bytes[index..] == bytes;
      length := Wrap64(length + |bytes|);
      absorbed := absorbed + bytes;
    }

    method KeepRest(bytes: seq<byte>)
      requires Held() && tailLength < 4 && (bytes == [] || tailLength + |bytes| < 4)
      modifies this`tailLength, tail
      ensures Held() && tailLength < 4 && Seen() == old(Seen()) + bytes
    {
      hide Held, Seen, Mix, Folded;
      for index := 0 to |bytes|
        invariant Held() && tailLength == old(tailLength) + index
        invariant Seen() == old(Seen()) + bytes[..index]
      {
        assert bytes[..index + 1] == bytes[..index] + [bytes[index]];
        Keep(bytes[index]);
      }
      assert bytes[..|bytes|] == bytes;
    }

    method Final() returns (r: bv32)
      requires Valid()
      ensures r == Hash(absorbed)
    {
      hide Mix, Finish;
      FoldedTail(Mix, 4, 0, blocks, tail[..tailLength]);
      r := Finish(h, tail[..tailLength], length);
    }
  }

  /** The plugin's run: whatever the chunks, the result is the one-shot hash of the content. */
  method Digest(content: seq<byte>, preferred: int, granted: (int, int) -> int, poll: nat -> bool)
    returns (r: Option<bv32>)
    ensures r.Some? ==> r.value == Hash(content)
    ensures GoodReader(granted) && NeverCancels(poll) ==> r.Some?
  {
    hide Mix, Finish, Folded, Whole;
    var ok, chunks := ForEachChunk(content, preferred, granted, poll);
    if !ok { return None; }
    var state := new State();
    for i := 0 to |chunks|
      invariant state.Valid() && fresh(state) && fresh(state.tail) && state.absorbed == Flatten(chunks[..i])
    {
      FlattenOne(chunks[..i], chunks[i]);
      assert chunks[..i + 1] == chunks[..i] + [chunks[i]];
      state.Update(chunks[i]);
    }
    assert chunks[..|chunks|] == chunks;
    var hash := state.Final();
    r := Some(hash);
  }
}
