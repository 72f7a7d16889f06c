/**
  How content reaches the checksums: `for_each_chunk` (plugins/src/plugin_options.hpp) cuts it into
  chunks of any size, and block hashes carry a partial block from one chunk to the next.
 */
module Streaming {
  import opened Common

  const MAX_CHUNK: int := 1024 * 1024
  const FALLBACK_CHUNK: int := 64 * 1024

  function ChunkSize(preferred: int): (n: int)
    ensures 1 <= n <= MAX_CHUNK
  {
    var n := if preferred > 0 then preferred else FALLBACK_CHUNK;
    if n > MAX_CHUNK then MAX_CHUNK else n
  }

  /** A reader that always delivers something, and no more than it was asked for. */
  ghost predicate GoodReader(granted: (int, int) -> int) {
    forall position, requested :: requested > 0 ==> 0 < granted(position, requested) <= requested
  }

  /**
    `for_each_chunk` with a reader. `granted` is the reader's answer to (position, requested); a
    positive answer n stands for the n bytes of the content at that position. The chunks
    handed to the callback are returned in order.
   */
  method ForEachChunk(content: seq<byte>, preferred: int, granted: (int, int) -> int, poll: nat -> bool)
    returns (ok: bool, chunks: seq<seq<byte>>)
    ensures ok ==> Flatten(chunks) == content
    ensures Flatten(chunks) <= content
    ensures forall i :: 0 <= i < |chunks| ==> 1 <= |chunks[i]| <= ChunkSize(preferred)
    ensures GoodReader(granted) && NeverCancels(poll) ==> ok
  {
    var chunkSize := ChunkSize(preferred);
    chunks := [];
    var position, polls := 0, 0;
    while position < |content|
      invariant 0 <= position <= |content|
      invariant Flatten(chunks) == content[..position]
      invariant forall i :: 0 <= i < |chunks| ==> 1 <= |chunks[i]| <= chunkSize
    {
      if poll(polls) { return false, chunks; }
      polls := polls + 1;
      var remaining := |content| - position;
      var requested := if remaining < chunkSize then remaining else chunkSize;
      var n := granted(position, requested);
      if n <= 0 || n > requested { return false, chunks; }
      FlattenOne(chunks, content[position..position + n]);
      chunks := chunks + [content[position..position + n]];
      position := position + n;
    }
    ok := true;
  }

  // ---------- block folds ----------

  /** All full `n`-byte blocks of `data`, folded from the left. */
  ghost function Folded<S>(step: (S, seq<byte>) -> S, n: nat, state: S, data: seq<byte>): S
    requires n > 0
    decreases |data|
  {
    if |data| < n then state else Folded(step, n, step(state, data[..n]), data[n..])
  }

  /** The bytes after the last full block. */
  ghost function Remainder(n: nat, data: seq<byte>): (tail: seq<byte>)
    requires n > 0
    ensures |tail| < n
  {
    if |data| < n then data else Remainder(n, data[n..])
  }

  /** `k` bytes are a whole number of `n`-byte blocks. */
  ghost predicate Whole(n: nat, k: nat)
    requires n > 0
  {
    k == 0 || (k >= n && Whole(n, k - n))
  }

  lemma {:induction false} WholeMore(n: nat, k: nat)
    requires n > 0 && Whole(n, k)
    ensures Whole(n, k + n)
    decreases k
  {
    if k > 0 { WholeMore(n, k - n); }
  }

  /** Whole blocks first: what follows them is folded from where they left off. */
  lemma {:induction false} FoldedAppend<S>(step: (S, seq<byte>) -> S, n: nat, state: S, a: seq<byte>, b: seq<byte>)
    requires n > 0 && Whole(n, |a|)
    ensures Folded(step, n, state, a + b) == Folded(step, n, Folded(step, n, state, a), b)
    ensures Remainder(n, a + b) == Remainder(n, b)
    decreases |a|
  {
    if a == [] {
      assert a + b == b;
    } else {
      FoldedAppend(step, n, step(state, a[..n]), a[n..], b);
      assert (a + b)[..n] == a[..n];
      assert (a + b)[n..] == a[n..] + b;
    }
  }

  /** One more block. */
  lemma FoldedBlock<S>(step: (S, seq<byte>) -> S, n: nat, state: S, a: seq<byte>, block: seq<byte>)
    requires n > 0 && Whole(n, |a|) && |block| == n
    ensures Folded(step, n, state, a + block) == step(Folded(step, n, state, a), block)
    ensures Whole(n, |a + block|)
  {
    FoldedAppend(step, n, state, a, block);
    WholeMore(n, |a|);
    assert block[..n] == block;
  }

  /** Whole blocks and a short tail are exactly what a one-shot pass would have left. */
  lemma FoldedTail<S>(step: (S, seq<byte>) -> S, n: nat, state: S, a: seq<byte>, tail: seq<byte>)
    requires n > 0 && Whole(n, |a|) && |tail| < n
    ensures Folded(step, n, state, a + tail) == Folded(step, n, state, a)
    ensures Remainder(n, a + tail) == tail
  {
    FoldedAppend(step, n, state, a, tail);
  }
}
