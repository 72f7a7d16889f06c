/**
  Changes as values: what applying, undoing and replaying them means for the document, and the two
  stacks of undo and redo (core/src/lib/edit.cpp). A transaction is a run of changes with one bit.
 */
module EditHistory {
  import opened Common
  import opened EditModel

  /** A change with the bytes captured when it was made: those deleted, or those overwritten. */
  datatype Change =
    | Delete(offset: int, data: seq<byte>, bit: bool)
    | Insert(offset: int, data: seq<byte>, bit: bool)
    | Overwrite(offset: int, data: seq<byte>, inverse: seq<byte>, bit: bool)

  function Without(content: seq<byte>, offset: int, length: int): seq<byte>
    requires 0 <= offset <= |content| && 0 <= length
  {
    content[..offset] + content[Least(offset + length, |content|)..]
  }

  function With(content: seq<byte>, offset: int, data: seq<byte>): seq<byte>
    requires 0 <= offset <= |content|
  {
    content[..offset] + data + content[offset..]
  }

  /** Bytes replaced in place; the data may run past the end. */
  function Overwritten(content: seq<byte>, offset: int, data: seq<byte>): seq<byte>
    requires 0 <= offset <= |content|
  {
    With(Without(content, offset, |data|), offset, data)
  }

  /** Byte by byte: the data stands at the offset, every other byte stays, and the document grows if it must. */
  predicate ReplacesBytes(before: seq<byte>, offset: int, data: seq<byte>, after: seq<byte>) {
    && |after| == (if offset + |data| > |before| then offset + |data| else |before|)
    && forall i :: 0 <= i < |after| ==>
         if offset <= i < offset + |data| then after[i] == data[i - offset]
         else i < |before| && after[i] == before[i]
  }

  lemma OverwrittenBytes(content: seq<byte>, offset: int, data: seq<byte>)
    requires 0 <= offset <= |content|
    ensures ReplacesBytes(content, offset, data, Overwritten(content, offset, data))
  {
    var cut := Without(content, offset, |data|);
    assert cut[..offset] == content[..offset];
    assert cut[offset..] == content[Least(offset + |data|, |content|)..];
  }

  /** The document after a change; an overwrite may run past the end. */
  function Applied(content: seq<byte>, c: Change): seq<byte> {
    if !(0 <= c.offset <= |content|) then content
    else match c
      case Delete(offset, data, _) => Without(content, offset, |data|)
      case Insert(offset, data, _) => With(content, offset, data)
      case Overwrite(offset, data, _, _) => Overwritten(content, offset, data)
  }

  /** The document after a change is taken back, using only the captured bytes. */
  function Undone(content: seq<byte>, c: Change): seq<byte> {
    if !(0 <= c.offset <= |content|) then content
    else match c
      case Delete(offset, data, _) => With(content, offset, data)
      case Insert(offset, data, _) => Without(content, offset, |data|)
      case Overwrite(offset, data, inverse, _) => With(Without(content, offset, |data|), offset, inverse)
  }

  /** The change was made on this document, and left one whose size an int64 can hold. */
  predicate Captured(content: seq<byte>, c: Change) {
    && 0 <= c.offset <= |content| && c.data != [] && |Applied(content, c)| <= INT64_MAX
    && (c.Delete? ==> c.offset + |c.data| <= |content| && c.data == content[c.offset..c.offset + |c.data|])
    && (c.Overwrite? ==> c.inverse == content[c.offset..Least(c.offset + |c.data|, |content|)])
  }

  lemma WithoutWith(content: seq<byte>, offset: int, data: seq<byte>)
    requires 0 <= offset <= |content|
    ensures Without(With(content, offset, data), offset, |data|) == content
  {
    var out := With(content, offset, data);
    assert out[..offset] == content[..offset];
    assert out[offset + |data|..] == content[offset..];
  }

  lemma WithWithout(content: seq<byte>, offset: int, length: int)
    requires 0 <= offset <= |content| && 0 <= length
    ensures With(Without(content, offset, length), offset, content[offset..Least(offset + length, |content|)])
            == content
  {
    var out, end := Without(content, offset, length), Least(offset + length, |content|);
    assert out[..offset] == content[..offset];
    assert out[offset..] == content[end..];
    assert content == content[..offset] + content[offset..end] + content[end..];
  }

  /** Taking back a change restores the document it was made on. */
  lemma UndoRestores(content: seq<byte>, c: Change)
    requires Captured(content, c)
    ensures c.offset <= |Applied(content, c)|
    ensures Undone(Applied(content, c), c) == content
  {
    var o, n := c.offset, |c.data|;
    var cut := Without(content, o, n);
    assert |cut| >= o;
    WithoutWith(content, o, c.data);
    WithoutWith(cut, o, c.data);
    WithWithout(content, o, n);
    assert |With(content, o, c.data)| >= o && |With(cut, o, c.data)| >= o;
    hide With, Without;
  }

  /** The document after a list of changes. */
  function Replay(file: seq<byte>, changes: seq<Change>): seq<byte> {
    if changes == [] then file
    else Applied(Replay(file, changes[..|changes| - 1]), changes[|changes| - 1])
  }

  /** Every change of the list was made on the document its predecessors leave. */
  predicate AllCaptured(file: seq<byte>, changes: seq<Change>) {
    changes == [] ||
    (AllCaptured(file, changes[..|changes| - 1])
     && Captured(Replay(file, changes[..|changes| - 1]), changes[|changes| - 1]))
  }

  lemma {:induction false} CapturedPrefix(file: seq<byte>, changes: seq<Change>, n: nat)
    requires AllCaptured(file, changes) && n <= |changes|
    ensures AllCaptured(file, changes[..n])
    decreases |changes|
  {
    if n < |changes| {
      CapturedPrefix(file, changes[..|changes| - 1], n);
      assert changes[..|changes| - 1][..n] == changes[..n];
    } else {
      assert changes[..n] == changes;
    }
  }

  lemma OneMore(file: seq<byte>, changes: seq<Change>, c: Change)
    ensures Replay(file, changes + [c]) == Applied(Replay(file, changes), c)
    ensures AllCaptured(file, changes + [c]) <==> AllCaptured(file, changes) && Captured(Replay(file, changes), c)
  {
    assert (changes + [c])[..|changes|] == changes;
  }

  /** No document reached by captured changes is longer than an int64 can say. */
  lemma FitsAlways(file: seq<byte>, changes: seq<Change>)
    requires |file| <= INT64_MAX && AllCaptured(file, changes)
    ensures |Replay(file, changes)| <= INT64_MAX
  {
  }

  // ---------- the two stacks ----------

  /** `undone` is a stack: its last element is the first to be redone. */
  datatype History = History(changes: seq<Change>, undone: seq<Change>)

  /** Length of the run of changes with one transaction bit at the end of a list. */
  function RunLength(changes: seq<Change>): (n: nat)
    ensures n <= |changes| && (changes != [] ==> n > 0)
  {
    if changes == [] then 0
    else
      var front := changes[..|changes| - 1];
      if front != [] && front[|front| - 1].bit == changes[|changes| - 1].bit then 1 + RunLength(front) else 1
  }

  function Reversed(changes: seq<Change>): (r: seq<Change>)
    ensures |r| == |changes|
  {
    if changes == [] then [] else Reversed(changes[1..]) + [changes[0]]
  }

  lemma {:induction false} ReversedAppend(a: seq<Change>, b: seq<Change>)
    ensures Reversed(a + b) == Reversed(b) + Reversed(a)
  {
    if a == [] {
      assert a + b == b;
    } else {
      ReversedAppend(a[1..], b);
      assert (a + b)[1..] == a[1..] + b;
    }
  }

  lemma {:induction false} ReversedTwice(changes: seq<Change>)
    ensures Reversed(Reversed(changes)) == changes
  {
    if changes != [] {
      ReversedTwice(changes[1..]);
      ReversedAppend(Reversed(changes[1..]), [changes[0]]);
      assert Reversed([changes[0]]) == [changes[0]];
      assert changes == [changes[0]] + changes[1..];
    }
  }

  /** Moves the last run of one stack onto another, last change first. */
  function MoveRun(from: seq<Change>, onto: seq<Change>): (seq<Change>, seq<Change>) {
    var keep := |from| - RunLength(from);
    (from[..keep], onto + Reversed(from[keep..]))
  }

  function Undo(h: History): History {
    var (changes, undone) := MoveRun(h.changes, h.undone);
    History(changes, undone)
  }

  function Redo(h: History): History {
    var (undone, changes) := MoveRun(h.undone, h.changes);
    History(changes, undone)
  }

  /** The next transaction to undo and the next one to redo are different transactions. */
  predicate Separated(h: History) {
    h.changes != [] && h.undone != [] ==> h.changes[|h.changes| - 1].bit != h.undone[|h.undone| - 1].bit
  }

  /** The whole timeline, done and undone, is one list of changes made in order. */
  predicate Consistent(file: seq<byte>, h: History) {
    AllCaptured(file, h.changes + Reversed(h.undone)) && Separated(h)
  }

  predicate OneBit(changes: seq<Change>, bit: bool) {
    forall i :: 0 <= i < |changes| ==> changes[i].bit == bit
  }

  /** Different bits on either side: the run cannot be longer. */
  predicate RunEnds(before: seq<Change>, bit: bool) {
    before != [] ==> before[|before| - 1].bit != bit
  }

  lemma SplitRun(changes: seq<Change>) returns (kept: seq<Change>, run: seq<Change>)
    requires changes != []
    ensures changes == kept + run && |run| == RunLength(changes)
    ensures OneBit(run, changes[|changes| - 1].bit) && RunEnds(kept, changes[|changes| - 1].bit)
  {
    var keep := |changes| - RunLength(changes);
    RunBits(changes);
    hide RunLength;
    kept, run := changes[..keep], changes[keep..];
  }

  lemma {:induction false} RunBits(changes: seq<Change>)
    requires changes != []
    ensures var keep, bit := |changes| - RunLength(changes), changes[|changes| - 1].bit;
            && (forall i :: keep <= i < |changes| ==> changes[i].bit == bit)
            && (keep > 0 ==> changes[keep - 1].bit != bit)
  {
    var front := changes[..|changes| - 1];
    if front != [] && front[|front| - 1].bit == changes[|changes| - 1].bit {
      RunBits(front);
      assert forall i :: 0 <= i < |front| ==> front[i] == changes[i];
    }
  }

  lemma {:induction false} OneBitReversed(run: seq<Change>, bit: bool)
    requires OneBit(run, bit)
    ensures OneBit(Reversed(run), bit)
  {
    if run != [] {
      OneBitReversed(run[1..], bit);
    }
  }

  /** A run is measured exactly when a different bit (or nothing) stands before it. */
  lemma {:induction false} RunOf(before: seq<Change>, run: seq<Change>, bit: bool)
    requires run != [] && OneBit(run, bit) && RunEnds(before, bit)
    ensures RunLength(before + run) == |run|
  {
    var all := before + run;
    var front := all[..|all| - 1];
    if |run| == 1 {
      assert front == before;
    } else {
      var less := run[..|run| - 1];
      assert front == before + less;
      RunOf(before, less, bit);
    }
  }

  lemma MoveAll(kept: seq<Change>, run: seq<Change>, onto: seq<Change>)
    requires RunLength(kept + run) == |run|
    ensures MoveRun(kept + run, onto) == (kept, onto + Reversed(run))
  {
    hide RunLength, Reversed;
    assert (kept + run)[..|kept|] == kept && (kept + run)[|kept|..] == run;
  }

  /**
    Moving the last run keeps the stacks separated, moving it back changes nothing, and the two
    stacks laid end to end stay the same list.
   */
  lemma MoveBack(from: seq<Change>, onto: seq<Change>)
    requires from != [] && RunEnds(onto, from[|from| - 1].bit)
    ensures MoveRun(MoveRun(from, onto).1, MoveRun(from, onto).0) == (onto, from)
    ensures var (from', onto') := MoveRun(from, onto);
            && onto' != [] && RunEnds(from', onto'[|onto'| - 1].bit)
            && from' + Reversed(onto') == from + Reversed(onto)
  {
    hide RunLength, MoveRun, Reversed;
    var bit := from[|from| - 1].bit;
    var kept, run := SplitRun(from);
    MoveAll(kept, run, onto);
    var back := Reversed(run);
    OneBitReversed(run, bit);
    RunOf(onto, back, bit);
    MoveAll(onto, back, kept);
    ReversedTwice(run);
    ReversedAppend(onto, back);
    assert kept + (run + Reversed(onto)) == kept + run + Reversed(onto);
  }

  /** Undo keeps the timeline and the separation, and redo after it is the identity. */
  lemma RedoAfterUndo(file: seq<byte>, h: History)
    requires Consistent(file, h) && h.changes != []
    ensures Consistent(file, Undo(h)) && Redo(Undo(h)) == h
  {
    MoveBack(h.changes, h.undone);
    hide MoveRun, Reversed, AllCaptured;
  }

  /** Redo keeps the timeline and the separation, and undo after it is the identity. */
  lemma UndoAfterRedo(file: seq<byte>, h: History)
    requires Consistent(file, h) && h.undone != []
    ensures Consistent(file, Redo(h)) && Undo(Redo(h)) == h
  {
    MoveBack(h.undone, h.changes);
    var r := Redo(h);
    MoveBack(r.changes, r.undone);
    hide MoveRun, Reversed, AllCaptured;
  }
}
