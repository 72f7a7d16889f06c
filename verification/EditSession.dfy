/**
  An editing session of core/src/lib/edit.cpp: the segment model, the change list, the undo stack
  and the periodic snapshots, all updated in place. Every operation keeps the segments spelling
  exactly the document the change list replays to.
 */
module EditSession {
  import opened Common
  import opened EditModel
  import opened EditHistory
  import opened Transactions
  import EditRead

  /** The segments are a well-formed model of `content` over `file`. */
  ghost predicate Spells(segments: Segments, file: seq<byte>, content: seq<byte>) {
    Continuous(segments, 0) && SameFile(segments, file) && Contents(segments) == content
  }

  method DeleteIn(segments: Segments, offset: int, length: int, ghost file: seq<byte>, ghost content: seq<byte>)
    returns (out: Segments)
    requires Spells(segments, file, content) && 0 <= offset <= |content| && length > 0
    ensures Spells(out, file, Without(content, offset, length))
  {
    hide Continuous, Contents, SameFile;
    var ok;
    ok, out := DeleteRange(segments, offset, length, file);
    if segments == [] {
      Empty();
      assert Without(content, offset, length) == [];
    }
  }

  method InsertIn(segments: Segments, offset: int, data: seq<byte>, ghost file: seq<byte>, ghost content: seq<byte>)
    returns (out: Segments)
    requires Spells(segments, file, content) && 0 <= offset <= |content|
    ensures Spells(out, file, With(content, offset, data))
  {
    hide Continuous, Contents, SameFile;
    if data == [] {
      out := segments;
      assert With(content, offset, data) == content;
    } else {
      var ok;
      ok, out := InsertAt(segments, offset, data, file);
    }
  }

  /** An overwrite is a deletion of as many bytes as it carries, followed by their insertion. */
  method UpdateModel(segments: Segments, c: Change, ghost file: seq<byte>, ghost content: seq<byte>)
    returns (out: Segments)
    requires Spells(segments, file, content) && Captured(content, c)
    ensures Spells(out, file, Applied(content, c))
  {
    hide Spells, With, Without;
    match c {
      case Delete(offset, data, _) =>
        out := DeleteIn(segments, offset, |data|, file, content);
      case Insert(offset, data, _) =>
        out := InsertIn(segments, offset, data, file, content);
      case Overwrite(offset, data, _, _) =>
        out := DeleteIn(segments, offset, |data|, file, content);
        KeepsPrefix(content, offset, |data|);
        out := InsertIn(out, offset, data, file, Without(content, offset, |data|));
    }
  }

  lemma InsertedBytes(content: seq<byte>, offset: int, data: seq<byte>)
    requires 0 <= offset <= |content|
    ensures With(content, offset, data) == content[..offset] + data + content[offset..]
  {
  }

  lemma KeepsPrefix(content: seq<byte>, offset: int, length: int)
    requires 0 <= offset <= |content| && 0 <= length
    ensures offset <= |Without(content, offset, length)|
  {
  }

  /** Takes back one change, from the bytes it captured. */
  method UndoInModel(segments: Segments, c: Change, ghost file: seq<byte>, ghost content: seq<byte>)
    returns (out: Segments)
    requires Captured(content, c) && Spells(segments, file, Applied(content, c))
    ensures Spells(out, file, content)
  {
    UndoRestores(content, c);
    ghost var now := Applied(content, c);
    hide Spells, With, Without, Captured, Applied;
    match c {
      case Delete(offset, data, _) =>
        out := InsertIn(segments, offset, data, file, now);
      case Insert(offset, data, _) =>
        out := DeleteIn(segments, offset, |data|, file, now);
      case Overwrite(offset, data, inverse, _) =>
        out := DeleteIn(segments, offset, |data|, file, now);
        KeepsPrefix(now, offset, |data|);
        out := InsertIn(out, offset, inverse, file, Without(now, offset, |data|));
    }
  }

  // ---------- the session ----------

  /** One read segment over the whole file, none for an empty one. */
  function InitialSegments(file: seq<byte>): Segments {
    if file == [] then [] else [Segment(0, |file|, 0, file, true)]
  }

  lemma InitialSpells(file: seq<byte>)
    ensures Spells(InitialSegments(file), file, file)
  {
    if file != [] {
      var s := Segment(0, |file|, 0, file, true);
      One(s);
      assert Window(s) == file;
    }
  }

  function UpTo(snapshots: map<nat, Segments>, above: nat): (kept: map<nat, Segments>)
    ensures forall k :: k in kept <==> k in snapshots && k <= above
    ensures forall k :: k in kept ==> kept[k] == snapshots[k]
  {
    map k | k in snapshots && k <= above :: snapshots[k]
  }

  ghost predicate SnapshotsMatch(snapshots: map<nat, Segments>, file: seq<byte>, changes: seq<Change>) {
    forall k :: k in snapshots ==> k <= |changes| && Spells(snapshots[k], file, Replay(file, changes[..k]))
  }

  /** Snapshots up to `n` depend only on the first `n` changes. */
  lemma SnapshotsKept(snapshots: map<nat, Segments>, file: seq<byte>, changes: seq<Change>, others: seq<Change>, n: nat)
    requires SnapshotsMatch(snapshots, file, changes)
    requires n <= |changes| && n <= |others| && changes[..n] == others[..n]
    ensures SnapshotsMatch(UpTo(snapshots, n), file, others)
  {
    hide Spells, Replay;
    forall k | k in UpTo(snapshots, n)
      ensures k <= |others| && Spells(snapshots[k], file, Replay(file, others[..k]))
    {
      assert changes[..k] == changes[..n][..k] == others[..n][..k] == others[..k];
    }
  }

  predicate InRange(offset: int, length: int) {
    0 <= offset && 0 <= length && offset + length <= INT64_MAX
  }

  class Session {
    const file: seq<byte>
    var segments: Segments
    var changes: seq<Change>
    var undone: seq<Change>
    var snapshots: map<nat, Segments>
    var interval: nat
    var transaction: TransactionState
    var paused: bool

    /** What every operation keeps, the undo stack aside. */
    ghost predicate Core()
      reads this`segments, this`changes, this`snapshots
    {
      && |file| <= INT64_MAX
      && Spells(segments, file, Document())
      && AllCaptured(file, changes)
      && SnapshotsMatch(snapshots, file, changes)
    }

    ghost predicate Valid()
      reads this
    {
      Core() && Consistent(file, History(changes, undone))
    }

    /** The document: what the change list replays to. */
    ghost function Document(): seq<byte>
      reads this`changes
    {
      Replay(file, changes)
    }

    constructor (file: seq<byte>, interval: nat)
      requires |file| <= INT64_MAX
      ensures Valid() && this.file == file && this.interval == interval && Document() == file && !paused
      ensures Now() == Editor(History([], []), Idle)
    {
      this.file := file;
      this.interval := interval;
      segments := InitialSegments(file);
      changes, undone, snapshots, paused, transaction := [], [], map[], false, Idle;
      InitialSpells(file);
    }

    method ComputedFileSize() returns (n: int)
      requires Core()
      ensures n == |Document()|
    {
      hide Continuous, Contents, Size, Replay;
      SizeIsLength(segments, 0);
      if segments == [] {
        Empty();
        return 0;
      }
      AtIndex(segments, |segments| - 1);
      assert segments[..|segments|] == segments;
      var last := segments[|segments| - 1];
      return last.offset + last.length;
    }

    /** The bytes of a range of the document. */
    method Capture(offset: int, length: nat) returns (bytes: seq<byte>)
      requires Core() && 0 <= offset <= |Document()|
      ensures bytes == Document()[offset..Least(offset + length, |Document()|)]
    {
      hide Continuous, Contents, Replay, SameFile;
      var r := EditRead.Populate(segments, file, offset, length);
      if segments == [] { Empty(); }
      bytes := r.value;
    }

    /** Appends a change, updates the segments and takes a snapshot when one is due. */
    method Record(c: Change)
      requires Core() && Captured(Document(), c)
      modifies `segments, `changes, `snapshots
      ensures Core() && changes == old(changes) + [c]
      ensures Document() == Applied(old(Document()), c)
      ensures snapshots ==
                if interval > 0 && |changes| % interval == 0 then old(snapshots)[|changes| := segments]
                else old(snapshots)
    {
      hide Spells, Captured, Applied;
      OneMore(file, changes, c);
      segments := UpdateModel(segments, c, file, Document());
      SnapshotsExtend(snapshots, file, changes, c);
      hide Replay, AllCaptured;
      changes := changes + [c];
      if interval > 0 && |changes| % interval == 0 {
        SnapshotAdded(snapshots, file, changes, segments);
        snapshots := snapshots[|changes| := segments];
      }
    }

    /** The two stacks and the transaction state, as the transaction law sees them. */
    function Now(): Editor
      reads this`changes, this`undone, this`transaction
    {
      Editor(History(changes, undone), transaction)
    }

    method BeginTransaction() returns (r: int)
      modifies `transaction
      ensures r == if old(transaction) == Idle then 0 else -1
      ensures Now() == Called(old(Now()), Begin)
    {
      if transaction != Idle { return -1; }
      transaction := Opened;
      return 0;
    }

    method EndTransaction() returns (r: int)
      modifies `transaction
      ensures r == if old(transaction) == Idle then -1 else 0
      ensures Now() == Called(old(Now()), End)
    {
      if transaction == Idle { return -1; }
      transaction := Idle;
      return 0;
    }

    /** A new edit forks the history: whatever was undone is gone. */
    method Update(c: Change) returns (serial: int)
      requires Valid() && Captured(Document(), c)
      modifies `segments, `changes, `snapshots, `undone, `transaction
      ensures Valid() && changes == old(changes) + [c] && undone == [] && serial == |changes|
      ensures transaction == if old(transaction) == Opened then InProgress else old(transaction)
      ensures Document() == Applied(old(Document()), c)
    {
      hide Spells, Captured, Applied, Replay, AllCaptured;
      if transaction == Opened { transaction := InProgress; }
      undone := [];
      Record(c);
      assert changes + Reversed([]) == changes;
      return |changes|;
    }

    /** A new change of the next transaction bit was appended; nothing is left to redo. */
    twostate predicate Edited(r: int)
      reads this
    {
      && r == |changes| == old(|changes|) + 1 && Now() == Called(old(Now()), Edit(changes[r - 1]))
      && unchanged(`paused) && unchanged(`interval)
    }

    method Insert(offset: int, data: seq<byte>) returns (r: int)
      requires Valid()
      modifies this
      ensures Valid() && (r <= 0 ==> unchanged(this))
      ensures r == -1 <==> !InRange(offset, |data|) ||
                           (data != [] && (old(|Document()|) + |data| > INT64_MAX || old(|changes|) >= INT64_MAX))
      ensures r == 0 <==> r != -1 && (data == [] || paused || offset > old(|Document()|))
      ensures r > 0 ==> 0 <= offset <= old(|Document()|) &&
                        Document() == old(Document())[..offset] + data + old(Document())[offset..]
      ensures r >= -1 && (r > 0 ==> Edited(r))
    {
      hide Spells, Replay, AllCaptured, With, Consistent;
      if !InRange(offset, |data|) { return -1; }
      if data == [] { return 0; }
      var size := ComputedFileSize();
      if size + |data| > INT64_MAX { return -1; }
      if |changes| >= INT64_MAX { return -1; }
      if paused || offset > size { return 0; }
      var c := Change.Insert(offset, data, NextBit(Now()));
      InsertedBytes(Document(), offset, data);
      WithLength(Document(), offset, data);
      r := Update(c);
    }

    method Delete(offset: int, length: int) returns (r: int)
      requires Valid()
      modifies this
      ensures Valid() && (r <= 0 ==> unchanged(this))
      ensures r == -1 <==> !InRange(offset, length) || (length > 0 && old(|changes|) >= INT64_MAX)
      ensures r == 0 <==> r != -1 && (length == 0 || paused || offset >= old(|Document()|))
      ensures r > 0 ==> 0 <= offset <= old(|Document()|) &&
                        Document() == old(Document())[..offset]
                                      + old(Document())[Least(offset + length, old(|Document()|))..]
      ensures r >= -1 && (r > 0 ==> Edited(r))
    {
      hide Spells, Replay, AllCaptured, Consistent;
      if !InRange(offset, length) { return -1; }
      if length == 0 { return 0; }
      var size := ComputedFileSize();
      if |changes| >= INT64_MAX { return -1; }
      if paused || offset >= size { return 0; }
      var effective := Least(length, size - offset);
      ghost var before := Document();
      var bytes := Capture(offset, effective);
      var c := Change.Delete(offset, bytes, NextBit(Now()));
      assert Applied(before, c) == Without(before, offset, length);
      FitsAlways(file, changes);
      r := Update(c);
    }

    method Overwrite(offset: int, data: seq<byte>) returns (r: int)
      requires Valid()
      modifies this
      ensures Valid() && (r <= 0 ==> unchanged(this))
      ensures r == -1 <==> !InRange(offset, |data|) || (data != [] && old(|changes|) >= INT64_MAX)
      ensures r == 0 <==> r != -1 && (data == [] || paused || offset > old(|Document()|))
      ensures r > 0 ==> ReplacesBytes(old(Document()), offset, data, Document())
      ensures r >= -1 && (r > 0 ==> Edited(r))
    {
      hide Spells, Replay, AllCaptured, Consistent, ReplacesBytes;
      if !InRange(offset, |data|) { return -1; }
      if data == [] { return 0; }
      var size := ComputedFileSize();
      if |changes| >= INT64_MAX { return -1; }
      if paused || offset > size { return 0; }
      var replaced := Capture(offset, |data|);
      var c := Change.Overwrite(offset, data, replaced, NextBit(Now()));
      FitsAlways(file, changes);
      OverwrittenBytes(Document(), offset, data);
      r := Update(c);
    }

    /** Undoes the last transaction: its changes, latest first, are taken back and stacked for redo. */
    method UndoLastChange() returns (r: int)
      requires Valid()
      modifies `segments, `changes, `undone, `snapshots
      ensures Valid()
      ensures paused || old(changes) == [] ==> r == 0 && unchanged(this)
      ensures !paused && old(changes) != [] ==>
                r == -(|changes| + 1) && Now() == Called(old(Now()), UndoLast)
                && snapshots == UpTo(old(snapshots), |changes|)
    {
      hide Spells, Replay, AllCaptured, Reversed, RunLength, Undo, Redo, Consistent, SnapshotsMatch;
      if paused || changes == [] { return 0; }
      var n := CountRun(changes);
      var remaining := |changes| - n;
      ghost var h := History(changes, undone);
      RedoAfterUndo(file, h);
      var stacked;
      segments, stacked := TakeBack(segments, changes, n, file);
      UndoParts(h, n, stacked);
      CapturedPrefix(file, changes, remaining);
      assert changes[..remaining][..remaining] == changes[..remaining];
      SnapshotsKept(snapshots, file, changes, changes[..remaining], remaining);
      changes := changes[..remaining];
      snapshots := UpTo(snapshots, remaining);
      undone := undone + stacked;
      return -(remaining + 1);
    }

    /** Redoes the transaction undone last. */
    method RedoLastUndo() returns (r: int)
      requires Valid()
      modifies `segments, `changes, `undone, `snapshots
      ensures Valid()
      ensures paused || old(undone) == [] ==> r == 0 && unchanged(this)
      ensures !paused && old(undone) != [] ==>
                r == |changes| && Now() == Called(old(Now()), RedoLast)
    {
      hide Spells, Replay, AllCaptured, Reversed, RunLength, Redoing, Redo, Captured, SnapshotsMatch;
      if paused || undone == [] { return 0; }
      ghost var h := History(changes, undone);
      UndoAfterRedo(file, h);
      ghost var bit := undone[|undone| - 1].bit;
      RedoStart(file, h, bit);
      while true
        invariant undone != [] && undone[|undone| - 1].bit == bit
        invariant Redoing(file, h, changes, undone, bit)
        invariant Core()
        decreases |undone|
      {
        var c := undone[|undone| - 1];
        RedoStep(file, h, changes, undone, bit);
        Record(c);
        undone := undone[..|undone| - 1];
        r := |changes|;
        if undone != [] && c.bit == undone[|undone| - 1].bit { continue; }
        break;
      }
      RedoDone(file, h, changes, undone, bit);
    }

    /** Rebuilds the segments for the first `count` changes, from the nearest snapshot. */
    method RebuildToChangeCount(count: nat)
      requires count <= |changes| && |file| <= INT64_MAX
      requires AllCaptured(file, changes) && SnapshotsMatch(UpTo(snapshots, count), file, changes)
      modifies `segments, `snapshots
      ensures Spells(segments, file, Replay(file, changes[..count]))
      ensures snapshots == UpTo(old(snapshots), count)
    {
      hide Spells, Replay, AllCaptured;
      snapshots := UpTo(snapshots, count);
      var from := NearestSnapshot(snapshots, count);
      if from in snapshots {
        segments := snapshots[from];
      } else {
        segments := InitialSegments(file);
        InitialSpells(file);
        NoChanges(file, changes);
      }
      var i := from;
      while i < count
        modifies `segments
        invariant from <= i <= count
        invariant Spells(segments, file, Replay(file, changes[..i]))
      {
        CapturedAt(file, changes, i);
        segments := UpdateModel(segments, changes[i], file, Replay(file, changes[..i]));
        i := i + 1;
      }
    }

    /** Drops every change after the first `count` and everything undone. */
    method RestoreToChangeCount(count: int) returns (ok: bool)
      requires Valid()
      modifies `segments, `changes, `undone, `snapshots
      ensures Valid() && (ok <==> 0 <= count <= old(|changes|)) && (!ok ==> unchanged(this))
      ensures ok ==> Now() == Called(old(Now()), RestoreTo(count)) && snapshots == UpTo(old(snapshots), count)
    {
      hide Spells, Replay, AllCaptured;
      if count < 0 || count > |changes| { return false; }
      CapturedPrefix(file, changes, count);
      assert changes[..count][..count] == changes[..count];
      SnapshotsKept(snapshots, file, changes, changes[..count], count);
      changes := changes[..count];
      RebuildToChangeCount(count);
      assert changes[..count] == changes;
      undone := [];
      assert changes + Reversed([]) == changes;
      return true;
    }
  }

  /** An edit, and a transaction whose first edit has been undone. */
  method EditBeginEditUndo() returns (s: Session, ghost a: Change, ghost b: Change)
    ensures fresh(s) && s.Valid() && !s.paused && |s.changes| == 1 && |s.Document()| == 1
    ensures s.Now() == Called(Called(Called(Called(Editor(History([], []), Idle), Edit(a)), Begin), Edit(b)), UndoLast)
  {
    hide Spells, Replay, AllCaptured, Undo, Called, Consistent, SnapshotsMatch, UpTo, With;
    s := new Session([], 100);
    ghost var n0 := s.Now();
    WithLength([], 0, [65]);
    var r := s.Insert(0, [65]);
    a := s.changes[0];
    ghost var n1 := s.Now();
    StaysIdle(n0, a);
    r := s.BeginTransaction();
    BeginAndEnd(n1);
    r := s.Insert(1, [66]);
    b := s.changes[1];
    r := s.UndoLastChange();
    BackToFirst(n1, b);
  }

  /**
    The failing run on a session: insert, begin, insert, undo, insert, end, undo. The last undo should
    leave the edit made before the transaction, and leaves nothing.
   */
  method UndoTakesEarlierEdit() returns (standing: nat, left: nat)
    ensures standing == 2 && left == 0
  {
    hide Spells, Replay, AllCaptured, Undo, Called, Consistent, SnapshotsMatch, After, MarksAfter, UpTo, With;
    var s, a, b := EditBeginEditUndo();
    var r := s.Insert(1, [67]);
    ghost var c, n5 := s.changes[1], s.Now();
    AfterThree(Called(Called(Editor(History([], []), Idle), Edit(a)), Begin), Edit(b), UndoLast, Edit(c));
    TransactionTakesEarlierEdit(a, b, c);
    r := s.EndTransaction();
    BeginAndEnd(n5);
    standing := |s.changes|;
    r := s.UndoLastChange();
    left := |s.changes|;
  }

  lemma BeginAndEnd(e: Editor)
    ensures Called(e, Begin).history == e.history && Called(e, End).history == e.history
  {
  }

  lemma StaysIdle(e: Editor, c: Change)
    requires e.state == Idle
    ensures Called(e, Edit(c)).state == Idle
  {
  }

  lemma BackToFirst(e: Editor, b: Change)
    requires e.state == Idle
    ensures Called(Called(Called(e, Begin), Edit(b)), UndoLast).history.changes == e.history.changes
  {
    SingleEditIsUndoneAlone(e, b);
  }

  /** Length of the last run of one transaction bit. */
  method CountRun(changes: seq<Change>) returns (n: nat)
    ensures n == RunLength(changes)
  {
    if changes == [] { return 0; }
    hide RunLength;
    var bit := changes[|changes| - 1].bit;
    n := 1;
    while n < |changes| && changes[|changes| - 1 - n].bit == bit
      invariant 0 < n <= |changes| && OneBit(changes[|changes| - n..], bit)
    {
      assert changes[|changes| - n - 1..] == [changes[|changes| - 1 - n]] + changes[|changes| - n..];
      n := n + 1;
    }
    RunOf(changes[..|changes| - n], changes[|changes| - n..], bit);
    assert changes[..|changes| - n] + changes[|changes| - n..] == changes;
  }

  /** Takes back the last `n` changes, latest first. */
  method TakeBack(segments: Segments, changes: seq<Change>, n: nat, ghost file: seq<byte>)
    returns (out: Segments, stacked: seq<Change>)
    requires n <= |changes| && AllCaptured(file, changes) && Spells(segments, file, Replay(file, changes))
    ensures Spells(out, file, Replay(file, changes[..|changes| - n]))
    ensures stacked == Reversed(changes[|changes| - n..])
  {
    hide Spells, AllCaptured, Replay, Reversed;
    out, stacked := segments, [];
    var i := 0;
    ReversedEmpty();
    assert changes[..|changes|] == changes && changes[|changes|..] == [];
    while i < n
      invariant i <= n && Spells(out, file, Replay(file, changes[..|changes| - i]))
      invariant stacked == Reversed(changes[|changes| - i..])
    {
      var c := changes[|changes| - 1 - i];
      CapturedAt(file, changes, |changes| - 1 - i);
      out := UndoInModel(out, c, file, Replay(file, changes[..|changes| - 1 - i]));
      StackPush(changes, i);
      stacked := stacked + [c];
      i := i + 1;
    }
  }

  lemma UndoParts(h: History, n: nat, stacked: seq<Change>)
    requires n == RunLength(h.changes) && stacked == Reversed(h.changes[|h.changes| - n..])
    ensures Undo(h) == History(h.changes[..|h.changes| - n], h.undone + stacked)
  {
    hide RunLength, Reversed;
  }

  lemma ReversedEmpty()
    ensures Reversed([]) == []
  {
  }

  /** Popping one more change off a stack pushes it on the reversed one. */
  lemma StackPush(changes: seq<Change>, i: nat)
    requires i < |changes|
    ensures Reversed(changes[|changes| - (i + 1)..])
            == Reversed(changes[|changes| - i..]) + [changes[|changes| - 1 - i]]
  {
    assert changes[|changes| - (i + 1)..][1..] == changes[|changes| - i..];
  }

  /** The change at `i` was captured on the document its predecessors leave. */
  lemma CapturedAt(file: seq<byte>, changes: seq<Change>, i: nat)
    requires AllCaptured(file, changes) && i < |changes|
    ensures Captured(Replay(file, changes[..i]), changes[i])
    ensures Replay(file, changes[..i + 1]) == Applied(Replay(file, changes[..i]), changes[i])
  {
    hide AllCaptured, Replay, Captured, Applied;
    CapturedPrefix(file, changes, i + 1);
    assert changes[..i + 1] == changes[..i] + [changes[i]];
    OneMore(file, changes[..i], changes[i]);
  }

  /** The top of the redo stack is the next change of the timeline. */
  lemma PopRedo(file: seq<byte>, changes: seq<Change>, undone: seq<Change>)
    requires undone != [] && AllCaptured(file, changes + Reversed(undone))
    ensures var c, rest := undone[|undone| - 1], undone[..|undone| - 1];
            && Captured(Replay(file, changes), c)
            && (changes + [c]) + Reversed(rest) == changes + Reversed(undone)
  {
    hide AllCaptured, Replay, Captured, Reversed;
    var c, rest := undone[|undone| - 1], undone[..|undone| - 1];
    TopFirst(undone);
    Associates(changes, [c], Reversed(rest));
    var timeline := changes + Reversed(undone);
    assert timeline[|changes|] == c && timeline[..|changes|] == changes;
    CapturedAt(file, timeline, |changes|);
  }

  lemma TopFirst(undone: seq<Change>)
    requires undone != []
    ensures Reversed(undone) == [undone[|undone| - 1]] + Reversed(undone[..|undone| - 1])
  {
    hide Reversed;
    var c, rest := undone[|undone| - 1], undone[..|undone| - 1];
    assert undone == rest + [c];
    ReversedAppend(rest, [c]);
    ReversedOne(c);
  }

  lemma ReversedOne(c: Change)
    ensures Reversed([c]) == [c]
  {
    assert [c][1..] == [];
  }

  /** Part of the way through redoing the run of `h`: what was popped went onto the changes. */
  ghost predicate Redoing(file: seq<byte>, h: History, changes: seq<Change>, undone: seq<Change>, bit: bool) {
    && |undone| <= |h.undone| && undone == h.undone[..|undone|] && OneBit(h.undone[|undone|..], bit)
    && changes == h.changes + Reversed(h.undone[|undone|..])
    && AllCaptured(file, changes + Reversed(undone))
  }

  lemma RedoStart(file: seq<byte>, h: History, bit: bool)
    requires Consistent(file, h)
    ensures Redoing(file, h, h.changes, h.undone, bit)
  {
    hide AllCaptured, Reversed;
    ReversedEmpty();
    assert h.undone[|h.undone|..] == [] && h.undone[..|h.undone|] == h.undone;
    assert h.changes + [] == h.changes;
  }

  lemma RedoStep(file: seq<byte>, h: History, changes: seq<Change>, undone: seq<Change>, bit: bool)
    requires Redoing(file, h, changes, undone, bit) && undone != [] && undone[|undone| - 1].bit == bit
    ensures Captured(Replay(file, changes), undone[|undone| - 1])
    ensures Redoing(file, h, changes + [undone[|undone| - 1]], undone[..|undone| - 1], bit)
  {
    hide AllCaptured, Reversed, Replay, Captured;
    PopRedo(file, changes, undone);
    var n := |undone|;
    StackPush(h.undone, |h.undone| - n);
    assert h.undone[n - 1..] == [h.undone[n - 1]] + h.undone[n..];
    assert changes + [undone[n - 1]] == h.changes + Reversed(h.undone[n - 1..]);
    assert undone[..n - 1] == h.undone[..n - 1];
  }

  lemma RedoDone(file: seq<byte>, h: History, changes: seq<Change>, undone: seq<Change>, bit: bool)
    requires Redoing(file, h, changes, undone, bit) && |undone| < |h.undone| && RunEnds(undone, bit)
    ensures History(changes, undone) == Redo(h)
  {
    hide AllCaptured, Reversed, RunLength;
    RunOf(undone, h.undone[|undone|..], bit);
    assert undone + h.undone[|undone|..] == h.undone;
  }

  lemma NoChanges(file: seq<byte>, changes: seq<Change>)
    ensures Replay(file, changes[..0]) == file
  {
  }

  /** The greatest snapshot key not above `count`, or zero. */
  method NearestSnapshot(snapshots: map<nat, Segments>, count: nat) returns (k: nat)
    ensures k <= count && (k in snapshots || k == 0)
    ensures forall j :: j in snapshots && j <= count ==> j <= k
  {
    k := count;
    while k > 0 && k !in snapshots
      invariant k <= count && forall j :: j in snapshots && j <= count ==> j <= k
    {
      k := k - 1;
    }
  }

  lemma WithLength(content: seq<byte>, offset: int, data: seq<byte>)
    requires 0 <= offset <= |content|
    ensures |With(content, offset, data)| == |content| + |data|
  {
  }

  lemma SnapshotsExtend(snapshots: map<nat, Segments>, file: seq<byte>, changes: seq<Change>, c: Change)
    requires SnapshotsMatch(snapshots, file, changes)
    ensures SnapshotsMatch(snapshots, file, changes + [c])
  {
    assert (changes + [c])[..|changes|] == changes[..|changes|];
    SnapshotsKept(snapshots, file, changes, changes + [c], |changes|);
    assert UpTo(snapshots, |changes|) == snapshots;
  }

  lemma SnapshotAdded(snapshots: map<nat, Segments>, file: seq<byte>, changes: seq<Change>, segments: Segments)
    requires SnapshotsMatch(snapshots, file, changes) && Spells(segments, file, Replay(file, changes))
    ensures SnapshotsMatch(snapshots[|changes| := segments], file, changes)
  {
    hide Spells, Replay;
    assert changes[..|changes|] == changes;
  }
}
