/**
  Transactions of an editing session (core/src/lib/edit.cpp:1376-1389, core/src/lib/session.cpp:271-302, 529-532): a
  transaction has no list of its own, only the bit its edits share. When that makes its edits one
  run, and when it does not, over every sequence of calls between its begin and its end.
 */
module Transactions {
  import opened Common
  import opened EditHistory

  /** Transaction states 0, 1 and 2 of the session flags. */
  datatype TransactionState = Idle | Opened | InProgress

  /** What the transaction bit depends on: the two stacks and the state. */
  datatype Editor = Editor(history: History, state: TransactionState)

  datatype Call = Edit(change: Change) | UndoLast | RedoLast | RestoreTo(count: int) | Begin | End

  /** The bit of the last change, true when there is none. */
  function LastBit(changes: seq<Change>): bool { changes == [] || changes[|changes| - 1].bit }

  /** The bit of the next edit: the last one's inside a transaction that has edits, the other one elsewhere. */
  function NextBit(e: Editor): bool {
    if e.state == InProgress then LastBit(e.history.changes) else !LastBit(e.history.changes)
  }

  function Called(e: Editor, call: Call): Editor {
    match call
    case Edit(c) =>
      Editor(History(e.history.changes + [c.(bit := NextBit(e))], []),
             if e.state == Opened then InProgress else e.state)
    case UndoLast => e.(history := Undo(e.history))
    case RedoLast => e.(history := Redo(e.history))
    case RestoreTo(count) =>
      if 0 <= count <= |e.history.changes| then e.(history := History(e.history.changes[..count], [])) else e
    case Begin => if e.state == Idle then e.(state := Opened) else e
    case End => e.(state := Idle)
  }

  /** Done and undone changes as one list. */
  function Timeline(h: History): seq<Change> { h.changes + Reversed(h.undone) }

  /**
    What a caller can keep beside a transaction: how many changes from before it still stand under its own,
    its own edits, and whether the first of those was made on top of an earlier change.
   */
  datatype Marks = Marks(base: nat, own: seq<Change>, joined: bool)

  function Opening(e: Editor): Marks { Marks(|Timeline(e.history)|, [], false) }

  function Marked(e: Editor, m: Marks, call: Call): Marks {
    var n := |e.history.changes|;
    match call
    case Edit(c) =>
      var own := c.(bit := NextBit(e));
      if n <= m.base || n - m.base > |m.own| then Marks(n, [own], e.state == InProgress && n > 0)
      else m.(own := m.own[..n - m.base] + [own])
    case RestoreTo(count) =>
      if !(0 <= count <= n) then m
      else if count <= m.base || count - m.base > |m.own| then Marks(count, [], false)
      else m.(own := m.own[..count - m.base])
    case _ => m
  }

  /** Calls made between the begin and the end of a transaction. */
  predicate Inside(calls: seq<Call>) { forall i :: 0 <= i < |calls| ==> calls[i] != End }

  function After(e: Editor, calls: seq<Call>): Editor {
    if calls == [] then e else Called(After(e, calls[..|calls| - 1]), calls[|calls| - 1])
  }

  function MarksAfter(e: Editor, calls: seq<Call>): Marks {
    if calls == [] then Opening(e)
    else
      var front := calls[..|calls| - 1];
      Marked(After(e, front), MarksAfter(e, front), calls[|calls| - 1])
  }

  // ---------- what every call keeps ----------

  /** The timeline is what stood before, cut to `base`, and then the transaction's own edits, which share a bit. */
  predicate Tracked(before: seq<Change>, e: Editor, m: Marks) {
    && Separated(e.history) && e.state != Idle
    && m.base <= |before| && Timeline(e.history) == before[..m.base] + m.own
    && (e.state == Opened ==> m.own == [])
    && (m.own == [] ==> !m.joined)
    && (m.own != [] ==> OneBit(m.own, m.own[0].bit) && (m.joined <==> !RunEnds(before[..m.base], m.own[0].bit)))
  }

  /** Undo moves changes between the stacks; laid end to end the stacks stay the same list. */
  lemma UndoKeepsTimeline(h: History)
    requires Separated(h)
    ensures Separated(Undo(h)) && Timeline(Undo(h)) == Timeline(h)
  {
    hide MoveRun, Reversed;
    if h.changes != [] {
      MoveBack(h.changes, h.undone);
    } else {
      NothingToMove(h.undone);
    }
  }

  lemma RedoKeepsTimeline(h: History)
    requires Separated(h)
    ensures Separated(Redo(h)) && Timeline(Redo(h)) == Timeline(h)
  {
    hide MoveRun, Reversed;
    if h.undone != [] {
      MoveBack(h.undone, h.changes);
      var r := Redo(h);
      MoveBack(r.changes, r.undone);
    } else {
      NothingToMove(h.changes);
    }
  }

  lemma NothingToMove(onto: seq<Change>)
    ensures MoveRun([], onto) == ([], onto)
  {
    assert onto + [] == onto;
  }

  /** The done changes are the front of the timeline. */
  lemma DoneIsFront(h: History)
    ensures |h.changes| <= |Timeline(h)| && h.changes == Timeline(h)[..|h.changes|]
  {
    hide Reversed;
  }

  lemma NothingUndone(changes: seq<Change>)
    ensures Timeline(History(changes, [])) == changes && Separated(History(changes, []))
  {
    assert changes + [] == changes;
  }

  lemma EditKeeps(before: seq<Change>, e: Editor, m: Marks, c: Change)
    requires Tracked(before, e, m)
    ensures Tracked(before, Called(e, Edit(c)), Marked(e, m, Edit(c)))
  {
    if |e.history.changes| <= m.base {
      EditOnEarlier(before, e, m, c);
    } else {
      EditOnOwn(before, e, m, c);
    }
  }

  /** The last change is not one of the transaction's: what it had is gone, and the edit stands alone. */
  lemma EditOnEarlier(before: seq<Change>, e: Editor, m: Marks, c: Change)
    requires Tracked(before, e, m) && |e.history.changes| <= m.base
    ensures Tracked(before, Called(e, Edit(c)), Marked(e, m, Edit(c)))
  {
    var changes := e.history.changes;
    DoneIsFront(e.history);
    NothingUndone(changes + [c.(bit := NextBit(e))]);
    hide Timeline, Reversed, Separated;
    assert changes == before[..|changes|];
  }

  /** The last change is one of the transaction's, and the edit takes its bit. */
  lemma EditOnOwn(before: seq<Change>, e: Editor, m: Marks, c: Change)
    requires Tracked(before, e, m) && |e.history.changes| > m.base
    ensures Tracked(before, Called(e, Edit(c)), Marked(e, m, Edit(c)))
  {
    var changes := e.history.changes;
    var own := c.(bit := NextBit(e));
    DoneIsFront(e.history);
    NothingUndone(changes + [own]);
    hide Timeline, Reversed, Separated;
    var standing := m.own[..|changes| - m.base];
    Standing(before, e.history, m);
    Associates(before[..m.base], standing, [own]);
    OneBitMore(m.own, |standing|, own);
    hide OneBit, RunEnds;
  }

  /** Where own edits stand, the list is the earlier changes and then those. */
  lemma Standing(before: seq<Change>, h: History, m: Marks)
    requires m.base <= |before| && Timeline(h) == before[..m.base] + m.own && |h.changes| > m.base
    ensures |h.changes| - m.base <= |m.own|
    ensures h.changes == before[..m.base] + m.own[..|h.changes| - m.base]
    ensures h.changes[|h.changes| - 1] == m.own[|h.changes| - m.base - 1]
  {
    DoneIsFront(h);
    hide Timeline;
  }

  lemma OneBitMore(own: seq<Change>, n: nat, c: Change)
    requires 0 < n <= |own| && OneBit(own, own[0].bit) && c.bit == own[n - 1].bit
    ensures (own[..n] + [c])[0] == own[0] && OneBit(own[..n] + [c], own[0].bit)
  {
  }

  lemma RestoreKeeps(before: seq<Change>, e: Editor, m: Marks, count: int)
    requires Tracked(before, e, m)
    ensures Tracked(before, Called(e, RestoreTo(count)), Marked(e, m, RestoreTo(count)))
  {
    var changes := e.history.changes;
    if 0 <= count <= |changes| {
      DoneIsFront(e.history);
      NothingUndone(changes[..count]);
      hide Timeline, Reversed, Separated;
      if count <= m.base {
        assert changes[..count] == before[..count] + [];
      } else {
        assert changes[..count] == before[..m.base] + m.own[..count - m.base];
      }
    }
  }

  lemma CallKeeps(before: seq<Change>, e: Editor, m: Marks, call: Call)
    requires Tracked(before, e, m) && call != End
    ensures Tracked(before, Called(e, call), Marked(e, m, call))
  {
    match call {
      case Edit(c) => EditKeeps(before, e, m, c);
      case RestoreTo(count) => RestoreKeeps(before, e, m, count);
      case _ =>
        UndoKeepsTimeline(e.history);
        RedoKeepsTimeline(e.history);
        hide Timeline, Undo, Redo, Separated;
    }
  }

  lemma {:induction false} CallsKeep(e: Editor, calls: seq<Call>)
    requires e.state == Opened && Separated(e.history) && Inside(calls)
    ensures Tracked(Timeline(e.history), After(e, calls), MarksAfter(e, calls))
    decreases |calls|
  {
    var before := Timeline(e.history);
    if calls == [] {
      assert before[..|before|] + [] == before;
    } else {
      var front := calls[..|calls| - 1];
      CallsKeep(e, front);
      hide Tracked, Called, Marked;
      CallKeeps(before, After(e, front), MarksAfter(e, front), calls[|calls| - 1]);
    }
  }

  /** Every sequence of calls on a new session leaves the stacks separated, which the law below starts from. */
  lemma {:induction false} CallsSeparate(calls: seq<Call>)
    ensures Separated(After(Editor(History([], []), Idle), calls).history)
    decreases |calls|
  {
    if calls != [] {
      var front := calls[..|calls| - 1];
      CallsSeparate(front);
      CallSeparates(After(Editor(History([], []), Idle), front), calls[|calls| - 1]);
    }
  }

  lemma CallSeparates(e: Editor, call: Call)
    requires Separated(e.history)
    ensures Separated(Called(e, call).history)
  {
    UndoKeepsTimeline(e.history);
    RedoKeepsTimeline(e.history);
    hide Timeline, Undo, Redo;
  }

  // ---------- the law ----------

  /** One undo takes back exactly the changes from `base` on if those are a run, and more if they are not. */
  lemma UndoOfRun(changes: seq<Change>, undone: seq<Change>, base: nat)
    requires base < |changes| && OneBit(changes[base..], changes[base].bit)
    ensures var left := Undo(History(changes, undone)).changes;
            if RunEnds(changes[..base], changes[base].bit) then left == changes[..base] else |left| < base
  {
    hide RunLength, Reversed;
    if RunEnds(changes[..base], changes[base].bit) {
      assert changes == changes[..base] + changes[base..];
      RunOf(changes[..base], changes[base..], changes[base].bit);
    } else {
      LongerRun(changes, base);
    }
  }

  lemma LongerRun(changes: seq<Change>, base: nat)
    requires 0 < base < |changes| && OneBit(changes[base..], changes[base].bit)
    requires changes[base - 1].bit == changes[base].bit
    ensures |changes| - RunLength(changes) < base
  {
    RunBits(changes);
    hide RunLength;
    assert forall i :: base <= i < |changes| ==> changes[i] == changes[base..][i - base];
  }

  /** The law in one state of a transaction. */
  lemma UndoInState(before: seq<Change>, e: Editor, m: Marks)
    requires Tracked(before, e, m) && |e.history.changes| > m.base
    ensures var changes := e.history.changes;
            var left := Undo(e.history).changes;
            if m.joined then |left| < m.base else left == changes[..m.base]
  {
    var changes := e.history.changes;
    Standing(before, e.history, m);
    hide Timeline, Separated, Undo;
    var standing := m.own[..|changes| - m.base];
    assert changes[m.base..] == standing && changes[..m.base] == before[..m.base] && changes[m.base] == m.own[0];
    UndoOfRun(changes, e.history.undone, m.base);
  }

  /**
    The law of transactions, for every sequence of calls between begin and end. The changes from before that
    still stand and the transaction's own edits make up the whole timeline. If any own edit stands at the end,
    one undo takes back all of those and nothing else if and only if the first of them was not made on top of an
    earlier change.
   */
  lemma TransactionIsUndoneWhole(idle: Editor, calls: seq<Call>)
    requires idle.state == Idle && Separated(idle.history) && Inside(calls)
    ensures var begun := Called(idle, Begin);
            var m, ended := MarksAfter(begun, calls), Called(After(begun, calls), End);
            var before, changes := Timeline(idle.history), ended.history.changes;
            && m.base <= |before| && Timeline(ended.history) == before[..m.base] + m.own
            && (|changes| > m.base ==>
                  (Called(ended, UndoLast).history.changes == changes[..m.base] <==> !m.joined))
            && (|changes| > m.base && m.joined ==> |Called(ended, UndoLast).history.changes| < m.base)
  {
    var begun := Called(idle, Begin);
    CallsKeep(begun, calls);
    hide Timeline, Undo, After, MarksAfter;
    EndOfTransaction(Timeline(idle.history), After(begun, calls), MarksAfter(begun, calls));
  }

  lemma EndOfTransaction(before: seq<Change>, e: Editor, m: Marks)
    requires Tracked(before, e, m)
    ensures var ended := Called(e, End);
            var changes := ended.history.changes;
            && m.base <= |before| && Timeline(ended.history) == before[..m.base] + m.own
            && (|changes| > m.base ==>
                  (Called(ended, UndoLast).history.changes == changes[..m.base] <==> !m.joined))
            && (|changes| > m.base && m.joined ==> |Called(ended, UndoLast).history.changes| < m.base)
  {
    if |e.history.changes| > m.base {
      UndoInState(before, e, m);
    }
    hide Timeline, Separated, Undo, OneBit, RunEnds;
  }

  /** After this call none of the edits the transaction made before it stand any more. */
  predicate Restarts(e: Editor, m: Marks, call: Call) {
    var n := |e.history.changes|;
    match call
    case Edit(_) => n <= m.base
    case RestoreTo(count) => 0 <= count <= n && count <= m.base
    case _ => false
  }

  /** An edit inside the transaction on top of a change made before it. */
  predicate OntoEarlier(e: Editor, m: Marks, call: Call) {
    call.Edit? && e.state == InProgress && 0 < |e.history.changes| <= m.base
  }

  predicate RestartsAt(e: Editor, calls: seq<Call>, i: nat)
    requires i < |calls|
  {
    Restarts(After(e, calls[..i]), MarksAfter(e, calls[..i]), calls[i])
  }

  predicate OntoEarlierAt(e: Editor, calls: seq<Call>, i: nat)
    requires i < |calls|
  {
    OntoEarlier(After(e, calls[..i]), MarksAfter(e, calls[..i]), calls[i])
  }

  /** One call decides anew or leaves things as they are. */
  lemma JoinedByCall(before: seq<Change>, e: Editor, m: Marks, call: Call)
    requires Tracked(before, e, m)
    ensures Marked(e, m, call).joined <==> if Restarts(e, m, call) then OntoEarlier(e, m, call) else m.joined
    ensures OntoEarlier(e, m, call) ==> Restarts(e, m, call)
  {
    DoneIsFront(e.history);
    hide Timeline, Separated, OneBit, RunEnds;
  }

  /** The law fails exactly when some edit went onto an earlier change and everything since stands on that edit. */
  lemma {:induction false} JoinedExactly(e: Editor, calls: seq<Call>)
    requires e.state == Opened && Separated(e.history) && Inside(calls)
    ensures MarksAfter(e, calls).joined <==>
            exists i :: 0 <= i < |calls| && OntoEarlierAt(e, calls, i) && NoRestartSince(e, calls, i)
    decreases |calls|
  {
    hide Timeline, After, Called, Tracked, Marked, Restarts, OntoEarlier;
    if calls != [] {
      var n := |calls| - 1;
      var front := calls[..n];
      JoinedExactly(e, front);
      CallsKeep(e, front);
      JoinedByCall(Timeline(e.history), After(e, front), MarksAfter(e, front), calls[n]);
      SamePrefixes(e, calls);
      if RestartsAt(e, calls, n) {
        assert forall i :: 0 <= i < n ==> !NoRestartSince(e, calls, i);
        assert NoRestartSince(e, calls, n);
      } else {
        forall i | 0 <= i < n ensures NoRestartSince(e, calls, i) <==> NoRestartSince(e, front, i) {
          SinceFront(e, calls, i);
        }
      }
    }
  }

  predicate NoRestartSince(e: Editor, calls: seq<Call>, i: nat) {
    forall j :: i < j < |calls| ==> !RestartsAt(e, calls, j)
  }

  lemma SamePrefixes(e: Editor, calls: seq<Call>)
    requires calls != []
    ensures var front := calls[..|calls| - 1];
            forall i :: 0 <= i < |front| ==> (OntoEarlierAt(e, calls, i) <==> OntoEarlierAt(e, front, i))
  {
    hide After, MarksAfter, OntoEarlier;
    var front := calls[..|calls| - 1];
    assert forall i :: 0 <= i < |front| ==> front[..i] == calls[..i] && front[i] == calls[i];
  }

  lemma SinceFront(e: Editor, calls: seq<Call>, i: nat)
    requires calls != [] && i < |calls| - 1 && !RestartsAt(e, calls, |calls| - 1)
    ensures NoRestartSince(e, calls, i) <==> NoRestartSince(e, calls[..|calls| - 1], i)
  {
    hide After, MarksAfter, Restarts;
    var front := calls[..|calls| - 1];
    assert forall j :: 0 <= j < |front| ==> front[..j] == calls[..j] && front[j] == calls[j];
    assert forall j :: 0 <= j < |front| ==> (RestartsAt(e, calls, j) <==> RestartsAt(e, front, j));
  }

  /** A caller who edits inside a transaction only while the list is empty or ends in an edit of the transaction. */
  predicate Careful(e: Editor, calls: seq<Call>) {
    forall i :: 0 <= i < |calls| && calls[i].Edit? ==> SafeEdit(e, calls[..i])
  }

  predicate SafeEdit(e: Editor, calls: seq<Call>) {
    var now := After(e, calls);
    now.state == InProgress ==> now.history.changes == [] || |now.history.changes| > MarksAfter(e, calls).base
  }

  /** For such a caller the law holds without exception. */
  lemma {:induction false} CarefulCallsNeverJoin(e: Editor, calls: seq<Call>)
    requires e.state == Opened && Separated(e.history) && Inside(calls) && Careful(e, calls)
    ensures !MarksAfter(e, calls).joined
    decreases |calls|
  {
    hide Timeline, After, Called, Tracked, Marked;
    if calls != [] {
      var n := |calls| - 1;
      var front := calls[..n];
      CarefulPrefix(e, calls, n);
      CarefulCallsNeverJoin(e, front);
      CallsKeep(e, front);
      assert calls[n].Edit? ==> SafeEdit(e, front);
      hide Careful;
      SafeNeverJoins(Timeline(e.history), After(e, front), MarksAfter(e, front), calls[n]);
    }
  }

  lemma CarefulPrefix(e: Editor, calls: seq<Call>, n: nat)
    requires Careful(e, calls) && n <= |calls|
    ensures Careful(e, calls[..n])
  {
    hide SafeEdit;
    assert forall i :: 0 <= i < n ==> calls[..n][..i] == calls[..i];
  }

  lemma SafeNeverJoins(before: seq<Change>, e: Editor, m: Marks, call: Call)
    requires Tracked(before, e, m) && !m.joined
    requires call.Edit? && e.state == InProgress ==> e.history.changes == [] || |e.history.changes| > m.base
    ensures !Marked(e, m, call).joined
  {
    DoneIsFront(e.history);
    hide Timeline, Separated, OneBit, RunEnds;
  }

  /** An edit outside a transaction is undone alone, whatever came before it. */
  lemma SingleEditIsUndoneAlone(e: Editor, c: Change)
    requires e.state == Idle
    ensures Called(Called(e, Edit(c)), UndoLast).history.changes == e.history.changes
  {
    var changes := e.history.changes;
    var own := c.(bit := NextBit(e));
    assert (changes + [own])[..|changes|] == changes && (changes + [own])[|changes|..] == [own];
    UndoOfRun(changes + [own], [], |changes|);
  }

  /**
    The failing run: an edit, then a transaction whose only edit is undone and replaced. The replacement takes
    the bit of the earlier edit, and the undo after the transaction takes back both.
   */
  lemma TransactionTakesEarlierEdit(a: Change, b: Change, c: Change)
    ensures var calls := [Edit(b), UndoLast, Edit(c)];
            var begun := Called(Called(Editor(History([], []), Idle), Edit(a)), Begin);
            var ended := Called(After(begun, calls), End);
            && MarksAfter(begun, calls).joined
            && |ended.history.changes| == 2 && Called(ended, UndoLast).history.changes == []
  {
    var first, other := a.(bit := false), c.(bit := false);
    FirstEdit(a);
    var begun := Editor(History([first], []), Opened);
    hide Called, After, MarksAfter;
    FailingCalls(begun, first, b, c);
    BothTakenBack(first, other);
  }

  lemma BothTakenBack(x: Change, y: Change)
    requires x.bit == y.bit
    ensures var ended := Called(Editor(History([x, y], []), InProgress), End);
            |ended.history.changes| == 2 && Called(ended, UndoLast).history.changes == []
  {
    UndoOfTwo(x, y);
    hide Undo;
  }

  lemma FirstEdit(a: Change)
    ensures Called(Called(Editor(History([], []), Idle), Edit(a)), Begin)
            == Editor(History([a.(bit := false)], []), Opened)
  {
    assert [] + [a.(bit := false)] == [a.(bit := false)];
  }

  lemma FailingCalls(begun: Editor, first: Change, b: Change, c: Change)
    requires !first.bit && begun == Editor(History([first], []), Opened)
    ensures var calls, other := [Edit(b), UndoLast, Edit(c)], c.(bit := false);
            && After(begun, calls) == Editor(History([first, other], []), InProgress)
            && MarksAfter(begun, calls) == Marks(1, [other], true)
  {
    var mine, one, two := b.(bit := true), [Edit(b)], [Edit(b)] + [UndoLast];
    AfterNone(begun);
    AfterOne(begun, [], Edit(b));
    AfterOne(begun, one, UndoLast);
    AfterOne(begun, two, Edit(c));
    assert [] + one == one && two + [Edit(c)] == [Edit(b), UndoLast, Edit(c)];
    hide Undo, After, MarksAfter;
    assert [first] + [mine] == [first, mine];
    ReplacedEdit(first, mine, c, After(begun, one));
  }

  lemma ReplacedEdit(first: Change, mine: Change, c: Change, e: Editor)
    requires !first.bit && mine.bit && e == Editor(History([first, mine], []), InProgress)
    ensures var undone, other := Called(e, UndoLast), c.(bit := false);
            && Called(undone, Edit(c)) == Editor(History([first, other], []), InProgress)
            && Marked(undone, Marks(1, [mine], false), Edit(c)) == Marks(1, [other], true)
  {
    UndoOfTwo(first, mine);
    hide Undo;
    assert [first] + [c.(bit := false)] == [first, c.(bit := false)];
  }

  lemma AfterNone(e: Editor)
    ensures After(e, []) == e && (e.history.undone == [] ==> MarksAfter(e, []) == Marks(|e.history.changes|, [], false))
  {
  }

  lemma AfterOne(e: Editor, calls: seq<Call>, call: Call)
    ensures After(e, calls + [call]) == Called(After(e, calls), call)
    ensures MarksAfter(e, calls + [call]) == Marked(After(e, calls), MarksAfter(e, calls), call)
  {
    hide Called, Marked;
    assert (calls + [call])[..|calls|] == calls;
  }

  lemma AfterThree(e: Editor, x: Call, y: Call, z: Call)
    ensures After(e, [x, y, z]) == Called(Called(Called(e, x), y), z)
  {
    hide Called;
    AfterNone(e);
    AfterOne(e, [], x);
    AfterOne(e, [x], y);
    AfterOne(e, [x] + [y], z);
    assert [] + [x] == [x] && [x] + [y] + [z] == [x, y, z];
  }

  lemma UndoOfTwo(x: Change, y: Change)
    ensures Undo(History([x, y], [])).changes == if x.bit == y.bit then [] else [x]
  {
    var two := [x, y];
    assert two[..0] == [] && two[0..] == two && two[..1] == [x] && two[1..] == [y];
    hide Undo;
    if x.bit == y.bit { UndoOfRun(two, [], 0); } else { UndoOfRun(two, [], 1); }
  }
}
