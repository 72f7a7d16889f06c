/**
  Replaying a change log onto a session (vscode-extension/src/hexEditorProvider.ts:7194-7335): entries are
  applied in batches, transforms alone, and a failure takes the session back to where it started. The
  server's session is its list of changes; what an entry does to it is a parameter.
 */
module Replay {
  import opened Common

  datatype Kind = INSERT | DELETE | OVERWRITE | REPLACE | TRANSFORM

  /** A parsed change record. */
  datatype Entry = Entry(kind: Kind, offset: int, length: int, data: string)

  /** What the server did for one entry: changes added to its list, the record reported back, or an error. */
  datatype Effect<C, R> = Effect(added: seq<C>, record: Option<R>, failed: bool)

  const MAX_BATCH: nat := 1024

  // ---------- one entry at a time ----------

  /** The change list and the records after some entries; entries after a failed one are not applied. */
  datatype Outcome<C, R> = Outcome(changes: seq<C>, records: seq<R>, failed: bool)

  function Recorded<R>(r: Option<R>): seq<R> { if r.Some? then [r.value] else [] }

  function Then<C, R>(server: (seq<C>, Entry) -> Effect<C, R>, o: Outcome<C, R>, e: Entry): Outcome<C, R> {
    if o.failed then o
    else
      var f := server(o.changes, e);
      if f.failed then Outcome(o.changes + f.added, o.records, true)
      else Outcome(o.changes + f.added, o.records + Recorded(f.record), false)
  }

  function OneByOne<C, R>(server: (seq<C>, Entry) -> Effect<C, R>, o: Outcome<C, R>, entries: seq<Entry>): Outcome<C, R>
    decreases |entries|
  {
    if entries == [] then o else OneByOne(server, Then(server, o, entries[0]), entries[1..])
  }

  lemma {:induction false} OneByOneAppend<C, R>(server: (seq<C>, Entry) -> Effect<C, R>, o: Outcome<C, R>,
        a: seq<Entry>, b: seq<Entry>)
    ensures OneByOne(server, o, a + b) == OneByOne(server, OneByOne(server, o, a), b)
    decreases |a|
  {
    if a == [] {
      assert a + b == b;
    } else {
      assert (a + b)[1..] == a[1..] + b;
      OneByOneAppend(server, Then(server, o, a[0]), a[1..], b);
    }
  }

  /** Replay only ever adds to the change list and to the records. */
  lemma {:induction false} OnlyExtends<C, R>(server: (seq<C>, Entry) -> Effect<C, R>,
        o: Outcome<C, R>, entries: seq<Entry>)
    ensures o.changes <= OneByOne(server, o, entries).changes
    ensures o.records <= OneByOne(server, o, entries).records
    ensures o.failed ==> OneByOne(server, o, entries) == o
    decreases |entries|
  {
    if entries != [] {
      OnlyExtends(server, Then(server, o, entries[0]), entries[1..]);
    }
  }

  // ---------- the batches ----------

  /** How the entries are grouped, given those still pending. */
  function Groups(pending: seq<Entry>, entries: seq<Entry>): seq<seq<Entry>>
    decreases |entries|
  {
    if entries == [] then Flushed(pending)
    else if entries[0].kind == TRANSFORM then Flushed(pending) + [[entries[0]]] + Groups([], entries[1..])
    else
      var more := pending + [entries[0]];
      if |more| >= MAX_BATCH then [more] + Groups([], entries[1..]) else Groups(more, entries[1..])
  }

  function Flushed(pending: seq<Entry>): seq<seq<Entry>> { if pending == [] then [] else [pending] }

  predicate GoodGroup(g: seq<Entry>) {
    0 < |g| <= MAX_BATCH && ((exists i :: 0 <= i < |g| && g[i].kind == TRANSFORM) ==> |g| == 1)
  }

  /** Nothing is lost, repeated or reordered. */
  lemma {:induction false} GroupsFlatten(pending: seq<Entry>, entries: seq<Entry>)
    ensures Flatten(Groups(pending, entries)) == pending + entries
    decreases |entries|
  {
    hide Flatten;
    FlattenFlushed(pending);
    if entries == [] {
      assert pending + entries == pending;
    } else {
      var e, rest := entries[0], entries[1..];
      assert pending + entries == pending + [e] + rest;
      var more := pending + [e];
      if e.kind == TRANSFORM {
        GroupsFlatten([], rest);
        Between(Flushed(pending), [e], Groups([], rest));
      } else if |more| >= MAX_BATCH {
        GroupsFlatten([], rest);
        Between([], more, Groups([], rest));
      } else {
        GroupsFlatten(more, rest);
      }
    }
  }

  lemma Between(a: seq<seq<Entry>>, x: seq<Entry>, b: seq<seq<Entry>>)
    ensures Flatten(a + [x] + b) == Flatten(a) + x + Flatten(b)
    ensures [] + b == b && [] + [x] == [x] && Flatten<Entry>([]) == [] && [] + x == x
    ensures forall s: seq<Entry> :: [] + s == s
  {
    FlattenOne(a, x);
    FlattenAppend(a + [x], b);
  }

  /** No batch is empty or over the limit, and a transform is a group of its own. */
  lemma {:induction false} GroupsGood(pending: seq<Entry>, entries: seq<Entry>)
    requires |pending| < MAX_BATCH && forall i :: 0 <= i < |pending| ==> pending[i].kind != TRANSFORM
    ensures forall g :: g in Groups(pending, entries) ==> GoodGroup(g)
    decreases |entries|
  {
    if entries != [] {
      var e, rest := entries[0], entries[1..];
      var more := pending + [e];
      GroupsGood(if e.kind == TRANSFORM || |more| >= MAX_BATCH then [] else more, rest);
    }
  }

  predicate LoneTransform(g: seq<Entry>) { |g| == 1 && g[0].kind == TRANSFORM }

  /** A batch is cut short only by a transform or by the end. */
  predicate CutLate(groups: seq<seq<Entry>>) {
    forall i :: 0 <= i < |groups| - 1 ==>
      LoneTransform(groups[i]) || LoneTransform(groups[i + 1]) || |groups[i]| == 1024
  }

  lemma CutLateMore(g: seq<Entry>, groups: seq<seq<Entry>>)
    requires CutLate(groups)
    requires LoneTransform(g) || |g| == 1024 || (groups != [] && LoneTransform(groups[0]))
    ensures CutLate([g] + groups)
  {
    hide LoneTransform;
    var all := [g] + groups;
    forall i | 0 <= i < |all| - 1 ensures LoneTransform(all[i]) || LoneTransform(all[i + 1]) || |all[i]| == 1024 {
      if i > 0 { assert all[i] == groups[i - 1] && all[i + 1] == groups[i]; }
    }
  }

  /** Entries are sent in batches as large as they may be. */
  lemma {:induction false} GroupsCutLate(pending: seq<Entry>, entries: seq<Entry>)
    requires |pending| < MAX_BATCH
    ensures CutLate(Groups(pending, entries))
    decreases |entries|
  {
    if entries != [] {
      var e, rest := entries[0], entries[1..];
      var more := pending + [e];
      if e.kind == TRANSFORM {
        GroupsCutLate([], rest);
        var tail := Groups([], rest);
        CutLateMore([e], tail);
        if pending != [] {
          CutLateMore(pending, [[e]] + tail);
          assert Groups(pending, entries) == [pending] + ([[e]] + tail);
        } else {
          assert Groups(pending, entries) == [[e]] + tail;
        }
      } else if |more| >= MAX_BATCH {
        GroupsCutLate([], rest);
        CutLateMore(more, Groups([], rest));
      } else {
        GroupsCutLate(more, rest);
      }
    }
  }

  lemma FlattenFlushed(pending: seq<Entry>)
    ensures Flatten(Flushed(pending)) == pending
  {
    if pending != [] {
      FlattenOne([], pending);
      assert [] + [pending] == [pending];
    }
  }

  // ---------- the history that is recorded ----------

  function Start<C, R>(changes: seq<C>): Outcome<C, R> { Outcome(changes, [], false) }

  function Kept<R>(records: seq<R>): seq<seq<R>> { if records == [] then [] else [records] }

  /** One transaction per group that reported any change. */
  function Transactions<C, R>(server: (seq<C>, Entry) -> Effect<C, R>, changes: seq<C>,
        groups: seq<seq<Entry>>): seq<seq<R>>
    decreases |groups|
  {
    if groups == [] then []
    else
      var o := OneByOne(server, Start(changes), groups[0]);
      Kept(o.records) + Transactions(server, o.changes, groups[1..])
  }

  /** Records gathered before do not influence what follows. */
  lemma {:induction false} RecordsShift<C, R>(server: (seq<C>, Entry) -> Effect<C, R>,
        o: Outcome<C, R>, entries: seq<Entry>)
    requires !o.failed
    ensures var p := OneByOne(server, Start(o.changes), entries);
            OneByOne(server, o, entries) == Outcome(p.changes, o.records + p.records, p.failed)
    decreases |entries|
  {
    if entries == [] {
      assert o.records + [] == o.records;
    } else {
      var a, b := Then(server, o, entries[0]), Then(server, Start(o.changes), entries[0]);
      assert a == Outcome(b.changes, o.records + b.records, b.failed);
      if a.failed {
        OnlyExtends(server, a, entries[1..]);
        OnlyExtends(server, b, entries[1..]);
      } else {
        RecordsShift(server, a, entries[1..]);
        RecordsShift(server, b, entries[1..]);
        var p := OneByOne(server, Start(a.changes), entries[1..]);
        assert o.records + b.records + p.records == o.records + (b.records + p.records);
      }
    }
  }

  /** Running all groups is running the first and then the others. */
  lemma FirstGroup<C, R>(server: (seq<C>, Entry) -> Effect<C, R>, changes: seq<C>, groups: seq<seq<Entry>>)
    requires groups != [] && !OneByOne(server, Start(changes), Flatten(groups)).failed
    ensures var o := OneByOne(server, Start(changes), groups[0]);
            var p := OneByOne(server, Start(o.changes), Flatten(groups[1..]));
            && !o.failed && !p.failed
            && OneByOne(server, Start(changes), Flatten(groups)) == Outcome(p.changes, o.records + p.records, false)
  {
    var o := OneByOne(server, Start(changes), groups[0]);
    OneByOneAppend(server, Start(changes), groups[0], Flatten(groups[1..]));
    hide OneByOne;
    OnlyExtends(server, o, Flatten(groups[1..]));
    if !o.failed { RecordsShift(server, o, Flatten(groups[1..])); }
  }

  lemma {:induction false} TransactionsOne<C, R>(server: (seq<C>, Entry) -> Effect<C, R>, changes: seq<C>,
        groups: seq<seq<Entry>>, g: seq<Entry>)
    requires !OneByOne(server, Start(changes), Flatten(groups)).failed
    ensures var o := OneByOne(server, Start(changes), Flatten(groups));
            Transactions(server, changes, groups + [g]) ==
              Transactions(server, changes, groups) + Kept(OneByOne(server, Start(o.changes), g).records)
    decreases |groups|
  {
    if groups == [] {
      assert (groups + [g])[1..] == [] && Flatten(groups) == [];
    } else {
      hide OneByOne, Flatten, Kept;
      var o := OneByOne(server, Start(changes), groups[0]);
      FirstGroup(server, changes, groups);
      TransactionsOne(server, o.changes, groups[1..], g);
      assert (groups + [g])[1..] == groups[1..] + [g] && (groups + [g])[0] == groups[0];
      var all := OneByOne(server, Start(changes), Flatten(groups));
      Associates(Kept(o.records), Transactions(server, o.changes, groups[1..]),
                 Kept(OneByOne(server, Start(all.changes), g).records));
    }
  }

  /** The transactions hold every reported record once, in order. */
  lemma {:induction false} TransactionsHoldAll<C, R>(server: (seq<C>, Entry) -> Effect<C, R>, changes: seq<C>,
        groups: seq<seq<Entry>>)
    requires !OneByOne(server, Start(changes), Flatten(groups)).failed
    ensures Flatten(Transactions(server, changes, groups)) == OneByOne(server, Start(changes), Flatten(groups)).records
    decreases |groups|
  {
    if groups != [] {
      hide OneByOne, Flatten, Kept;
      var o := OneByOne(server, Start(changes), groups[0]);
      FirstGroup(server, changes, groups);
      TransactionsHoldAll(server, o.changes, groups[1..]);
      FlattenAppend(Kept(o.records), Transactions(server, o.changes, groups[1..]));
      FlattenKept(o.records);
    }
  }

  lemma FlattenKept<R>(records: seq<R>)
    ensures Flatten(Kept(records)) == records
  {
    if records != [] {
      FlattenOne([], records);
      assert [] + [records] == [records];
    }
  }

  // ---------- the replay itself ----------

  /** All applied; refused; failed and rolled back; failed and not rolled back. */
  datatype Result = Applied(count: nat) | NotMutable | RolledBack(applied: nat) | Stuck(applied: nat)

  class Replayer<C, R> {
    const server: (seq<C>, Entry) -> Effect<C, R>
    var changes: seq<C>
    var history: seq<seq<R>>

    constructor (server: (seq<C>, Entry) -> Effect<C, R>, changes: seq<C>, history: seq<seq<R>>)
      ensures this.server == server && this.changes == changes && this.history == history
    {
      this.server, this.changes, this.history := server, changes, history;
    }

    /** Applies the entries of one batch in order, up to the first that fails. */
    method RunBatch(batch: seq<Entry>) returns (failed: bool, records: seq<R>)
      modifies `changes
      ensures OneByOne(server, Start(old(changes)), batch) == Outcome(changes, records, failed)
    {
      failed, records := false, [];
      var i := 0;
      ghost var first := changes;
      while i < |batch|
        invariant i <= |batch| && !failed
        invariant OneByOne(server, Start(first), batch)
                  == OneByOne(server, Outcome(changes, records, false), batch[i..])
      {
        var f := server(changes, batch[i]);
        ghost var o := Then(server, Outcome(changes, records, false), batch[i]);
        assert batch[i..][1..] == batch[i + 1..];
        changes := changes + f.added;
        if f.failed {
          OnlyExtends(server, o, batch[i + 1..]);
          return true, records;
        }
        if f.record.Some? { records := records + [f.record.value]; }
        assert o.records == records;
        i := i + 1;
      }
    }
  
    /** The groups run so far, from the change list `first`, none of them failing. */
    ghost predicate Ran(first: seq<C>, groups: seq<seq<Entry>>, count: nat, transactions: seq<seq<R>>)
      reads `changes
    {
      var o := OneByOne(server, Start(first), Flatten(groups));
      !o.failed && changes == o.changes && count == |o.records| && transactions == Transactions(server, first, groups)
    }

    /** Runs one more group and keeps its records as one transaction. */
    method Flush(group: seq<Entry>, count: nat, transactions: seq<seq<R>>,
          ghost first: seq<C>, ghost groups: seq<seq<Entry>>)
      returns (failed: bool, count': nat, transactions': seq<seq<R>>)
      requires Ran(first, groups, count, transactions)
      modifies `changes
      ensures var o := OneByOne(server, Start(first), Flatten(groups) + group);
              failed == o.failed && count' == |o.records|
      ensures !failed ==> Ran(first, groups + [group], count', transactions')
      ensures old(changes) <= changes
    {
      hide OneByOne, Flatten, Transactions;
      var records;
      ghost var before := OneByOne(server, Start(first), Flatten(groups));
      failed, records := RunBatch(group);
      OnlyExtends(server, Start(old(changes)), group);
      OneByOneAppend(server, Start(first), Flatten(groups), group);
      RecordsShift(server, before, group);
      FlattenOne(groups, group);
      TransactionsOne(server, first, groups, group);
      count' := count + |records|;
      transactions' := if records == [] then transactions else transactions + [records];
    }

    /** Where the loop stands: the groups run so far and the pending entries make up the first `i` entries. */
    ghost predicate Fed(first: seq<C>, entries: seq<Entry>, i: nat, pending: seq<Entry>, groups: seq<seq<Entry>>)
    {
      && i <= |entries| && |pending| < MAX_BATCH
      && Flatten(groups) + pending == entries[..i]
      && groups + Groups(pending, entries[i..]) == Groups([], entries)
    }

    /** A transform: what is pending goes first, then the transform alone. */
    method FeedTransform(entries: seq<Entry>, i: nat, pending: seq<Entry>, count: nat, transactions: seq<seq<R>>,
        ghost first: seq<C>, ghost groups: seq<seq<Entry>>)
      returns (failed: bool, count': nat, transactions': seq<seq<R>>, ghost groups': seq<seq<Entry>>)
      requires Ran(first, groups, count, transactions) && Fed(first, entries, i, pending, groups)
      requires i < |entries| && entries[i].kind == TRANSFORM
      modifies `changes
      ensures failed ==> var o := OneByOne(server, Start(first), entries); o.failed && count' == |o.records|
      ensures !failed ==> Ran(first, groups', count', transactions') && Fed(first, entries, i + 1, [], groups')
      ensures old(changes) <= changes
    {
      hide OneByOne, Flatten, Ran;
      GroupsStep(groups, pending, entries, i);
      hide Groups;
      failed, count', transactions', groups' := false, count, transactions, groups;
      if pending != [] {
        EarlyFailure(server, first, Flatten(groups), pending, entries, i);
        failed, count', transactions' := Flush(pending, count, transactions, first, groups);
        if failed { return; }
        FlattenOne(groups, pending);
        groups' := groups + [pending];
      }
      assert Flatten(groups') == entries[..i];
      assert entries[..i] + [entries[i]] == entries[..i + 1];
      EarlyFailure(server, first, Flatten(groups'), [entries[i]], entries, i + 1);
      failed, count', transactions' := Flush([entries[i]], count', transactions', first, groups');
      FlattenOne(groups', [entries[i]]);
      groups' := groups' + [[entries[i]]];
    }

    /** Any other entry joins the pending ones, which run once there are enough of them. */
    method FeedOther(entries: seq<Entry>, i: nat, pending: seq<Entry>, count: nat, transactions: seq<seq<R>>,
        ghost first: seq<C>, ghost groups: seq<seq<Entry>>)
      returns (failed: bool, pending': seq<Entry>, count': nat, transactions': seq<seq<R>>,
               ghost groups': seq<seq<Entry>>)
      requires Ran(first, groups, count, transactions) && Fed(first, entries, i, pending, groups)
      requires i < |entries| && entries[i].kind != TRANSFORM
      modifies `changes
      ensures failed ==> var o := OneByOne(server, Start(first), entries); o.failed && count' == |o.records|
      ensures !failed ==> Ran(first, groups', count', transactions') && Fed(first, entries, i + 1, pending', groups')
      ensures old(changes) <= changes
    {
      hide OneByOne, Flatten, Ran;
      GroupsStep(groups, pending, entries, i);
      hide Groups;
      pending' := pending + [entries[i]];
      failed, count', transactions', groups' := false, count, transactions, groups;
      assert entries[..i] + [entries[i]] == entries[..i + 1];
      assert Flatten(groups) + pending' == entries[..i + 1];
      if |pending'| >= MAX_BATCH {
        EarlyFailure(server, first, Flatten(groups), pending', entries, i + 1);
        failed, count', transactions' := Flush(pending', count, transactions, first, groups);
        FlattenOne(groups, pending');
        groups', pending' := groups + [pending'], [];
      }
    }

    /** Feeds the entries through the batches; `complete` is false when reading them ends in an error. */
    method Feed(entries: seq<Entry>, complete: bool) returns (failed: bool, count: nat, transactions: seq<seq<R>>)
      modifies `changes
      ensures failed <==> !complete || OneByOne(server, Start(old(changes)), entries).failed
      ensures complete ==> count == |OneByOne(server, Start(old(changes)), entries).records|
      ensures !failed ==> Ran(old(changes), Groups([], entries), count, transactions)
      ensures old(changes) <= changes
    {
      hide OneByOne, Flatten, Transactions, Ran, Fed, Groups;
      ghost var first, groups := changes, [];
      var pending: seq<Entry>, i := [], 0;
      failed, count, transactions := false, 0, [];
      NothingRan(first, entries);
      while i < |entries|
        invariant i <= |entries| && first <= changes
        invariant Ran(first, groups, count, transactions) && Fed(first, entries, i, pending, groups)
      {
        if entries[i].kind == TRANSFORM {
          failed, count, transactions, groups := FeedTransform(entries, i, pending, count, transactions, first, groups);
          pending := [];
        } else {
          failed, pending, count, transactions, groups :=
            FeedOther(entries, i, pending, count, transactions, first, groups);
        }
        if failed { return; }
        i := i + 1;
      }
      if !complete { return true, count, transactions; }
      AllFed(first, entries, pending, groups, count, transactions);
      if pending != [] {
        failed, count, transactions := Flush(pending, count, transactions, first, groups);
      }
    }

    lemma NothingRan(first: seq<C>, entries: seq<Entry>)
      requires changes == first
      ensures Ran(first, [], 0, []) && Fed(first, entries, 0, [], [])
    {
      assert entries[0..] == entries && [] + Groups([], entries) == Groups([], entries);
    }

    /** At the end only the pending entries are left to run. */
    lemma AllFed(first: seq<C>, entries: seq<Entry>, pending: seq<Entry>,
          groups: seq<seq<Entry>>, count: nat, transactions: seq<seq<R>>)
      requires Fed(first, entries, |entries|, pending, groups) && Ran(first, groups, count, transactions)
      ensures Groups([], entries) == if pending == [] then groups else groups + [pending]
      ensures Flatten(groups) + pending == entries
      ensures pending == [] ==> var o := OneByOne(server, Start(first), entries); !o.failed && count == |o.records|
    {
      hide OneByOne, Flatten;
      assert entries[|entries|..] == [] && entries[..|entries|] == entries;
      assert Flatten(groups) + [] == Flatten(groups);
      assert groups + [] == groups;
    }

    /**
      Replays the entries all or nothing: either every entry took effect as if applied one by one and the
      fingerprint matched, or the session is taken back and nothing is recorded.
     */
    method ApplyEntries(entries: seq<Entry>, complete: bool, mutable: bool, matches: seq<C> -> bool,
        restored: bool, damaged: seq<C>)
      returns (r: Result)
      modifies this
      ensures var o := OneByOne(server, Start(old(changes)), entries);
        && (r.NotMutable? <==> !mutable)
        && (r.Applied? <==> mutable && complete && !o.failed && matches(o.changes))
        && (r.Applied? ==> changes == o.changes && r.count == |o.records|)
        && (r.Applied? ==> history == old(history) + Transactions(server, old(changes), Groups([], entries)))
        && ((r.RolledBack? || r.Stuck?) && complete ==> r.applied == |o.records|)
      ensures r.RolledBack? ==> restored && changes == old(changes)
      ensures r.Stuck? ==> !restored
      ensures r.NotMutable? ==> changes == old(changes)
      ensures !r.Applied? ==> history == old(history)
    {
      hide OneByOne, Flatten, Transactions;
      if !mutable { return NotMutable; }
      var start := |changes|;
      var failed, count, transactions := Feed(entries, complete);
      GroupsFlatten([], entries);
      assert [] + entries == entries;
      if !failed && !matches(changes) { failed := true; }
      if failed {
        changes := if restored then changes[..start] else damaged;
        return if restored then RolledBack(count) else Stuck(count);
      }
      history := history + transactions;
      return Applied(count);
    }
  }

  /** A failure among the first entries is a failure of the whole. */
  lemma EarlyFailure<C, R>(server: (seq<C>, Entry) -> Effect<C, R>,
        first: seq<C>, done: seq<Entry>, group: seq<Entry>, entries: seq<Entry>, n: nat)
    requires n <= |entries| && done + group == entries[..n]
    ensures var o := OneByOne(server, Start(first), done + group);
            o.failed ==> OneByOne(server, Start(first), entries) == o
  {
    assert entries == (done + group) + entries[n..];
    OneByOneAppend(server, Start(first), done + group, entries[n..]);
    OnlyExtends(server, OneByOne(server, Start(first), done + group), entries[n..]);
  }

  /** How the grouping moves on by one entry. */
  lemma GroupsStep(groups: seq<seq<Entry>>, pending: seq<Entry>, entries: seq<Entry>, i: nat)
    requires i < |entries| && groups + Groups(pending, entries[i..]) == Groups([], entries)
    ensures var e, rest := entries[i], entries[i + 1..]; var more := pending + [e];
            if e.kind == TRANSFORM then
              (if pending == [] then groups else groups + [pending]) + [[e]] + Groups([], rest) == Groups([], entries)
            else if |more| >= MAX_BATCH then groups + [more] + Groups([], rest) == Groups([], entries)
            else groups + Groups(more, rest) == Groups([], entries)
  {
    assert entries[i..][1..] == entries[i + 1..];
  }
}
