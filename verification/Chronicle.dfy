/**
  What a session's manifest says, read off the history of its committed operations
  (vscode-extension/src/checkpointTimelineStorage.ts:1203-1248, 1290-1324, 1381-1483), and which operations
  commit at all.
 */
module Chronicle {
  import opened Common
  import opened Manifest
  import opened Branch
  import opened TimelineRuns

  /** The kinds of operation that matter to one part of the manifest. */
  datatype Kind = Saving | Moving | Shaping | Storing(k: int) | Cutting(k: int) | Marking(k: int)

  predicate Appends(op: Op) { op.Capture? || op.RecordUnavailable? }

  predicate Is(kind: Kind, op: Op) {
    match kind
    case Saving => op.SetSaved?
    case Moving => Appends(op) || op.Truncate? || op.SetCursor?
    case Shaping => Appends(op) || op.Truncate?
    case Storing(k) => Appends(op) && Carried(op).value.checkpoint == k
    case Cutting(k) => op.Truncate? && op.to < k
    case Marking(k) => op.MarkUnavailable? && op.checkpoint == k
  }

  /** The last operation of a kind, -1 when there is none. */
  function Latest(kind: Kind, ops: seq<Op>): (i: int)
    ensures -1 <= i < |ops|
    ensures i >= 0 ==> Is(kind, ops[i])
    ensures forall j :: i < j < |ops| ==> !Is(kind, ops[j])
  {
    if ops == [] then -1
    else if Is(kind, ops[|ops| - 1]) then |ops| - 1
    else Latest(kind, ops[..|ops| - 1])
  }

  function Count(kind: Kind, ops: seq<Op>): nat {
    if ops == [] then 0
    else Count(kind, ops[..|ops| - 1]) + if Is(kind, ops[|ops| - 1]) then 1 else 0
  }

  lemma LatestMore(kind: Kind, ops: seq<Op>, op: Op)
    ensures Latest(kind, ops + [op]) == if Is(kind, op) then |ops| else Latest(kind, ops)
    ensures Count(kind, ops + [op]) == Count(kind, ops) + if Is(kind, op) then 1 else 0
  {
    assert (ops + [op])[..|ops|] == ops;
  }

  /** Where an operation that moves the cursor puts it: at the new boundary, or where it was told to. */
  function Place(op: Op): int
    requires Is(Moving, op)
  {
    match op
    case Truncate(to) => to
    case SetCursor(cursor) => cursor
    case _ => Carried(op).value.checkpoint
  }

  // ---------- what the manifest says ----------

  /** The entry names the plugins asked for, or else those the archive needs; sorted, each once. */
  ghost predicate NamesPlugins(e: Entry, op: Op)
    requires Appends(op)
  {
    var r := Carried(op).value;
    var ids := if r.plugins.Some? then r.plugins.value else if op.Capture? then op.log.requiredPlugins else [];
    Sorted(e.plugins) && forall id :: id in e.plugins <==> id in ids
  }

  /** The entry describes the interval the operation stored. */
  ghost predicate StoredBy(e: Entry, op: Op)
    requires Appends(op)
  {
    var r := Carried(op).value;
    && e.checkpoint == r.checkpoint && e.generation == r.generation && e.sourceChangeCount == r.sourceChangeCount
    && e.kind == r.kind && Normalize(r.before) == Some(e.before) && Normalize(r.after) == Some(e.after)
    && NamesPlugins(e, op)
  }

  /** The entry is ready, with the archive captured. */
  predicate Holds(e: Entry, op: Op)
    requires op.Capture?
  {
    && e.state == Ready && e.error == None && e.archive.Some?
    && var a := e.archive.value;
       && a.byteLength == op.log.byteLength && a.sha256 == op.log.sha256 && a.emitted == op.log.changeCount
       && a.optimized == op.optimized
  }

  /** The entry is unavailable, for the reason given. */
  predicate Lacks(e: Entry, why: Failure) { e.state == Unavailable && e.archive == None && e.error == Some(why) }

  /** Entry i is what the operation that stored it last said, and is unavailable when it was marked since. */
  ghost predicate EntryTold(ops: seq<Op>, e: Entry, i: int) {
    var stored, marked := Latest(Storing(i + 1), ops), Latest(Marking(i + 1), ops);
    && stored > Latest(Cutting(i + 1), ops) && stored >= 0 && StoredBy(e, ops[stored])
    && (if marked > stored then Lacks(e, ops[marked].reason)
        else if ops[stored].Capture? then Holds(e, ops[stored])
        else Lacks(e, ops[stored].failure))
  }

  ghost predicate EntriesTold(ops: seq<Op>, m: Timeline) {
    forall i :: 0 <= i < |m.intervals| ==> EntryTold(ops, m.intervals[i], i)
  }

  /** Saved content, cursor, length and generation are what the last operations on them said. */
  ghost predicate FieldsTold(original: Fingerprint, ops: seq<Op>, m: Timeline) {
    var saved, moved, shaped := Latest(Saving, ops), Latest(Moving, ops), Latest(Shaping, ops);
    && m.original == original
    && (if saved < 0 then m.saved.fingerprint == original
        else Normalize(ops[saved].fingerprint) == Some(m.saved.fingerprint))
    && m.cursor == (if moved < 0 then 0 else Place(ops[moved]))
    && m.tip == |m.intervals| == (if shaped < 0 then 0 else Place(ops[shaped]))
    && m.nextGeneration == 1 + Count(Shaping, ops)
  }

  ghost predicate Told(original: Fingerprint, ops: seq<Op>, m: Timeline) {
    FieldsTold(original, ops, m) && EntriesTold(ops, m)
  }

  // ---------- one commit ----------

  /** The operation speaks of entry i: it stores it, cuts it off, or marks it. */
  predicate Concerns(op: Op, i: int) {
    Is(Storing(i + 1), op) || Is(Cutting(i + 1), op) || Is(Marking(i + 1), op)
  }

  lemma EntryStays(ops: seq<Op>, op: Op, e: Entry, i: int)
    requires EntryTold(ops, e, i) && !Concerns(op, i)
    ensures EntryTold(ops + [op], e, i)
  {
    LatestMore(Storing(i + 1), ops, op);
    LatestMore(Cutting(i + 1), ops, op);
    LatestMore(Marking(i + 1), ops, op);
    hide Is, Latest, StoredBy, Holds, Lacks;
  }

  /** Entries that are kept stay told when the operation does not speak of them. */
  lemma EntriesStay(ops: seq<Op>, op: Op, m: Timeline, c: Timeline)
    requires EntriesTold(ops, m) && c.intervals <= m.intervals
    requires forall i :: 0 <= i < |c.intervals| ==> !Concerns(op, i)
    ensures EntriesTold(ops + [op], c)
  {
    hide EntryTold;
    forall i | 0 <= i < |c.intervals| ensures EntryTold(ops + [op], c.intervals[i], i) {
      assert !Concerns(op, i);
      hide Concerns;
      EntryStays(ops, op, m.intervals[i], i);
    }
  }

  /** The last operations that count, one operation later. */
  lemma FieldsMore(ops: seq<Op>, op: Op)
    ensures Latest(Saving, ops + [op]) == if op.SetSaved? then |ops| else Latest(Saving, ops)
    ensures Latest(Moving, ops + [op]) == if Is(Moving, op) then |ops| else Latest(Moving, ops)
    ensures Latest(Shaping, ops + [op]) == if Is(Shaping, op) then |ops| else Latest(Shaping, ops)
    ensures Count(Shaping, ops + [op]) == Count(Shaping, ops) + if Is(Shaping, op) then 1 else 0
  {
    LatestMore(Saving, ops, op);
    LatestMore(Moving, ops, op);
    LatestMore(Shaping, ops, op);
  }

  lemma NewEntry(ops: seq<Op>, op: Op, e: Entry, i: int)
    requires Appends(op) && StoredBy(e, op) && e.checkpoint == i + 1
    requires if op.Capture? then Holds(e, op) else Lacks(e, op.failure)
    ensures EntryTold(ops + [op], e, i)
  {
    assert Is(Storing(i + 1), op);
    LatestMore(Storing(i + 1), ops, op);
    LatestMore(Cutting(i + 1), ops, op);
    LatestMore(Marking(i + 1), ops, op);
    hide Latest, StoredBy, Holds, Lacks;
  }

  lemma CapturedTold(r: Request, log: Log, optimized: bool)
    requires Normal(r.before) && Normal(r.after) && r.checkpoint >= 0
    ensures var op, e := Op.Capture(r, log, optimized), Branch.Captured(r, log, optimized);
            StoredBy(e, op) && Holds(e, op)
  {
    SortedUniqueSorts(if r.plugins.Some? then r.plugins.value else log.requiredPlugins);
    hide SortedUnique, FileName, Normalize;
  }

  lemma MissingTold(r: Request, failure: Failure)
    requires Normalize(r.before).Some? && Normalize(r.after).Some?
    ensures var op, e := Op.RecordUnavailable(r, failure), Missing(Normalized(r), failure);
            StoredBy(e, op) && Lacks(e, failure)
  {
    SortedUniqueSorts(if r.plugins.Some? then r.plugins.value else []);
    hide SortedUnique, Normalize;
  }

  lemma AppendedEntries(ops: seq<Op>, m: Timeline, op: Op, e: Entry)
    requires EntriesTold(ops, m) && Appends(op) && e.checkpoint == |m.intervals| + 1 && StoredBy(e, op)
    requires if op.Capture? then Holds(e, op) else Lacks(e, op.failure)
    ensures EntriesTold(ops + [op], Appended(m, e))
  {
    var c := Appended(m, e);
    EntriesStay(ops, op, m, m);
    NewEntry(ops, op, e, |m.intervals|);
    assert c.intervals == m.intervals + [e];
    hide EntryTold, Appended;
  }

  lemma AppendedTold(original: Fingerprint, ops: seq<Op>, m: Timeline, op: Op, e: Entry)
    requires Told(original, ops, m) && Appends(op) && e.checkpoint == |m.intervals| + 1 && StoredBy(e, op)
    requires if op.Capture? then Holds(e, op) else Lacks(e, op.failure)
    ensures Told(original, ops + [op], Appended(m, e))
  {
    AppendedEntries(ops, m, op, e);
    FieldsMore(ops, op);
    hide Latest, Count, EntriesTold, Holds, Lacks, NamesPlugins, FingerprintsEqual;
  }

  lemma TruncatedTold(original: Fingerprint, ops: seq<Op>, m: Timeline, to: int)
    requires Told(original, ops, m) && 0 <= to <= |m.intervals|
    ensures Told(original, ops + [Truncate(to)], Truncated(m, to))
  {
    EntriesStay(ops, Truncate(to), m, Truncated(m, to));
    FieldsMore(ops, Truncate(to));
    hide Latest, Count, EntriesTold;
  }

  lemma MarkedTold(original: Fingerprint, ops: seq<Op>, m: Timeline, at: int, reason: Failure)
    requires Sound(m) && Told(original, ops, m) && Names(m, at)
    ensures Told(original, ops + [MarkUnavailable(at, reason)], Marked(m, at, reason))
  {
    var op, c := MarkUnavailable(at, reason), Marked(m, at, reason);
    hide EntriesTold, FieldsTold, Marked, Chain;
    MarkedAlone(m, at, reason);
    MarkedRest(m, at, reason);
    MarkedEntries(ops, m, c, at, reason);
    FieldsStay(original, ops, op, m, c);
  }

  lemma MarkedRest(m: Timeline, at: int, reason: Failure)
    requires Names(m, at)
    ensures var c := Marked(m, at, reason); c == m.(intervals := c.intervals) && |c.intervals| == |m.intervals|
  {
  }

  lemma FieldsStay(original: Fingerprint, ops: seq<Op>, op: Op, m: Timeline, c: Timeline)
    requires FieldsTold(original, ops, m) && op.MarkUnavailable?
    requires c == m.(intervals := c.intervals) && |c.intervals| == |m.intervals|
    ensures FieldsTold(original, ops + [op], c)
  {
    FieldsMore(ops, op);
    hide Latest, Count;
  }

  lemma MarkedEntries(ops: seq<Op>, m: Timeline, c: Timeline, at: int, reason: Failure)
    requires EntriesTold(ops, m) && |c.intervals| == |m.intervals|
    requires forall i :: 0 <= i < |c.intervals| ==>
               c.intervals[i] == if i == at - 1 then MarkedEntry(m.intervals[i], reason) else m.intervals[i]
    ensures EntriesTold(ops + [MarkUnavailable(at, reason)], c)
  {
    hide EntryTold;
    forall i | 0 <= i < |c.intervals| ensures EntryTold(ops + [MarkUnavailable(at, reason)], c.intervals[i], i) {
      if i == at - 1 {
        MarkedEntryTold(ops, m.intervals[i], i, reason);
      } else {
        EntryStays(ops, MarkUnavailable(at, reason), m.intervals[i], i);
      }
    }
  }

  lemma MarkedEntryTold(ops: seq<Op>, e: Entry, i: int, reason: Failure)
    requires EntryTold(ops, e, i)
    ensures EntryTold(ops + [MarkUnavailable(i + 1, reason)], MarkedEntry(e, reason), i)
  {
    var op := MarkUnavailable(i + 1, reason);
    LatestMore(Storing(i + 1), ops, op);
    LatestMore(Cutting(i + 1), ops, op);
    LatestMore(Marking(i + 1), ops, op);
    hide Latest, Holds;
  }

  lemma SavedTold(original: Fingerprint, ops: seq<Op>, m: Timeline, f: Fingerprint)
    requires Told(original, ops, m) && Normalize(f).Some?
    ensures Told(original, ops + [SetSaved(f)], WithSaved(m, Normalize(f).value))
  {
    hide FirstMatch, Normalize, FingerprintsEqual;
    EntriesStay(ops, SetSaved(f), m, WithSaved(m, Normalize(f).value));
    FieldsMore(ops, SetSaved(f));
    hide Latest, Count, EntriesTold;
  }

  lemma MovedTold(original: Fingerprint, ops: seq<Op>, m: Timeline, cursor: int)
    requires Told(original, ops, m)
    ensures Told(original, ops + [SetCursor(cursor)], m.(cursor := cursor))
  {
    EntriesStay(ops, SetCursor(cursor), m, m.(cursor := cursor));
    FieldsMore(ops, SetCursor(cursor));
    hide Latest, Count, EntriesTold;
  }

  /** A committed operation makes the manifest say what the operation said, and no more. */
  lemma CommitTold(original: Fingerprint, ops: seq<Op>, m: Timeline, op: Op, c: Timeline)
    requires Sound(m) && Told(original, ops, m) && Commits(m, op, c)
    requires op.Capture? ==> Ticket(m, op.request)
    ensures Told(original, ops + [op], c)
  {
    hide Parse, Appended, Marked, Truncated, WithSaved, Normalize, Validates, Told, Branch.Captured, Missing, StoredBy,
         Holds, Lacks;
    match op {
      case Capture(r, log, optimized) =>
        TicketRange(m, r);
        CapturedTold(r, log, optimized);
        CapturedAt(r, log, optimized);
        AppendedTold(original, ops, m, op, Branch.Captured(r, log, optimized));
      case RecordUnavailable(r, failure) =>
        MissingTold(r, failure);
        MissingAt(m, r, failure);
        AppendedTold(original, ops, m, op, Missing(Normalized(r), failure));
      case MarkUnavailable(k, reason) => MarkedTold(original, ops, m, k, reason);
      case Truncate(to) => TruncatedTold(original, ops, m, to);
      case SetCursor(cursor) => MovedTold(original, ops, m, cursor);
      case SetSaved(f) => SavedTold(original, ops, m, f);
      case Close =>
    }
  }

  lemma CapturedAt(r: Request, log: Log, optimized: bool)
    requires r.checkpoint >= 0
    ensures Branch.Captured(r, log, optimized).checkpoint == r.checkpoint
  {
  }

  lemma MissingAt(m: Timeline, r: Request, failure: Failure)
    requires WellFormed(m) && Continues(m, r)
    ensures Missing(Normalized(r), failure).checkpoint == |m.intervals| + 1
  {
    hide Chain, Normalize;
  }

  // ---------- whole runs ----------

  /** The step put what the operation commits on disk. */
  predicate Took(w: World, op: Op, w': World) {
    !w.closed && op != Close && w'.disk.Some? && Commits(w.value, op, w'.disk.value)
  }

  /** The operations of a run that were committed, in order. */
  ghost function Committed(worlds: seq<World>, ops: seq<Op>): seq<Op>
    requires |worlds| == |ops| + 1
  {
    if ops == [] then []
    else
      var n := |ops| - 1;
      Committed(worlds[..n + 1], ops[..n]) + if Took(worlds[n], ops[n], worlds[n + 1]) then [ops[n]] else []
  }

  lemma CommittedMore(worlds: seq<World>, ops: seq<Op>, n: nat)
    requires |worlds| == |ops| + 1 && n < |ops|
    ensures Committed(worlds[..n + 2], ops[..n + 1]) ==
            Committed(worlds[..n + 1], ops[..n]) + if Took(worlds[n], ops[n], worlds[n + 1]) then [ops[n]] else []
  {
    hide Took;
    assert worlds[..n + 2][..n + 1] == worlds[..n + 1] && ops[..n + 1][..n] == ops[..n];
  }

  /** Memory, while the process lives, and the disk say what the history says. */
  ghost predicate WorldTold(original: Fingerprint, ops: seq<Op>, w: World) {
    && (!w.crashed ==> Told(original, ops, w.value))
    && (w.disk.Some? ==> Told(original, ops, w.disk.value))
  }

  lemma StepTold(original: Fingerprint, ops: seq<Op>, w: World, op: Op, w': World)
    requires Inv(w) && WorldTold(original, ops, w) && Step(w, op, w') && Admissible(w, op)
    ensures WorldTold(original, ops + if Took(w, op, w') then [op] else [], w')
  {
    hide Sound, Candidate, Ticket, FilesUncommitted, FilesCommitted, Parse, Told;
    assert ops + [] == ops;
    if Took(w, op, w') {
      CommitTold(original, ops, w.value, op, w'.disk.value);
      if !w'.crashed { OneCandidate(w, op, w'); }
    }
  }

  /** A live process that committed has the committed manifest in memory. */
  lemma OneCandidate(w: World, op: Op, w': World)
    requires Inv(w) && Step(w, op, w') && Took(w, op, w') && !w'.crashed
    ensures w'.disk == Some(w'.value)
  {
    hide Sound, Candidate, FilesUncommitted, FilesCommitted, Parse;
  }

  /**
    In every state of every run the manifest, on disk and in the memory of a live process, is what the
    operations committed so far say: every entry, the saved content, the cursor, the length and the generation.
   */
  lemma {:induction false} RunTold(worlds: seq<World>, ops: seq<Op>, n: nat)
    requires Run(worlds, ops) && n <= |ops|
    ensures WorldTold(worlds[0].value.original, Committed(worlds[..n + 1], ops[..n]), worlds[n])
  {
    hide Inv, Step, Ticket, Issued, WorldTold, Took;
    if n == 0 {
      StartsTold(worlds[0]);
    } else {
      RunTold(worlds, ops, n - 1);
      RunKeepsInv(worlds, ops, n - 1);
      assert Step(worlds[n - 1], ops[n - 1], worlds[n]);
      var before := Committed(worlds[..n], ops[..n - 1]);
      StepTold(worlds[0].value.original, before, worlds[n - 1], ops[n - 1], worlds[n]);
      CommittedMore(worlds, ops, n - 1);
    }
  }

  lemma StartsTold(w: World)
    requires exists f :: Normal(f) && w == Created(f)
    ensures WorldTold(w.value.original, [], w)
  {
    hide EntryTold;
  }

  // ---------- the saved checkpoint ----------

  /** The least boundary with this content, none when there is none. */
  predicate LeastMatch(m: Timeline, f: Fingerprint, checkpoint: Option<int>) {
    match checkpoint
    case None => forall k :: 0 <= k <= |m.intervals| ==> Boundary(m, k) != f
    case Some(least) =>
      && 0 <= least <= |m.intervals| && Boundary(m, least) == f
      && forall k :: 0 <= k < least ==> Boundary(m, k) != f
  }

  /** Recording the saved content changes nothing else, and finds the first boundary that has it. */
  lemma SavedExactly(m: Timeline, f: Fingerprint, c: Timeline)
    requires Sound(m) && Commits(m, SetSaved(f), c)
    ensures c == m.(saved := c.saved) && Normalize(f) == Some(c.saved.fingerprint)
    ensures LeastMatch(m, c.saved.fingerprint, c.saved.checkpoint)
    ensures c.saved.offBranch <==> c.saved.checkpoint.None?
  {
    SavedNormal(f);
    hide Chain, Parse, Normalize, WithSaved, LeastMatch;
    LeastSaved(m, Normalize(f).value);
  }

  lemma LeastSaved(m: Timeline, f: Fingerprint)
    requires WellFormed(m) && Normal(f)
    ensures var c := WithSaved(m, f);
            && c == m.(saved := c.saved) && c.saved.fingerprint == f && LeastMatch(m, f, c.saved.checkpoint)
            && (c.saved.offBranch <==> c.saved.checkpoint.None?)
  {
    NormalForms(f, m.original);
    Numbered(m);
    FirstMatchIsLeast(m.intervals, f, 0);
    hide WellFormed, Normal, FirstMatch, FingerprintsEqual;
  }

  /** Every other operation keeps the saved content; its checkpoint moves to a new match or is cut off. */
  lemma SavedFollows(m: Timeline, op: Op, c: Timeline)
    requires Sound(m) && Commits(m, op, c) && !op.SetSaved?
    requires op.Capture? ==> Ticket(m, op.request)
    ensures c.saved.fingerprint == m.saved.fingerprint
    ensures c.saved.checkpoint ==
            if |c.intervals| > |m.intervals| && Boundary(c, |c.intervals|) == m.saved.fingerprint
            then Some(|c.intervals|)
            else if m.saved.checkpoint.Some? && m.saved.checkpoint.value > |c.intervals| then None
            else m.saved.checkpoint
  {
    hide Parse, Marked, Truncated, WithSaved, Normalize, Validates, Appended, FingerprintsEqual, SavedSound;
    SavedInBounds(m);
    match op {
      case Capture(r, log, optimized) =>
        TicketRange(m, r);
        AppendedSavedAt(m, Branch.Captured(r, log, optimized));
      case RecordUnavailable(r, failure) =>
        SavedNormal(r.after);
        AppendedSavedAt(m, Missing(Normalized(r), failure));
      case MarkUnavailable(k, reason) =>
        MarkedAlone(m, k, reason);
        MarkedSaved(m, k, reason);
      case Truncate(to) => TruncatedSavedAt(m, to);
      case SetCursor(cursor) =>
      case Close =>
    }
  }

  lemma SavedInBounds(m: Timeline)
    requires Sound(m)
    ensures m.saved.checkpoint.Some? ==> m.saved.checkpoint.value <= |m.intervals|
    ensures Normal(m.saved.fingerprint) && m.tip == |m.intervals|
  {
  }

  lemma AppendedSavedAt(m: Timeline, e: Entry)
    requires Normal(e.after) && Normal(m.saved.fingerprint) && e.checkpoint == |m.intervals| + 1
    ensures var c := Appended(m, e);
            && |c.intervals| == |m.intervals| + 1 && Boundary(c, |c.intervals|) == e.after
            && c.saved.fingerprint == m.saved.fingerprint
            && c.saved.checkpoint == if e.after == m.saved.fingerprint then Some(|c.intervals|) else m.saved.checkpoint
  {
    NormalForms(e.after, m.saved.fingerprint);
    hide Normalize, FingerprintsEqual;
  }

  lemma MarkedSaved(m: Timeline, k: int, reason: Failure)
    requires Names(m, k)
    ensures Marked(m, k, reason).saved == m.saved
  {
  }

  lemma TruncatedSavedAt(m: Timeline, to: int)
    requires 0 <= to <= |m.intervals|
    ensures var c := Truncated(m, to);
            && |c.intervals| == to && c.saved.fingerprint == m.saved.fingerprint
            && c.saved.checkpoint ==
               if m.saved.checkpoint.Some? && m.saved.checkpoint.value > to then None else m.saved.checkpoint
  {
  }

  // ---------- which operations commit ----------

  /** What an operation demands of its arguments and of the manifest. */
  predicate Accepts(m: Timeline, op: Op) {
    match op
    case Capture(r, log, _) => r.generation == m.nextGeneration && r.kind != OtherKind && CompleteLog(r, log)
    case RecordUnavailable(r, _) => Continues(m, r) && r.kind != OtherKind && Decimal(r.sourceChangeCount)
    case MarkUnavailable(k, _) => 1 <= k <= |m.intervals|
    case Truncate(to) => 0 <= to <= |m.intervals|
    case SetCursor(cursor) => 0 <= cursor <= |m.intervals|
    case SetSaved(f) => Normalize(f).Some?
    case Close => false
  }

  /** An operation commits exactly when it is acceptable: the validator refuses nothing else. */
  lemma CommitsExactly(m: Timeline, op: Op)
    requires Sound(m) && (op.Capture? ==> Ticket(m, op.request))
    ensures (exists c :: Commits(m, op, c)) <==> Accepts(m, op)
  {
    if Accepts(m, op) {
      AcceptedCommits(m, op);
    } else {
      forall c | Commits(m, op, c) ensures false { CommittedAccepts(m, op, c); }
    }
  }

  lemma CommittedAccepts(m: Timeline, op: Op, c: Timeline)
    requires Sound(m) && Commits(m, op, c) && (op.Capture? ==> Ticket(m, op.request))
    ensures Accepts(m, op)
  {
    SavedInBounds(m);
    hide Parse, Appended, Marked, Truncated, WithSaved, Normalize, Validates, SavedSound, GoodEntry;
    match op {
      case Capture(r, log, optimized) =>
        ParsedIsGood(m, Branch.Captured(r, log, optimized));
        CapturedParts(r, log, optimized, |m.intervals|, Last(m));
      case RecordUnavailable(r, failure) =>
        SavedNormal(r.before);
        SavedNormal(r.after);
        ParsedIsGood(m, Missing(Normalized(r), failure));
        MissingParts(Normalized(r), failure, |m.intervals|, Last(m));
      case _ =>
    }
  }

  lemma CapturedParts(r: Request, log: Log, optimized: bool, index: nat, previous: Fingerprint)
    requires r.checkpoint >= 0 && GoodEntry(Branch.Captured(r, log, optimized), index, previous)
    ensures r.kind != OtherKind && Decimal(log.byteLength) && Decimal(log.changeCount) && Sha256(log.sha256)
  {
    hide SortedUnique, FileName, Normalize;
  }

  lemma MissingParts(r: Request, failure: Failure, index: nat, previous: Fingerprint)
    requires GoodEntry(Missing(r, failure), index, previous)
    ensures r.kind != OtherKind
  {
    hide SortedUnique, Normalize;
  }

  lemma AcceptedCommits(m: Timeline, op: Op)
    requires Sound(m) && Accepts(m, op) && (op.Capture? ==> Ticket(m, op.request))
    ensures Candidate(m, op).Some? && Commits(m, op, Candidate(m, op).value)
  {
    SavedInBounds(m);
    hide Parse, Appended, Marked, Truncated, WithSaved, Normalize, SavedSound, GoodEntry, WellFormed, GenerationsRise,
         ArchivesNamed;
    match op {
      case Capture(r, log, optimized) =>
        TicketRange(m, r);
        CapturedIsGood(m, r, log, optimized);
        AppendedChain(m, Branch.Captured(r, log, optimized));
      case RecordUnavailable(r, failure) =>
        AcceptedRecord(m, r, failure);
      case MarkUnavailable(k, reason) =>
        MarkedIsSound(m, k, reason);
      case Truncate(to) => TruncatedIsSound(m, to);
      case SetCursor(cursor) => MovedIsSound(m, cursor);
      case SetSaved(f) =>
        SavedNormal(f);
        SavedIsSound(m, Normalize(f).value);
      case Close =>
    }
    ParsesToItself(Candidate(m, op).value);
  }

  lemma AcceptedRecord(m: Timeline, r: Request, failure: Failure)
    requires Sound(m) && Continues(m, r) && r.kind != OtherKind && Decimal(r.sourceChangeCount)
    ensures WellFormed(Appended(m, Missing(Normalized(r), failure)))
  {
    SavedInBounds(m);
    SavedNormal(r.before);
    SavedNormal(r.after);
    Numbered(m);
    NormalForms(Normalize(r.before).value, Last(m));
    hide Normalize, GoodEntry, SavedSound, GenerationsRise, ArchivesNamed, Appended, FingerprintsEqual;
    MissingIsGood(m, Normalized(r), failure);
    AppendedChain(m, Missing(Normalized(r), failure));
  }
}
