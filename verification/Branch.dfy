/**
  What the session operations make of a manifest (vscode-extension/src/checkpointTimelineStorage.ts:1085-1483),
  and the properties every manifest they reach has.
 */
module Branch {
  import opened Common
  import opened Manifest

  /** A request to store an interval, as `captureInterval` and `recordUnavailable` receive it. */
  datatype Request = Request(
    checkpoint: int, generation: int, sourceChangeCount: int, before: Fingerprint, after: Fingerprint,
    kind: BoundaryKind, plugins: Option<seq<string>>)

  /** What the change-log reader says about a file. */
  datatype Log = Log(
    byteLength: int, sha256: string, before: Fingerprint, after: Fingerprint, sourceChangeCount: int,
    complete: bool, unavailable: int, changeCount: int, requiredPlugins: seq<string>)

  function Last(m: Timeline): Fingerprint { Boundary(m, |m.intervals|) }

  // ---------- the guards ----------

  /** The request continues the manifest, whose next generation it names. */
  predicate Continues(m: Timeline, r: Request) {
    && r.checkpoint == m.tip + 1 && r.generation == m.nextGeneration
    && Normalize(r.before).Some? && Normalize(r.after).Some?
    && FingerprintsEqual(Normalize(r.before).value, Last(m))
  }

  function Normalized(r: Request): Request
    requires Normalize(r.before).Some? && Normalize(r.after).Some?
  {
    r.(before := Normalize(r.before).value, after := Normalize(r.after).value)
  }

  /** The archive is complete and describes the requested interval. */
  predicate Validates(r: Request, log: Log) {
    && log.complete && log.unavailable == 0
    && FingerprintsEqual(log.before, r.before) && FingerprintsEqual(log.after, r.after)
    && Decimal(r.sourceChangeCount) && log.sourceChangeCount == r.sourceChangeCount
  }

  /** The optimized archive replaces the raw one only when it validates and is strictly smaller. */
  predicate OptimizedWins(r: Request, raw: Log, optimized: Option<Log>) {
    raw.byteLength > 1 && optimized.Some? && Validates(r, optimized.value)
    && optimized.value.byteLength < raw.byteLength
  }

  function Winner(r: Request, raw: Log, optimized: Option<Log>): (log: Log)
    ensures Validates(r, raw) ==> Validates(r, log)
    ensures log == raw || Some(log) == optimized
    ensures log.byteLength <= raw.byteLength && (log.byteLength == raw.byteLength ==> log == raw)
    ensures raw.byteLength > 1 && optimized.Some? && Validates(r, optimized.value) ==>
              log.byteLength <= optimized.value.byteLength
  {
    if OptimizedWins(r, raw, optimized) then optimized.value else raw
  }

  // ---------- the candidates ----------

  function Captured(r: Request, log: Log, optimized: bool): Entry
    requires r.checkpoint >= 0
  {
    Entry(r.checkpoint, r.generation, r.before, r.after, r.sourceChangeCount, r.kind,
          SortedUnique(if r.plugins.Some? then r.plugins.value else log.requiredPlugins), Ready,
          Some(Archive(FileName(r.checkpoint), log.byteLength, log.sha256, log.changeCount, optimized)), None)
  }

  function Missing(r: Request, failure: Failure): Entry {
    Entry(r.checkpoint, r.generation, r.before, r.after, r.sourceChangeCount, r.kind,
          SortedUnique(if r.plugins.Some? then r.plugins.value else []), Unavailable, None, Some(failure))
  }

  /** A new entry at the tip; the saved checkpoint moves to it when the saved content is there. */
  function Appended(m: Timeline, e: Entry): Timeline {
    m.(cursor := e.checkpoint, tip := e.checkpoint, nextGeneration := m.nextGeneration + 1,
       intervals := m.intervals + [e],
       saved := if FingerprintsEqual(e.after, m.saved.fingerprint)
                then m.saved.(checkpoint := Some(e.checkpoint), offBranch := false)
                else m.saved)
  }

  predicate Names(m: Timeline, checkpoint: int) {
    1 <= checkpoint <= |m.intervals| && m.intervals[checkpoint - 1].checkpoint == checkpoint
  }

  function Marked(m: Timeline, checkpoint: int, failure: Failure): Timeline
    requires Names(m, checkpoint)
  {
    var e := m.intervals[checkpoint - 1].(archive := None, state := Unavailable, error := Some(failure));
    m.(intervals := seq(|m.intervals|, i requires 0 <= i < |m.intervals| =>
         if m.intervals[i].checkpoint == checkpoint then e else m.intervals[i]))
  }

  function Truncated(m: Timeline, cursor: int): Timeline
    requires 0 <= cursor <= |m.intervals|
  {
    m.(cursor := cursor, tip := cursor, nextGeneration := m.nextGeneration + 1,
       intervals := m.intervals[..cursor],
       saved := m.saved.(
         checkpoint := if m.saved.checkpoint.Some? && m.saved.checkpoint.value <= cursor
                       then m.saved.checkpoint else None,
         offBranch := (m.saved.checkpoint.Some? && m.saved.checkpoint.value > cursor) || m.saved.offBranch))
  }

  /** The first entry that ends at the fingerprint. */
  function FirstMatch(entries: seq<Entry>, f: Fingerprint): Option<int> {
    if entries == [] then None
    else if FingerprintsEqual(f, entries[0].after) then Some(entries[0].checkpoint)
    else FirstMatch(entries[1..], f)
  }

  function WithSaved(m: Timeline, f: Fingerprint): Timeline {
    var checkpoint := if FingerprintsEqual(f, m.original) then Some(0) else FirstMatch(m.intervals, f);
    m.(saved := Saved(f, checkpoint, checkpoint.None?))
  }

  // ---------- soundness ----------

  /** Generations rise along the intervals and stay below the next one. */
  predicate GenerationsRise(m: Timeline) {
    && (forall i :: 0 <= i < |m.intervals| ==> m.intervals[i].generation < m.nextGeneration)
    && (forall i, j :: 0 <= i < j < |m.intervals| ==> m.intervals[i].generation < m.intervals[j].generation)
  }

  /** Ready entries name the archive of their own checkpoint. */
  predicate ArchivesNamed(m: Timeline) {
    forall i :: 0 <= i < |m.intervals| && m.intervals[i].state == Ready && m.intervals[i].archive.Some? ==>
      i + 1 <= MAX_CHECKPOINTS && m.intervals[i].archive.value.file == FileName(i + 1)
  }

  /** Off branch exactly when there is no saved checkpoint; a saved checkpoint is a boundary with the saved content. */
  predicate SavedSound(m: Timeline) {
    && (m.saved.offBranch <==> m.saved.checkpoint.None?)
    && (m.saved.checkpoint.Some? ==>
          0 <= m.saved.checkpoint.value <= |m.intervals|
          && Boundary(m, m.saved.checkpoint.value) == m.saved.fingerprint)
  }

  predicate Sound(m: Timeline) {
    WellFormed(m) && GenerationsRise(m) && ArchivesNamed(m) && SavedSound(m)
  }

  function Fresh(fingerprint: Fingerprint): Timeline {
    Timeline(fingerprint, Saved(fingerprint, Some(0), false), 0, 0, 1, [])
  }

  lemma FreshIsSound(fingerprint: Fingerprint)
    requires Normal(fingerprint)
    ensures Sound(Fresh(fingerprint))
  {
  }

  lemma Numbered(m: Timeline)
    requires WellFormed(m)
    ensures forall i :: 0 <= i < |m.intervals| ==> m.intervals[i].checkpoint == i + 1 && Normal(m.intervals[i].after)
    ensures Normal(Last(m))
  {
    hide GoodEntry, Chain, Normalize;
    forall i | 0 <= i < |m.intervals| ensures m.intervals[i].checkpoint == i + 1 && Normal(m.intervals[i].after) {
      ChainAt(m, i);
      EntryIndex(m.intervals[i], i, Boundary(m, i));
    }
  }

  lemma AppendedIsSound(m: Timeline, e: Entry)
    requires Sound(m) && GoodEntry(e, |m.intervals|, Last(m)) && e.generation == m.nextGeneration
    requires e.state == Ready && e.archive.Some? ==>
               e.checkpoint <= MAX_CHECKPOINTS && e.archive.value.file == FileName(e.checkpoint)
    ensures Sound(Appended(m, e))
  {
    AppendedChain(m, e);
    EntryIndex(e, |m.intervals|, Last(m));
    AppendedSaved(m, e);
    hide GoodEntry, WellFormed, SavedSound, FileName, FingerprintsEqual;
    AppendedRises(m, e);
  }

  lemma AppendedRises(m: Timeline, e: Entry)
    requires GenerationsRise(m) && ArchivesNamed(m)
             && e.generation == m.nextGeneration && e.checkpoint == |m.intervals| + 1
    requires e.state == Ready && e.archive.Some? ==>
               e.checkpoint <= MAX_CHECKPOINTS && e.archive.value.file == FileName(e.checkpoint)
    ensures GenerationsRise(Appended(m, e)) && ArchivesNamed(Appended(m, e))
  {
    hide FileName;
  }

  lemma AppendedSaved(m: Timeline, e: Entry)
    requires SavedSound(m) && Normal(e.after) && Normal(m.saved.fingerprint) && e.checkpoint == |m.intervals| + 1
    ensures SavedSound(Appended(m, e))
  {
    NormalForms(e.after, m.saved.fingerprint);
    hide Normalize;
    if m.saved.checkpoint.Some? {
      assert Boundary(Appended(m, e), m.saved.checkpoint.value) == Boundary(m, m.saved.checkpoint.value);
    }
  }

  lemma AppendedChain(m: Timeline, e: Entry)
    requires WellFormed(m) && GoodEntry(e, |m.intervals|, Last(m))
    ensures WellFormed(Appended(m, e))
  {
    hide GoodEntry, Normalize;
    ChainAppend(m.intervals, [e], 0, m.original);
    assert [e][1..] == [];
    assert Chain([], |m.intervals| + 1, e.after);
    EntryIndex(e, |m.intervals|, Last(m));
  }

  lemma EntryIndex(e: Entry, index: nat, previous: Fingerprint)
    requires GoodEntry(e, index, previous)
    ensures e.checkpoint == index + 1 && Normal(e.after)
  {
  }

  lemma TruncatedIsSound(m: Timeline, cursor: int)
    requires Sound(m) && 0 <= cursor <= |m.intervals|
    ensures Sound(Truncated(m, cursor))
  {
    assert m.intervals == m.intervals[..cursor] + m.intervals[cursor..];
    ChainAppend(m.intervals[..cursor], m.intervals[cursor..], 0, m.original);
    hide Chain, Normalize, FileName, SavedSound, GenerationsRise, ArchivesNamed;
    TruncatedRises(m, cursor);
    TruncatedSaved(m, cursor);
  }

  lemma TruncatedRises(m: Timeline, cursor: int)
    requires GenerationsRise(m) && ArchivesNamed(m) && 0 <= cursor <= |m.intervals|
    ensures GenerationsRise(Truncated(m, cursor)) && ArchivesNamed(Truncated(m, cursor))
  {
    hide FileName;
  }

  lemma TruncatedSaved(m: Timeline, cursor: int)
    requires SavedSound(m) && 0 <= cursor <= |m.intervals|
    ensures SavedSound(Truncated(m, cursor))
  {
    var c := Truncated(m, cursor);
    if c.saved.checkpoint.Some? {
      assert Boundary(c, c.saved.checkpoint.value) == Boundary(m, c.saved.checkpoint.value);
    }
  }

  lemma MovedIsSound(m: Timeline, cursor: int)
    requires Sound(m) && 0 <= cursor <= m.tip
    ensures Sound(m.(cursor := cursor))
  {
    hide Chain, Normalize, FileName;
    if m.saved.checkpoint.Some? {
      assert Boundary(m.(cursor := cursor), m.saved.checkpoint.value) == Boundary(m, m.saved.checkpoint.value);
    }
  }

  function MarkedEntry(e: Entry, failure: Failure): Entry {
    e.(archive := None, state := Unavailable, error := Some(failure))
  }

  /** Only the marked entry changes: in a well-formed manifest the numbering leaves no second one. */
  lemma MarkedAlone(m: Timeline, checkpoint: int, failure: Failure)
    requires WellFormed(m) && 1 <= checkpoint <= |m.intervals|
    ensures Names(m, checkpoint) && |Marked(m, checkpoint, failure).intervals| == |m.intervals|
    ensures forall i :: 0 <= i < |m.intervals| ==>
              Marked(m, checkpoint, failure).intervals[i] ==
                (if i == checkpoint - 1 then MarkedEntry(m.intervals[i], failure) else m.intervals[i])
  {
    Numbered(m);
    hide WellFormed, Normal;
  }

  lemma {:induction false} MarkedChain(entries: seq<Entry>, marked: seq<Entry>, index: nat,
        previous: Fingerprint, failure: Failure)
    requires |marked| == |entries| && Chain(entries, index, previous)
    requires forall i :: 0 <= i < |entries| ==> marked[i] == entries[i] || marked[i] == MarkedEntry(entries[i], failure)
    ensures Chain(marked, index, previous)
    decreases |entries|
  {
    if entries != [] {
      GoodMarked(entries[0], index, previous, failure);
      hide GoodEntry;
      assert marked[0] == entries[0] || marked[0] == MarkedEntry(entries[0], failure);
      MarkedChain(entries[1..], marked[1..], index + 1, entries[0].after, failure);
    }
  }

  lemma GoodMarked(e: Entry, index: nat, previous: Fingerprint, failure: Failure)
    ensures GoodEntry(e, index, previous) ==> GoodEntry(MarkedEntry(e, failure), index, previous)
  {
  }

  lemma MarkedIsSound(m: Timeline, checkpoint: int, failure: Failure)
    requires Sound(m) && 1 <= checkpoint <= |m.intervals|
    ensures Names(m, checkpoint) && Sound(Marked(m, checkpoint, failure))
  {
    MarkedAlone(m, checkpoint, failure);
    var c := Marked(m, checkpoint, failure);
    MarkedChain(m.intervals, c.intervals, 0, m.original, failure);
    assert c == m.(intervals := c.intervals);
    hide Marked, Chain, FileName, Normalize;
    MarkedRises(m, c.intervals, failure);
    if m.saved.checkpoint.Some? {
      assert Boundary(c, m.saved.checkpoint.value) == Boundary(m, m.saved.checkpoint.value);
    }
  }

  lemma MarkedRises(m: Timeline, marked: seq<Entry>, failure: Failure)
    requires GenerationsRise(m) && ArchivesNamed(m) && |marked| == |m.intervals|
    requires forall i :: 0 <= i < |marked| ==>
               marked[i] == m.intervals[i] || marked[i] == MarkedEntry(m.intervals[i], failure)
    ensures GenerationsRise(m.(intervals := marked)) && ArchivesNamed(m.(intervals := marked))
  {
    hide FileName;
  }

  /** The first match is the least boundary after the original that carries the fingerprint. */
  lemma {:induction false} FirstMatchIsLeast(entries: seq<Entry>, f: Fingerprint, index: nat)
    requires forall i :: 0 <= i < |entries| ==> entries[i].checkpoint == index + i + 1 && Normal(entries[i].after)
    requires Normal(f)
    ensures var r := FirstMatch(entries, f);
            && (r.None? <==> forall i :: 0 <= i < |entries| ==> entries[i].after != f)
            && (r.Some? ==> var k := r.value - index - 1;
                 0 <= k < |entries| && entries[k].after == f && forall i :: 0 <= i < k ==> entries[i].after != f)
  {
    hide Normalize;
    if entries != [] {
      NormalForms(f, entries[0].after);
      hide FingerprintsEqual;
      var rest := entries[1..];
      FirstMatchIsLeast(rest, f, index + 1);
      assert forall i :: 0 < i < |entries| ==> entries[i] == rest[i - 1];
      if entries[0].after != f {
        assert FirstMatch(entries, f) == FirstMatch(rest, f);
      }
    }
  }

  /** A boundary of the branch carries the fingerprint. */
  predicate OnBranch(m: Timeline, f: Fingerprint) {
    exists k :: 0 <= k <= |m.intervals| && Boundary(m, k) == f
  }

  lemma SavedMatches(m: Timeline, f: Fingerprint)
    requires WellFormed(m) && Normal(f)
    ensures SavedSound(WithSaved(m, f)) && OffBranchExact(WithSaved(m, f))
  {
    Numbered(m);
    NormalForms(f, m.original);
    hide Normal, WellFormed, FirstMatch, FingerprintsEqual;
    FirstMatchIsLeast(m.intervals, f, 0);
    var c := WithSaved(m, f);
    if c.saved.checkpoint.Some? {
      assert Boundary(c, c.saved.checkpoint.value) == f;
    } else {
      assert forall k :: 0 <= k <= |c.intervals| ==> Boundary(c, k) != f;
    }
  }

  lemma SavedIsSound(m: Timeline, f: Fingerprint)
    requires Sound(m) && Normal(f)
    ensures Sound(WithSaved(m, f)) && OffBranchExact(WithSaved(m, f))
  {
    SavedMatches(m, f);
    var saved := WithSaved(m, f).saved;
    assert WithSaved(m, f) == m.(saved := saved) && saved.fingerprint == f;
    hide WithSaved, Chain, Normalize, FileName, SavedSound, OffBranchExact;
  }

  // ---------- the off-branch flag ----------

  /** The flag means what it says: no boundary of the branch carries the saved content. */
  predicate OffBranchExact(m: Timeline) {
    m.saved.offBranch <==> !OnBranch(m, m.saved.fingerprint)
  }

  /** Truncating at the cursor cuts off the saved checkpoint, while a boundary it keeps has the same content. */
  predicate CutsOffAMatch(m: Timeline, cursor: int) {
    && 0 <= cursor <= |m.intervals| && m.saved.checkpoint.Some? && m.saved.checkpoint.value > cursor
    && exists k :: 0 <= k <= cursor && Boundary(m, k) == m.saved.fingerprint
  }

  /** Truncation keeps the flag exact if and only if it cuts off no match: it does not look for an earlier one. */
  lemma TruncatedOffBranch(m: Timeline, cursor: int)
    requires Sound(m) && OffBranchExact(m) && 0 <= cursor <= |m.intervals|
    ensures OffBranchExact(Truncated(m, cursor)) <==> !CutsOffAMatch(m, cursor)
  {
    hide WellFormed, GenerationsRise, ArchivesNamed;
    var c := Truncated(m, cursor);
    assert forall k :: 0 <= k <= cursor ==> Boundary(c, k) == Boundary(m, k);
  }

  /** A new entry keeps the flag exact: the saved checkpoint moves to the new boundary when it matches. */
  lemma AppendedOffBranch(m: Timeline, e: Entry)
    requires OffBranchExact(m) && Normal(e.after) && Normal(m.saved.fingerprint)
    ensures OffBranchExact(Appended(m, e))
  {
    NormalForms(e.after, m.saved.fingerprint);
    hide Normalize, FingerprintsEqual;
    var c, f := Appended(m, e), m.saved.fingerprint;
    assert forall k :: 0 <= k <= |m.intervals| ==> Boundary(c, k) == Boundary(m, k);
    assert Boundary(c, |c.intervals|) == e.after;
    if e.after != f && OnBranch(c, f) {
      var k :| 0 <= k <= |c.intervals| && Boundary(c, k) == f;
      assert Boundary(m, k) == f;
    } else if OnBranch(m, f) {
      var k :| 0 <= k <= |m.intervals| && Boundary(m, k) == f;
      assert Boundary(c, k) == f;
    }
  }

  /** The request for one boundary of a fresh branch, where checkpoints and generations agree. */
  function Leg(checkpoint: int, before: Fingerprint, after: Fingerprint): Request {
    Request(checkpoint, checkpoint, 0, before, after, Plain, None)
  }

  /** A new session whose content goes from one to another. */
  function There(f: Fingerprint, g: Fingerprint, failure: Failure): Timeline {
    Appended(Fresh(f), Missing(Leg(1, f, g), failure))
  }

  /** And back to the original one. */
  function ThereAndBack(f: Fingerprint, g: Fingerprint, failure: Failure): Timeline {
    Appended(There(f, g, failure), Missing(Leg(2, g, f), failure))
  }

  lemma LegsAreSound(f: Fingerprint, g: Fingerprint, failure: Failure)
    requires Normal(f) && Normal(g) && f != g
    ensures Sound(There(f, g, failure)) && Sound(ThereAndBack(f, g, failure))
  {
    FreshIsSound(f);
    MissingIsGood(Fresh(f), Leg(1, f, g), failure);
    AppendedIsSound(Fresh(f), Missing(Leg(1, f, g), failure));
    hide Sound, GoodEntry, Normal;
    MissingIsGood(There(f, g, failure), Leg(2, g, f), failure);
    AppendedIsSound(There(f, g, failure), Missing(Leg(2, g, f), failure));
  }

  /**
    Coming back to the original content and truncating that boundary away leaves the flag set in error:
    the original boundary still has the saved content.
   */
  lemma OffBranchInError(f: Fingerprint, g: Fingerprint, failure: Failure)
    requires Normal(f) && Normal(g) && f != g
    ensures var m := ThereAndBack(f, g, failure);
            Sound(m) && OffBranchExact(m) && |m.intervals| == 2 && !OffBranchExact(Truncated(m, 1))
  {
    var m := ThereAndBack(f, g, failure);
    LegsAreSound(f, g, failure);
    NormalForms(f, f);
    hide Sound, Normal;
    assert m.saved == Saved(f, Some(2), false);
    assert Boundary(m, 0) == f;
    assert OnBranch(m, f);
    assert CutsOffAMatch(m, 1);
    TruncatedOffBranch(m, 1);
  }

  // ---------- tickets ----------

  /** An accepted capture request: normalized, and outdated or still continuing the manifest. */
  predicate Ticket(m: Timeline, r: Request) {
    && Normal(r.before) && Normal(r.after) && 1 <= r.checkpoint <= MAX_CHECKPOINTS
    && r.generation <= m.nextGeneration
    && (r.generation == m.nextGeneration ==> r.checkpoint == |m.intervals| + 1 && r.before == Last(m))
  }

  lemma AcceptedIsTicket(m: Timeline, r: Request)
    requires Sound(m) && Continues(m, r) && r.checkpoint <= MAX_CHECKPOINTS
    ensures Ticket(m, Normalized(r))
  {
    Numbered(m);
    NormalForms(r.before, r.before);
    NormalForms(r.after, r.after);
    NormalForms(Normalize(r.before).value, Last(m));
    hide Chain, FileName;
  }

  /** A manifest that keeps the generation keeps the chain; one that changes the chain raises the generation. */
  predicate Evolves(m: Timeline, c: Timeline) {
    && m.nextGeneration <= c.nextGeneration
    && (m.nextGeneration == c.nextGeneration ==> |m.intervals| == |c.intervals| && Last(m) == Last(c))
  }

  lemma TicketSurvives(m: Timeline, c: Timeline, r: Request)
    requires Ticket(m, r) && Evolves(m, c)
    ensures Ticket(c, r)
  {
  }

  /** An entry that survives the validator at the tip of a sound manifest is good there. */
  lemma ParsedIsGood(m: Timeline, e: Entry)
    requires WellFormed(m) && Normal(e.before) && Normal(e.after) && Parse(Appended(m, e)).Some?
    ensures GoodEntry(e, |m.intervals|, Last(m))
  {
    Numbered(m);
    ParseLast(m.intervals, e, 0, m.original);
    ParseGoodEntry(e, |m.intervals|, Last(m));
    hide Chain, ParseEntries, SortedUnique, GoodArchive, FingerprintsEqual;
  }

  lemma CapturedIsGood(m: Timeline, r: Request, log: Log, optimized: bool)
    requires Sound(m) && Ticket(m, r) && r.generation == m.nextGeneration
    requires r.kind != OtherKind && Decimal(r.sourceChangeCount)
    requires Decimal(log.byteLength) && Decimal(log.changeCount) && Sha256(log.sha256)
    ensures GoodEntry(Captured(r, log, optimized), |m.intervals|, Last(m))
  {
    FileNameIsIntervalFile(r.checkpoint);
    var ids := if r.plugins.Some? then r.plugins.value else log.requiredPlugins;
    SortedUniqueSorts(ids);
    SortedIsUnique(SortedUnique(ids));
    hide Chain, FileName, SortedUnique, Sha256, Normalize;
  }

  lemma MissingIsGood(m: Timeline, r: Request, failure: Failure)
    requires Sound(m) && r.checkpoint == |m.intervals| + 1 && r.generation == m.nextGeneration
    requires Normal(r.before) && Normal(r.after) && r.before == Last(m)
    requires r.kind != OtherKind && Decimal(r.sourceChangeCount)
    ensures GoodEntry(Missing(r, failure), |m.intervals|, Last(m))
  {
    var ids := if r.plugins.Some? then r.plugins.value else [];
    SortedUniqueSorts(ids);
    SortedIsUnique(SortedUnique(ids));
    hide Chain, SortedUnique, Normalize;
  }
}
