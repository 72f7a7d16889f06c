/**
  A timeline session as a state machine over its memory and its directory
  (vscode-extension/src/checkpointTimelineStorage.ts:1067-1524). Every step is one operation, cut
  at any point: before the manifest is replaced, after it, or by the death of the process.
 */
module TimelineRuns {
  import opened Common
  import opened Manifest
  import opened Branch

  /** Memory, the committed manifest, the archives beside it. */
  datatype World = World(value: Timeline, disk: Option<Timeline>, files: map<string, Log>, closed: bool, crashed: bool)

  /** `Capture` is the finishing half of a capture: its request was accepted earlier. */
  datatype Op =
    | Capture(request: Request, log: Log, optimized: bool)
    | RecordUnavailable(missing: Request, failure: Failure)
    | MarkUnavailable(checkpoint: int, reason: Failure)
    | Truncate(to: int)
    | SetCursor(cursor: int)
    | SetSaved(fingerprint: Fingerprint)
    | Close

  /** The manifest an operation would commit, if its guards let it. */
  function Candidate(m: Timeline, op: Op): Option<Timeline> {
    match op
    case Capture(r, log, optimized) =>
      if r.generation == m.nextGeneration && r.checkpoint >= 0 && Validates(r, log)
      then Some(Appended(m, Branch.Captured(r, log, optimized))) else None
    case RecordUnavailable(r, failure) =>
      if Continues(m, r) && Decimal(r.sourceChangeCount)
      then Some(Appended(m, Missing(Normalized(r), failure))) else None
    case MarkUnavailable(k, reason) => if Names(m, k) then Some(Marked(m, k, reason)) else None
    case Truncate(to) => if 0 <= to <= m.tip && to <= |m.intervals| then Some(Truncated(m, to)) else None
    case SetCursor(cursor) => if 0 <= cursor <= m.tip then Some(m.(cursor := cursor)) else None
    case SetSaved(f) => if Normalize(f).Some? then Some(WithSaved(m, Normalize(f).value)) else None
    case Close => None
  }

  predicate Commits(m: Timeline, op: Op, c: Timeline) {
    Candidate(m, op) == Some(c) && Parse(c).Some?
  }

  function NameOf(r: Request): string {
    FileName(if r.checkpoint >= 0 then r.checkpoint else 0)
  }

  /** The archives a truncation no longer needs. */
  function Dropped(m: Timeline, to: int): set<string>
    requires 0 <= to <= |m.intervals|
  {
    set i | to <= i < |m.intervals| && m.intervals[i].archive.Some? :: m.intervals[i].archive.value.file
  }

  /** The directory after an operation that did not commit: a capture may leave or remove its archive. */
  predicate FilesUncommitted(w: World, op: Op, files: map<string, Log>) {
    || files == w.files
    || (op.Capture? && files == w.files - {NameOf(op.request)})
    || (op.Capture? && op.request.generation == w.value.nextGeneration
        && files == w.files[NameOf(op.request) := op.log])
  }

  /** The directory after a commit: the captured archive is there, dropped ones may be gone. */
  predicate FilesCommitted(w: World, op: Op, files: map<string, Log>) {
    match op
    case Capture(r, log, _) => files == w.files[NameOf(r) := log]
    case Truncate(to) =>
      && 0 <= to <= |w.value.intervals|
      && (forall f :: f in files ==> f in w.files && files[f] == w.files[f])
      && (forall f :: f in w.files && f !in files ==> f in Dropped(w.value, to))
    case _ => files == w.files
  }

  /** One operation, complete, failed, refused or cut short by a crash. */
  ghost predicate Step(w: World, op: Op, w': World) {
    && !w.crashed
    && (if w.closed then w' == w
        else if op == Close then
          w'.closed && w'.value == w.value && ((w'.disk == w.disk && w'.files == w.files) || w'.disk == None)
        else
          || (w'.value == w.value && w'.disk == w.disk && !w'.closed && FilesUncommitted(w, op, w'.files))
          || (exists c :: Commits(w.value, op, c) && w'.disk == Some(c) && !w'.closed
                && (w'.value == c || (w'.crashed && w'.value == w.value)) && FilesCommitted(w, op, w'.files)))
  }

  // ---------- the invariant ----------

  /** The disk holds a sound manifest; memory agrees with it while the process lives and the session is open. */
  predicate Inv(w: World) {
    && Sound(w.value)
    && (w.disk.Some? ==> Sound(w.disk.value))
    && (!w.closed ==> w.disk.Some?)
    && (!w.closed && !w.crashed ==> w.disk == Some(w.value))
  }

  predicate ReadyAt(m: Timeline, checkpoint: int) {
    1 <= checkpoint <= |m.intervals| && m.intervals[checkpoint - 1].state == Ready
  }

  /** The file is the archive the entry describes. */
  predicate Describes(e: Entry, log: Log) {
    && e.archive.Some? && e.archive.value.byteLength == log.byteLength && e.archive.value.sha256 == log.sha256
    && FingerprintsEqual(log.before, e.before) && FingerprintsEqual(log.after, e.after)
  }

  predicate BackedAt(m: Timeline, i: nat, files: map<string, Log>)
    requires i < |m.intervals|
  {
    m.intervals[i].state == Ready ==> FileName(i + 1) in files && Describes(m.intervals[i], files[FileName(i + 1)])
  }

  /** Every ready entry has its archive, with the recorded length and hash. */
  predicate Backed(m: Timeline, files: map<string, Log>) {
    forall i :: 0 <= i < |m.intervals| ==> BackedAt(m, i, files)
  }

  predicate AllBacked(w: World) {
    w.disk.Some? ==> Backed(w.disk.value, w.files)
  }

  function Created(f: Fingerprint): World
  {
    World(Fresh(f), Some(Fresh(f)), map[], false, false)
  }

  /** A capture finishes with a request that was accepted on this branch or before it. */
  predicate Admissible(w: World, op: Op) {
    op.Capture? ==> Ticket(w.value, op.request)
  }

  lemma AppendedEvolves(m: Timeline, e: Entry)
    ensures Evolves(m, Appended(m, e))
  {
  }

  lemma CaptureIsSound(m: Timeline, r: Request, log: Log, optimized: bool)
    requires Sound(m) && Ticket(m, r) && r.generation == m.nextGeneration
    requires Parse(Appended(m, Branch.Captured(r, log, optimized))).Some?
    ensures Sound(Appended(m, Branch.Captured(r, log, optimized)))
  {
    ParsedIsGood(m, Branch.Captured(r, log, optimized));
    hide GoodEntry, WellFormed, FileName, Normal, Parse, Appended;
    AppendedIsSound(m, Branch.Captured(r, log, optimized));
  }

  lemma MissingIsSound(m: Timeline, r: Request, failure: Failure)
    requires Sound(m) && Continues(m, r) && Parse(Appended(m, Missing(Normalized(r), failure))).Some?
    ensures Sound(Appended(m, Missing(Normalized(r), failure)))
  {
    NormalForms(r.before, r.after);
    NormalForms(r.after, r.before);
    ParsedIsGood(m, Missing(Normalized(r), failure));
    hide GoodEntry, WellFormed, Normalize, Parse, Appended;
    AppendedIsSound(m, Missing(Normalized(r), failure));
  }

  /** Whatever an operation commits is sound, and moves the branch on only with a new generation. */
  lemma CandidateIsSound(m: Timeline, op: Op, c: Timeline)
    requires Sound(m) && Commits(m, op, c)
    requires op.Capture? ==> Ticket(m, op.request)
    ensures Sound(c) && Evolves(m, c)
  {
    hide Parse, Appended, Marked, Truncated, WithSaved, Normalize, Validates, Continues;
    match op {
      case Capture(r, log, optimized) =>
        CaptureIsSound(m, r, log, optimized);
        AppendedEvolves(m, Branch.Captured(r, log, optimized));
      case RecordUnavailable(r, failure) =>
        RecordEvolves(m, r, failure);
      case MarkUnavailable(k, reason) =>
        MarkedIsSound(m, k, reason);
        MarkedEvolves(m, k, reason);
      case Truncate(to) =>
        TruncatedIsSound(m, to);
        TruncatedEvolves(m, to);
      case SetCursor(cursor) =>
        MovedIsSound(m, cursor);
      case SetSaved(f) =>
        SavedNormal(f);
        SavedIsSound(m, Normalize(f).value);
        SavedEvolves(m, Normalize(f).value);
      case Close =>
    }
  }

  lemma RecordEvolves(m: Timeline, r: Request, failure: Failure)
    requires Sound(m) && Continues(m, r) && Parse(Appended(m, Missing(Normalized(r), failure))).Some?
    ensures var c := Appended(m, Missing(Normalized(r), failure)); Sound(c) && Evolves(m, c)
  {
    MissingIsSound(m, r, failure);
    AppendedEvolves(m, Missing(Normalized(r), failure));
  }

  lemma MarkedEvolves(m: Timeline, k: int, reason: Failure)
    requires WellFormed(m) && Names(m, k)
    ensures Evolves(m, Marked(m, k, reason))
  {
    MarkedAlone(m, k, reason);
    hide WellFormed;
  }

  lemma TruncatedEvolves(m: Timeline, to: int)
    requires 0 <= to <= |m.intervals|
    ensures Evolves(m, Truncated(m, to)) && Truncated(m, to).nextGeneration > m.nextGeneration
  {
  }

  lemma SavedNormal(f: Fingerprint)
    requires Normalize(f).Some?
    ensures Normal(Normalize(f).value)
  {
  }

  lemma SavedEvolves(m: Timeline, f: Fingerprint)
    ensures Evolves(m, WithSaved(m, f))
  {
  }

  /** Every step keeps the invariant, wherever it is cut. */
  lemma StepKeepsInv(w: World, op: Op, w': World)
    requires Inv(w) && Step(w, op, w') && Admissible(w, op)
    ensures Inv(w') && Evolves(w.value, w'.value)
  {
    hide Sound, Candidate, Ticket, FilesUncommitted, FilesCommitted, Parse;
    if !w.closed && op != Close && !(w'.value == w.value && w'.disk == w.disk) {
      var c :| Commits(w.value, op, c) && w'.disk == Some(c) && (w'.value == c || (w'.crashed && w'.value == w.value));
      CandidateIsSound(w.value, op, c);
    }
  }

  // ---------- the archives ----------

  /** Replacing or removing one file leaves the archives of the other checkpoints alone. */
  lemma OtherFile(m: Timeline, i: nat, checkpoint: nat, files: map<string, Log>, files': map<string, Log>)
    requires i < |m.intervals| && i + 1 <= MAX_CHECKPOINTS && checkpoint <= MAX_CHECKPOINTS && i + 1 != checkpoint
    requires files' - {FileName(checkpoint)} == files - {FileName(checkpoint)}
    requires BackedAt(m, i, files)
    ensures BackedAt(m, i, files')
  {
    hide Padded, Describes;
    if FileName(i + 1) == FileName(checkpoint) {
      FileNameInjective(i + 1, checkpoint);
    }
    var name := FileName(i + 1);
    hide FileName;
    assert name in files <==> name in files - {FileName(checkpoint)};
    assert name in files' <==> name in files' - {FileName(checkpoint)};
    if name in files && name in files' {
      assert (files - {FileName(checkpoint)})[name] == files[name];
      assert (files' - {FileName(checkpoint)})[name] == files'[name];
    }
  }

  lemma ReadyBound(m: Timeline, i: nat)
    requires Sound(m) && i < |m.intervals| && m.intervals[i].state == Ready
    ensures i + 1 <= MAX_CHECKPOINTS && m.intervals[i].archive.Some?
            && m.intervals[i].archive.value.file == FileName(i + 1)
  {
    ChainAt(m, i);
    hide FileName, Chain;
  }

  /** Touching only the file of a checkpoint that is not ready keeps every archive. */
  lemma UnreferencedFile(m: Timeline, checkpoint: nat, files: map<string, Log>, files': map<string, Log>)
    requires Sound(m) && Backed(m, files) && checkpoint <= MAX_CHECKPOINTS && !ReadyAt(m, checkpoint)
    requires files' - {FileName(checkpoint)} == files - {FileName(checkpoint)}
    ensures Backed(m, files')
  {
    hide Sound, FileName, Describes;
    forall i | 0 <= i < |m.intervals| ensures BackedAt(m, i, files') {
      assert BackedAt(m, i, files);
      if m.intervals[i].state == Ready {
        ReadyBound(m, i);
        OtherFile(m, i, checkpoint, files, files');
      }
    }
  }

  /**
    A capture that fails removes the file named after its checkpoint, whoever wrote it. That keeps
    every archive if and only if the checkpoint is not a ready entry of the manifest by then.
   */
  lemma FailedCaptureKeepsArchives(w: World, r: Request)
    requires Inv(w) && AllBacked(w) && !w.closed && !w.crashed && Ticket(w.value, r)
    ensures Backed(w.value, w.files - {NameOf(r)}) <==> !ReadyAt(w.value, r.checkpoint)
  {
    hide Sound, FileName, Describes, Ticket;
    var files := w.files - {NameOf(r)};
    assert 1 <= r.checkpoint <= MAX_CHECKPOINTS by { TicketRange(w.value, r); }
    if ReadyAt(w.value, r.checkpoint) {
      assert !BackedAt(w.value, r.checkpoint - 1, files);
    } else {
      assert files - {NameOf(r)} == w.files - {NameOf(r)};
      UnreferencedFile(w.value, r.checkpoint, w.files, files);
    }
  }

  lemma TicketRange(m: Timeline, r: Request)
    requires Ticket(m, r)
    ensures 1 <= r.checkpoint <= MAX_CHECKPOINTS
    ensures r.generation == m.nextGeneration ==> r.checkpoint == |m.intervals| + 1
  {
  }

  lemma CaptureDescribes(r: Request, log: Log, optimized: bool)
    requires r.checkpoint >= 0 && Validates(r, log)
    ensures Describes(Branch.Captured(r, log, optimized), log)
  {
  }

  /** A committed capture is backed by the archive it has just put in place. */
  lemma BackedCapture(m: Timeline, r: Request, log: Log, optimized: bool, files: map<string, Log>)
    requires Sound(m) && Ticket(m, r) && r.generation == m.nextGeneration && Validates(r, log)
    requires Backed(m, files)
    ensures Backed(Appended(m, Branch.Captured(r, log, optimized)), files[NameOf(r) := log])
  {
    hide Sound, FileName, Describes, Branch.Captured, Ticket, Validates, Backed;
    TicketRange(m, r);
    var files' := files[NameOf(r) := log];
    assert files' - {NameOf(r)} == files - {NameOf(r)};
    UnreferencedFile(m, r.checkpoint, files, files');
    CaptureDescribes(r, log, optimized);
    BackedAppended(m, Branch.Captured(r, log, optimized), files');
  }

  lemma BackedAppended(m: Timeline, e: Entry, files: map<string, Log>)
    requires Backed(m, files)
    requires e.state == Ready ==>
               FileName(|m.intervals| + 1) in files && Describes(e, files[FileName(|m.intervals| + 1)])
    ensures Backed(Appended(m, e), files)
  {
    hide FileName, Describes;
    var c := Appended(m, e);
    forall i | 0 <= i < |c.intervals| ensures BackedAt(c, i, files) {
      if i < |m.intervals| { assert BackedAt(m, i, files); }
    }
  }

  lemma BackedTruncate(m: Timeline, to: int, files: map<string, Log>, files': map<string, Log>)
    requires Sound(m) && 0 <= to <= |m.intervals| && Backed(m, files)
    requires forall f :: f in files' ==> f in files && files'[f] == files[f]
    requires forall f :: f in files && f !in files' ==> f in Dropped(m, to)
    ensures Backed(Truncated(m, to), files')
  {
    hide Sound, FileName, Describes;
    var c := Truncated(m, to);
    forall i | 0 <= i < |c.intervals| ensures BackedAt(c, i, files') {
      assert c.intervals[i] == m.intervals[i] && BackedAt(m, i, files);
      if m.intervals[i].state == Ready {
        ReadyBound(m, i);
        NotDropped(m, to, i);
      }
    }
  }

  /** No archive of a kept entry is among the dropped ones. */
  lemma NotDropped(m: Timeline, to: int, i: nat)
    requires Sound(m) && i < to <= |m.intervals| && i + 1 <= MAX_CHECKPOINTS
    ensures FileName(i + 1) !in Dropped(m, to)
  {
    hide Sound, FileName;
    if FileName(i + 1) in Dropped(m, to) {
      var j :| to <= j < |m.intervals| && m.intervals[j].archive.Some?
               && m.intervals[j].archive.value.file == FileName(i + 1);
      ArchiveMeansReady(m, j);
      ReadyBound(m, j);
      FileNameInjective(i + 1, j + 1);
    }
  }

  lemma ArchiveMeansReady(m: Timeline, j: nat)
    requires Sound(m) && j < |m.intervals| && m.intervals[j].archive.Some?
    ensures m.intervals[j].state == Ready
  {
    ChainAt(m, j);
    hide Chain, FileName;
  }

  lemma BackedMark(m: Timeline, k: int, reason: Failure, files: map<string, Log>)
    requires Sound(m) && Names(m, k) && Backed(m, files)
    ensures Backed(Marked(m, k, reason), files)
  {
    MarkedAlone(m, k, reason);
    hide Sound, FileName, Describes, Marked;
    var c := Marked(m, k, reason);
    forall i | 0 <= i < |c.intervals| ensures BackedAt(c, i, files) {
      assert BackedAt(m, i, files);
    }
  }

  lemma BackedSame(m: Timeline, c: Timeline, files: map<string, Log>)
    requires Backed(m, files) && c.intervals == m.intervals
    ensures Backed(c, files)
  {
    hide FileName, Describes;
    forall i | 0 <= i < |c.intervals| ensures BackedAt(c, i, files) { assert BackedAt(m, i, files); }
  }

  lemma BackedCommit(w: World, op: Op, c: Timeline, files: map<string, Log>)
    requires Sound(w.value) && Backed(w.value, w.files) && Commits(w.value, op, c)
    requires Admissible(w, op) && FilesCommitted(w, op, files)
    ensures Backed(c, files)
  {
    hide Sound, Backed, Parse, Ticket, Appended, Marked, Truncated, WithSaved, Normalize, Validates, Dropped;
    match op {
      case Capture(r, log, optimized) => BackedCapture(w.value, r, log, optimized, w.files);
      case RecordUnavailable(r, failure) => BackedAppended(w.value, Missing(Normalized(r), failure), w.files);
      case MarkUnavailable(k, reason) => BackedMark(w.value, k, reason, w.files);
      case Truncate(to) => BackedTruncate(w.value, to, w.files, files);
      case SetCursor(cursor) => BackedSame(w.value, c, w.files);
      case SetSaved(f) => BackedSaved(w.value, Normalize(f).value, w.files);
      case Close =>
    }
  }

  lemma BackedSaved(m: Timeline, f: Fingerprint, files: map<string, Log>)
    requires Backed(m, files)
    ensures Backed(WithSaved(m, f), files)
  {
    hide Backed;
    BackedSame(m, WithSaved(m, f), files);
  }

  /** A step keeps every archive unless it is a capture whose checkpoint is ready already. */
  lemma StepKeepsArchives(w: World, op: Op, w': World)
    requires Inv(w) && AllBacked(w) && Step(w, op, w') && Admissible(w, op)
    requires op.Capture? ==> !ReadyAt(w.value, op.request.checkpoint)
    ensures AllBacked(w')
  {
    hide Sound, Backed, Candidate, Ticket, FilesCommitted, Parse, FileName;
    if w.closed || op == Close {
    } else if w'.value == w.value && w'.disk == w.disk && FilesUncommitted(w, op, w'.files) {
      if op.Capture? {
        TicketRange(w.value, op.request);
        assert w'.files - {NameOf(op.request)} == w.files - {NameOf(op.request)};
        UnreferencedFile(w.value, op.request.checkpoint, w.files, w'.files);
      }
    } else {
      var c :| Commits(w.value, op, c) && w'.disk == Some(c) && FilesCommitted(w, op, w'.files);
      BackedCommit(w, op, c, w'.files);
    }
  }

  // ---------- whole runs ----------

  /** The request was accepted in some state of the run up to `i`. */
  ghost predicate Issued(worlds: seq<World>, i: nat, r: Request)
    requires i < |worlds|
  {
    exists j :: 0 <= j <= i && AcceptedIn(worlds[j], r)
  }

  ghost predicate AcceptedIn(w: World, r: Request) {
    exists raw: Request :: Continues(w.value, raw) && raw.checkpoint <= MAX_CHECKPOINTS && r == Normalized(raw)
  }

  /** A run: any operations in any order, each cut anywhere, captures overlapping the rest. */
  ghost predicate Run(worlds: seq<World>, ops: seq<Op>) {
    && |worlds| == |ops| + 1
    && (exists f :: Normal(f) && worlds[0] == Created(f))
    && (forall i :: 0 <= i < |ops| ==> Step(worlds[i], ops[i], worlds[i + 1]))
    && (forall i :: 0 <= i < |ops| && ops[i].Capture? ==> Issued(worlds, i, ops[i].request))
  }

  /** In every state of every run the invariant holds and each request issued so far is a ticket. */
  lemma {:induction false} RunKeepsInv(worlds: seq<World>, ops: seq<Op>, n: nat)
    requires Run(worlds, ops) && n <= |ops|
    ensures Inv(worlds[n])
    ensures forall r :: Issued(worlds, n, r) ==> Ticket(worlds[n].value, r)
  {
    hide Inv, Step, Ticket, Continues, Normalized, Evolves;
    if n == 0 {
      StartsSound(worlds[0]);
    } else {
      RunKeepsInv(worlds, ops, n - 1);
      assert Step(worlds[n - 1], ops[n - 1], worlds[n]);
      StepKeepsInv(worlds[n - 1], ops[n - 1], worlds[n]);
    }
    forall r | Issued(worlds, n, r) ensures Ticket(worlds[n].value, r) {
      var j :| 0 <= j <= n && AcceptedIn(worlds[j], r);
      if j == n {
        AcceptedTicket(worlds[n], r);
      } else {
        assert Issued(worlds, n - 1, r);
        TicketSurvives(worlds[n - 1].value, worlds[n].value, r);
      }
    }
  }

  lemma StartsSound(w: World)
    requires exists f :: Normal(f) && w == Created(f)
    ensures Inv(w) && AllBacked(w)
  {
    var f :| Normal(f) && w == Created(f);
    FreshIsSound(f);
  }

  lemma AcceptedTicket(w: World, r: Request)
    requires Inv(w) && AcceptedIn(w, r)
    ensures Ticket(w.value, r)
  {
    hide Sound, Ticket;
    var raw: Request :| Continues(w.value, raw) && raw.checkpoint <= MAX_CHECKPOINTS && r == Normalized(raw);
    AcceptedIsTicket(w.value, raw);
  }

  /**
    Every archive stays in place over a whole run whose captures never finish on a checkpoint that
    another capture has stored meanwhile.
   */
  lemma {:induction false} RunKeepsArchives(worlds: seq<World>, ops: seq<Op>, n: nat)
    requires Run(worlds, ops) && n <= |ops|
    requires forall i :: 0 <= i < n && ops[i].Capture? ==> !ReadyAt(worlds[i].value, ops[i].request.checkpoint)
    ensures AllBacked(worlds[n])
  {
    hide Inv, Step, Ticket, Issued, AllBacked, ReadyAt;
    if n == 0 {
      StartsSound(worlds[0]);
    } else {
      RunKeepsArchives(worlds, ops, n - 1);
      RunKeepsInv(worlds, ops, n - 1);
      assert Step(worlds[n - 1], ops[n - 1], worlds[n]);
      StepKeepsArchives(worlds[n - 1], ops[n - 1], worlds[n]);
    }
  }

  /** A run whose captures are not interleaved: each finishes in the state that accepted it. */
  ghost predicate Serialized(worlds: seq<World>, ops: seq<Op>)
    requires Run(worlds, ops)
  {
    forall i :: 0 <= i < |ops| && ops[i].Capture? ==> AcceptedIn(worlds[i], ops[i].request)
  }

  /** Serialized runs keep every archive, whatever faults and crashes they suffer. */
  lemma SerializedKeepsArchives(worlds: seq<World>, ops: seq<Op>, n: nat)
    requires Run(worlds, ops) && Serialized(worlds, ops) && n <= |ops|
    ensures Inv(worlds[n]) && AllBacked(worlds[n])
  {
    hide Inv, Step, Ticket, Issued, AllBacked, Run;
    RunLength(worlds, ops);
    forall i | 0 <= i < n && ops[i].Capture? ensures !ReadyAt(worlds[i].value, ops[i].request.checkpoint) {
      RunKeepsInv(worlds, ops, i);
      NextIsNotReady(worlds[i], ops[i].request);
    }
    RunKeepsArchives(worlds, ops, n);
    RunKeepsInv(worlds, ops, n);
  }

  lemma RunLength(worlds: seq<World>, ops: seq<Op>)
    requires Run(worlds, ops)
    ensures |worlds| == |ops| + 1
  {
  }

  lemma NextIsNotReady(w: World, r: Request)
    requires Inv(w) && AcceptedIn(w, r)
    ensures !ReadyAt(w.value, r.checkpoint)
  {
  }

  /** Generations never fall along a run. */
  lemma {:induction false} GenerationsNeverFall(worlds: seq<World>, ops: seq<Op>, i: nat, n: nat)
    requires Run(worlds, ops) && i <= n <= |ops|
    ensures worlds[i].value.nextGeneration <= worlds[n].value.nextGeneration
    decreases n - i
  {
    hide Inv, Step, Ticket, Issued;
    if i < n {
      GenerationsNeverFall(worlds, ops, i, n - 1);
      RunKeepsInv(worlds, ops, n - 1);
      assert Step(worlds[n - 1], ops[n - 1], worlds[n]);
      StepKeepsInv(worlds[n - 1], ops[n - 1], worlds[n]);
    }
  }

  /** The request a capture or an unavailable record carries. */
  function Carried(op: Op): Option<Request> {
    match op
    case Capture(r, _, _) => Some(r)
    case RecordUnavailable(r, _) => Some(r)
    case _ => None
  }

  /**
    Once a truncation has taken effect, no capture or unavailable record with a generation known before it
    is ever accepted: it changes neither memory nor the committed manifest.
   */
  lemma StaleRequestsAreDead(worlds: seq<World>, ops: seq<Op>, i: nat, n: nat)
    requires Run(worlds, ops) && i < n < |ops|
    requires ops[i].Truncate? && worlds[i + 1].value != worlds[i].value
    requires Carried(ops[n]).Some? && Carried(ops[n]).value.generation <= worlds[i].value.nextGeneration
    ensures worlds[n + 1].value == worlds[n].value && worlds[n + 1].disk == worlds[n].disk
  {
    assert Step(worlds[i], ops[i], worlds[i + 1]) && Step(worlds[n], ops[n], worlds[n + 1]);
    TruncationRaises(worlds[i], ops[i], worlds[i + 1]);
    GenerationsNeverFall(worlds, ops, i + 1, n);
    hide Run;
    WrongGeneration(worlds[n], ops[n], worlds[n + 1]);
  }

  lemma TruncationRaises(w: World, op: Op, w': World)
    requires Step(w, op, w') && op.Truncate? && w'.value != w.value
    ensures w'.value.nextGeneration > w.value.nextGeneration
  {
    hide FilesCommitted, FilesUncommitted, Parse;
    var c :| Commits(w.value, op, c) && w'.value == c;
  }

  lemma WrongGeneration(w: World, op: Op, w': World)
    requires Step(w, op, w') && Carried(op).Some? && Carried(op).value.generation != w.value.nextGeneration
    ensures w'.value == w.value && w'.disk == w.disk
  {
    hide FilesCommitted, FilesUncommitted, Parse;
    forall c | Commits(w.value, op, c) ensures false {
    }
  }

  // ---------- the off-branch flag over whole runs ----------

  /** In memory and on disk the off-branch flag means what it says. */
  predicate FlagExact(w: World) {
    OffBranchExact(w.value) && (w.disk.Some? ==> OffBranchExact(w.disk.value))
  }

  /** A truncation that took effect, in memory or on disk, and cut off a match. */
  predicate Misjudges(w: World, op: Op, w': World) {
    (w'.value != w.value || w'.disk != w.disk) && op.Truncate? && CutsOffAMatch(w.value, op.to)
  }

  lemma CommitKeepsFlag(m: Timeline, op: Op, c: Timeline)
    requires Sound(m) && OffBranchExact(m) && Commits(m, op, c)
    requires op.Capture? ==> Ticket(m, op.request)
    ensures OffBranchExact(c) <==> !(op.Truncate? && CutsOffAMatch(m, op.to))
  {
    hide Parse, Appended, Marked, Truncated, WithSaved, Normalize, Validates, Continues, OffBranchExact, CutsOffAMatch;
    match op {
      case Capture(r, log, optimized) => AppendedOffBranch(m, Branch.Captured(r, log, optimized));
      case RecordUnavailable(r, failure) => RecordKeepsFlag(m, r, failure);
      case MarkUnavailable(k, reason) => MarkKeepsFlag(m, k, reason);
      case Truncate(to) => TruncatedOffBranch(m, to);
      case SetCursor(cursor) => SameBoundaries(m, c);
      case SetSaved(f) =>
        SavedNormal(f);
        SavedIsSound(m, Normalize(f).value);
      case Close =>
    }
  }

  lemma RecordKeepsFlag(m: Timeline, r: Request, failure: Failure)
    requires Sound(m) && OffBranchExact(m) && Continues(m, r)
    ensures OffBranchExact(Appended(m, Missing(Normalized(r), failure)))
  {
    SavedNormal(r.after);
    hide Appended, OffBranchExact;
    AppendedOffBranch(m, Missing(Normalized(r), failure));
  }

  lemma MarkKeepsFlag(m: Timeline, k: int, reason: Failure)
    requires Sound(m) && OffBranchExact(m) && Names(m, k)
    ensures OffBranchExact(Marked(m, k, reason))
  {
    MarkedAlone(m, k, reason);
    var c := Marked(m, k, reason);
    assert c.saved == m.saved && c.original == m.original;
    hide Sound, Marked, OffBranchExact;
    SameBoundaries(m, c);
  }

  lemma SameBoundaries(m: Timeline, c: Timeline)
    requires |c.intervals| == |m.intervals| && c.saved == m.saved && c.original == m.original
    requires forall i :: 0 <= i < |m.intervals| ==> c.intervals[i].after == m.intervals[i].after
    ensures OffBranchExact(c) <==> OffBranchExact(m)
  {
    assert forall k :: 0 <= k <= |m.intervals| ==> Boundary(c, k) == Boundary(m, k);
  }

  /** From a state with the flag exact, one step leads to another such state exactly when it misjudges nothing. */
  lemma StepKeepsFlag(w: World, op: Op, w': World)
    requires Inv(w) && FlagExact(w) && Step(w, op, w') && Admissible(w, op)
    ensures FlagExact(w') <==> !Misjudges(w, op, w')
  {
    hide Sound, Candidate, Ticket, FilesUncommitted, FilesCommitted, Parse, OffBranchExact, CutsOffAMatch;
    if !w.closed && op != Close && !(w'.value == w.value && w'.disk == w.disk) {
      var c :| Commits(w.value, op, c) && w'.disk == Some(c) && (w'.value == c || (w'.crashed && w'.value == w.value));
      CommitKeepsFlag(w.value, op, c);
    }
  }

  /** The flag is exact in every state of a run if and only if no truncation along it cut off a match. */
  lemma {:induction false} RunKeepsFlag(worlds: seq<World>, ops: seq<Op>, n: nat)
    requires Run(worlds, ops) && n <= |ops|
    ensures (forall k :: 0 <= k <= n ==> FlagExact(worlds[k])) <==>
            (forall i :: 0 <= i < n ==> !Misjudges(worlds[i], ops[i], worlds[i + 1]))
  {
    hide Inv, Step, Ticket, Issued, FlagExact, Misjudges;
    if n == 0 {
      StartsExact(worlds[0]);
    } else {
      RunKeepsFlag(worlds, ops, n - 1);
      if forall k :: 0 <= k < n ==> FlagExact(worlds[k]) {
        RunKeepsInv(worlds, ops, n - 1);
        assert Step(worlds[n - 1], ops[n - 1], worlds[n]);
        StepKeepsFlag(worlds[n - 1], ops[n - 1], worlds[n]);
      }
    }
  }

  lemma StartsExact(w: World)
    requires exists f :: Normal(f) && w == Created(f)
    ensures FlagExact(w)
  {
    var f :| Normal(f) && w == Created(f);
    assert Boundary(w.value, 0) == f;
  }

  /** A session without archives. */
  function Bare(m: Timeline): World { World(m, Some(m), map[], false, false) }

  /** A committed change of the manifest that leaves the directory alone is a step. */
  lemma PlainStep(m: Timeline, op: Op, c: Timeline)
    requires WellFormed(c) && Candidate(m, op) == Some(c) && (op.RecordUnavailable? || op == Truncate(1))
    requires op == Truncate(1) ==> |m.intervals| >= 1
    ensures Step(Bare(m), op, Bare(c))
  {
    ParsesToItself(c);
    hide Parse, WellFormed, Candidate, FilesUncommitted;
    assert Commits(m, op, c);
  }

  /** There, back to the original content, and back in time by one checkpoint: the flag ends up wrong. */
  lemma FlagGoesWrong(f: Fingerprint, g: Fingerprint, failure: Failure)
    requires Normal(f) && Normal(g) && f != g
    ensures exists worlds, ops :: Run(worlds, ops) && |ops| == 3 && FlagExact(worlds[2]) && !FlagExact(worlds[3])
  {
    hide Step, OffBranchExact, There, ThereAndBack, Truncated, Fresh, Normal, Sound;
    var m1, m2 := There(f, g, failure), ThereAndBack(f, g, failure);
    OffBranchInError(f, g, failure);
    var m3 := Truncated(m2, 1);
    LegSteps(f, g, failure);
    var worlds := [Created(f), Bare(m1), Bare(m2), Bare(m3)];
    var ops := [RecordUnavailable(Leg(1, f, g), failure), RecordUnavailable(Leg(2, g, f), failure), Truncate(1)];
    assert worlds[0] == Created(f);
    assert Run(worlds, ops);
  }

  lemma LegSteps(f: Fingerprint, g: Fingerprint, failure: Failure)
    requires Normal(f) && Normal(g) && f != g
    ensures Step(Created(f), RecordUnavailable(Leg(1, f, g), failure), Bare(There(f, g, failure)))
    ensures Step(Bare(There(f, g, failure)), RecordUnavailable(Leg(2, g, f), failure),
                 Bare(ThereAndBack(f, g, failure)))
    ensures |ThereAndBack(f, g, failure).intervals| == 2
    ensures Step(Bare(ThereAndBack(f, g, failure)), Truncate(1), Bare(Truncated(ThereAndBack(f, g, failure), 1)))
  {
    var m := ThereAndBack(f, g, failure);
    LegsAreSound(f, g, failure);
    LegCandidates(f, g, failure);
    hide There, ThereAndBack, Truncated, Fresh, Normal, GenerationsRise, ArchivesNamed, SavedSound, WellFormed;
    TruncatedIsSound(m, 1);
    hide Sound, Step;
    SoundIsWellFormed(There(f, g, failure));
    SoundIsWellFormed(m);
    SoundIsWellFormed(Truncated(m, 1));
    PlainStep(Fresh(f), RecordUnavailable(Leg(1, f, g), failure), There(f, g, failure));
    PlainStep(There(f, g, failure), RecordUnavailable(Leg(2, g, f), failure), m);
    PlainStep(m, Truncate(1), Truncated(m, 1));
  }

  lemma SoundIsWellFormed(m: Timeline)
    requires Sound(m)
    ensures WellFormed(m)
  {
  }

  lemma LegCandidates(f: Fingerprint, g: Fingerprint, failure: Failure)
    requires Normal(f) && Normal(g) && f != g
    ensures Candidate(Fresh(f), RecordUnavailable(Leg(1, f, g), failure)) == Some(There(f, g, failure))
    ensures Candidate(There(f, g, failure), RecordUnavailable(Leg(2, g, f), failure))
            == Some(ThereAndBack(f, g, failure))
    ensures ThereAndBack(f, g, failure).tip == 2 && |ThereAndBack(f, g, failure).intervals| == 2
  {
    hide SortedUnique;
    NormalForms(f, f);
    NormalForms(g, g);
  }

  // ---------- two captures at once ----------

  /** A complete archive for the interval from one content to another. */
  predicate CompleteLog(r: Request, log: Log) {
    Validates(r, log) && Decimal(log.byteLength) && Decimal(log.changeCount) && Sha256(log.sha256)
  }

  /** The session after the first capture, with its archive in place. */
  function AfterCapture(f: Fingerprint, r: Request, log: Log): World
    requires r.checkpoint >= 0
  {
    var c := Appended(Fresh(f), Branch.Captured(r, log, false));
    World(c, Some(c), map[NameOf(r) := log], false, false)
  }

  lemma FirstCaptureSteps(f: Fingerprint, r: Request, log: Log)
    requires Normal(f) && Normal(r.after) && r.before == f && r.checkpoint == 1 && r.generation == 1
    requires r.kind != OtherKind && CompleteLog(r, log)
    ensures Step(Created(f), Op.Capture(r, log, false), AfterCapture(f, r, log))
    ensures AcceptedIn(Created(f), r) && ReadyAt(AfterCapture(f, r, log).value, 1)
  {
    FirstCapture(f, r, log);
    var w0, w1, op := Created(f), AfterCapture(f, r, log), Op.Capture(r, log, false);
    NormalForms(f, f);
    assert Continues(w0.value, r) && r == Normalized(r);
    assert w1.files == w0.files[NameOf(r) := log];
    hide Parse, FileName, Normalize, Appended, FilesUncommitted;
    assert Commits(w0.value, op, w1.value);
  }

  /** Two captures accepted for the same checkpoint: the one that comes second deletes the first one's archive. */
  lemma InterleavedCapturesLoseAnArchive(f: Fingerprint, r: Request, log: Log)
    requires Normal(f) && Normal(r.after) && r.before == f && r.checkpoint == 1 && r.generation == 1
    requires r.kind != OtherKind && CompleteLog(r, log)
    ensures exists worlds, ops :: Run(worlds, ops) && |ops| == 2 && !AllBacked(worlds[2])
  {
    FirstCaptureSteps(f, r, log);
    var w0, w1, op := Created(f), AfterCapture(f, r, log), Op.Capture(r, log, false);
    var w2 := w1.(files := w1.files - {NameOf(r)});
    assert Step(w1, op, w2);
    assert !BackedAt(w1.value, 0, w2.files) && w2.disk == Some(w1.value);
    hide Step, AcceptedIn, BackedAt, AfterCapture, Created, Normal;
    var worlds, ops := [w0, w1, w2], [op, op];
    assert worlds[0] == w0;
    assert Issued(worlds, 0, r) && Issued(worlds, 1, r);
    assert Run(worlds, ops);
  }

  lemma FirstCapture(f: Fingerprint, r: Request, log: Log)
    requires Normal(f) && Normal(r.after) && r.before == f && r.checkpoint == 1 && r.generation == 1
    requires r.kind != OtherKind && CompleteLog(r, log)
    ensures var c := Appended(Fresh(f), Branch.Captured(r, log, false)); Parse(c).Some? && |c.intervals| == 1
  {
    var m, e := Fresh(f), Branch.Captured(r, log, false);
    FreshIsSound(f);
    CapturedIsGood(m, r, log, false);
    hide GoodEntry, FileName, SortedUnique, Normalize, Branch.Captured;
    AppendedChain(m, e);
    ParsesToItself(Appended(m, e));
  }
}
