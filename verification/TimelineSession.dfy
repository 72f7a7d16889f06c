/**
  `CheckpointTimelineStorageSession` (vscode-extension/src/checkpointTimelineStorage.ts:1067-1513): the
  operations as they run, against a directory, with a fault injector that can make any point fail or
  kill the process. Each is one step of the state machine of TimelineRuns.
 */
module TimelineSession {
  import opened Common
  import opened Manifest
  import opened Branch
  import opened TimelineRuns
  import opened Chronicle

  /** The fault points, and the file-system calls between them that can fail on their own. */
  datatype Point =
    | RawFileCreate | RawHeaderWrite | RawEntryWrite | RawFlushClose | RawValidated
    | OptimizedFileCreate | OptimizedWritten | OptimizedValidated | WinnerRename | LoserRemoval
    | ManifestTemporaryWrite | ManifestRename | ManifestReplaced
    | BranchManifestCommit | CursorManifestCommit | SavedManifestCommit | UnavailableManifestCommit
    | RemoveFile(file: string) | Reconcile | CleanCloseDelete

  /** Carry on, throw, or lose the process. */
  datatype Fate = Go | Throw | Die

  datatype Report = Done | Failed | Dead

  ghost predicate Calm(fault: Point -> Fate) {
    forall p :: fault(p) == Go
  }

  function Outcome(fate: Fate): Report {
    match fate case Go => Done case Throw => Failed case Die => Dead
  }

  /** The first point of the list that does not pass. */
  method Hit(points: seq<Point>, fault: Point -> Fate) returns (fate: Fate)
    ensures fate == Go <==> forall i :: 0 <= i < |points| ==> fault(points[i]) == Go
    ensures fate != Go ==> exists i :: 0 <= i < |points| && fault(points[i]) == fate
  {
    var i := 0;
    while i < |points|
      invariant i <= |points| && forall k :: 0 <= k < i ==> fault(points[k]) == Go
    {
      fate := fault(points[i]);
      if fate != Go { return; }
      i := i + 1;
    }
    return Go;
  }

  /** A log that was never written. */
  function Unwritten(r: Request): Log {
    Log(0, "", r.before, r.after, 0, false, 0, 0, [])
  }

  class Session {
    const maxCheckpoints: int
    var value: Timeline
    var closed: bool
    var disk: Option<Timeline>
    var files: map<string, Log>
    ghost var crashed: bool

    ghost function World(): World
      reads this
    {
      TimelineRuns.World(value, disk, files, closed, crashed)
    }

    ghost predicate Valid()
      reads this
    {
      Inv(World()) && !crashed && 1 <= maxCheckpoints <= MAX_CHECKPOINTS
    }

    constructor (f: Fingerprint, maxCheckpoints: int)
      requires Normal(f) && 1 <= maxCheckpoints <= MAX_CHECKPOINTS
      ensures Valid() && World() == Created(f) && this.maxCheckpoints == maxCheckpoints
    {
      this.maxCheckpoints := maxCheckpoints;
      value, disk, files, closed, crashed := Fresh(f), Some(Fresh(f)), map[], false, false;
      FreshIsSound(f);
    }

    /** The manifest file is replaced by rename, after validation; nothing can fail after the rename. */
    method Commit(candidate: Timeline, fault: Point -> Fate) returns (fate: Fate)
      modifies `disk
      ensures fate == Go ==> Parse(candidate).Some? && disk == Some(candidate)
      ensures fate == Throw ==> disk == old(disk)
      ensures fate == Die ==> disk == old(disk) || (Parse(candidate).Some? && disk == Some(candidate))
      ensures Calm(fault) && Parse(candidate).Some? ==> fate == Go
    {
      hide Parse;
      if Parse(candidate).None? { return Throw; }
      fate := Hit([ManifestTemporaryWrite, ManifestRename], fault);
      if fate != Go { return; }
      disk := Some(candidate);
      if fault(ManifestReplaced) == Die { return Die; }
      return Go;
    }

    /** What an operation did, as its caller and the next process see it. */
    twostate predicate Did(op: Op, r: Report, fault: Point -> Fate)
      reads this
    {
      && Step(old(World()), op, World())
      && (r == Dead <==> crashed) && (r != Dead ==> Valid())
      && (r == Done ==> Commits(old(value), op, value) && disk == Some(value))
      && (Calm(fault) && !old(closed) && (exists c :: Commits(old(value), op, c)) ==> r == Done)
    }

    /** Commits a candidate and takes it over in memory. */
    method Replace(ghost op: Op, candidate: Timeline, fault: Point -> Fate) returns (fate: Fate)
      requires Valid() && !closed && Candidate(value, op) == Some(candidate)
      requires op.Capture? ==> Ticket(value, op.request)
      modifies `disk, `value, `crashed
      ensures fate == Die <==> crashed
      ensures fate == Throw ==> value == old(value) && disk == old(disk)
      ensures fate == Go ==> Commits(old(value), op, value) && disk == Some(value)
      ensures fate == Die ==>
                && value == old(value)
                && (disk == old(disk) || (Commits(old(value), op, candidate) && disk == Some(candidate)))
      ensures Calm(fault) && Commits(old(value), op, candidate) ==> fate == Go
      ensures fate != Die ==> Valid()
    {
      hide Candidate, Parse, Sound;
      fate := Commit(candidate, fault);
      if fate == Go {
        CandidateIsSound(value, op, candidate);
        value := candidate;
      } else if fate == Die {
        crashed := true;
      }
    }

    method SetCursor(cursor: int, fault: Point -> Fate) returns (r: Report)
      requires Valid()
      modifies this
      ensures Did(Op.SetCursor(cursor), r, fault) && (r == Failed ==> World() == old(World()))
      ensures Calm(fault) ==> (r == Done <==> !old(closed) && 0 <= cursor <= old(|value.intervals|))
      ensures r == Done ==> value == old(value).(cursor := cursor)
    {
      hide Sound, Parse, Inv;
      Exactly(Op.SetCursor(cursor));
      if closed || cursor < 0 || cursor > value.tip { return Failed; }
      var fate := Hit([CursorManifestCommit], fault);
      if fate == Go {
        fate := Replace(Op.SetCursor(cursor), value.(cursor := cursor), fault);
      } else if fate == Die {
        crashed := true;
      }
      return Outcome(fate);
    }
  
    method SetSavedFingerprint(f: Fingerprint, fault: Point -> Fate) returns (r: Report)
      requires Valid()
      modifies this
      ensures Did(SetSaved(f), r, fault) && (r == Failed ==> World() == old(World()))
      ensures Calm(fault) ==> (r == Done <==> !old(closed) && Normalize(f).Some?)
      ensures r == Done ==>
                && value == old(value).(saved := value.saved) && Normalize(f) == Some(value.saved.fingerprint)
                && LeastMatch(old(value), value.saved.fingerprint, value.saved.checkpoint)
                && (value.saved.offBranch <==> value.saved.checkpoint.None?)
    {
      hide Sound, Parse, Inv, Normalize, WithSaved, LeastMatch;
      Exactly(SetSaved(f));
      ValueIsSound();
      if closed { return Failed; }
      var normalized := Normalize(f);
      if normalized.None? { return Failed; }
      var fate := Hit([SavedManifestCommit], fault);
      if fate == Go {
        fate := Replace(SetSaved(f), WithSaved(value, normalized.value), fault);
        if fate == Go { SavedExactly(old(value), f, value); }
      } else if fate == Die {
        crashed := true;
      }
      return Outcome(fate);
    }

    method MarkIntervalUnavailable(checkpoint: int, reason: Failure, fault: Point -> Fate) returns (r: Report)
      requires Valid()
      modifies this
      ensures Did(MarkUnavailable(checkpoint, reason), r, fault) && (r == Failed ==> World() == old(World()))
      ensures Calm(fault) ==> (r == Done <==> !old(closed) && 1 <= checkpoint <= old(|value.intervals|))
    {
      hide Sound, Parse, Inv, Marked;
      Exactly(MarkUnavailable(checkpoint, reason));
      if closed { return Failed; }
      if !(1 <= checkpoint <= |value.intervals|) || value.intervals[checkpoint - 1].checkpoint != checkpoint {
        return Failed;
      }
      var fate := Hit([UnavailableManifestCommit], fault);
      if fate == Go {
        fate := Replace(MarkUnavailable(checkpoint, reason), Marked(value, checkpoint, reason), fault);
      } else if fate == Die {
        crashed := true;
      }
      return Outcome(fate);
    }

    lemma ValueIsSound()
      requires Valid()
      ensures Sound(value)
    {
      hide Sound;
    }

    /** Which operations can be committed now. */
    lemma Exactly(op: Op)
      requires Valid() && !op.Capture?
      ensures (exists c :: Commits(value, op, c)) <==> Accepts(value, op)
    {
      hide Sound, Commits, Accepts;
      CommitsExactly(value, op);
    }

    /** Charges the quota ledger after a commit; a failure here is reported although the commit stands. */
    method AfterCommit(fault: Point -> Fate) returns (r: Report)
      modifies `crashed
      ensures r == Outcome(fault(Reconcile)) && crashed == (old(crashed) || r == Dead)
    {
      r := Outcome(fault(Reconcile));
      if r == Dead { crashed := true; }
    }

    method RecordUnavailable(request: Request, failure: Failure, fault: Point -> Fate) returns (r: Report)
      requires Valid()
      modifies this
      ensures Did(Op.RecordUnavailable(request, failure), r, fault)
      ensures Calm(fault) ==>
                (r == Done <==> !old(closed) && Accepts(old(value), Op.RecordUnavailable(request, failure)))
      ensures r == Failed && World() != old(World()) ==> fault(Reconcile) == Throw
    {
      hide Sound, Parse, Inv, Normalize, Appended, FingerprintsEqual;
      Exactly(Op.RecordUnavailable(request, failure));
      if closed || request.checkpoint != value.tip + 1 || request.generation != value.nextGeneration { return Failed; }
      var before, after := Normalize(request.before), Normalize(request.after);
      if before.None? || after.None? { return Failed; }
      if !FingerprintsEqual(before.value, Last(value)) { return Failed; }
      if !Decimal(request.sourceChangeCount) { return Failed; }
      var fate := Replace(Op.RecordUnavailable(request, failure),
                          Appended(value, Missing(Normalized(request), failure)), fault);
      if fate != Go { return Outcome(fate); }
      r := AfterCommit(fault);
    }

    /** Removes files one by one; a failure is ignored, a crash leaves the rest. */
    method RemoveFiles(names: seq<string>, fault: Point -> Fate) returns (died: bool)
      modifies `files
      ensures forall f :: f in files ==> f in old(files) && files[f] == old(files)[f]
      ensures forall f :: f in old(files) && f !in files ==> f in names
      ensures Calm(fault) ==> !died && forall f :: f in names ==> f !in files
    {
      var i := 0;
      while i < |names|
        invariant i <= |names|
        invariant forall f :: f in files ==> f in old(files) && files[f] == old(files)[f]
        invariant forall f :: f in old(files) && f !in files ==> f in names
        invariant Calm(fault) ==> forall k :: 0 <= k < i ==> names[k] !in files
      {
        var fate := fault(RemoveFile(names[i]));
        if fate == Die { return true; }
        if fate == Go { files := files - {names[i]}; }
        i := i + 1;
      }
      return false;
    }

    method TruncateFuture(cursor: int, fault: Point -> Fate) returns (r: Report)
      requires Valid()
      modifies this
      ensures Did(Truncate(cursor), r, fault)
      ensures Calm(fault) ==> (r == Done <==> !old(closed) && 0 <= cursor <= old(|value.intervals|))
      ensures r == Failed && World() != old(World()) ==> fault(Reconcile) == Throw
    {
      hide Sound, Parse, Truncated;
      Exactly(Truncate(cursor));
      if closed || cursor < 0 || cursor > value.tip { return Failed; }
      TipIsLength(value);
      hide Inv;
      var removed := value.intervals[cursor..];
      var fate := Hit([BranchManifestCommit], fault);
      if fate == Go {
        fate := Replace(Truncate(cursor), Truncated(value, cursor), fault);
      } else if fate == Die {
        crashed := true;
      }
      if fate != Go { return Outcome(fate); }
      hide Candidate, Step, Dropped;
      DroppedFiles(old(value), cursor);
      ghost var w := World();
      var died := RemoveFiles(ArchiveFiles(removed), fault);
      InvIgnoresFiles(w, files);
      if died {
        crashed := true;
        r := Dead;
      } else {
        r := AfterCommit(fault);
      }
      TruncationSteps(old(World()), cursor, World());
    }

    /** The opening half of a capture: the request is checked and quota is reserved. */
    method BeginCapture(request: Request, reserved: bool) returns (ticket: Option<Request>)
      requires Valid()
      ensures ticket.Some? <==> !closed && reserved && Continues(value, request) && request.checkpoint <= maxCheckpoints
      ensures ticket.Some? ==> Ticket(value, ticket.value) && AcceptedIn(World(), ticket.value)
    {
      hide Sound, Ticket, Normalize, FingerprintsEqual;
      if closed || request.checkpoint != value.tip + 1 || request.checkpoint > maxCheckpoints { return None; }
      if request.generation != value.nextGeneration { return None; }
      var before, after := Normalize(request.before), Normalize(request.after);
      if before.None? || after.None? { return None; }
      if !FingerprintsEqual(before.value, Last(value)) { return None; }
      if !reserved { return None; }
      AcceptedIsTicket(value, request);
      assert AcceptedIn(World(), Normalized(request));
      return Some(Normalized(request));
    }

    /** The clean-up of a capture that did not commit: its archive name is removed, if that works. */
    method Abandon(request: Request, fault: Point -> Fate) returns (r: Report)
      modifies `files, `crashed
      ensures files == old(files) || files == old(files) - {NameOf(request)}
      ensures r != Done && crashed == (old(crashed) || r == Dead)
      ensures fault(RemoveFile(NameOf(request))) == Go ==> files == old(files) - {NameOf(request)}
    {
      var fate := fault(RemoveFile(NameOf(request)));
      if fate == Die {
        crashed := true;
        return Dead;
      }
      if fate == Go { files := files - {NameOf(request)}; }
      return Failed;
    }

    /** The finishing half of a capture: the archive is written, chosen, put in place and committed. */
    method FinishCapture(request: Request, raw: Option<Log>, optimized: Option<Log>, fault: Point -> Fate)
      returns (r: Report, ghost op: Op)
      requires Valid() && !closed && Ticket(value, request)
      modifies this
      ensures op.Capture? && op.request == request
      ensures Step(old(World()), op, World()) && (r == Dead <==> crashed) && (r != Dead ==> Valid())
      ensures r == Done ==> Commits(old(value), op, value) && disk == Some(value)
      ensures r == Failed && value != old(value) ==> fault(Reconcile) == Throw
      ensures value != old(value) ==> raw.Some? && (op.log == raw.value || Some(op.log) == optimized)
      ensures value != old(value) ==> op.log.byteLength <= raw.value.byteLength
      ensures Calm(fault) && raw.Some? && Validates(request, raw.value) ==>
                op == Op.Capture(request, Winner(request, raw.value, optimized),
                                 OptimizedWins(request, raw.value, optimized))
      ensures Calm(fault) && raw.Some? && Validates(request, raw.value) ==>
                (exists c :: Commits(old(value), op, c)) ==> r == Done
    {
      hide Sound, Parse, Validates, Ticket, Appended, FileName;
      op := Op.Capture(request, Unwritten(request), false);
      var fate := Hit([RawFileCreate, RawHeaderWrite, RawEntryWrite], fault);
      if fate == Go { fate := if raw.None? then Throw else fault(RawFlushClose); }
      if fate == Go { fate := if !Validates(request, raw.value) then Throw else fault(RawValidated); }
      if fate == Die {
        crashed := true;
        return Dead, op;
      }
      if fate == Throw {
        r := Abandon(request, fault);
        return;
      }
      var log, smaller := raw.value, false;
      if optimized.Some? && raw.value.byteLength > 1 {
        fate := Hit([OptimizedFileCreate, OptimizedWritten, OptimizedValidated], fault);
        if fate == Die {
          crashed := true;
          return Dead, op;
        }
        if fate == Go && Validates(request, optimized.value) && optimized.value.byteLength < raw.value.byteLength {
          log, smaller := optimized.value, true;
        }
      }
      op := Op.Capture(request, log, smaller);
      r := PutInPlace(request, log, smaller, fault);
    }

    method PutInPlace(request: Request, log: Log, smaller: bool, fault: Point -> Fate) returns (r: Report)
      requires Valid() && !closed && Ticket(value, request) && Validates(request, log)
      modifies this
      ensures var op := Op.Capture(request, log, smaller);
        && Step(old(World()), op, World()) && (r == Dead <==> crashed) && (r != Dead ==> Valid())
        && (r == Done ==> Commits(old(value), op, value) && disk == Some(value))
        && (r == Failed && value != old(value) ==> fault(Reconcile) == Throw)
        && (Calm(fault) && (exists c :: Commits(old(value), op, c)) ==> r == Done)
    {
      hide Sound, Parse, Validates, Appended, FileName;
      ghost var op := Op.Capture(request, log, smaller);
      if request.generation != value.nextGeneration {
        r := Abandon(request, fault);
        return;
      }
      hide Ticket;
      var fate := fault(WinnerRename);
      if fate == Die {
        crashed := true;
        return Dead;
      }
      if fate == Throw {
        r := Abandon(request, fault);
        return;
      }
      files := files[NameOf(request) := log];
      fate := fault(LoserRemoval);
      if fate == Go {
        TicketRange(value, request);
        fate := Replace(op, Appended(value, Branch.Captured(request, log, smaller)), fault);
      } else if fate == Die {
        crashed := true;
      }
      if fate == Throw {
        assert files - {NameOf(request)} == old(files) - {NameOf(request)};
        r := Abandon(request, fault);
        return;
      }
      if fate == Die { return Dead; }
      r := AfterCommit(fault);
    }

    /** The archive of a checkpoint, verified against its entry. */
    method OpenInterval(checkpoint: int) returns (r: Option<Log>)
      requires Valid()
      ensures r.Some? ==> !closed && ReadyAt(value, checkpoint) && Describes(value.intervals[checkpoint - 1], r.value)
      ensures !closed && AllBacked(World()) ==> (r.Some? <==> ReadyAt(value, checkpoint))
    {
      hide Sound;
      if closed { return None; }
      if !(1 <= checkpoint <= |value.intervals|) { return None; }
      var e := value.intervals[checkpoint - 1];
      if e.state != Ready || e.archive.None? {
        if e.state == Ready { ReadyBound(value, checkpoint - 1); }
        return None;
      }
      ReadyBound(value, checkpoint - 1);
      FileNameIsIntervalFile(checkpoint);
      hide FileName;
      if AllBacked(World()) { assert BackedAt(value, checkpoint - 1, files); }
      var file := e.archive.value.file;
      if !IsIntervalFile(file) || file !in files { return None; }
      var log := files[file];
      if log.byteLength != e.archive.value.byteLength || log.sha256 != e.archive.value.sha256 { return None; }
      if !FingerprintsEqual(log.before, e.before) || !FingerprintsEqual(log.after, e.after) { return None; }
      return Some(log);
    }

    /** Deletes the session's directory; if that fails the session is closed all the same. */
    method CloseSession(fault: Point -> Fate)
      requires Valid()
      modifies this
      ensures Step(old(World()), Close, World()) && closed
      ensures !old(closed) && fault(CleanCloseDelete) == Go ==> disk == None && files == map[]
    {
      if closed { return; }
      closed := true;
      var fate := fault(CleanCloseDelete);
      if fate == Go {
        disk, files := None, map[];
      } else if fate == Die {
        crashed := true;
      }
    }
  }

  /** `createSession`: the original fingerprint is normalized, or refused when its metadata is malformed. */
  method CreateSession(original: Fingerprint, maxCheckpoints: int) returns (session: Option<Session>)
    requires 1 <= maxCheckpoints <= MAX_CHECKPOINTS
    ensures session.Some? <==> Normalize(original).Some?
    ensures session.Some? ==>
              && fresh(session.value) && session.value.Valid() && session.value.maxCheckpoints == maxCheckpoints
              && session.value.World() == Created(Normalize(original).value)
  {
    var normalized := Normalize(original);
    if normalized.None? { return None; }
    SavedNormal(original);
    var s := new Session(normalized.value, maxCheckpoints);
    session := Some(s);
  }

  lemma TipIsLength(m: Timeline)
    requires Sound(m)
    ensures m.tip == |m.intervals|
  {
    hide Chain;
  }

  lemma DroppedFiles(m: Timeline, to: int)
    requires 0 <= to <= |m.intervals|
    ensures forall f :: f in ArchiveFiles(m.intervals[to..]) <==> f in Dropped(m, to)
  {
    var removed := m.intervals[to..];
    forall f ensures f in ArchiveFiles(removed) <==> f in Dropped(m, to) {
      if f in ArchiveFiles(removed) {
        var i :| 0 <= i < |removed| && removed[i].archive.Some? && removed[i].archive.value.file == f;
        assert m.intervals[to + i] == removed[i];
      }
      if f in Dropped(m, to) {
        var i :| to <= i < |m.intervals| && m.intervals[i].archive.Some? && m.intervals[i].archive.value.file == f;
        assert removed[i - to] == m.intervals[i];
      }
    }
  }

  /** Removing files touches nothing the invariant speaks of. */
  lemma InvIgnoresFiles(w: World, files: map<string, Log>)
    ensures Inv(w.(files := files)) <==> Inv(w)
  {
    hide Sound;
  }

  /** A truncation that committed is a step, whichever dropped archives are gone, dead process or not. */
  lemma TruncationSteps(w: World, to: int, w': World)
    requires !w.closed && !w.crashed && !w'.closed && Commits(w.value, Truncate(to), w'.value)
             && w'.disk == Some(w'.value)
    requires forall f :: f in w'.files ==> f in w.files && w'.files[f] == w.files[f]
    requires 0 <= to <= |w.value.intervals| && forall f :: f in w.files && f !in w'.files ==> f in Dropped(w.value, to)
    ensures Step(w, Truncate(to), w')
  {
    hide Candidate, Parse, Dropped;
  }

  /** The archives of a list of entries. */
  function ArchiveFiles(entries: seq<Entry>): (names: seq<string>)
    ensures forall f :: f in names <==>
              exists i :: 0 <= i < |entries| && entries[i].archive.Some? && entries[i].archive.value.file == f
  {
    if entries == [] then []
    else
      var rest := ArchiveFiles(entries[1..]);
      assert forall i :: 0 < i < |entries| ==> entries[i] == entries[1..][i - 1];
      if entries[0].archive.Some? then [entries[0].archive.value.file] + rest else rest
  }
}
