/**
  What the index says about a session, read off the history of the operations written to it
  (vscode-extension/src/checkpointTimelineStorage.ts:599-704, 857-993, 1046-1064): a session is charged
  what was last found on disk, and holds what was last reserved for it.
 */
module Accounts {
  import opened Common
  import opened Quota
  import Ledger

  /** The kinds of operation that matter to one session. */
  datatype Kind = Creation | Removal | Charging | FailedDeletion

  predicate Is(kind: Kind, op: Op, key: string) {
    match kind
    case Creation => op.Create? && op.key == key
    case Removal => (op.Close? && op.key == key && op.deleted) || (op.Cleanup? && key in op.removed)
    case Charging => (op.Create? || op.Reserve? || op.Extend? || op.Reconcile?) && op.key == key
    case FailedDeletion => op.Close? && op.key == key && !op.deleted
  }

  /** The last operation of a kind, -1 when there is none. */
  function Latest(kind: Kind, ops: seq<Op>, key: string): (i: int)
    ensures -1 <= i < |ops|
    ensures i >= 0 ==> Is(kind, ops[i], key)
    ensures forall j :: i < j < |ops| ==> !Is(kind, ops[j], key)
  {
    if ops == [] then -1
    else if Is(kind, ops[|ops| - 1], key) then |ops| - 1
    else Latest(kind, ops[..|ops| - 1], key)
  }

  /** The grant is the most that the request, one chunk and both limits allow. */
  ghost predicate IsGrant(limits: Limits, before: Index, op: Op, granted: int)
    requires op.Reserve?
  {
    var session := limits.perSession - op.actual;
    var total := limits.total - op.rootActual - Others(before, op.key, Reserved);
    && 0 < granted <= op.requested && granted <= RESERVATION_CHUNK && granted <= session && granted <= total
    && (granted == op.requested || granted == RESERVATION_CHUNK || granted == session || granted == total)
  }

  /** The fewest chunks that hold the bytes. */
  predicate InChunks(chunks: nat, written: int) {
    (chunks - 1) * RESERVATION_CHUNK < written <= chunks * RESERVATION_CHUNK
  }

  /** The reservation is the least that, with what has appeared on disk, makes up the written bytes in whole chunks. */
  ghost predicate IsExtension(op: Op, reservation: int)
    requires op.Extend?
  {
    var appeared := if op.actual > op.baseline then op.actual - op.baseline else 0;
    exists chunks: nat :: InChunks(chunks, op.written)
      && reservation == if chunks * RESERVATION_CHUNK > appeared then chunks * RESERVATION_CHUNK - appeared else 0
  }

  /** What a charging operation leaves reserved, given the index it was written over. */
  ghost predicate Reserves(limits: Limits, before: Index, op: Op, reserved: int) {
    match op
    case Create(_, _, _) => reserved == 0
    case Reserve(_, _, _, _, _) => IsGrant(limits, before, op, reserved)
    case Extend(_, _, _, _, _, _) => IsExtension(op, reserved)
    case Reconcile(_, _, reservation) => reserved == reservation
    case _ => false
  }

  /** The record of a session is what the history says. */
  ghost predicate Accounted(limits: Limits, ops: seq<Op>, index: Index, key: string) {
    var created, removed := Latest(Creation, ops, key), Latest(Removal, ops, key);
    var charged, failed := Latest(Charging, ops, key), Latest(FailedDeletion, ops, key);
    && (key in index <==> created > removed)
    && (key in index ==>
          && charged >= created
          && index[key].owner == ops[created].me
          && (index[key].active <==> failed < created)
          && index[key].byteLength == ops[charged].actual
          && (failed > charged ==> index[key].reserved == 0)
          && (failed < charged ==>
                exists before: Index :: Ledger.Sequential(limits, ops[..charged]) == Some(before)
                  && Reserves(limits, before, ops[charged], index[key].reserved)))
  }

  lemma LatestMore(kind: Kind, ops: seq<Op>, op: Op, key: string)
    ensures Latest(kind, ops + [op], key) == if Is(kind, op, key) then |ops| else Latest(kind, ops, key)
  {
    assert (ops + [op])[..|ops|] == ops;
  }

  /** An operation leaves the records of all sessions alone that it does not name. */
  lemma OthersUntouched(limits: Limits, index: Index, op: Op, key: string)
    requires Apply(limits, index, op).Some?
    requires !Is(Charging, op, key) && !Is(Removal, op, key) && !Is(FailedDeletion, op, key)
    ensures var next := Apply(limits, index, op).value;
            (key in next <==> key in index) && (key in index ==> next[key] == index[key])
  {
    hide Fits, Available, Extension;
  }

  lemma GrantIsMost(limits: Limits, index: Index, op: Op)
    requires op.Reserve? && Apply(limits, index, op).Some?
    ensures IsGrant(limits, index, op, Apply(limits, index, op).value[op.key].reserved)
  {
    hide Others, Fits;
  }

  lemma ExtensionIsLeast(limits: Limits, index: Index, op: Op)
    requires op.Extend? && Apply(limits, index, op).Some?
    ensures IsExtension(op, Apply(limits, index, op).value[op.key].reserved)
  {
    hide Others, Fits, Extension, IsExtension;
    OneExtension(op);
  }

  /** What a charging operation writes for its session. */
  lemma Charged(limits: Limits, index: Index, op: Op, key: string)
    requires Is(Charging, op, key) && Apply(limits, index, op).Some? && (op.Create? || key in index)
    ensures var next := Apply(limits, index, op).value;
            && key in next && next[key].byteLength == op.actual
            && (if op.Create? then next[key].owner == op.me && next[key].active
                else next[key].owner == index[key].owner && next[key].active == index[key].active)
            && Reserves(limits, index, op, next[key].reserved)
  {
    hide Others, Fits, Available, Extension, IsGrant, IsExtension;
    if op.Reserve? { GrantIsMost(limits, index, op); }
    if op.Extend? { ExtensionIsLeast(limits, index, op); }
  }

  /** Only a creation puts a session into the index. */
  lemma OnlyCreated(limits: Limits, index: Index, op: Op, key: string)
    requires Apply(limits, index, op).Some? && key !in index && !Is(Creation, op, key)
    ensures key !in Apply(limits, index, op).value
  {
    hide Fits, Available, Extension;
  }

  lemma Gone(limits: Limits, index: Index, op: Op, key: string)
    requires Is(Removal, op, key)
    ensures Apply(limits, index, op).Some? && key !in Apply(limits, index, op).value
  {
  }

  lemma NotDeleted(limits: Limits, index: Index, op: Op, key: string)
    requires Is(FailedDeletion, op, key) && key in index
    ensures Apply(limits, index, op).Some? && key in Apply(limits, index, op).value
    ensures Apply(limits, index, op).value[key] == index[key].(active := false, reserved := 0)
  {
  }

  lemma AccountMore(limits: Limits, ops: seq<Op>, index: Index, op: Op, key: string)
    requires Ledger.Sequential(limits, ops) == Some(index) && Accounted(limits, ops, index, key)
    requires Apply(limits, index, op).Some?
    ensures Accounted(limits, ops + [op], Apply(limits, index, op).value, key)
  {
    hide Apply, Ledger.Sequential, Reserves, Is, Latest;
    LatestMore(Creation, ops, op, key);
    LatestMore(Removal, ops, op, key);
    LatestMore(Charging, ops, op, key);
    LatestMore(FailedDeletion, ops, op, key);
    var next, charged := Apply(limits, index, op).value, Latest(Charging, ops, key);
    assert charged >= 0 ==> (ops + [op])[..charged] == ops[..charged];
    assert (ops + [op])[..|ops|] == ops;
    OneKind(op, key);
    if Is(Removal, op, key) {
      Gone(limits, index, op, key);
    } else if key !in index && !Is(Creation, op, key) {
      OnlyCreated(limits, index, op, key);
    } else if Is(Charging, op, key) {
      CreationIsCreate(op, key);
      Charged(limits, index, op, key);
    } else if Is(FailedDeletion, op, key) {
      NotDeleted(limits, index, op, key);
    } else {
      OthersUntouched(limits, index, op, key);
    }
  }

  lemma OneKind(op: Op, key: string)
    ensures Is(Creation, op, key) ==> Is(Charging, op, key)
    ensures Is(Charging, op, key) ==> !Is(Removal, op, key) && !Is(FailedDeletion, op, key)
    ensures Is(Removal, op, key) ==> !Is(FailedDeletion, op, key)
  {
  }

  lemma CreationIsCreate(op: Op, key: string)
    ensures Is(Charging, op, key) ==> (Is(Creation, op, key) <==> op.Create?)
  {
  }

  lemma {:induction false} SequentialAccounts(limits: Limits, ops: seq<Op>, key: string)
    requires Ledger.Sequential(limits, ops).Some?
    ensures Accounted(limits, ops, Ledger.Sequential(limits, ops).value, key)
    decreases |ops|
  {
    hide Apply, Reserves;
    if ops != [] {
      var front, op := ops[..|ops| - 1], ops[|ops| - 1];
      SequentialAccounts(limits, front, key);
      assert ops == front + [op];
      hide Accounted;
      AccountMore(limits, front, Ledger.Sequential(limits, front).value, op, key);
    }
  }

  /** In every state of every interleaving, each session's record is what the operations written so far say. */
  lemma RunAccounts(limits: Limits, states: seq<Ledger.System>, movers: seq<nat>, events: seq<Ledger.Event>, n: nat,
        key: string)
    requires Ledger.Run(limits, states, movers, events) && limits.total >= 0 && n <= |events|
    ensures Accounted(limits, Ledger.Written(states[..n + 1], movers[..n], events[..n]), states[n].disk, key)
  {
    hide Accounted;
    UpTo(limits, states, movers, events, n);
    Ledger.RunIsSequential(limits, states[..n + 1], movers[..n], events[..n]);
    SequentialAccounts(limits, Ledger.Written(states[..n + 1], movers[..n], events[..n]), key);
  }

  lemma UpTo(limits: Limits, states: seq<Ledger.System>, movers: seq<nat>, events: seq<Ledger.Event>, n: nat)
    requires Ledger.Run(limits, states, movers, events) && n <= |events|
    ensures Ledger.Run(limits, states[..n + 1], movers[..n], events[..n])
  {
    hide Ledger.Step;
    forall i | 0 <= i < n
      ensures Ledger.Step(limits, states[..n + 1][i], movers[..n][i], events[..n][i], states[..n + 1][i + 1])
    {
      assert Ledger.Step(limits, states[i], movers[i], events[i], states[i + 1]);
    }
  }

  // ---------- what is refused ----------

  /** A charge fits exactly when writing it keeps the quota. */
  lemma FitsExactly(limits: Limits, index: Index, key: string, r: Record)
    requires Within(index, limits)
    ensures Fits(limits, index, key, r.byteLength, r.reserved) <==> Within(index[key := r], limits)
  {
    var next := index[key := r];
    if Within(next, limits) {
      SumOut(next.Keys, next, Charge, key);
      assert next.Keys - {key} == index.Keys - {key};
      SumSame(index.Keys - {key}, index, next, Charge);
      assert next[key] == r;
    } else if Fits(limits, index, key, r.byteLength, r.reserved) {
      SetKeepsQuota(limits, index, key, r);
    }
  }

  /** The session is known and belongs to the manager that asks. */
  predicate Owns(index: Index, key: string, me: nat) { key in index && index[key].owner == me }

  /** An operation may write an index for its session: the new charge keeps the quota. */
  ghost predicate Admits(limits: Limits, index: Index, op: Op) {
    match op
    case Create(key, me, actual) => Within(index[key := Record(me, true, actual, 0)], limits)
    case Reserve(key, me, _, actual, _) =>
      && Owns(index, key, me) && index[key].active
      && exists granted: nat :: IsGrant(limits, index, op, granted)
           && Within(index[key := index[key].(byteLength := actual, reserved := granted)], limits)
    case Extend(key, me, _, written, actual, rootActual) =>
      && Owns(index, key, me) && 0 <= written <= MAX_SAFE_INTEGER
      && exists reservation: nat :: IsExtension(op, reservation)
           && rootActual + reservation + Others(index, key, Reserved) <= limits.total
           && Within(index[key := index[key].(byteLength := actual, reserved := reservation)], limits)
    case Reconcile(key, actual, reservation) =>
      key in index ==> Within(index[key := index[key].(byteLength := actual, reserved := reservation)], limits)
    case Close(_, _) => true
    case Cleanup(_) => true
  }

  /** On an index within the limits an operation is refused exactly when what it has to write would not be. */
  lemma RefusedExactly(limits: Limits, index: Index, op: Op)
    requires Within(index, limits)
    ensures Apply(limits, index, op).Some? <==> Admits(limits, index, op)
  {
    hide Within, Fits, Others;
    match op {
      case Create(key, me, actual) => FitsExactly(limits, index, key, Record(me, true, actual, 0));
      case Reserve(key, me, _, actual, _) => if Owns(index, key, me) { ReserveExactly(limits, index, op); }
      case Extend(key, me, _, written, actual, _) => if Owns(index, key, me) { ExtendExactly(limits, index, op); }
      case Reconcile(key, actual, reservation) =>
        if key in index {
          FitsExactly(limits, index, key, index[key].(byteLength := actual, reserved := reservation));
        }
      case Close(_, _) =>
      case Cleanup(_) =>
    }
  }

  lemma ReserveExactly(limits: Limits, index: Index, op: Op)
    requires Within(index, limits) && op.Reserve? && Owns(index, op.key, op.me)
    ensures Apply(limits, index, op).Some? <==> Admits(limits, index, op)
  {
    var available := Available(limits, index, op);
    hide Within, Fits, Others;
    if available > 0 {
      var granted: nat := Least(RESERVATION_CHUNK, available);
      FitsExactly(limits, index, op.key, index[op.key].(byteLength := op.actual, reserved := granted));
      assert IsGrant(limits, index, op, granted);
    }
  }

  lemma ExtendExactly(limits: Limits, index: Index, op: Op)
    requires Within(index, limits) && op.Extend? && Owns(index, op.key, op.me)
    ensures Apply(limits, index, op).Some? <==> Admits(limits, index, op)
  {
    hide Within, Fits, Others;
    if 0 <= op.written <= MAX_SAFE_INTEGER {
      var reservation := Extension(op.baseline, op.written, op.actual);
      FitsExactly(limits, index, op.key, index[op.key].(byteLength := op.actual, reserved := reservation));
      OneExtension(op);
      hide Extension, IsExtension;
    }
  }

  lemma OneExtension(op: Op)
    requires op.Extend? && op.written >= 0
    ensures forall r :: IsExtension(op, r) <==> r == Extension(op.baseline, op.written, op.actual)
  {
    var chunks: nat := RoundedUp(op.written) / RESERVATION_CHUNK;
    assert RoundedUp(op.written) == chunks * RESERVATION_CHUNK;
    assert InChunks(chunks, op.written);
    forall other: nat | InChunks(other, op.written) ensures other == chunks {
    }
  }
}
