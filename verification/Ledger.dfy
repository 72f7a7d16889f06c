/**
  The index file and its lock (vscode-extension/src/checkpointTimelineStorage.ts:743-993): the operations
  as they run inside `withIndexLock`, and any number of managers taking turns through the lock file.
 */
module Ledger {
  import opened Common
  import opened Quota

  // ---------- the operations as they run ----------

  /** Sums one figure over every session but one. */
  method TotalOthers(index: Index, key: string, f: Record -> nat) returns (n: nat)
    ensures n == Others(index, key, f)
  {
    n := 0;
    var rest := index.Keys - {key};
    while rest != {}
      invariant rest <= index.Keys - {key}
      invariant n + Sum(rest, index, f) == Others(index, key, f)
      decreases |rest|
    {
      var k :| k in rest;
      SumOut(rest, index, f, k);
      n := n + f(index[k]);
      rest := rest - {k};
    }
  }

  method AssertQuota(limits: Limits, index: Index, key: string, actual: nat, reservation: nat) returns (ok: bool)
    ensures ok <==> Fits(limits, index, key, actual, reservation)
  {
    var all := TotalOthers(index, key, Charge);
    ok := !(actual + reservation > limits.perSession || all + actual + reservation > limits.total);
  }

  method Reserve(limits: Limits, index: Index, op: Op) returns (r: Option<Index>, available: int)
    requires op.Reserve?
    ensures r == Apply(limits, index, op)
    ensures r.Some? ==> available == Available(limits, index, op)
  {
    available := 0;
    hide Others, Fits;
    if op.key !in index || index[op.key].owner != op.me || !index[op.key].active { return None, 0; }
    var others := TotalOthers(index, op.key, Reserved);
    var session, total := limits.perSession - op.actual, limits.total - op.rootActual - others;
    available := op.requested;
    if session < available { available := session; }
    if total < available { available := total; }
    if available <= 0 { return None, available; }
    var granted: nat := if available < RESERVATION_CHUNK then available else RESERVATION_CHUNK;
    var ok := AssertQuota(limits, index, op.key, op.actual, granted);
    if !ok { return None, available; }
    r := Some(index[op.key := index[op.key].(byteLength := op.actual, reserved := granted)]);
  }

  method Extend(limits: Limits, index: Index, op: Op) returns (r: Option<Index>)
    requires op.Extend?
    ensures r == Apply(limits, index, op)
  {
    hide Others, Fits;
    if op.written < 0 || op.written > MAX_SAFE_INTEGER { return None; }
    if op.key !in index || index[op.key].owner != op.me { return None; }
    var appeared := if op.actual > op.baseline then op.actual - op.baseline else 0;
    var rounded := RoundedUp(op.written);
    var reservation: nat := if rounded > appeared then rounded - appeared else 0;
    var others := TotalOthers(index, op.key, Reserved);
    if op.rootActual + reservation + others > limits.total { return None; }
    var ok := AssertQuota(limits, index, op.key, op.actual, reservation);
    if !ok { return None; }
    r := Some(index[op.key := index[op.key].(byteLength := op.actual, reserved := reservation)]);
  }

  method Operate(limits: Limits, index: Index, op: Op) returns (r: Option<Index>)
    ensures r == Apply(limits, index, op)
  {
    hide Others, Fits, Available;
    match op {
      case Create(key, me, actual) =>
        var ok := AssertQuota(limits, index, key, actual, 0);
        r := if ok then Some(index[key := Record(me, true, actual, 0)]) else None;
      case Reserve(_, _, _, _, _) =>
        var available;
        r, available := Reserve(limits, index, op);
      case Extend(_, _, _, _, _, _) =>
        r := Extend(limits, index, op);
      case Reconcile(key, actual, reservation) =>
        if key !in index { return Some(index); }
        var ok := AssertQuota(limits, index, key, actual, reservation);
        r := if ok then Some(index[key := index[key].(byteLength := actual, reserved := reservation)]) else None;
      case Close(key, deleted) =>
        if key !in index { return Some(index); }
        r := if deleted then Some(index - {key}) else Some(index[key := index[key].(active := false, reserved := 0)]);
      case Cleanup(removed) =>
        r := Some(index - removed);
    }
  }

  /** Where a locked operation can fail: after taking the lock, writing the index, giving the lock back. */
  datatype Faults = Faults(acquired: bool, operation: bool, write: bool, release: bool)

  class Store {
    const limits: Limits
    var index: Index
    var lock: Option<nat>

    constructor (limits: Limits)
      ensures this.limits == limits && index == map[] && lock == None
    {
      this.limits, index, lock := limits, map[], None;
    }

    /**
      Runs one operation under the lock. An error is reported when the operation failed, and also when the
      lock could not be given back, although the index has been written by then.
     */
    method WithIndexLock(op: Op, token: nat, faults: Faults) returns (ok: bool)
      modifies this
      ensures old(lock).Some? ==> !ok && index == old(index) && lock == old(lock)
      ensures old(lock) == None ==> lock == if faults.release then Some(token) else None
      ensures ok <==> old(lock) == None && Apply(limits, old(index), op).Some?
                      && faults == Faults(false, false, false, false)
      ensures index == old(index) || Apply(limits, old(index), op) == Some(index)
      ensures ok ==> Apply(limits, old(index), op) == Some(index)
      ensures Within(old(index), limits) ==> Within(index, limits)
      ensures (!ok && index != old(index)) <==>
              && old(lock) == None && faults == Faults(false, false, false, true)
              && Apply(limits, old(index), op).Some? && Apply(limits, old(index), op).value != old(index)
    {
      hide Apply, Within;
      if lock.Some? { return false; }
      lock := Some(token);
      ok := !faults.acquired;
      if ok {
        var next := Operate(limits, index, op);
        ok := next.Some? && !faults.operation && !faults.write;
        if ok {
          if Within(index, limits) { ApplyKeepsQuota(limits, index, op); }
          index := next.value;
        }
      }
      if faults.release { return false; }
      lock := None;
    }
  }

  /** A new session is written to the index, and its creation reported as failed, when the lock cannot be given back. */
  method WrittenYetReportedFailed(limits: Limits) returns (ok: bool, index: Index)
    requires limits.perSession >= 0 && limits.total >= 0
    ensures !ok && index == map["session" := Record(0, true, 0, 0)]
  {
    var store := new Store(limits);
    var empty: Index := map[];
    assert empty.Keys - {"session"} == {};
    ok := store.WithIndexLock(Create("session", 0, 0), 0, Faults(false, false, false, true));
    index := store.index;
  }

  // ---------- any number of managers ----------

  /** Where a manager stands between taking the lock and giving it back. */
  datatype Phase =
    | Idle
    | Holding
    | Loaded(read: Index)
    | Ready(op: Op, next: Index)
    | Leaving

  datatype System = System(disk: Index, lock: Option<nat>, phases: map<nat, Phase>)

  function PhaseOf(s: System, m: nat): Phase { if m in s.phases then s.phases[m] else Idle }

  function Move(s: System, m: nat, p: Phase): System { s.(phases := s.phases[m := p]) }

  /** One move of one manager. A manager that dies simply never moves again. */
  datatype Event = Acquire | Busy | Read | Compute(wanted: Op) | Throw | Write | Release | ReleaseFails

  ghost predicate Step(limits: Limits, s: System, m: nat, e: Event, s': System) {
    var p := PhaseOf(s, m);
    match e
    case Acquire => p == Idle && s.lock == None && s' == Move(s, m, Holding).(lock := Some(m))
    case Busy => p == Idle && s.lock.Some? && s' == s
    case Read => p == Holding && s' == Move(s, m, Loaded(s.disk))
    case Compute(op) =>
      && p.Loaded?
      && s' == Move(s, m, if Apply(limits, p.read, op).Some? then Phase.Ready(op, Apply(limits, p.read, op).value)
                         else Leaving)
    case Throw => p != Idle && p != Leaving && s' == Move(s, m, Leaving)
    case Write => p.Ready? && s' == Move(s, m, Leaving).(disk := p.next)
    case Release => p == Leaving && s' == Move(s, m, Idle).(lock := if s.lock == Some(m) then None else s.lock)
    case ReleaseFails => p == Leaving && s' == Move(s, m, Idle)
  }

  /** Only the lock holder is inside; what it read or computed is still current; the disk is within the limits. */
  ghost predicate Inv(limits: Limits, s: System) {
    && Within(s.disk, limits)
    && forall m :: m in s.phases && s.phases[m] != Idle ==>
         && s.lock == Some(m)
         && (s.phases[m].Loaded? ==> s.phases[m].read == s.disk)
         && (s.phases[m].Ready? ==> Apply(limits, s.disk, s.phases[m].op) == Some(s.phases[m].next))
  }

  lemma StepKeepsInv(limits: Limits, s: System, m: nat, e: Event, s': System)
    requires Inv(limits, s) && Step(limits, s, m, e, s')
    ensures Inv(limits, s')
  {
    hide Apply, Within;
    if e == Write {
      var p := PhaseOf(s, m);
      assert m in s.phases && s.phases[m] == p;
      ApplyKeepsQuota(limits, s.disk, p.op);
    }
  }

  /** Mutual exclusion: two managers inside are one. */
  lemma MutualExclusion(limits: Limits, s: System, a: nat, b: nat)
    requires Inv(limits, s) && PhaseOf(s, a) != Idle && PhaseOf(s, b) != Idle
    ensures a == b
  {
    assert s.lock == Some(a) && s.lock == Some(b);
  }

  ghost predicate Run(limits: Limits, states: seq<System>, movers: seq<nat>, events: seq<Event>) {
    && |states| == |movers| + 1 == |events| + 1
    && states[0] == System(map[], None, map[])
    && forall i :: 0 <= i < |events| ==> Step(limits, states[i], movers[i], events[i], states[i + 1])
  }

  /** In every state of every interleaving the index is within the limits. */
  lemma {:induction false} RunKeepsQuota(limits: Limits, states: seq<System>, movers: seq<nat>,
        events: seq<Event>, n: nat)
    requires Run(limits, states, movers, events) && n <= |events|
    requires limits.total >= 0
    ensures Inv(limits, states[n])
  {
    hide Step;
    if n == 0 {
      assert Total(map[]) == 0;
    } else {
      RunKeepsQuota(limits, states, movers, events, n - 1);
      assert Step(limits, states[n - 1], movers[n - 1], events[n - 1], states[n]);
      hide Inv, Run;
      StepKeepsInv(limits, states[n - 1], movers[n - 1], events[n - 1], states[n]);
    }
  }

  /** The operations written to disk, in the order of their writes. */
  function Written(states: seq<System>, movers: seq<nat>, events: seq<Event>): seq<Op>
    requires |states| == |movers| + 1 == |events| + 1
  {
    if events == [] then []
    else
      var n := |events| - 1;
      var before := Written(states[..n + 1], movers[..n], events[..n]);
      var p := PhaseOf(states[n], movers[n]);
      if events[n] == Write && p.Ready? then before + [p.op] else before
  }

  /** One manager alone running the operations one after another. */
  ghost function Sequential(limits: Limits, ops: seq<Op>): Option<Index> {
    if ops == [] then Some(map[])
    else
      var before := Sequential(limits, ops[..|ops| - 1]);
      if before.None? then None else Apply(limits, before.value, ops[|ops| - 1])
  }

  /** Every interleaving leaves the index that its written operations would leave one at a time: no update is lost. */
  lemma {:induction false} RunIsSequential(limits: Limits, states: seq<System>, movers: seq<nat>, events: seq<Event>)
    requires Run(limits, states, movers, events) && limits.total >= 0
    ensures Sequential(limits, Written(states, movers, events)) == Some(states[|events|].disk)
    decreases |events|
  {
    hide Apply, Inv, Step, Run;
    RunPrefix(limits, states, movers, events);
    if events != [] {
      var n := |events| - 1;
      RunIsSequential(limits, states[..n + 1], movers[..n], events[..n]);
      RunKeepsQuota(limits, states, movers, events, n);
      DiskMoves(limits, states[n], movers[n], events[n], states[n + 1]);
      if events[n] == Write {
        SequentialOne(limits, Written(states[..n + 1], movers[..n], events[..n]), PhaseOf(states[n], movers[n]).op);
      }
    }
  }

  /** The disk changes only by a write, and then to what the written operation makes of it. */
  lemma DiskMoves(limits: Limits, s: System, m: nat, e: Event, s': System)
    requires Inv(limits, s) && Step(limits, s, m, e, s')
    ensures var p := PhaseOf(s, m);
            if e == Write then p.Ready? && Apply(limits, s.disk, p.op) == Some(s'.disk) else s'.disk == s.disk
  {
    hide Apply;
  }

  lemma SequentialOne(limits: Limits, ops: seq<Op>, op: Op)
    requires Sequential(limits, ops).Some?
    ensures Sequential(limits, ops + [op]) == Apply(limits, Sequential(limits, ops).value, op)
  {
    hide Apply;
    assert (ops + [op])[..|ops|] == ops;
  }

  lemma RunPrefix(limits: Limits, states: seq<System>, movers: seq<nat>, events: seq<Event>)
    requires Run(limits, states, movers, events)
    ensures |states| == |movers| + 1 == |events| + 1
    ensures events == [] ==> states[0].disk == map[]
    ensures events != [] ==>
              var n := |events| - 1;
              && Run(limits, states[..n + 1], movers[..n], events[..n])
              && Step(limits, states[n], movers[n], events[n], states[n + 1])
  {
    hide Step;
    if events != [] {
      var n := |events| - 1;
      assert Step(limits, states[n], movers[n], events[n], states[n + 1]);
      forall i | 0 <= i < n
        ensures Step(limits, states[..n + 1][i], movers[..n][i], events[..n][i], states[..n + 1][i + 1])
      {
        assert Step(limits, states[i], movers[i], events[i], states[i + 1]);
      }
    }
  }
}
