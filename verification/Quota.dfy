/**
  The shared index of session charges (vscode-extension/src/checkpointTimelineStorage.ts:565-993, 1046-1064):
  what each operation makes of the index it reads under the lock, and the quota it keeps.
 */
module Quota {
  import opened Common

  /** A session's charge: the bytes it was last seen to own and the bytes it has reserved. */
  datatype Record = Record(owner: nat, active: bool, byteLength: nat, reserved: nat)

  type Index = map<string, Record>

  datatype Limits = Limits(perSession: int, total: int)

  const RESERVATION_CHUNK: int := 16 * 1024 * 1024
  const MAX_SAFE_INTEGER: int := 9007199254740991

  function Charge(r: Record): nat { r.byteLength + r.reserved }

  function Reserved(r: Record): nat { r.reserved }

  // ---------- sums over the index ----------

  ghost function Sum(keys: set<string>, index: Index, f: Record -> nat): nat
    requires keys <= index.Keys
  {
    if keys == {} then 0
    else
      var k :| k in keys;
      f(index[k]) + Sum(keys - {k}, index, f)
  }

  /** The sum does not depend on the order in which the keys are visited. */
  lemma {:induction false} SumOut(keys: set<string>, index: Index, f: Record -> nat, k: string)
    requires keys <= index.Keys && k in keys
    ensures Sum(keys, index, f) == f(index[k]) + Sum(keys - {k}, index, f)
  {
    var j :| j in keys && Sum(keys, index, f) == f(index[j]) + Sum(keys - {j}, index, f);
    if j != k {
      SumOut(keys - {j}, index, f, k);
      SumOut(keys - {k}, index, f, j);
      assert keys - {j} - {k} == keys - {k} - {j};
    }
  }

  /** Only the records of the keys summed over matter. */
  lemma {:induction false} SumSame(keys: set<string>, a: Index, b: Index, f: Record -> nat)
    requires keys <= a.Keys && keys <= b.Keys && forall k :: k in keys ==> a[k] == b[k]
    ensures Sum(keys, a, f) == Sum(keys, b, f)
  {
    if keys != {} {
      var k :| k in keys;
      SumOut(keys, a, f, k);
      SumOut(keys, b, f, k);
      SumSame(keys - {k}, a, b, f);
    }
  }

  lemma {:induction false} SumSubset(small: set<string>, keys: set<string>, index: Index, f: Record -> nat)
    requires small <= keys <= index.Keys
    ensures Sum(small, index, f) <= Sum(keys, index, f)
    decreases |keys|
  {
    if small != {} {
      var k :| k in small;
      SumOut(small, index, f, k);
      SumOut(keys, index, f, k);
      SumSubset(small - {k}, keys - {k}, index, f);
    }
  }

  ghost function Total(index: Index): nat { Sum(index.Keys, index, Charge) }

  ghost function Others(index: Index, key: string, f: Record -> nat): nat { Sum(index.Keys - {key}, index, f) }

  /** Every session within its limit, all of them together within the total. */
  ghost predicate Within(index: Index, limits: Limits) {
    (forall k :: k in index ==> Charge(index[k]) <= limits.perSession) && Total(index) <= limits.total
  }

  // ---------- the operations ----------

  /** What an operation finds on disk is part of it: the bytes owned by the session and by the whole history. */
  datatype Op =
    | Create(key: string, me: nat, actual: nat)
    | Reserve(key: string, me: nat, requested: int, actual: nat, rootActual: nat)
    | Extend(key: string, me: nat, baseline: nat, written: int, actual: nat, rootActual: nat)
    | Reconcile(key: string, actual: nat, reservation: nat)
    | Close(key: string, deleted: bool)
    | Cleanup(removed: set<string>)

  /** The charge fits: the session alone, and together with every other session of the index. */
  ghost predicate Fits(limits: Limits, index: Index, key: string, actual: nat, reservation: nat) {
    actual + reservation <= limits.perSession && Others(index, key, Charge) + actual + reservation <= limits.total
  }

  /** Bytes a capture may still write: what it asked for, within both limits. */
  ghost function Available(limits: Limits, index: Index, op: Op): int
    requires op.Reserve?
  {
    Least(Least(op.requested, limits.perSession - op.actual),
           limits.total - op.rootActual - Others(index, op.key, Reserved))
  }

  /** Written bytes, rounded up to whole reservation chunks. */
  function RoundedUp(written: nat): (r: nat)
    ensures written <= r < written + RESERVATION_CHUNK && r % RESERVATION_CHUNK == 0
  {
    (written + RESERVATION_CHUNK - 1) / RESERVATION_CHUNK * RESERVATION_CHUNK
  }

  /** What is still to be reserved once the bytes that already appeared on disk are counted. */
  function Extension(baseline: nat, written: nat, actual: nat): nat {
    var appeared := if actual > baseline then actual - baseline else 0;
    if RoundedUp(written) > appeared then RoundedUp(written) - appeared else 0
  }

  /** The index an operation writes; none when it throws. */
  ghost function Apply(limits: Limits, index: Index, op: Op): Option<Index> {
    match op
    case Create(key, me, actual) =>
      if Fits(limits, index, key, actual, 0) then Some(index[key := Record(me, true, actual, 0)]) else None
    case Reserve(key, me, _, actual, _) =>
      if key !in index || index[key].owner != me || !index[key].active then None
      else
        var available := Available(limits, index, op);
        if available <= 0 then None
        else
          var granted := Least(RESERVATION_CHUNK, available);
          if Fits(limits, index, key, actual, granted)
          then Some(index[key := index[key].(byteLength := actual, reserved := granted)]) else None
    case Extend(key, me, baseline, written, actual, rootActual) =>
      if !(0 <= written <= MAX_SAFE_INTEGER) || key !in index || index[key].owner != me then None
      else
        var reservation := Extension(baseline, written, actual);
        if rootActual + reservation + Others(index, key, Reserved) > limits.total then None
        else if Fits(limits, index, key, actual, reservation)
        then Some(index[key := index[key].(byteLength := actual, reserved := reservation)]) else None
    case Reconcile(key, actual, reservation) =>
      if key !in index then Some(index)
      else if Fits(limits, index, key, actual, reservation)
      then Some(index[key := index[key].(byteLength := actual, reserved := reservation)]) else None
    case Close(key, deleted) =>
      if key !in index then Some(index)
      else if deleted then Some(index - {key})
      else Some(index[key := index[key].(active := false, reserved := 0)])
    case Cleanup(removed) => Some(index - removed)
  }

  // ---------- every operation keeps the quota ----------

  lemma SetKeepsQuota(limits: Limits, index: Index, key: string, r: Record)
    requires Within(index, limits) && Fits(limits, index, key, r.byteLength, r.reserved)
    ensures Within(index[key := r], limits)
  {
    var out := index[key := r];
    SumOut(out.Keys, out, Charge, key);
    assert out.Keys - {key} == index.Keys - {key};
    SumSame(index.Keys - {key}, index, out, Charge);
  }

  lemma LowerKeepsQuota(limits: Limits, index: Index, key: string, r: Record)
    requires Within(index, limits) && key in index && Charge(r) <= Charge(index[key])
    ensures Within(index[key := r], limits)
  {
    var out := index[key := r];
    SumOut(out.Keys, out, Charge, key);
    SumOut(index.Keys, index, Charge, key);
    assert out.Keys == index.Keys;
    SumSame(index.Keys - {key}, index, out, Charge);
  }

  lemma RemoveKeepsQuota(limits: Limits, index: Index, removed: set<string>)
    requires Within(index, limits)
    ensures Within(index - removed, limits)
  {
    var out := index - removed;
    assert out.Keys == index.Keys - removed;
    SumSame(out.Keys, index, out, Charge);
    SumSubset(out.Keys, index.Keys, index, Charge);
  }

  /** Whatever an operation writes is within the limits, if what it read was. */
  lemma ApplyKeepsQuota(limits: Limits, index: Index, op: Op)
    requires Within(index, limits) && Apply(limits, index, op).Some?
    ensures Within(Apply(limits, index, op).value, limits)
  {
    hide Within, Fits, Available, Extension;
    match op {
      case Create(key, me, actual) => SetKeepsQuota(limits, index, key, Record(me, true, actual, 0));
      case Reserve(key, _, _, actual, _) =>
        SetKeepsQuota(limits, index, key, Apply(limits, index, op).value[key]);
      case Extend(key, _, baseline, written, actual, _) =>
        SetKeepsQuota(limits, index, key, Apply(limits, index, op).value[key]);
      case Reconcile(key, actual, reservation) =>
        if key in index { SetKeepsQuota(limits, index, key, Apply(limits, index, op).value[key]); }
      case Close(key, deleted) =>
        if key in index {
          RemoveKeepsQuota(limits, index, {key});
          LowerKeepsQuota(limits, index, key, index[key].(active := false, reserved := 0));
        }
      case Cleanup(removed) => RemoveKeepsQuota(limits, index, removed);
    }
  }

  /**
    After an extension the charge covers the baseline and every byte written, if and only if the session
    has not shrunk below its baseline by more than the rounding makes up for.
   */
  lemma ExtensionCovers(limits: Limits, index: Index, op: Op)
    requires op.Extend? && Apply(limits, index, op).Some?
    ensures var charge := Charge(Apply(limits, index, op).value[op.key]);
            charge >= op.baseline + op.written <==>
              op.actual >= op.baseline || op.actual + RoundedUp(op.written) >= op.baseline + op.written
  {
  }

  /** A session that shrank by a chunk while it wrote one: the charge is one chunk short. */
  lemma ExtensionFallsShort(limits: Limits, key: string)
    requires limits.perSession >= RESERVATION_CHUNK && limits.total >= RESERVATION_CHUNK
    ensures var before, after := Record(0, true, 0, 0), Record(0, true, 0, RESERVATION_CHUNK);
            var op := Extend(key, 0, RESERVATION_CHUNK, RESERVATION_CHUNK, 0, 0);
            && Within(map[key := before], limits) && Apply(limits, map[key := before], op) == Some(map[key := after])
            && Charge(after) < op.baseline + op.written
  {
    hide Apply, Total, Sum;
    OnlyOne(key, Record(0, true, 0, 0), Charge);
    ExtendOne(limits, key);
  }

  lemma ExtendOne(limits: Limits, key: string)
    requires limits.perSession >= RESERVATION_CHUNK && limits.total >= RESERVATION_CHUNK
    ensures Apply(limits, map[key := Record(0, true, 0, 0)], Extend(key, 0, RESERVATION_CHUNK, RESERVATION_CHUNK, 0, 0))
            == Some(map[key := Record(0, true, 0, RESERVATION_CHUNK)])
  {
    var index := map[key := Record(0, true, 0, 0)];
    OnlyOne(key, Record(0, true, 0, 0), Charge);
    OnlyOne(key, Record(0, true, 0, 0), Reserved);
    OneChunk();
    hide Sum, Others, Total, Extension, RoundedUp;
    assert Fits(limits, index, key, 0, RESERVATION_CHUNK);
    assert index[key := Record(0, true, 0, RESERVATION_CHUNK)] == map[key := Record(0, true, 0, RESERVATION_CHUNK)];
  }

  lemma OneChunk()
    ensures Extension(RESERVATION_CHUNK, RESERVATION_CHUNK, 0) == RESERVATION_CHUNK
  {
    assert RoundedUp(RESERVATION_CHUNK) == RESERVATION_CHUNK;
  }

  lemma OnlyOne(key: string, r: Record, f: Record -> nat)
    ensures Others(map[key := r], key, f) == 0 && Sum({key}, map[key := r], f) == f(r)
    ensures Total(map[key := r]) == Charge(r)
  {
    var index := map[key := r];
    SumOut({key}, index, f, key);
    SumOut({key}, index, Charge, key);
    assert index.Keys == {key} && {key} - {key} == {};
  }

  /** A grant never exceeds what the caller is told it may write, nor one chunk, and both limits leave room for it. */
  lemma GrantIsBounded(limits: Limits, index: Index, op: Op)
    requires op.Reserve? && Apply(limits, index, op).Some?
    ensures var granted := Apply(limits, index, op).value[op.key].reserved;
            && 0 < granted <= Available(limits, index, op) <= op.requested && granted <= RESERVATION_CHUNK
            && op.actual + Available(limits, index, op) <= limits.perSession
            && op.rootActual + Available(limits, index, op) + Others(index, op.key, Reserved) <= limits.total
  {
  }
}
