/**
  The checkpoint timeline manifest (vscode-extension/src/checkpointTimelineStorage.ts): its validator,
  and the candidate manifests the session operations build from the current one.
 */
module Manifest {
  import opened Common

  // ---------- fingerprints ----------

  /** A content fingerprint; `pluginId` may be left out, which stands for the default digest plugin. */
  datatype Fingerprint = Fingerprint(byteLength: int, pluginId: Option<string>, algorithm: string, value: string)

  const DEFAULT_DIGEST_PLUGIN: string := "omega.example.openssl_digests"
  const DIGEST_PLUGIN_ID_MAX_LENGTH: int := 4096
  const DIGEST_ALGORITHM_MAX_LENGTH: int := 128
  const DIGEST_VALUE_MAX_LENGTH: int := 4096

  predicate Lower(c: char) { 'a' <= c <= 'z' }

  predicate Digit(c: char) { '0' <= c <= '9' }

  predicate PluginChar(c: char) { Lower(c) || 'A' <= c <= 'Z' || Digit(c) || c == '.' || c == '_' || c == '-' }

  predicate AlgorithmChar(c: char) { Lower(c) || Digit(c) || c == '-' }

  predicate Hex(c: char) { Digit(c) || 'a' <= c <= 'f' }

  predicate Word(s: string, maxLength: int, ok: char -> bool) {
    0 < |s| <= maxLength && forall i :: 0 <= i < |s| ==> ok(s[i])
  }

  /** A canonical unsigned decimal within the signed 64-bit range. */
  predicate Decimal(n: int) { 0 <= n <= INT64_MAX }

  function PluginOf(f: Fingerprint): string {
    if f.pluginId.Some? then f.pluginId.value else DEFAULT_DIGEST_PLUGIN
  }

  /** The fingerprint with its plugin written out; none when its metadata is malformed. */
  function Normalize(f: Fingerprint): Option<Fingerprint> {
    if Decimal(f.byteLength)
       && Word(PluginOf(f), DIGEST_PLUGIN_ID_MAX_LENGTH, PluginChar)
       && Word(f.algorithm, DIGEST_ALGORITHM_MAX_LENGTH, AlgorithmChar)
       && Word(f.value, DIGEST_VALUE_MAX_LENGTH, Hex)
    then Some(f.(pluginId := Some(PluginOf(f))))
    else None
  }

  predicate Normal(f: Fingerprint) { Normalize(f) == Some(f) }

  predicate FingerprintsEqual(a: Fingerprint, b: Fingerprint) {
    a.byteLength == b.byteLength && PluginOf(a) == PluginOf(b) && a.algorithm == b.algorithm && a.value == b.value
  }

  /** Normalizing is idempotent, keeps equality, and makes equality plain. */
  lemma NormalForms(f: Fingerprint, g: Fingerprint)
    ensures Normalize(f).Some? ==> Normal(Normalize(f).value) && FingerprintsEqual(f, Normalize(f).value)
    ensures Normal(f) && Normal(g) ==> (FingerprintsEqual(f, g) <==> f == g)
  {
  }

  // ---------- plugin lists ----------

  /** The order of JavaScript's default sort: by code unit, prefixes first. */
  predicate Less(a: string, b: string) {
    if a == [] then b != []
    else b != [] && (a[0] < b[0] || (a[0] == b[0] && Less(a[1..], b[1..])))
  }

  lemma LessTotal(a: string, b: string)
    ensures a == b || Less(a, b) || Less(b, a)
    ensures !(Less(a, b) && Less(b, a)) && (Less(a, b) ==> a != b)
  {
    if a != [] && b != [] {
      LessTotal(a[1..], b[1..]);
      if a[0] == b[0] && a[1..] == b[1..] {
        assert a == [a[0]] + a[1..] && b == [b[0]] + b[1..];
      }
    }
  }

  /** Strictly increasing: sorted, without duplicates. */
  predicate Sorted(ids: seq<string>) {
    forall i :: 0 <= i < |ids| - 1 ==> Less(ids[i], ids[i + 1])
  }

  function InsertId(id: string, ids: seq<string>): seq<string> {
    if ids == [] || Less(id, ids[0]) then [id] + ids
    else if id == ids[0] then ids
    else [ids[0]] + InsertId(id, ids[1..])
  }

  /** Duplicates dropped and the rest sorted. */
  function SortedUnique(ids: seq<string>): seq<string> {
    if ids == [] then [] else InsertId(ids[0], SortedUnique(ids[1..]))
  }

  lemma {:induction false} InsertSorted(id: string, ids: seq<string>)
    requires Sorted(ids)
    ensures Sorted(InsertId(id, ids)) && InsertId(id, ids) != []
    ensures InsertId(id, ids)[0] == id || (ids != [] && InsertId(id, ids)[0] == ids[0])
    ensures forall x :: x in InsertId(id, ids) <==> x == id || x in ids
  {
    if ids != [] {
      LessTotal(id, ids[0]);
      assert ids == [ids[0]] + ids[1..];
      if !Less(id, ids[0]) && id != ids[0] {
        InsertSorted(id, ids[1..]);
        var rest := InsertId(id, ids[1..]);
        assert Less(ids[0], rest[0]);
        var out := [ids[0]] + rest;
        forall i | 0 <= i < |out| - 1 ensures Less(out[i], out[i + 1]) {
          if i > 0 { assert Less(rest[i - 1], rest[i]); }
        }
      }
    }
  }

  lemma {:induction false} SortedUniqueSorts(ids: seq<string>)
    ensures Sorted(SortedUnique(ids))
    ensures forall x :: x in SortedUnique(ids) <==> x in ids
  {
    if ids != [] {
      SortedUniqueSorts(ids[1..]);
      InsertSorted(ids[0], SortedUnique(ids[1..]));
      assert ids == [ids[0]] + ids[1..];
    }
  }

  /** A sorted list is already its own set, sorted. */
  lemma {:induction false} SortedIsUnique(ids: seq<string>)
    requires Sorted(ids)
    ensures SortedUnique(ids) == ids
  {
    if ids != [] {
      SortedIsUnique(ids[1..]);
      if |ids| > 1 { assert Less(ids[0], ids[1]); }
      assert ids == [ids[0]] + ids[1..];
    }
  }

  // ---------- archive file names ----------

  function Padded(k: nat, width: nat): (s: string)
    ensures |s| == width && forall i :: 0 <= i < width ==> Digit(s[i])
  {
    if width == 0 then "" else Padded(k / 10, width - 1) + ['0' + (k % 10) as char]
  }

  lemma {:induction false} PaddedInjective(a: nat, b: nat, width: nat)
    requires a < Pow(10, width) && b < Pow(10, width) && Padded(a, width) == Padded(b, width)
    ensures a == b
  {
    if width > 0 {
      var x, y := Padded(a / 10, width - 1), Padded(b / 10, width - 1);
      assert (x + ['0' + (a % 10) as char])[..width - 1] == x;
      assert (y + ['0' + (b % 10) as char])[..width - 1] == y;
      assert (x + ['0' + (a % 10) as char])[width - 1] == (y + ['0' + (b % 10) as char])[width - 1];
      PaddedInjective(a / 10, b / 10, width - 1);
    }
  }

  /** Eight digits and the extension; larger checkpoints than the limit allows are not named. */
  function FileName(checkpoint: nat): string {
    Padded(checkpoint, 8) + ".json"
  }

  predicate IsIntervalFile(s: string) {
    |s| == 13 && (forall i :: 0 <= i < 8 ==> Digit(s[i])) && s[8..] == ".json"
  }

  const MAX_CHECKPOINTS: int := 1_000_000

  lemma FileNameInjective(a: nat, b: nat)
    requires a <= MAX_CHECKPOINTS && b <= MAX_CHECKPOINTS && FileName(a) == FileName(b)
    ensures a == b
  {
    assert FileName(a)[..8] == Padded(a, 8) && FileName(b)[..8] == Padded(b, 8);
    EightDigits();
    PaddedInjective(a, b, 8);
  }

  lemma EightDigits()
    ensures Pow(10, 8) == 100_000_000
  {
    assert Pow(10, 2) == 100;
    assert Pow(10, 4) == 10000;
    assert Pow(10, 6) == 1000000;
  }

  lemma FileNameIsIntervalFile(k: nat)
    ensures IsIntervalFile(FileName(k))
  {
  }

  // ---------- the manifest ----------

  datatype BoundaryKind = Plain | Transform | Tip | OtherKind

  datatype State = Ready | Unavailable | OtherState

  datatype Archive = Archive(file: string, byteLength: int, sha256: string, emitted: int, optimized: bool)

  datatype Failure = Failure(code: string, message: string)

  datatype Entry = Entry(
    checkpoint: int, generation: int, before: Fingerprint, after: Fingerprint, sourceChangeCount: int,
    kind: BoundaryKind, plugins: seq<string>, state: State, archive: Option<Archive>, error: Option<Failure>)

  datatype Saved = Saved(fingerprint: Fingerprint, checkpoint: Option<int>, offBranch: bool)

  datatype Timeline = Timeline(
    original: Fingerprint, saved: Saved, cursor: int, tip: int, nextGeneration: int, intervals: seq<Entry>)

  predicate Sha256(s: string) { |s| == 64 && Word(s, 64, Hex) }

  predicate GoodArchive(a: Archive) {
    IsIntervalFile(a.file) && Decimal(a.byteLength) && Decimal(a.emitted) && Sha256(a.sha256)
  }

  /** One entry, checked at its place in the list and against the fingerprint before it. */
  function ParseEntry(e: Entry, index: nat, previous: Fingerprint): Option<Entry> {
    var before, after := Normalize(e.before), Normalize(e.after);
    if e.checkpoint == index + 1 && e.generation >= 1
       && before.Some? && after.Some? && e.kind != OtherKind
       && FingerprintsEqual(previous, before.value)
       && e.plugins == SortedUnique(e.plugins)
       && (match e.state
           case Ready => e.archive.Some? && e.error.None? && GoodArchive(e.archive.value)
           case Unavailable => e.error.Some? && e.archive.None?
           case OtherState => false)
       && Decimal(e.sourceChangeCount)
    then Some(e.(before := before.value, after := after.value))
    else None
  }

  function ParseEntries(entries: seq<Entry>, index: nat, previous: Fingerprint): Option<seq<Entry>>
    decreases |entries|
  {
    if entries == [] then Some([])
    else
      var first := ParseEntry(entries[0], index, previous);
      if first.None? then None
      else
        var rest := ParseEntries(entries[1..], index + 1, first.value.after);
        if rest.None? then None else Some([first.value] + rest.value)
  }

  /** The validator every manifest passes before it is written and after it is read. */
  function Parse(m: Timeline): Option<Timeline> {
    if !(0 <= m.cursor <= m.tip == |m.intervals| && m.nextGeneration >= 1) then None
    else
      var original, saved := Normalize(m.original), Normalize(m.saved.fingerprint);
      if original.None? || saved.None? then None
      else
        var entries := ParseEntries(m.intervals, 0, original.value);
        if entries.None? then None
        else Some(m.(original := original.value, saved := m.saved.(fingerprint := saved.value),
                     intervals := entries.value))
  }

  /** The fingerprint at boundary `k`: the original content, or the content after interval `k`. */
  function Boundary(m: Timeline, k: int): Fingerprint
    requires 0 <= k <= |m.intervals|
  {
    if k == 0 then m.original else m.intervals[k - 1].after
  }

  /** An entry that the validator returns as it is. */
  predicate GoodEntry(e: Entry, index: nat, previous: Fingerprint) {
    && e.checkpoint == index + 1 && e.generation >= 1
    && Normal(e.before) && Normal(e.after) && e.kind != OtherKind && previous == e.before
    && e.plugins == SortedUnique(e.plugins)
    && (e.state == Ready ==> e.archive.Some? && e.error.None? && GoodArchive(e.archive.value))
    && (e.state == Unavailable ==> e.error.Some? && e.archive.None?)
    && e.state != OtherState
    && Decimal(e.sourceChangeCount)
  }

  predicate Chain(entries: seq<Entry>, index: nat, previous: Fingerprint)
    decreases |entries|
  {
    entries == [] || (GoodEntry(entries[0], index, previous) && Chain(entries[1..], index + 1, entries[0].after))
  }

  /** Contiguous numbering and an unbroken chain of normalized fingerprints. */
  predicate WellFormed(m: Timeline) {
    && 0 <= m.cursor <= m.tip == |m.intervals| && m.nextGeneration >= 1
    && Normal(m.original) && Normal(m.saved.fingerprint)
    && Chain(m.intervals, 0, m.original)
  }

  lemma ParseGoodEntry(e: Entry, index: nat, previous: Fingerprint)
    requires Normal(previous)
    ensures GoodEntry(e, index, previous) <==> ParseEntry(e, index, previous) == Some(e)
  {
    hide SortedUnique, Normalize, GoodArchive;
    NormalForms(previous, e.before);
  }

  lemma {:induction false} ParseGoodEntries(entries: seq<Entry>, index: nat, previous: Fingerprint)
    requires Normal(previous)
    ensures ParseEntries(entries, index, previous) == Some(entries) <==> Chain(entries, index, previous)
    decreases |entries|
  {
    hide GoodEntry, ParseEntry, Normalize;
    if entries != [] {
      var e, rest := entries[0], entries[1..];
      ParseGoodEntry(e, index, previous);
      assert entries == [e] + rest;
      var parsed := ParseEntries(entries, index, previous);
      if parsed == Some(entries) {
        assert parsed.value[0] == e && parsed.value[1..] == rest;
      }
      if GoodEntry(e, index, previous) {
        AfterIsNormal(e, index, previous);
        ParseGoodEntries(rest, index + 1, e.after);
      }
    }
  }

  lemma AfterIsNormal(e: Entry, index: nat, previous: Fingerprint)
    requires GoodEntry(e, index, previous)
    ensures Normal(e.after)
  {
  }

  lemma {:induction false} ChainAppend(a: seq<Entry>, b: seq<Entry>, index: nat, previous: Fingerprint)
    ensures Chain(a + b, index, previous) <==>
            Chain(a, index, previous) && Chain(b, index + |a|, if a == [] then previous else a[|a| - 1].after)
    decreases |a|
  {
    hide GoodEntry;
    if a == [] {
      assert a + b == b;
    } else {
      assert (a + b)[1..] == a[1..] + b;
      ChainAppend(a[1..], b, index + 1, a[0].after);
    }
  }

  /** A list that parses past a good chain ends in an entry that parses after it. */
  lemma {:induction false} ParseLast(a: seq<Entry>, e: Entry, index: nat, previous: Fingerprint)
    requires Normal(previous) && Chain(a, index, previous) && ParseEntries(a + [e], index, previous).Some?
    ensures ParseEntry(e, index + |a|, if a == [] then previous else a[|a| - 1].after).Some?
    decreases |a|
  {
    hide GoodEntry, ParseEntry, Normalize;
    if a == [] {
      assert (a + [e])[0] == e;
    } else {
      assert (a + [e])[0] == a[0] && (a + [e])[1..] == a[1..] + [e];
      ParseGoodEntry(a[0], index, previous);
      AfterIsNormal(a[0], index, previous);
      ParseLast(a[1..], e, index + 1, a[0].after);
    }
  }

  /** Entry `i` is good at its own place. */
  lemma ChainAt(m: Timeline, i: nat)
    requires WellFormed(m) && i < |m.intervals|
    ensures GoodEntry(m.intervals[i], i, Boundary(m, i))
  {
    hide GoodEntry, Normalize;
    var a, b := m.intervals[..i], m.intervals[i..];
    assert m.intervals == a + b;
    ChainAppend(a, b, 0, m.original);
  }

  /** The validator returns a manifest unchanged exactly when it is well formed. */
  lemma ParsesToItself(m: Timeline)
    ensures WellFormed(m) <==> Parse(m) == Some(m)
  {
    hide GoodEntry, ParseEntries, Normalize;
    if Normal(m.original) {
      ParseGoodEntries(m.intervals, 0, m.original);
    }
  }
}
