/**
  The edit model of core/src/lib/edit.cpp: the document is a vector of segments, each a window on
  the original file or on the payload of a change. Edits split, erase, insert and shift
  segments in place; the reference is the byte string the segments spell.
 */
module EditModel {
  import opened Common

  /**
    A model segment. `payload` is what `change_ptr` refers to: the whole file for a read segment,
    the bytes carried by a change otherwise.
   */
  datatype Segment = Segment(offset: int, length: int, changeOffset: int, payload: seq<byte>, fromFile: bool) {
    predicate Fits() {
      0 < length && 0 <= changeOffset && changeOffset + length <= |payload|
    }
  }

  function Window(s: Segment): (bytes: seq<byte>)
    ensures s.Fits() ==> |bytes| == s.length
  {
    if s.Fits() then s.payload[s.changeOffset..s.changeOffset + s.length] else []
  }

  type Segments = seq<Segment>

  /** The segments follow one another without a gap, the first one at `at`. */
  predicate Continuous(segments: Segments, at: int) {
    segments == [] ||
    (segments[0].offset == at && segments[0].Fits() && Continuous(segments[1..], at + segments[0].length))
  }

  function Size(segments: Segments): int {
    if segments == [] then 0 else segments[0].length + Size(segments[1..])
  }

  /** File segments are windows on one file. */
  ghost predicate SameFile(segments: Segments, file: seq<byte>) {
    forall i :: 0 <= i < |segments| && segments[i].fromFile ==> segments[i].payload == file
  }

  /** The bytes the segments spell. */
  function Contents(segments: Segments): seq<byte> {
    if segments == [] then [] else Window(segments[0]) + Contents(segments[1..])
  }

  lemma {:induction false} SizeAppend(a: Segments, b: Segments)
    ensures Size(a + b) == Size(a) + Size(b)
  {
    if a == [] {
      assert a + b == b;
    } else {
      SizeAppend(a[1..], b);
      assert (a + b)[1..] == a[1..] + b;
    }
  }

  lemma {:induction false} ContentsAppend(a: Segments, b: Segments)
    ensures Contents(a + b) == Contents(a) + Contents(b)
  {
    hide Window;
    if a == [] {
      assert a + b == b;
    } else {
      assert (a + b)[1..] == a[1..] + b && (a + b)[0] == a[0];
      assert Contents(a + b) == Window(a[0]) + Contents(a[1..] + b) && Contents(a) == Window(a[0]) + Contents(a[1..]);
      hide Contents;
      ContentsAppend(a[1..], b);
      Associates(Window(a[0]), Contents(a[1..]), Contents(b));
    }
  }

  lemma {:induction false} ContinuousAppend(a: Segments, b: Segments, at: int)
    ensures Continuous(a + b, at) <==> Continuous(a, at) && Continuous(b, at + Size(a))
  {
    if a == [] {
      assert a + b == b;
    } else {
      ContinuousAppend(a[1..], b, at + a[0].length);
      assert (a + b)[1..] == a[1..] + b;
    }
  }

  /** All three together, for segments known to be continuous. */
  lemma Joined(a: Segments, b: Segments, at: int)
    ensures Size(a + b) == Size(a) + Size(b) && Contents(a + b) == Contents(a) + Contents(b)
    ensures Continuous(a + b, at) <==> Continuous(a, at) && Continuous(b, at + Size(a))
  {
    SizeAppend(a, b);
    ContentsAppend(a, b);
    ContinuousAppend(a, b, at);
  }

  lemma {:induction false} SizeIsLength(segments: Segments, at: int)
    requires Continuous(segments, at)
    ensures |Contents(segments)| == Size(segments) >= |segments|
  {
    if segments != [] { SizeIsLength(segments[1..], at + segments[0].length); }
  }

  lemma One(s: Segment)
    ensures Size([s]) == s.length && Contents([s]) == Window(s)
    ensures s.Fits() ==> Continuous([s], s.offset)
  {
    assert [s][1..] == [];
  }

  // ---------- shifting ----------

  function Moved(s: Segment, delta: int): Segment { s.(offset := s.offset + delta) }

  function Shifted(segments: Segments, delta: int): Segments {
    if segments == [] then [] else [Moved(segments[0], delta)] + Shifted(segments[1..], delta)
  }

  lemma {:induction false} ShiftedMeaning(segments: Segments, at: int, delta: int)
    requires Continuous(segments, at)
    ensures Continuous(Shifted(segments, delta), at + delta) && Size(Shifted(segments, delta)) == Size(segments)
    ensures Contents(Shifted(segments, delta)) == Contents(segments)
  {
    if segments != [] {
      ShiftedMeaning(segments[1..], at + segments[0].length, delta);
      var r := Shifted(segments, delta);
      assert r[1..] == Shifted(segments[1..], delta);
      assert Window(r[0]) == Window(segments[0]);
    }
  }

  /** The closing loop of every update: the offsets after the edit move together. */
  method ShiftOffsets(segments: Segments, delta: int, ghost file: seq<byte>) returns (out: Segments)
    ensures out == Shifted(segments, delta)
    ensures SameFile(segments, file) ==> SameFile(out, file)
  {
    out := [];
    for i := 0 to |segments|
      invariant out + Shifted(segments[i..], delta) == Shifted(segments, delta)
      invariant SameFile(segments, file) ==> SameFile(out, file)
    {
      assert segments[i..][1..] == segments[i + 1..];
      out := out + [Moved(segments[i], delta)];
    }
  }

  // ---------- finding the place ----------

  /** A segment cut in two at `delta`. */
  function LeftHalf(s: Segment, delta: int): Segment { s.(length := delta) }
  function RightHalf(s: Segment, delta: int): Segment {
    s.(offset := s.offset + delta, changeOffset := s.changeOffset + delta, length := s.length - delta)
  }

  lemma HalvesMeaning(s: Segment, delta: int)
    requires s.Fits() && 0 < delta < s.length
    ensures var l, r := LeftHalf(s, delta), RightHalf(s, delta);
            && l.Fits() && r.Fits() && l.offset == s.offset && r.offset == s.offset + delta
            && Window(l) + Window(r) == Window(s)
  {
  }

  lemma Head(s: Segment, post: Segments, at: int)
    requires Continuous([s] + post, at)
    ensures s.offset == at && s.Fits() && Continuous(post, at + s.length)
  {
    assert ([s] + post)[0] == s && ([s] + post)[1..] == post;
  }

  /** Where segment `i` of a continuous vector lies. */
  lemma AtIndex(segments: Segments, i: nat)
    requires Continuous(segments, 0) && i < |segments|
    ensures var s := segments[i];
            && s.Fits() && s.offset == Size(segments[..i])
            && Size(segments[..i + 1]) == s.offset + s.length <= Size(segments)
            && Continuous(segments[..i], 0) && Continuous(segments[i + 1..], s.offset + s.length)
  {
    hide Contents, Size, Window, Continuous;
    var s, pre, post := segments[i], segments[..i], segments[i + 1..];
    One(s);
    assert segments == pre + ([s] + post);
    Joined(pre, [s] + post, 0);
    Head(s, post, Size(pre));
    SizeIsLength(post, s.offset + s.length);
    SizeAppend([s], post);
    assert segments[..i + 1] == pre + [s];
    SizeAppend(pre, [s]);
  }

  lemma CutMeaning(segments: Segments, i: nat, delta: int)
    requires Continuous(segments, 0) && i < |segments| && 0 < delta < segments[i].length
    ensures var out := segments[..i] + [LeftHalf(segments[i], delta), RightHalf(segments[i], delta)]
                       + segments[i + 1..];
            && Continuous(out, 0) && Contents(out) == Contents(segments)
            && Size(out[..i + 1]) == segments[i].offset + delta
  {
    hide Contents, Continuous, Size;
    var s, pre, post := segments[i], segments[..i], segments[i + 1..];
    var l, r := LeftHalf(s, delta), RightHalf(s, delta);
    AtIndex(segments, i);
    HalvesMeaning(s, delta);
    One(s);
    One(l);
    One(r);
    assert segments == pre + ([s] + post);
    Joined(pre, [s] + post, 0);
    Joined([s], post, s.offset);
    Joined([r], post, r.offset);
    Joined([l], [r] + post, s.offset);
    Joined(pre, [l] + ([r] + post), 0);
    assert pre + [l, r] + post == pre + ([l] + ([r] + post));
    assert Window(l) + (Window(r) + Contents(post)) == Window(s) + Contents(post);
    assert (pre + [l, r] + post)[..i + 1] == pre + [l];
    SizeAppend(pre, [l]);
  }

  /**
    Walks to the segment that holds `offset` and splits it there, so that an edit can happen
    between two segments; nothing is changed but the cutting. Fails past the end.
   */
  method SplitAt(segments: Segments, offset: int, ghost file: seq<byte>) returns (ok: bool, out: Segments, k: nat)
    requires Continuous(segments, 0) && 0 <= offset
    ensures ok <==> segments != [] && offset <= Size(segments)
    ensures ok ==> k <= |out| && Continuous(out, 0) && Size(out[..k]) == offset
    ensures ok ==> Contents(out) == Contents(segments)
    ensures SameFile(segments, file) ==> SameFile(out, file)
  {
    hide Contents, Continuous;
    var readOffset := 0;
    for i := 0 to |segments|
      invariant readOffset == Size(segments[..i]) && (if i == 0 then readOffset <= offset else readOffset < offset)
    {
      var s := segments[i];
      AtIndex(segments, i);
      assert readOffset == s.offset;  // the continuity check of the source never fires
      if offset <= s.offset + s.length {
        if offset == readOffset { return true, segments, i; }
        var delta := offset - s.offset;
        if delta == s.length { return true, segments, i + 1; }
        CutMeaning(segments, i, delta);
        return true, segments[..i] + [LeftHalf(s, delta), RightHalf(s, delta)] + segments[i + 1..], i + 1;
      }
      readOffset := readOffset + s.length;
    }
    assert segments[..|segments|] == segments;
    return false, [], 0;
  }

  // ---------- deleting, inserting ----------

  /**
    Deletes `length` bytes from the front of `segments`, which start at `at`: whole segments are
    erased, one may be trimmed, and the rest moves back. Past the end nothing is left to delete.
   */
  method DeleteFront(segments: Segments, at: int, length: int, ghost file: seq<byte>) returns (out: Segments)
    requires Continuous(segments, at) && length > 0
    ensures Continuous(out, at)
    ensures Contents(out) == Contents(segments)[Least(length, |Contents(segments)|)..]
    ensures SameFile(segments, file) ==> SameFile(out, file)
  {
    hide Contents, Continuous, Size;
    out := segments;
    var deleteLength := length;
    ghost var goal := Contents(segments);
    while deleteLength != 0 && out != []
      invariant 0 <= deleteLength <= length && length - deleteLength <= |goal|
      invariant Continuous(out, at + (length - deleteLength))
      invariant Contents(out) == goal[length - deleteLength..]
      invariant SameFile(segments, file) ==> SameFile(out, file)
      decreases |out|
    {
      var s := out[0];
      EraseFront(out, at + (length - deleteLength));
      if s.length <= deleteLength {
        deleteLength := deleteLength - s.length;
        out := out[1..];
      } else {
        assert out == [s] + out[1..];
        TrimFront(s, out[1..], at, length, deleteLength);
        var trimmed := Trimmed(s, length, deleteLength);
        var shifted := ShiftOffsets(out[1..], -length, file);
        return [trimmed] + shifted;
      }
    }
    if out == [] {
      Empty();
    } else {
      ShiftedMeaning(out, at + length, -length);
      out := ShiftOffsets(out, -length, file);
    }
    assert Continuous(out, at) by { NoSegments(at); }
  }

  lemma NoSegments(at: int)
    ensures Continuous([], at)
  {
  }

  lemma EraseFront(segments: Segments, at: int)
    requires Continuous(segments, at) && segments != []
    ensures var s, rest := segments[0], segments[1..];
            && s.Fits() && s.offset == at && Continuous(rest, at + s.length)
            && s.length <= |Contents(segments)| && Contents(segments)[s.length..] == Contents(rest)
  {
  }

  /** The segment in which the deletion ends. */
  function Trimmed(s: Segment, length: int, deleteLength: int): Segment {
    s.(length := s.length - deleteLength, offset := s.offset + (deleteLength - length),
       changeOffset := s.changeOffset + deleteLength)
  }

  lemma TrimFront(s: Segment, rest: Segments, at: int, length: int, deleteLength: int)
    requires s.Fits() && 0 < deleteLength < s.length && deleteLength <= length
    requires s.offset == at + (length - deleteLength) && Continuous(rest, s.offset + s.length)
    ensures var out := [Trimmed(s, length, deleteLength)] + Shifted(rest, -length);
            Continuous(out, at) && Contents(out) == Contents([s] + rest)[deleteLength..]
  {
    hide Contents, Continuous, Size;
    var t := Trimmed(s, length, deleteLength);
    One(t);
    One(s);
    ShiftedMeaning(rest, s.offset + s.length, -length);
    Joined([t], Shifted(rest, -length), at);
    Joined([s], rest, s.offset);
    assert Window(t) == Window(s)[deleteLength..];
  }

  /** `update_model_helper_in_place_` for a deletion. */
  method DeleteRange(segments: Segments, offset: int, length: int, ghost file: seq<byte>)
    returns (ok: bool, out: Segments)
    requires Continuous(segments, 0) && 0 <= offset && length > 0
    ensures ok <==> segments == [] || offset <= |Contents(segments)|
    ensures ok ==> Continuous(out, 0)
    ensures ok && segments != [] ==>
              Contents(out) == Contents(segments)[..offset]
                               + Contents(segments)[Least(offset + length, |Contents(segments)|)..]
    ensures segments == [] ==> out == []
    ensures SameFile(segments, file) ==> SameFile(out, file)
  {
    hide Contents, Continuous, Size;
    if segments == [] { return true, []; }
    SizeIsLength(segments, 0);
    var k;
    ok, out, k := SplitAt(segments, offset, file);
    if !ok { return; }
    ghost var pre, post := out[..k], out[k..];
    assert out == pre + post;
    Joined(pre, post, 0);
    SizeIsLength(pre, 0);
    SizeIsLength(post, offset);
    var tail := DeleteFront(out[k..], offset, length, file);
    Joined(pre, tail, 0);
    SpliceTail(Contents(pre), Contents(post), length);
    out := out[..k] + tail;
  }

  lemma SpliceTail(a: seq<byte>, b: seq<byte>, length: int)
    requires length > 0
    ensures (a + b)[..|a|] == a
    ensures (a + b)[Least(|a| + length, |a + b|)..] == b[Least(length, |b|)..]
  {
  }

  /** The new segment of an insertion. */
  function Inserted(offset: int, payload: seq<byte>): Segment { Segment(offset, |payload|, 0, payload, false) }

  /** `update_model_helper_in_place_` for an insertion, and `insert_payload_segment_`. */
  method InsertAt(segments: Segments, offset: int, payload: seq<byte>, ghost file: seq<byte>)
    returns (ok: bool, out: Segments)
    requires Continuous(segments, 0) && 0 <= offset && payload != []
    ensures ok <==> offset <= |Contents(segments)|
    ensures ok ==> Continuous(out, 0)
    ensures ok ==> Contents(out) == Contents(segments)[..offset] + payload + Contents(segments)[offset..]
    ensures SameFile(segments, file) ==> SameFile(out, file)
  {
    hide Contents, Continuous, Size;
    SizeIsLength(segments, 0);
    var s := Inserted(offset, payload);
    One(s);
    assert Window(s) == payload;
    if segments == [] {
      Empty();
      ok := offset == 0;
      return ok, [s];
    }
    var k;
    ok, out, k := SplitAt(segments, offset, file);
    if !ok { return; }
    ghost var pre, post := out[..k], out[k..];
    assert out == pre + post;
    Joined(pre, post, 0);
    SizeIsLength(pre, 0);
    var tail := ShiftOffsets(out[k..], |payload|, file);
    ShiftedMeaning(post, offset, |payload|);
    Joined([s], tail, offset);
    Joined(pre, [s] + tail, 0);
    assert Contents(pre) + (payload + Contents(post)) == Contents(pre) + payload + Contents(post);
    out := out[..k] + ([s] + tail);
  }

  lemma Empty()
    ensures Contents([]) == [] && Size([]) == 0 && Continuous([], 0)
  {
  }
}
