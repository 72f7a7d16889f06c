/**
  Reading a viewport's bytes out of the edit model (core/src/lib/impl_/internal_fun.cpp): a binary search
  for the first segment, then segment by segment, neighbouring file segments read in one go.
 */
module EditRead {
  import opened Common
  import opened EditModel

  lemma {:induction false} OffsetsIncrease(segments: Segments, i: nat, j: nat)
    requires Continuous(segments, 0) && i < j < |segments|
    ensures segments[i].offset + segments[i].length <= segments[j].offset
    decreases j - i
  {
    hide Continuous, Size, Contents;
    AtIndex(segments, i);
    AtIndex(segments, i + 1);
    if i + 1 < j {
      OffsetsIncrease(segments, i + 1, j);
    }
  }

  /** `std::upper_bound` on the offsets: the first segment that starts after `offset`. */
  method UpperBound(segments: Segments, offset: int) returns (k: nat)
    requires Continuous(segments, 0)
    ensures k <= |segments|
    ensures forall i :: 0 <= i < k ==> segments[i].offset <= offset
    ensures forall i :: k <= i < |segments| ==> segments[i].offset > offset
  {
    hide Continuous, Size, Contents;
    var lo, hi := 0, |segments|;
    while lo < hi
      invariant 0 <= lo <= hi <= |segments|
      invariant forall i :: 0 <= i < lo ==> segments[i].offset <= offset
      invariant forall i :: hi <= i < |segments| ==> segments[i].offset > offset
    {
      var mid := (lo + hi) / 2;
      forall i | 0 <= i < mid ensures segments[i].offset <= segments[mid].offset {
        OffsetsIncrease(segments, i, mid);
        AtIndex(segments, i);
      }
      forall i | mid < i < |segments| ensures segments[mid].offset <= segments[i].offset {
        OffsetsIncrease(segments, mid, i);
        AtIndex(segments, mid);
      }
      if segments[mid].offset <= offset { lo := mid + 1; } else { hi := mid; }
    }
    k := lo;
  }

  /** Any stretch of a segment is the same stretch of the document. */
  lemma Stretch(segments: Segments, i: nat, delta: int, amount: int)
    requires Continuous(segments, 0) && i < |segments|
    requires 0 <= delta && 0 <= amount && delta + amount <= segments[i].length
    ensures var s := segments[i];
            && s.Fits() && 0 <= s.offset + delta && s.offset + delta + amount <= |Contents(segments)|
            && Contents(segments)[s.offset + delta..s.offset + delta + amount]
               == s.payload[s.changeOffset + delta..s.changeOffset + delta + amount]
  {
    hide Continuous, Size, Contents;
    var s, pre, post := segments[i], segments[..i], segments[i + 1..];
    AtIndex(segments, i);
    SizeIsLength(pre, 0);
    SizeIsLength(segments, 0);
    One(s);
    ContentsAppend(pre, [s] + post);
    ContentsAppend([s], post);
    Around(segments, i);
    Windowed(Contents(pre), Window(s), Contents(post), delta, amount);
    SubWindow(s, delta, amount);
  }

  lemma Around(segments: Segments, i: nat)
    requires i < |segments|
    ensures segments == segments[..i] + ([segments[i]] + segments[i + 1..])
  {
  }

  lemma SubWindow(s: Segment, delta: int, amount: int)
    requires s.Fits() && 0 <= delta && 0 <= amount && delta + amount <= s.length
    ensures Window(s)[delta..delta + amount] == s.payload[s.changeOffset + delta..s.changeOffset + delta + amount]
  {
    var at := s.changeOffset;
    var part, direct := Window(s)[delta..delta + amount], s.payload[at + delta..at + delta + amount];
    assert Window(s) == s.payload[at..at + s.length];
    assert |part| == |direct|;
    assert forall k :: 0 <= k < amount ==>
             part[k] == s.payload[at + delta + k] && direct[k] == s.payload[at + delta + k];
  }

  lemma Windowed(a: seq<byte>, w: seq<byte>, b: seq<byte>, delta: int, amount: int)
    requires 0 <= delta && 0 <= amount && delta + amount <= |w|
    ensures |a| + delta + amount <= |a + (w + b)|
    ensures (a + (w + b))[|a| + delta..|a| + delta + amount] == w[delta..delta + amount]
  {
  }

  /**
    The coalescing loop: extends a read that ends exactly where segment `i` ends over the file
    segments that continue it, up to `limit` bytes. The result is one range of the file.
   */
  method Coalesce(segments: Segments, file: seq<byte>, i0: nat, position: int, fileOffset: int, amount: int, limit: int)
    returns (i: nat, coalesced: int)
    requires Continuous(segments, 0) && SameFile(segments, file) && i0 < |segments|
    requires 0 <= amount <= limit && 0 <= fileOffset && fileOffset + amount <= |file|
    requires 0 <= position && position + amount <= |Contents(segments)|
    requires Contents(segments)[position..position + amount] == file[fileOffset..fileOffset + amount]
    requires position + amount <= segments[i0].offset + segments[i0].length
    requires amount < limit ==> position + amount == segments[i0].offset + segments[i0].length
    ensures i0 <= i < |segments| && amount <= coalesced <= limit
    ensures fileOffset + coalesced <= |file| && position + coalesced <= |Contents(segments)|
    ensures Contents(segments)[position..position + coalesced] == file[fileOffset..fileOffset + coalesced]
    ensures coalesced < limit ==> position + coalesced == segments[i].offset + segments[i].length
  {
    hide Continuous, Size, Contents;
    i, coalesced := i0, amount;
    while coalesced < limit && i + 1 < |segments| && segments[i + 1].fromFile
          && segments[i + 1].changeOffset == fileOffset + coalesced
      invariant i0 <= i < |segments| && amount <= coalesced <= limit
      invariant fileOffset + coalesced <= |file| && position + coalesced <= |Contents(segments)|
      invariant Contents(segments)[position..position + coalesced] == file[fileOffset..fileOffset + coalesced]
      invariant coalesced < limit ==> position + coalesced == segments[i].offset + segments[i].length
      decreases |segments| - i
    {
      var next := segments[i + 1];
      AtIndex(segments, i + 1);
      var more := Least(limit - coalesced, next.length);
      OneMore(segments, file, i, position, fileOffset, coalesced, more);
      coalesced := coalesced + more;
      if more == next.length { i := i + 1; } else { break; }
    }
  }

  /** The next file segment, or the front of it, continues the stretch both in the document and in the file. */
  lemma OneMore(segments: Segments, file: seq<byte>, i: nat, position: int, fileOffset: int, coalesced: int, more: int)
    requires Continuous(segments, 0) && SameFile(segments, file) && i + 1 < |segments| && segments[i + 1].fromFile
    requires segments[i + 1].changeOffset == fileOffset + coalesced && 0 <= more <= segments[i + 1].length
    requires 0 <= coalesced && 0 <= fileOffset && fileOffset + coalesced <= |file|
    requires 0 <= position && position + coalesced <= |Contents(segments)|
    requires Contents(segments)[position..position + coalesced] == file[fileOffset..fileOffset + coalesced]
    requires position + coalesced == segments[i].offset + segments[i].length
    ensures position + coalesced == segments[i + 1].offset
    ensures fileOffset + coalesced + more <= |file| && position + coalesced + more <= |Contents(segments)|
    ensures Contents(segments)[position..position + coalesced + more] == file[fileOffset..fileOffset + coalesced + more]
  {
    hide Continuous, Size, Contents;
    AtIndex(segments, i);
    AtIndex(segments, i + 1);
    Stretch(segments, i + 1, 0, more);
    Adjoin(Contents(segments), position, position + coalesced, position + coalesced + more);
    Adjoin(file, fileOffset, fileOffset + coalesced, fileOffset + coalesced + more);
  }

  lemma Adjoin(s: seq<byte>, a: int, b: int, c: int)
    requires 0 <= a <= b <= c <= |s|
    ensures s[a..c] == s[a..b] + s[b..c]
  {
  }

  /**
    `populate_data_segment_`: the bytes of the document from `offset` on, as many as the capacity
    and the document allow.
   */
  method Populate(segments: Segments, file: seq<byte>, offset: int, capacity: nat) returns (r: Option<seq<byte>>)
    requires Continuous(segments, 0) && SameFile(segments, file)
    ensures segments == [] ==> r == Some([])
    ensures segments != [] ==> (r.Some? <==> 0 <= offset <= |Contents(segments)|)
    ensures segments != [] && r.Some? ==>
              r.value == Contents(segments)[offset..Least(offset + capacity, |Contents(segments)|)]
  {
    hide Continuous, Size, Contents, SameFile;
    if segments == [] { return Some([]); }
    if offset < 0 { return None; }
    var k := UpperBound(segments, offset);
    AtIndex(segments, 0);
    assert segments[..0] == [];
    Empty();
    var i := if k > 0 then k - 1 else 0;
    LastOrContaining(segments, i, offset);
    if offset < segments[i].offset || offset > segments[i].offset + segments[i].length { return None; }
    var data := ReadFrom(segments, file, i, offset, capacity);
    r := Some(data);
  }

  /** The segment found holds the offset, unless the offset is past the end. */
  lemma LastOrContaining(segments: Segments, i: nat, offset: int)
    requires Continuous(segments, 0) && i < |segments| && 0 <= offset
    requires segments[i].offset <= offset && (i + 1 < |segments| ==> offset < segments[i + 1].offset)
    ensures offset <= |Contents(segments)| <==> offset <= segments[i].offset + segments[i].length
  {
    hide Continuous, Size, Contents;
    AtIndex(segments, i);
    SizeIsLength(segments, 0);
    if i + 1 < |segments| {
      AtIndex(segments, i + 1);
    } else {
      assert segments[..i + 1] == segments;
    }
  }

  /** The copying loop, from a place inside (or at the end of) segment `i0`. */
  method ReadFrom(segments: Segments, file: seq<byte>, i0: nat, offset: int, capacity: nat) returns (data: seq<byte>)
    requires Continuous(segments, 0) && SameFile(segments, file) && i0 < |segments|
    requires segments[i0].offset <= offset <= segments[i0].offset + segments[i0].length
    requires 0 <= offset <= |Contents(segments)|
    ensures data == Contents(segments)[offset..Least(offset + capacity, |Contents(segments)|)]
  {
    hide Continuous, Size, Contents, SameFile;
    data := [];
    var i, delta := i0, offset - segments[i0].offset;
    ghost var all := Contents(segments);
    while true
      invariant i < |segments| && |data| <= capacity && offset + |data| <= |all|
      invariant 0 <= delta <= segments[i].length && offset + |data| == segments[i].offset + delta
      invariant data == all[offset..offset + |data|]
      decreases |segments| - i
    {
      var bytes;
      ghost var before := i;
      i, bytes := ReadSegment(segments, file, i, delta, capacity - |data|);
      Adjoin(all, offset, offset + |data|, offset + |data| + |bytes|);
      data := data + bytes;
      AtIndex(segments, i);
      if |data| >= capacity { break; }
      SizeIsLength(segments, 0);
      i := i + 1;
      if i == |segments| {
        assert segments[..i] == segments;
        break;
      }
      AtIndex(segments, i);
      delta := 0;
    }
  }

  /** One turn of the loop: the rest of segment `i0` and the file segments coalesced with it. */
  method ReadSegment(segments: Segments, file: seq<byte>, i0: nat, delta: int, limit: nat)
    returns (i: nat, bytes: seq<byte>)
    requires Continuous(segments, 0) && SameFile(segments, file) && i0 < |segments|
    requires 0 <= delta <= segments[i0].length
    ensures i0 <= i < |segments| && |bytes| <= limit
    ensures var p := segments[i0].offset + delta;
            && 0 <= p && p + |bytes| <= |Contents(segments)| && bytes == Contents(segments)[p..p + |bytes|]
            && (|bytes| < limit ==> p + |bytes| == segments[i].offset + segments[i].length)
  {
    hide Continuous, Size, Contents;
    var s := segments[i0];
    var amount := Least(s.length - delta, limit);
    Stretch(segments, i0, delta, amount);
    i := i0;
    if s.fromFile {
      var coalesced;
      i, coalesced := Coalesce(segments, file, i0, s.offset + delta, s.changeOffset + delta, amount, limit);
      bytes := file[s.changeOffset + delta..s.changeOffset + delta + coalesced];
    } else {
      bytes := s.payload[s.changeOffset + delta..s.changeOffset + delta + amount];
    }
  }
}
