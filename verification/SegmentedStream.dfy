/** The segmented byte stream (src/IscDbc/Stream.cpp): a chain of segments that has to behave as one
    sequence of bytes, whatever the sizes of the segments. */
module SegmentedStream {

  // ---------------------------------------------------------------- the sequence behind the segments

  /** The chunks, one after the other. */
  ghost function Concat(chunks: seq<seq<char>>): seq<char> {
    if chunks == [] then [] else Concat(chunks[..|chunks| - 1]) + chunks[|chunks| - 1]
  }

  lemma ConcatAppend(chunks: seq<seq<char>>, chunk: seq<char>)
    ensures Concat(chunks + [chunk]) == Concat(chunks) + chunk
  {
    assert (chunks + [chunk])[..|chunks|] == chunks;
  }

  /** The last chunk grows. */
  lemma ConcatGrow(chunks: seq<seq<char>>, more: seq<char>)
    requires chunks != []
    ensures var last := |chunks| - 1;
            Concat(chunks[last := chunks[last] + more]) == Concat(chunks) + more
  {
    var last := |chunks| - 1;
    var grown := chunks[last := chunks[last] + more];
    assert grown[..last] == chunks[..last];
    assert Concat(grown) == Concat(chunks[..last]) + (chunks[last] + more);
  }

  lemma NextChunk(chunks: seq<seq<char>>, i: nat, start: seq<char>)
    requires i < |chunks|
    ensures start + Concat(chunks[..i + 1]) == start + Concat(chunks[..i]) + chunks[i]
  {
    assert chunks[..i + 1] == chunks[..i] + [chunks[i]];
    ConcatAppend(chunks[..i], chunks[i]);
    hide Concat;
  }

  ghost function Before(chunks: seq<seq<char>>, i: nat): nat
    requires i <= |chunks|
  {
    |Concat(chunks[..i])|
  }

  /** Chunk `i` stands at `Before(chunks, i)` in the whole. */
  lemma {:induction false} ChunkInPlace(chunks: seq<seq<char>>, i: nat)
    requires i < |chunks|
    ensures Before(chunks, i + 1) == Before(chunks, i) + |chunks[i]| <= |Concat(chunks)|
    ensures Concat(chunks)[Before(chunks, i)..Before(chunks, i + 1)] == chunks[i]
    decreases |chunks|
  {
    var last := |chunks| - 1;
    assert chunks[..i + 1][..i] == chunks[..i];
    if i < last {
      ChunkInPlace(chunks[..last], i);
      assert chunks[..last][..i] == chunks[..i] && chunks[..last][..i + 1] == chunks[..i + 1];
    } else {
      assert chunks[..i + 1] == chunks;
    }
  }

  lemma SliceOfSlice(s: seq<char>, a: nat, b: nat, from: nat, to: nat)
    requires a <= b <= |s| && from <= to <= b - a
    ensures s[a..b][from..to] == s[a + from..a + to]
  {
    var part := s[a..b];
    assert forall k :: 0 <= k < to - from ==> part[from..to][k] == part[from + k];
  }

  /** A part of a chunk is the part of the whole at the corresponding place. */
  lemma PartOfChunk(chunks: seq<seq<char>>, i: nat, from: nat, to: nat)
    requires i < |chunks| && from <= to <= |chunks[i]|
    ensures Before(chunks, i) + to <= |Concat(chunks)|
    ensures Concat(chunks)[Before(chunks, i) + from..Before(chunks, i) + to] == chunks[i][from..to]
  {
    ChunkInPlace(chunks, i);
    hide Concat, Before;
    SliceOfSlice(Concat(chunks), Before(chunks, i), Before(chunks, i + 1), from, to);
  }

  /** Where the chunk that holds the byte at `offset` ends. */
  ghost function EndOfChunk(chunks: seq<seq<char>>, offset: nat): (end: nat)
    requires offset < |Concat(chunks)|
    ensures offset < end <= |Concat(chunks)|
  {
    var rest := chunks[..|chunks| - 1];
    if offset >= |Concat(rest)| then |Concat(chunks)| else EndOfChunk(rest, offset)
  }

  lemma {:induction false} EndOfChunkIs(chunks: seq<seq<char>>, i: nat, offset: nat)
    requires i < |chunks| && Before(chunks, i) <= offset < Before(chunks, i + 1)
    ensures offset < |Concat(chunks)| && EndOfChunk(chunks, offset) == Before(chunks, i + 1)
    decreases |chunks|
  {
    var last := |chunks| - 1;
    ChunkInPlace(chunks, i);
    if i < last {
      assert chunks[..last][..i] == chunks[..i] && chunks[..last][..i + 1] == chunks[..i + 1];
      ChunkInPlace(chunks[..last], i);
      EndOfChunkIs(chunks[..last], i, offset);
    } else {
      assert chunks[..i + 1] == chunks;
    }
  }

  /** `bytes` are those of `whole` from `offset` on. */
  ghost predicate CopyOf(bytes: seq<char>, whole: seq<char>, offset: nat) {
    bytes == [] || (offset + |bytes| <= |whole| && bytes == whole[offset..offset + |bytes|])
  }

  lemma CopyMore(done: seq<char>, more: seq<char>, whole: seq<char>, offset: nat)
    requires CopyOf(done, whole, offset) && CopyOf(more, whole, offset + |done|)
    ensures CopyOf(done + more, whole, offset)
  {
  }

  lemma WholePart(done: seq<char>, part: seq<char>, whole: seq<char>)
    requires CopyOf(done, whole, 0) && |done| + |part| <= |whole| && part == whole[|done|..|done| + |part|]
    ensures CopyOf(done + part, whole, 0)
  {
  }

  lemma WholeCopy(done: seq<char>, whole: seq<char>)
    requires CopyOf(done, whole, 0) && |done| == |whole|
    ensures done == whole
  {
  }

  lemma CopyFits(bytes: seq<char>, whole: seq<char>, offset: nat)
    requires CopyOf(bytes, whole, offset)
    ensures bytes == [] || offset + |bytes| <= |whole|
  {
  }

  /** The state of the copy loop before chunk `i`: what is copied so far ends at the border before that
      chunk, unless the copying has not begun. */
  ghost predicate Walked(chunks: seq<seq<char>>, i: nat, before: nat, offset: nat, len: nat, copied: seq<char>) {
    && i <= |chunks| && before == Before(chunks, i) <= offset + |copied|
    && (copied != [] ==> offset + |copied| == before && |copied| < len)
    && CopyOf(copied, Concat(chunks), offset)
  }

  lemma NotBehind(chunks: seq<seq<char>>, i: nat, before: nat, offset: nat, len: nat, copied: seq<char>)
    requires Walked(chunks, i, before, offset, len, copied)
    ensures before <= offset + |copied|
  {
  }

  lemma StartWalk(chunks: seq<seq<char>>, offset: nat, len: nat)
    ensures Walked(chunks, 0, 0, offset, len, [])
  {
    assert chunks[..0] == [];
  }

  lemma SkipChunk(chunks: seq<seq<char>>, i: nat, before: nat, offset: nat, len: nat, copied: seq<char>)
    requires i < |chunks| && Walked(chunks, i, before, offset, len, copied)
    requires before + |chunks[i]| < offset + |copied|
    ensures Walked(chunks, i + 1, before + |chunks[i]|, offset, len, copied)
  {
    ChunkInPlace(chunks, i);
  }

  /** One round of the copy loop takes what chunk `i` has to give. */
  lemma CopySome(chunks: seq<seq<char>>, i: nat, before: nat, offset: nat, len: nat, copied: seq<char>, l: nat)
    requires i < |chunks| && Walked(chunks, i, before, offset, len, copied)
    requires before + |chunks[i]| >= offset + |copied| && |copied| <= len
    requires l == Min(len - |copied|, before + |chunks[i]| - offset - |copied|)
    ensures var off := offset + |copied| - before;
            var more := copied + chunks[i][off..off + l];
            && (|more| < len ==> Walked(chunks, i + 1, before + |chunks[i]|, offset, len, more))
            && (|more| == len ==>
               CopyOf(more, Concat(chunks), offset) && (more == [] || offset + len <= |Concat(chunks)|))
  {
    var off := offset + |copied| - before;
    ChunkInPlace(chunks, i);
    NextPart(copied, chunks, i, off, off + l, offset);
    hide Concat, Before;
    if |copied| + l == len {
      CopyFits(copied + chunks[i][off..off + l], Concat(chunks), offset);
    }
  }

  lemma EndWalk(chunks: seq<seq<char>>, before: nat, offset: nat, len: nat, copied: seq<char>)
    requires Walked(chunks, |chunks|, before, offset, len, copied)
    ensures var whole := Concat(chunks);
            && |copied| == (if offset <= |whole| then Min(len, |whole| - offset) else 0)
            && CopyOf(copied, whole, offset)
  {
    assert chunks[..|chunks|] == chunks;
  }

  lemma NextPart(done: seq<char>, chunks: seq<seq<char>>, i: nat, from: nat, to: nat, offset: nat)
    requires i < |chunks| && from <= to <= |chunks[i]| && Before(chunks, i) + from == offset + |done|
    requires CopyOf(done, Concat(chunks), offset)
    ensures CopyOf(done + chunks[i][from..to], Concat(chunks), offset)
  {
    PartOfChunk(chunks, i, from, to);
    hide Concat, Before;
    CopyMore(done, chunks[i][from..to], Concat(chunks), offset);
  }

  function Min(a: int, b: int): int { if a < b then a else b }
  lemma MinIs(a: int, b: int)
    ensures Min(a, b) == if a < b then a else b
  {
  }

  function Max(a: int, b: int): int { if a > b then a else b }

  // ---------------------------------------------------------------- segments

  class Segment {
    var length: nat
    var data: array<char>

    constructor (tail: nat)
      ensures length == 0 && data.Length == tail && fresh(data)
    {
      length := 0;
      data := new char[tail];
    }

    ghost predicate Holds(chunk: seq<char>)
      reads this, data
    {
      length <= data.Length && data[..length] == chunk
    }

    /** Copy `bytes` behind what is there. */
    method Write(bytes: seq<char>)
      requires length + |bytes| <= data.Length
      modifies this`length, data
      ensures length == old(length) + |bytes|
      ensures data[..length] == old(data[..length]) + bytes
    {
      forall k | 0 <= k < |bytes| {
        data[length + k] := bytes[k];
      }
      length := length + |bytes|;
    }

    lemma ReadsPart(chunk: seq<char>, off: nat, l: nat)
      requires Holds(chunk) && off + l <= |chunk|
      ensures data[off..off + l] == chunk[off..off + l]
    {
      SliceOfSlice(data[..], 0, length, off, off + l);
    }
  }

  class Stream {
    var segments: seq<Segment>
    var current: Segment?
    var totalLength: nat
    var currentLength: nat
    var minSegment: nat
    var copyFlag: bool
    ghost var chunks: seq<seq<char>>
    ghost var Repr: set<object>

    /** The segments hold the chunks, and `current` is the last of them. */
    ghost predicate Linked()
      reads this, Repr
    {
      && this in Repr
      && |chunks| == |segments|
      && (forall i :: 0 <= i < |segments| ==> segments[i] in Repr && segments[i].data in Repr)
      && (forall i :: 0 <= i < |segments| ==> segments[i].Holds(chunks[i]))
      && (forall i, j :: 0 <= i < j < |segments| ==> segments[i] != segments[j] && segments[i].data != segments[j].data)
      && current == (if segments == [] then null else segments[|segments| - 1])
      && (current != null && copyFlag ==> currentLength <= current.data.Length)
    }

    /** The current segment has the room the stream takes it to have. A first segment that is only referred to keeps the
        count of whatever came before, so that nothing may be written behind it. */
    ghost predicate Roomy()
      reads this, current
    {
      current != null ==> currentLength <= current.data.Length
    }

    ghost predicate Valid()
      reads this, Repr
      ensures Valid() ==> this in Repr
    {
      Linked() && totalLength == |Concat(chunks)|
    }

    lemma HasSegment(i: nat)
      requires Linked() && i < |segments|
      ensures i < |chunks| == |segments| && segments[i] in Repr && segments[i].data in Repr
      ensures segments[i].Holds(chunks[i]) && segments[i].length == |chunks[i]| <= segments[i].data.Length
      ensures segments[i].data[..segments[i].length] == chunks[i]
    {
    }

    /** What the stream holds. */
    ghost function Contents(): seq<char>
      reads this
    {
      Concat(chunks)
    }

    /** The constructor leaves the copy flag and the current length unset: they start with any value. */
    constructor (minSegmentSize: nat, unset: bool, unsetLength: nat)
      ensures Valid() && Roomy() && fresh(Repr) && Contents() == [] && minSegment == minSegmentSize
    {
      segments, current, totalLength, minSegment := [], null, 0, minSegmentSize;
      currentLength, copyFlag := unsetLength, unset;
      chunks, Repr := [], {this};
    }

    method AllocSegment(tail: nat)
      requires Linked()
      modifies this`segments, this`current, this`currentLength, this`chunks, this`Repr
      ensures Linked() && fresh(Repr - old(Repr)) && old(Repr) <= Repr
      ensures current != null && current.length == 0 && current.data.Length == tail == currentLength
      ensures fresh(current) && fresh(current.data)
      ensures chunks == old(chunks) + [[]]
    {
      var segment := new Segment(tail);
      segments := segments + [segment];
      current := segment;
      currentLength := tail;
      chunks := chunks + [[]];
      Repr := Repr + {segment, segment.data};
    }

    /** Fill up the current segment. */
    method Fill(bytes: seq<char>)
      requires Linked() && Roomy() && current != null && current.length + |bytes| <= currentLength
      modifies current`length, current.data, this`chunks
      ensures Linked() && current.length == old(current.length) + |bytes|
      ensures Concat(chunks) == Concat(old(chunks)) + bytes
    {
      hide Concat;
      ghost var last := |segments| - 1;
      ConcatGrow(chunks, bytes);
      ghost var grown := chunks[last := chunks[last] + bytes];
      assert current.data[..current.length] == chunks[last];
      current.Write(bytes);
      assert current.data[..current.length] == grown[last];
      chunks := grown;
    }

    /** Put the bytes into a segment of their own, at least as large as the minimum. */
    method FillNew(bytes: seq<char>, tail: nat)
      requires Linked() && |bytes| <= tail
      modifies Repr
      ensures Linked() && fresh(Repr - old(Repr)) && old(Repr) <= Repr
      ensures Concat(chunks) == Concat(old(chunks)) + bytes
      ensures current != null && Roomy() && totalLength == old(totalLength) && copyFlag == old(copyFlag)
      ensures minSegment == old(minSegment)
    {
      hide Concat;
      ConcatAppend(chunks, []);
      AllocSegment(tail);
      Fill(bytes);
    }

    /** The running total. */
    method Count(n: nat)
      requires Linked()
      modifies this`totalLength
      ensures Linked() && totalLength == old(totalLength) + n
    {
      totalLength := totalLength + n;
    }

    method PutCharacter(c: char)
      requires Valid() && Roomy()
      modifies Repr
      ensures Valid() && Roomy() && fresh(Repr - old(Repr)) && old(Repr) <= Repr
      ensures Contents() == old(Contents()) + [c]
    {
      ghost var before := Concat(chunks);
      var full := segments == [] || current.length >= currentLength;
      assert !full ==> current != null;
      hide Concat;
      if full {
        FillNew([c], Max(100, minSegment));
      } else {
        Fill([c]);
      }
      hide Linked;
      Count(1);
      assert |before + [c]| == |before| + 1;
    }

    /** Put `bytes`. In copy mode they fill up the current segment and spill over into a new one; otherwise
        a segment refers to them where they are. */
    method PutSegment(bytes: seq<char>, copy: bool)
      requires Valid()
      modifies Repr
      ensures Valid() && fresh(Repr - old(Repr)) && old(Repr) <= Repr
      ensures copy || old(segments) != [] ==> Roomy()
      ensures Contents() == old(Contents()) + bytes
    {
      ghost var before := Concat(chunks);
      hide Concat;
      Count(|bytes|);
      if segments == [] {
        copyFlag := copy;
        if copy {
          FillNew(bytes, Max(|bytes|, minSegment));
        } else {
          BorrowFirst(bytes);
        }
      } else if copyFlag {
        Spill(bytes);
      } else {
        Borrow(bytes);
      }
      hide Linked;
      assert |before + bytes| == |before| + |bytes|;
    }

    /** A segment for memory of somebody else: nothing may be added to it. */
    method Borrow(bytes: seq<char>)
      requires Linked()
      modifies Repr
      ensures Linked() && fresh(Repr - old(Repr)) && old(Repr) <= Repr
      ensures Concat(chunks) == Concat(old(chunks)) + bytes
      ensures Roomy() && totalLength == old(totalLength)
    {
      hide Concat;
      FillNew(bytes, |bytes|);
      currentLength := 0;
    }

    /** The first segment refers to memory of somebody else; the current length is left as it was. */
    method BorrowFirst(bytes: seq<char>)
      requires Linked() && !copyFlag
      modifies Repr
      ensures Linked() && fresh(Repr - old(Repr)) && old(Repr) <= Repr
      ensures Concat(chunks) == Concat(old(chunks)) + bytes
      ensures totalLength == old(totalLength) && currentLength == old(currentLength)
    {
      hide Concat;
      var was := currentLength;
      FillNew(bytes, |bytes|);
      currentLength := was;
    }

    /** Fill up the current segment first, then open another one for what is left. */
    method Spill(bytes: seq<char>)
      requires Linked() && Roomy() && segments != []
      modifies Repr
      ensures Linked() && Roomy() && fresh(Repr - old(Repr)) && old(Repr) <= Repr
      ensures Concat(chunks) == Concat(old(chunks)) + bytes
      ensures totalLength == old(totalLength)
    {
      var length, address := |bytes|, 0;
      var l := currentLength - current.length;
      if l > 0 {
        var l2 := Min(l, length);
        Fill(bytes[..l2]);
        length, address := length - l2, l2;
      }
      if length > 0 {
        FillNew(bytes[address..], Max(length, minSegment));
      }
      assert bytes[..address] + bytes[address..] == bytes;
    }

    /** Wide characters are put by their low byte; this overload always copies. */
    method PutWide(chars: seq<int>)
      requires Valid() && Roomy()
      requires forall k :: 0 <= k < |chars| ==> 0 <= chars[k] < 0x1_0000
      modifies Repr
      ensures Valid() && Roomy() && fresh(Repr - old(Repr)) && old(Repr) <= Repr
      ensures Contents() == old(Contents()) + LowBytes(chars)
    {
      totalLength := totalLength + |chars|;
      var bytes := LowBytes(chars);
      if segments == [] {
        FillNew(bytes, Max(|bytes|, minSegment));
      } else {
        Spill(bytes);
      }
    }

    static function LowBytes(chars: seq<int>): (r: seq<char>)
      requires forall k :: 0 <= k < |chars| ==> 0 <= chars[k] < 0x1_0000
      ensures |r| == |chars|
      ensures forall k :: 0 <= k < |r| ==> r[k] < 256 as char && chars[k] == 256 * (chars[k] / 256) + r[k] as int
    {
      seq(|chars|, k requires 0 <= k < |chars| => (chars[k] % 256) as char)
    }

    /** An empty string puts nothing, not even a segment. */
    method PutString(s: seq<char>)
      requires Valid()
      modifies Repr
      ensures Valid() && fresh(Repr - old(Repr)) && old(Repr) <= Repr
      ensures old(Roomy()) || s != [] ==> Roomy()
      ensures Contents() == old(Contents()) + s
    {
      if |s| > 0 {
        PutSegment(s, true);
      }
    }

    /** Put all another stream holds. */
    method PutStream(stream: Stream)
      requires Valid() && stream.Valid() && Repr !! stream.Repr
      modifies Repr
      ensures Valid() && fresh(Repr - old(Repr)) && old(Repr) <= Repr
      ensures old(Roomy()) ==> Roomy()
      ensures Contents() == old(Contents()) + stream.Contents()
    {
      ghost var all, start := stream.chunks, Contents();
      var chain := stream.segments;
      assert |all| == |chain| && all[..0] == [] && Concat([]) == [] && all[..|chain|] == all;
      assert start + [] == start;
      hide *;
      for i := 0 to |chain|
        invariant Valid() && fresh(Repr - old(Repr)) && old(Repr) <= Repr
        invariant stream.Linked() && Repr !! stream.Repr && stream.chunks == all && stream.segments == chain
        invariant old(Roomy()) ==> Roomy()
        invariant Contents() == start + Concat(all[..i])
      {
        stream.HasSegment(i);
        PutNext(chain[i], all[i]);
        NextChunk(all, i, start);
      }
    }

    /** Put what one segment of another stream holds. */
    method PutNext(segment: Segment, ghost chunk: seq<char>)
      requires Valid() && segment !in Repr && segment.data !in Repr
      requires segment.length <= segment.data.Length && segment.data[..segment.length] == chunk
      modifies Repr
      ensures Valid() && fresh(Repr - old(Repr)) && old(Repr) <= Repr
      ensures Roomy() && Contents() == old(Contents()) + chunk
    {
      PutSegment(segment.data[..segment.length], true);
    }

    /** Reserve a segment of `length` bytes for the caller to write; until then it holds anything. */
    method Alloc(length: nat) returns (segment: Segment)
      requires Valid()
      modifies Repr
      ensures Valid() && fresh(Repr - old(Repr)) && old(Repr) <= Repr
      ensures Roomy() && fresh(segment.data) && segment == current && segment.length == length
      ensures |segment.data[..]| == length && Contents() == old(Contents()) + segment.data[..]
    {
      hide Concat;
      ConcatAppend(chunks, []);
      AllocSegment(length);
      TakeAll();
      segment := current;
      hide Linked;
      Count(length);
    }

    /** Count the whole of the fresh current segment as used. */
    method TakeAll()
      requires Linked() && current != null && current.length == 0
      modifies current`length, this`chunks
      ensures Linked() && current.length == current.data.Length
      ensures Concat(chunks) == Concat(old(chunks)) + current.data[..]
    {
      ghost var last := |segments| - 1;
      ghost var bytes := current.data[..];
      ConcatGrow(chunks, bytes);
      hide Concat;
      assert chunks[last] == [];
      current.length := current.data.Length;
      chunks := chunks[last := chunks[last] + bytes];
      assert current.data[..current.length] == bytes;
    }

    method Clear()
      requires Valid()
      modifies this
      ensures Valid() && Roomy() && Repr == old(Repr) && Contents() == []
    {
      segments, current, totalLength := [], null, 0;
      chunks := [];
    }

    /** Copy up to `len` bytes from `offset` on: exactly that part of the contents, clipped to the end. */
    method GetSegment(offset: nat, len: nat) returns (copied: seq<char>)
      requires Valid()
      ensures |copied| == if offset <= |Contents()| then Min(len, |Contents()| - offset) else 0
      ensures CopyOf(copied, Contents(), offset)
    {
      hide *;
      var before: nat := 0;
      copied := [];
      IsLinked();
      StartWalk(chunks, offset, len);
      for i := 0 to |segments|
        invariant Walked(chunks, i, before, offset, len, copied) && |copied| <= len
      {
        var segment := segments[i];
        HasSegment(i);
        NotBehind(chunks, i, before, offset, len, copied);
        if before + segment.length >= offset + |copied| {
          var off := offset + |copied| - before;
          var l := Min(len - |copied|, segment.length - off);
          MinIs(len - |copied|, segment.length - off);
          CopySome(chunks, i, before, offset, len, copied, l);
          segment.ReadsPart(chunks[i], off, l);
          copied := copied + segment.data[off..off + l];
          if |copied| == len {
            MinIs(len, |Contents()| - offset);
            return;
          }
        } else {
          SkipChunk(chunks, i, before, offset, len, copied);
        }
        before := before + segment.length;
      }
      EndWalk(chunks, before, offset, len, copied);
    }

    lemma IsLinked()
      requires Valid()
      ensures Linked() && |chunks| == |segments| && Contents() == Concat(chunks)
    {
    }

    /** How many bytes lie from `offset` to the end of its segment; zero behind the last one. */
    method GetSegmentLength(offset: nat) returns (n: nat)
      requires Valid()
      ensures n == if offset < |Contents()| then EndOfChunk(chunks, offset) - offset else 0
    {
      var before := 0;
      assert chunks[..0] == [] && chunks[..|segments|] == chunks;
      for i := 0 to |segments|
        invariant before == Before(chunks, i) <= offset
      {
        assert segments[i].Holds(chunks[i]);
        ChunkInPlace(chunks, i);
        if before <= offset < before + segments[i].length {
          EndOfChunkIs(chunks, i, offset);
          return before + segments[i].length - offset;
        }
        before := before + segments[i].length;
      }
      n := 0;
    }

    /** Where the byte at `offset` is kept. */
    method GetSegmentAt(offset: nat) returns (segment: Segment?, at: nat)
      requires Valid()
      ensures segment == null <==> offset >= |Contents()|
      ensures segment != null ==>
                var n := EndOfChunk(chunks, offset) - offset;
                && segment in Repr && segment.data in Repr
                && at + n == segment.length <= segment.data.Length && offset + n <= |Contents()|
                && segment.data[at..at + n] == Contents()[offset..offset + n]
    {
      var before := 0;
      assert chunks[..0] == [] && chunks[..|segments|] == chunks;
      for i := 0 to |segments|
        invariant before == Before(chunks, i) <= offset
      {
        segment := segments[i];
        assert segment.Holds(chunks[i]);
        ChunkInPlace(chunks, i);
        if before <= offset < before + segment.length {
          at := offset - before;
          EndOfChunkIs(chunks, i, offset);
          PartOfChunk(chunks, i, at, segment.length);
          assert segment.data[at..segment.length] == chunks[i][at..segment.length];
          return;
        }
        before := before + segment.length;
      }
      segment, at := null, 0;
    }

    /** The loop by which the stream is written out, segment by segment. */
    method WriteOut() returns (out: seq<char>)
      requires Valid()
      ensures out == Contents()
    {
      out := [];
      var offset: nat := 0;
      var len := GetSegmentLength(offset);
      ghost var whole := Contents();
      assert CopyOf(out, whole, 0);
      hide *;
      while len > 0
        invariant offset == |out| <= |whole| && CopyOf(out, whole, 0)
        invariant len == if offset < |whole| then EndOfChunk(chunks, offset) - offset else 0
        decreases |whole| - offset
      {
        var segment, at := GetSegmentAt(offset);
        var part := segment.data[at..at + len];
        WholePart(out, part, whole);
        out := out + part;
        offset := offset + len;
        len := GetSegmentLength(offset);
      }
      WholeCopy(out, whole);
    }
  }
}
