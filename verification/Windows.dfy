/** How the knowledge store cuts a file: byte windows of at most `max` bytes, drawn back to
    a line end when one is near. */
module Windows {
  import opened Segments
  import opened Utf8

  const NEWLINE: Byte := 10

  /** How far back a line end is looked for. */
  const REACH: nat := 100

  // ----- The line boundary

  function SearchStart(near: nat): nat {
    if near < REACH then 0 else near - REACH
  }

  /** Just behind the last newline in `lo..i`, or `near`. */
  function BoundaryBelow(bytes: Bytes, lo: nat, i: nat, near: nat): nat
    requires lo <= i <= |bytes|
    decreases i - lo
  {
    if i == lo then near else if bytes[i - 1] == NEWLINE then i else BoundaryBelow(bytes, lo, i - 1, near)
  }

  function LineBoundary(bytes: Bytes, near: nat): nat
    requires near <= |bytes|
  {
    BoundaryBelow(bytes, SearchStart(near), near, near)
  }

  /** `find_line_boundary`. */
  method FindLineBoundary(bytes: Bytes, near: nat) returns (at: nat)
    requires near <= |bytes|
    ensures at == LineBoundary(bytes, near)
  {
    var searchStart := if near < REACH then 0 else near - REACH;
    var i := near;
    while i > searchStart
      invariant searchStart <= i <= near
      invariant BoundaryBelow(bytes, searchStart, i, near) == LineBoundary(bytes, near)
    {
      i := i - 1;
      if bytes[i] == NEWLINE {
        return i + 1;
      }
    }
    return near;
  }

  ghost predicate NoNewline(bytes: Bytes, lo: nat, hi: nat)
    requires hi <= |bytes|
  {
    forall k | lo <= k < hi :: bytes[k] != NEWLINE
  }

  /** The boundary is behind the last newline of the last hundred bytes, if there is one. */
  lemma {:induction false} BoundaryMeaning(bytes: Bytes, lo: nat, i: nat, near: nat)
    requires lo <= i <= near <= |bytes|
    ensures
      var at := BoundaryBelow(bytes, lo, i, near);
      || (at == near && NoNewline(bytes, lo, i))
      || (lo < at <= i && bytes[at - 1] == NEWLINE && NoNewline(bytes, at, i))
    decreases i - lo
  {
    if i > lo && bytes[i - 1] != NEWLINE {
      BoundaryMeaning(bytes, lo, i - 1, near);
    }
  }

  // ----- The windows

  /** Where the window that starts at `offset` ends. */
  function WindowEnd(bytes: Bytes, max: nat, offset: nat): nat
    requires offset <= |bytes|
  {
    if offset + max < |bytes| then LineBoundary(bytes, offset + max) else |bytes|
  }

  function Newlines(bytes: Bytes, lo: nat, hi: nat): (n: nat)
    requires lo <= hi <= |bytes|
  {
    if lo == hi then 0 else Newlines(bytes, lo, hi - 1) + if bytes[hi - 1] == NEWLINE then 1 else 0
  }

  datatype Chunk = Chunk(start: nat, end: nat, lineStart: nat, lineEnd: nat)

  /** Where the window behind the given ones starts, and on which line. */
  function Offset(chunks: seq<Chunk>): nat {
    if chunks == [] then 0 else chunks[|chunks| - 1].end
  }

  function NextLine(chunks: seq<Chunk>): nat {
    if chunks == [] then 1 else chunks[|chunks| - 1].lineEnd + 1
  }

  /** `c` is the window behind the given ones. */
  ghost predicate IsNext(bytes: Bytes, max: nat, before: seq<Chunk>, c: Chunk) {
    && c.start == Offset(before) < c.end <= |bytes|
    && c.end == WindowEnd(bytes, max, c.start)
    && c.lineStart == NextLine(before)
    && c.lineEnd == c.lineStart + Newlines(bytes, c.start, c.end)
  }

  /** The first windows of the file, in order. */
  ghost predicate AreWindows(bytes: Bytes, max: nat, chunks: seq<Chunk>)
    decreases |chunks|
  {
    chunks != [] ==>
      var before := chunks[..|chunks| - 1];
      AreWindows(bytes, max, before) && IsNext(bytes, max, before, chunks[|chunks| - 1])
  }

  /** All of them. */
  ghost predicate Cover(bytes: Bytes, max: nat, chunks: seq<Chunk>) {
    AreWindows(bytes, max, chunks) && Offset(chunks) == |bytes|
  }

  lemma {:induction false} WindowAt(bytes: Bytes, max: nat, chunks: seq<Chunk>, i: nat)
    requires AreWindows(bytes, max, chunks) && i < |chunks|
    ensures AreWindows(bytes, max, chunks[..i]) && IsNext(bytes, max, chunks[..i], chunks[i])
    decreases |chunks|
  {
    var before := chunks[..|chunks| - 1];
    if i < |before| {
      WindowAt(bytes, max, before, i);
      assert before[..i] == chunks[..i];
    }
  }

  /** From a hundred bytes on, a window ends behind its start, and reaches to within 99 bytes
      of the limit. */
  lemma WindowAdvances(bytes: Bytes, max: nat, offset: nat)
    requires max >= REACH && offset < |bytes|
    ensures
      var end := WindowEnd(bytes, max, offset);
      offset < end <= |bytes| && end <= offset + max && (end < |bytes| ==> end >= offset + max - 99)
  {
    if offset + max < |bytes| {
      BoundaryMeaning(bytes, SearchStart(offset + max), offset + max, offset + max);
    }
  }

  /** The line count is the number of newlines in the range. */
  lemma {:induction false} NewlinesAreCounted(bytes: Bytes, lo: nat, hi: nat)
    requires lo <= hi <= |bytes|
    ensures Newlines(bytes, lo, hi) == |set i | lo <= i < hi && bytes[i] == NEWLINE|
    decreases hi - lo
  {
    if lo < hi {
      NewlinesAreCounted(bytes, lo, hi - 1);
      var before, all := set i | lo <= i < hi - 1 && bytes[i] == NEWLINE, set i | lo <= i < hi && bytes[i] == NEWLINE;
      assert all == if bytes[hi - 1] == NEWLINE then before + {hi - 1} else before;
    }
  }

  method CountNewlines(bytes: Bytes, lo: nat, hi: nat) returns (n: nat)
    requires lo <= hi <= |bytes|
    ensures n == Newlines(bytes, lo, hi)
  {
    n := 0;
    for k := lo to hi
      invariant n == Newlines(bytes, lo, k)
    {
      if bytes[k] == NEWLINE {
        n := n + 1;
      }
    }
  }

  // ----- The loop

  /** Where the loop stands after `n` rounds. */
  ghost function OffsetAfter(bytes: Bytes, max: nat, n: nat): nat {
    if n == 0 then 0
    else
      var offset := OffsetAfter(bytes, max, n - 1);
      if offset < |bytes| then WindowEnd(bytes, max, offset) else offset
  }

  ghost predicate Advances(bytes: Bytes, max: nat, offset: nat) {
    offset < |bytes| ==> offset < WindowEnd(bytes, max, offset) <= |bytes|
  }

  /** No round of the loop stays where it is or goes back. A round that stays is repeated for
      ever. */
  ghost predicate Progresses(bytes: Bytes, max: nat) {
    forall n: nat :: Advances(bytes, max, OffsetAfter(bytes, max, n))
  }

  lemma OneMore(bytes: Bytes, max: nat, chunks: seq<Chunk>, c: Chunk)
    requires AreWindows(bytes, max, chunks) && IsNext(bytes, max, chunks, c)
    ensures AreWindows(bytes, max, chunks + [c])
    ensures Offset(chunks + [c]) == c.end && NextLine(chunks + [c]) == c.lineEnd + 1
  {
    assert (chunks + [c])[..|chunks|] == chunks;
  }

  /** The window loop of `index_file`. */
  method IndexFile(bytes: Bytes, maxChunkBytes: nat) returns (chunks: seq<Chunk>)
    requires Progresses(bytes, maxChunkBytes)
    ensures Cover(bytes, maxChunkBytes, chunks)
  {
    hide AreWindows, LineBoundary, Newlines;
    chunks := [];
    var offset, lineStart: nat := 0, 1;
    ghost var n := 0;
    assert AreWindows(bytes, maxChunkBytes, chunks) by {
      NoWindowsYet(bytes, maxChunkBytes);
    }
    while offset < |bytes|
      invariant AreWindows(bytes, maxChunkBytes, chunks)
      invariant offset == Offset(chunks) <= |bytes| && lineStart == NextLine(chunks)
      invariant offset == OffsetAfter(bytes, maxChunkBytes, n)
    {
      assert Advances(bytes, maxChunkBytes, OffsetAfter(bytes, maxChunkBytes, n));
      n := n + 1;
      var end := if offset + maxChunkBytes < |bytes| then offset + maxChunkBytes else |bytes|;
      var chunkEnd := |bytes|;
      if end < |bytes| {
        chunkEnd := FindLineBoundary(bytes, end);
      }
      var lineCount := CountNewlines(bytes, offset, chunkEnd);
      var lineEnd := lineStart + lineCount;
      var chunk := Chunk(offset, chunkEnd, lineStart, lineEnd);
      OneMore(bytes, maxChunkBytes, chunks, chunk);
      chunks := chunks + [chunk];
      offset := chunkEnd;
      lineStart := lineEnd + 1;
    }
  }

  lemma NoWindowsYet(bytes: Bytes, max: nat)
    ensures AreWindows(bytes, max, [])
  {
  }

  // ----- Tiling

  function TextOf(bytes: Bytes, c: Chunk): Bytes {
    if c.start <= c.end <= |bytes| then bytes[c.start..c.end] else []
  }

  function Texts(bytes: Bytes, chunks: seq<Chunk>): seq<Bytes> {
    if chunks == [] then [] else Texts(bytes, chunks[..|chunks| - 1]) + [TextOf(bytes, chunks[|chunks| - 1])]
  }

  /** The windows, end to end, are the file. */
  lemma {:induction false} WindowsTile(bytes: Bytes, max: nat, chunks: seq<Chunk>)
    requires AreWindows(bytes, max, chunks)
    ensures Offset(chunks) <= |bytes| && Flatten(Texts(bytes, chunks)) == bytes[..Offset(chunks)]
  {
    if chunks != [] {
      var before, last := chunks[..|chunks| - 1], chunks[|chunks| - 1];
      WindowsTile(bytes, max, before);
      FlattenAppend(Texts(bytes, before), TextOf(bytes, last));
      assert bytes[..last.start] + bytes[last.start..last.end] == bytes[..last.end];
    }
  }

  /** Each window has at most `max` bytes, and each that ends before the file does at least
      `max - 99`. */
  lemma WindowSizes(bytes: Bytes, max: nat, chunks: seq<Chunk>, i: nat)
    requires max >= REACH && Cover(bytes, max, chunks) && i < |chunks|
    ensures 0 < chunks[i].end - chunks[i].start <= max
    ensures i < |chunks| - 1 ==> chunks[i].end - chunks[i].start >= max - 99
  {
    WindowAt(bytes, max, chunks, i);
    WindowAdvances(bytes, max, chunks[i].start);
    if i < |chunks| - 1 {
      WindowAt(bytes, max, chunks, i + 1);
      assert chunks[..i + 1][i] == chunks[i];
    }
  }

  lemma {:induction false} OffsetBounds(bytes: Bytes, max: nat, chunks: seq<Chunk>, k: nat)
    requires max >= REACH && Cover(bytes, max, chunks) && k < |chunks|
    ensures k * (max - 99) <= chunks[k].start <= k * max
  {
    WindowAt(bytes, max, chunks, k);
    if k > 0 {
      OffsetBounds(bytes, max, chunks, k - 1);
      WindowSizes(bytes, max, chunks, k - 1);
      assert chunks[..k][k - 1] == chunks[k - 1];
      assert k * max == (k - 1) * max + max && k * (max - 99) == (k - 1) * (max - 99) + (max - 99);
    }
  }

  /** `count_file_chunks` on a file of that length. */
  function CountFileChunks(len: nat, max: nat): nat
    requires max > 0
  {
    if len == 0 then 1 else (len - 1) / max + 1
  }

  lemma MoreTimes(a: nat, b: nat, max: nat)
    requires a <= b
    ensures a * max <= b * max
  {
  }

  lemma CeilingOf(last: nat, max: nat, q: nat, r: nat, c: nat)
    requires last == q * max + r && r < max
    ensures q < c <==> last < c * max
  {
    if c <= q {
      MoreTimes(c, q, max);
    } else {
      MoreTimes(q + 1, c, max);
      assert (q + 1) * max == q * max + max;
    }
  }

  /** It is the least number of windows of `max` bytes that hold so many bytes; the empty file
      counts as one. */
  lemma CountIsLeast(len: nat, max: nat, c: nat)
    requires max > 0
    ensures CountFileChunks(0, max) == 1
    ensures len > 0 ==> (CountFileChunks(len, max) <= c <==> c * max >= len)
  {
    if len > 0 {
      CeilingOf(len - 1, max, (len - 1) / max, (len - 1) % max, c);
    }
  }

  /** The estimate is never more than the number of windows, except for the empty file, which
      has none; and all windows but one take at least `max - 99` bytes each. */
  lemma CountBounds(bytes: Bytes, max: nat, chunks: seq<Chunk>)
    requires max >= REACH && Cover(bytes, max, chunks)
    ensures CountFileChunks(|bytes|, max) <= |chunks| <==> bytes != []
    ensures bytes != [] ==> (|chunks| - 1) * (max - 99) < |bytes|
  {
    if bytes == [] {
      NoWindows(max, chunks);
    } else {
      var k := |chunks| - 1;
      OffsetBounds(bytes, max, chunks, k);
      WindowSizes(bytes, max, chunks, k);
      assert |bytes| <= k * max + max;
      CeilingBelow(|bytes|, max, k);
    }
  }

  lemma NoWindows(max: nat, chunks: seq<Chunk>)
    requires Cover([], max, chunks)
    ensures chunks == []
  {
  }

  lemma CeilingBelow(len: nat, max: nat, k: nat)
    requires 0 < len <= k * max + max && max > 0
    ensures (len - 1) / max <= k
  {
    DivideBelow(len - 1, max, k);
  }

  lemma DivideBelow(x: nat, d: nat, k: nat)
    requires d > 0 && x < k * d + d
    ensures x / d <= k
  {
    var q := x / d;
    assert q * d <= x;
    assert (q - k) * d == q * d - k * d;
    if q > k {
      ProductGrows(q - k, d);
    }
  }

  lemma ProductGrows(p: nat, d: nat)
    requires p >= 1
    ensures p * d >= d
  {
    assert p * d == (p - 1) * d + d;
  }

  // ----- Line numbers

  lemma {:induction false} NewlinesSplit(bytes: Bytes, lo: nat, mid: nat, hi: nat)
    requires lo <= mid <= hi <= |bytes|
    ensures Newlines(bytes, lo, hi) == Newlines(bytes, lo, mid) + Newlines(bytes, mid, hi)
    decreases hi - mid
  {
    if mid < hi {
      NewlinesSplit(bytes, lo, mid, hi - 1);
    }
  }

  /** The line a byte stands on. */
  function LineOf(bytes: Bytes, offset: nat): nat
    requires offset <= |bytes|
  {
    1 + Newlines(bytes, 0, offset)
  }

  /** The recorded first line of window `i` is `i` lines too far down: right for the first
      window only. */
  lemma {:induction false} RecordedLineDrifts(bytes: Bytes, max: nat, chunks: seq<Chunk>, i: nat)
    requires AreWindows(bytes, max, chunks) && i < |chunks|
    ensures chunks[i].start <= |bytes|
    ensures chunks[i].lineStart == LineOf(bytes, chunks[i].start) + i
  {
    WindowAt(bytes, max, chunks, i);
    if i > 0 {
      var c := chunks[i - 1];
      assert chunks[..i][i - 1] == c;
      RecordedLineDrifts(bytes, max, chunks, i - 1);
      WindowAt(bytes, max, chunks, i - 1);
      NewlinesSplit(bytes, 0, c.start, c.end);
    }
  }

  // ----- When the loop ends

  /** A file on which a smaller window stalls: its only newline ends the first window, and
      there is more than another window behind it. */
  function Stalling(max: nat): Bytes {
    seq(2 * max + 1, i => if i == max - 1 then NEWLINE else 97)
  }

  lemma StallsAt(max: nat, offset: nat)
    requires max < REACH && (offset == 0 || offset == max)
    ensures WindowEnd(Stalling(max), max, offset) == max
  {
    var bytes, near := Stalling(max), offset + max;
    BoundaryMeaning(bytes, SearchStart(near), near, near);
    var end := WindowEnd(bytes, max, offset);
    if max > 0 {
      assert bytes[max - 1] == NEWLINE;
    }
  }

  lemma {:induction false} NeverPastFirst(max: nat, n: nat)
    requires max < REACH
    ensures OffsetAfter(Stalling(max), max, n) in {0, max}
  {
    if n > 0 {
      NeverPastFirst(max, n - 1);
      StallsAt(max, OffsetAfter(Stalling(max), max, n - 1));
    }
  }

  /** The loop gets through every file if and only if windows have at least a hundred
      bytes. */
  lemma ProgressesOnAllFilesIff(max: nat)
    ensures (forall bytes :: Progresses(bytes, max)) <==> max >= REACH
  {
    if max >= REACH {
      forall bytes, offset: nat
        ensures Advances(bytes, max, offset)
      {
        if offset < |bytes| {
          WindowAdvances(bytes, max, offset);
        }
      }
    } else {
      NeverPastFirst(max, 1);
      StallsAt(max, OffsetAfter(Stalling(max), max, 1));
      assert !Advances(Stalling(max), max, OffsetAfter(Stalling(max), max, 1)) by {
        StallsAt(max, 0);
      }
      assert !Progresses(Stalling(max), max);
    }
  }

  /** There the offset never gets beyond the first window. */
  lemma StallsForEver(max: nat, n: nat)
    requires max < REACH
    ensures OffsetAfter(Stalling(max), max, n) < |Stalling(max)|
  {
    NeverPastFirst(max, n);
  }
}
