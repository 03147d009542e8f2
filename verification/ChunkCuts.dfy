/** Where the recursive chunker cuts, and why. */
module ChunkCuts {
  import opened Chunker
  import opened Utf8

  // ----- Separators, without the split

  /** `end` is right behind the first occurrence of the separator from `from` on. */
  ghost predicate NextEnd(text: Bytes, from: nat, hi: nat, sep: Bytes, end: nat) {
    && from + |sep| <= end <= hi
    && OccursAt(text, sep, end - |sep|)
    && forall j | from <= j < end - |sep| :: !OccursAt(text, sep, j)
  }

  function StartOf(lo: nat, ends: seq<nat>, i: nat): nat
    requires i <= |ends|
  {
    if i == 0 then lo else ends[i - 1]
  }

  /** The ends of the occurrences in `lo..hi`, first to last, none overlapping the one before. */
  ghost predicate FirstToLast(text: Bytes, lo: nat, hi: nat, sep: Bytes, ends: seq<nat>)
    decreases |ends|
  {
    ends != [] ==> NextEnd(text, lo, hi, sep, ends[0]) && FirstToLast(text, ends[0], hi, sep, ends[1..])
  }

  /** The part in front of `ends[i]`, or what is left behind the last separator. */
  ghost predicate IsPart(text: Bytes, lo: nat, hi: nat, sep: Bytes, ends: seq<nat>, i: nat, end: nat)
    requires i <= |ends|
  {
    if i < |ends| then end == ends[i]
    else end == hi && forall j | StartOf(lo, ends, i) <= j && j + |sep| <= hi :: !OccursAt(text, sep, j)
  }

  lemma NextEndIsFirst(text: Bytes, from: nat, hi: nat, sep: Bytes, end: nat)
    requires hi <= |text| && sep != [] && NextEnd(text, from, hi, sep, end)
    ensures FirstOccurrence(text, from, hi, sep) == end - |sep|
  {
    if end - |sep| < FirstOccurrence(text, from, hi, sep) {
      FirstOccurrenceIsFirst(text, from, hi, sep, end - |sep|);
    }
  }

  lemma {:induction false} PartIsPiece(text: Bytes, lo: nat, hi: nat, sep: Bytes, ends: seq<nat>, i: nat, end: nat)
    requires lo <= hi <= |text| && sep != [] && FirstToLast(text, lo, hi, sep, ends)
    requires i <= |ends| && IsPart(text, lo, hi, sep, ends, i, end)
    ensures
      var pieces := SplitOn(text, lo, hi, sep);
      && i < |pieces| && pieces[i].lo == StartOf(lo, ends, i) <= end <= hi
      && end == pieces[i].hi + (if i < |pieces| - 1 then |sep| else 0)
      && (i < |ends| ==> pieces[i].lo < end)
    decreases i
  {
    hide OccursAt;
    var k := FirstOccurrence(text, lo, hi, sep);
    if ends != [] {
      NextEndIsFirst(text, lo, hi, sep, ends[0]);
      if i > 0 {
        assert StartOf(ends[0], ends[1..], i - 1) == StartOf(lo, ends, i);
        PartIsPiece(text, ends[0], hi, sep, ends[1..], i - 1, end);
      }
    }
  }

  // ----- Each part is chunked on its own

  ghost predicate StandAt(all: seq<Chunk>, m: nat, part: seq<Chunk>) {
    m + |part| <= |all| && all[m..m + |part|] == part
  }

  /** The chunks of one piece stand together among the chunks of all. */
  lemma {:induction false} PieceIsChunkedAlone(cfg: Config, text: Bytes, pieces: seq<Piece>, level: nat, i: nat,
                                               j: nat, lo: nat, hi: nat, at: nat) returns (m: nat)
    requires level < |cfg.separators| && Chain(text, pieces, |cfg.separators[level]|, i, lo, hi)
    requires i <= j < |pieces|
    ensures lo <= pieces[j].lo <= EndOf(cfg, pieces, level, j) <= |text|
    ensures
      var part := ChunksOf(cfg, text, pieces[j].lo, EndOf(cfg, pieces, level, j), level + 1, at + (pieces[j].lo - lo));
      StandAt(ChunksOfPieces(cfg, text, pieces, level, i, at), m, part)
    decreases j - i
  {
    hide ChunksOf, EndOf;
    NextPiece(cfg, text, pieces, level, i, lo, hi);
    var end := EndOf(cfg, pieces, level, i);
    var first := ChunksOf(cfg, text, lo, end, level + 1, at);
    var rest := ChunksOfPieces(cfg, text, pieces, level, i + 1, at + (end - lo));
    if i == j {
      m := 0;
      assert (first + rest)[..|first|] == first;
    } else {
      var m' := PieceIsChunkedAlone(cfg, text, pieces, level, i + 1, j, end, hi, at + (end - lo));
      m := |first| + m';
      var n := |ChunksOf(cfg, text, pieces[j].lo, EndOf(cfg, pieces, level, j), level + 1, at + (pieces[j].lo - lo))|;
      assert (first + rest)[m..m + n] == rest[m'..m' + n];
    }
  }

  ghost predicate OverLimit(cfg: Config, text: Bytes, lo: nat, hi: nat) {
    lo <= hi <= |text| && cfg.tokens(text[lo..hi]) > cfg.maxTokens
  }

  /** A range over the limit is cut at the separator in use, and the chunks of each part are
      what the part has when it is chunked on its own with the separators that remain. */
  lemma PartsAreChunkedAlone(cfg: Config, text: Bytes, lo: nat, hi: nat, level: nat, at: nat, ends: seq<nat>,
                             i: nat, end: nat) returns (m: nat)
    requires ValidConfig(cfg) && Valid(text) && StringRange(text, lo, hi) && OverLimit(cfg, text, lo, hi)
    requires level < |cfg.separators| && cfg.separators[level] != []
    requires FirstToLast(text, lo, hi, cfg.separators[level], ends)
    requires i <= |ends| && IsPart(text, lo, hi, cfg.separators[level], ends, i, end)
    ensures
      var from := StartOf(lo, ends, i);
      && lo <= from <= end <= |text| && StringRange(text, from, end) && (i < |ends| ==> from < end)
      && StandAt(ChunksOf(cfg, text, lo, hi, level, at), m,
                 ChunksOf(cfg, text, from, end, level + 1, at + (from - lo)))
  {
    hide FirstToLast, IsPart, Chain, Valid, OccursAt, ChunksOfPieces;
    var sep := cfg.separators[level];
    PartIsPiece(text, lo, hi, sep, ends, i, end);
    SplitChains(text, lo, hi, sep);
    m := PieceIsChunkedAlone(cfg, text, SplitOn(text, lo, hi, sep), level, 0, i, lo, hi, at);
    PieceIsAString(cfg, text, SplitOn(text, lo, hi, sep), level, 0, i, lo, hi);
  }

  lemma {:induction false} ChainGrows(text: Bytes, pieces: seq<Piece>, gap: nat, i: nat, lo: nat, hi: nat)
    requires Chain(text, pieces, gap, i, lo, hi)
    ensures lo <= hi
    decreases |pieces| - i
  {
    if i < |pieces| - 1 {
      ChainGrows(text, pieces, gap, i + 1, pieces[i].hi + gap, hi);
    }
  }

  lemma {:induction false} PieceIsAString(cfg: Config, text: Bytes, pieces: seq<Piece>, level: nat, i: nat, j: nat,
                                          lo: nat, hi: nat)
    requires level < |cfg.separators| && Chain(text, pieces, |cfg.separators[level]|, i, lo, hi)
    requires i <= j < |pieces|
    ensures StringRange(text, pieces[j].lo, EndOf(cfg, pieces, level, j))
    ensures lo <= pieces[j].lo <= pieces[j].hi && EndOf(cfg, pieces, level, j) <= hi
    decreases j - i
  {
    NextPiece(cfg, text, pieces, level, i, lo, hi);
    if i < j {
      PieceIsAString(cfg, text, pieces, level, i + 1, j, EndOf(cfg, pieces, level, i), hi);
    } else if i < |pieces| - 1 {
      ChainGrows(text, pieces, |cfg.separators[level]|, i + 1, EndOf(cfg, pieces, level, i), hi);
    }
  }

  lemma PartEndsAChunk(cfg: Config, text: Bytes, all: seq<Chunk>, m: nat, lo: nat, hi: nat, level: nat, at: nat)
    returns (k: nat)
    requires ValidConfig(cfg) && Valid(text) && StringRange(text, lo, hi) && lo < hi && level <= |cfg.separators|
    requires StandAt(all, m, ChunksOf(cfg, text, lo, hi, level, at))
    ensures k < |all| && all[k].hi == hi
  {
    hide ChunksOf, Valid;
    var part := ChunksOf(cfg, text, lo, hi, level, at);
    ChunksTile(cfg, text, lo, hi, level, at);
    assert part != [];
    TileAt(cfg, text, part, lo, hi, at, |part| - 1);
    k := m + |part| - 1;
    assert all[m..m + |part|][|part| - 1] == part[|part| - 1];
  }

  /** A range over the limit: right behind every occurrence of the separator in use, first
      to last, a chunk ends. */
  lemma SeparatorsEndChunks(cfg: Config, text: Bytes, lo: nat, hi: nat, level: nat, at: nat, ends: seq<nat>, i: nat)
    returns (k: nat)
    requires ValidConfig(cfg) && Valid(text) && StringRange(text, lo, hi) && OverLimit(cfg, text, lo, hi)
    requires level < |cfg.separators| && cfg.separators[level] != []
    requires FirstToLast(text, lo, hi, cfg.separators[level], ends) && i < |ends|
    ensures
      var chunks := ChunksOf(cfg, text, lo, hi, level, at);
      k < |chunks| && chunks[k].hi == ends[i]
  {
    hide ChunksOf, Valid, OccursAt, FirstToLast, StandAt;
    var m := PartsAreChunkedAlone(cfg, text, lo, hi, level, at, ends, i, ends[i]);
    k := PartEndsAChunk(cfg, text, ChunksOf(cfg, text, lo, hi, level, at), m,
                        StartOf(lo, ends, i), ends[i], level + 1, at + (StartOf(lo, ends, i) - lo));
  }

  /** The empty separator: every character of a range over the limit ends a chunk. */
  lemma EmptySeparatorCutsEverywhere(cfg: Config, text: Bytes, lo: nat, hi: nat, level: nat, at: nat, b: nat)
    returns (k: nat)
    requires ValidConfig(cfg) && Valid(text) && StringRange(text, lo, hi) && OverLimit(cfg, text, lo, hi)
    requires level < |cfg.separators| && cfg.separators[level] == []
    requires lo < b <= hi && Boundary(text, b)
    ensures
      var chunks := ChunksOf(cfg, text, lo, hi, level, at);
      k < |chunks| && chunks[k].hi == b
  {
    hide Valid, Chain, ChunksOfPieces, StandAt;
    var pieces := Split(text, lo, hi, []);
    SplitChains(text, lo, hi, []);
    var i := CharEnds(text, lo, hi, b);
    assert pieces[i + 1] == CharsOf(text, lo, hi)[i];
    var m := PieceIsChunkedAlone(cfg, text, pieces, level, 0, i + 1, lo, hi, at);
    PieceIsAString(cfg, text, pieces, level, 0, i + 1, lo, hi);
    var from := pieces[i + 1].lo;
    k := PartEndsAChunk(cfg, text, ChunksOfPieces(cfg, text, pieces, level, 0, at), m, from, b, level + 1,
                        at + (from - lo));
  }

  lemma {:induction false} CharEnds(text: Bytes, lo: nat, hi: nat, b: nat) returns (i: nat)
    requires Valid(text) && StringRange(text, lo, hi) && lo < b <= hi && Boundary(text, b)
    ensures
      var chars := CharsOf(text, lo, hi);
      i < |chars| - 1 && chars[i].lo < chars[i].hi == b
    decreases hi - lo
  {
    assert CharAt(text, lo);
    var next := if lo + Width(text[lo]) <= hi then lo + Width(text[lo]) else hi;
    if b == next {
      i := 0;
    } else {
      var i' := CharEnds(text, next, hi, b);
      i := i' + 1;
    }
  }

  /** What is within the limit is not cut: the whole text is one chunk, and so is each part
      of a range over the limit. */
  lemma WithinLimitIsOneChunk(cfg: Config, text: Bytes, lo: nat, hi: nat, level: nat, at: nat)
    requires ValidConfig(cfg) && lo < hi <= |text| && level <= |cfg.separators| && !OverLimit(cfg, text, lo, hi)
    ensures ChunksOf(cfg, text, lo, hi, level, at) == [Chunk(at, at + (hi - lo), lo, hi)]
  {
    assert text[lo..hi] != [];
  }

  lemma PartWithinLimitIsOneChunk(cfg: Config, text: Bytes, lo: nat, hi: nat, level: nat, at: nat, ends: seq<nat>,
                                  i: nat, end: nat) returns (k: nat)
    requires ValidConfig(cfg) && Valid(text) && StringRange(text, lo, hi) && OverLimit(cfg, text, lo, hi)
    requires level < |cfg.separators| && cfg.separators[level] != []
    requires FirstToLast(text, lo, hi, cfg.separators[level], ends)
    requires i <= |ends| && IsPart(text, lo, hi, cfg.separators[level], ends, i, end)
    requires StartOf(lo, ends, i) < end && !OverLimit(cfg, text, StartOf(lo, ends, i), end)
    ensures
      var chunks, from := ChunksOf(cfg, text, lo, hi, level, at), StartOf(lo, ends, i);
      && lo <= from && k < |chunks|
      && chunks[k] == Chunk(at + (from - lo), at + (end - lo), from, end)
  {
    hide ChunksOf, Valid, OccursAt, FirstToLast, IsPart;
    k := PartsAreChunkedAlone(cfg, text, lo, hi, level, at, ends, i, end);
    var from := StartOf(lo, ends, i);
    WithinLimitIsOneChunk(cfg, text, from, end, level + 1, at + (from - lo));
    assert ChunksOf(cfg, text, lo, hi, level, at)[k..k + 1][0] == ChunksOf(cfg, text, lo, hi, level, at)[k];
  }

  // ----- Every cut has a reason

  /** The separator stands within `lo..b`, right in front of `b`; the empty one stands in
      front of every character. */
  ghost predicate StandsBefore(text: Bytes, lo: nat, sep: Bytes, b: nat) {
    lo + |sep| <= b && Boundary(text, b) && OccursAt(text, sep, b - |sep|)
  }

  /** Nothing is left inside the range to split at. */
  ghost predicate Exhausted(text: Bytes, lo: nat, hi: nat, sep: Bytes) {
    forall b | lo < b < hi :: !StandsBefore(text, lo, sep, b)
  }

  ghost predicate AllExhausted(cfg: Config, text: Bytes, lo: nat, hi: nat, level: nat)
    requires level <= |cfg.separators|
  {
    forall l | 0 <= l < level :: Exhausted(text, lo, hi, cfg.separators[l])
  }

  /** No character boundary behind `b` is within reach. */
  ghost predicate Farthest(text: Bytes, reach: nat, b: nat) {
    b <= reach && forall c | b < c <= reach :: !Boundary(text, c)
  }

  /** Why the chunk `c` ends inside `from..to`: the range is over the limit, no separator
      before the one at `level` is left in it, and that one stands in front of the cut; or no
      separator is left at all, and the chunk reaches as far as four bytes a token allow. */
  ghost predicate CutIn(cfg: Config, text: Bytes, from: nat, to: nat, level: nat, c: Chunk) {
    && from <= c.lo < c.hi < to && level <= |cfg.separators|
    && OverLimit(cfg, text, from, to)
    && AllExhausted(cfg, text, from, to, level)
    && if level < |cfg.separators| then StandsBefore(text, from, cfg.separators[level], c.hi)
       else Farthest(text, c.lo + 4 * cfg.maxTokens, c.hi)
  }

  lemma ExhaustedWithin(cfg: Config, text: Bytes, lo: nat, hi: nat, from: nat, to: nat, level: nat)
    requires level <= |cfg.separators| && AllExhausted(cfg, text, lo, hi, level) && lo <= from && to <= hi
    ensures AllExhausted(cfg, text, from, to, level)
  {
    forall l, b | 0 <= l < level && from < b < to
      ensures !StandsBefore(text, from, cfg.separators[l], b)
    {
      assert Exhausted(text, lo, hi, cfg.separators[l]);
      assert !StandsBefore(text, lo, cfg.separators[l], b);
    }
  }

  /** A piece of a split holds the separator at its end only. */
  lemma {:induction false} SplitExhausts(text: Bytes, lo: nat, hi: nat, sep: Bytes, i: nat)
    requires Valid(text) && Valid(sep) && StringRange(text, lo, hi) && i < |Split(text, lo, hi, sep)|
    ensures
      var pieces := Split(text, lo, hi, sep);
      var end := pieces[i].hi + if i < |pieces| - 1 then |sep| else 0;
      && Exhausted(text, pieces[i].lo, end, sep)
      && (i < |pieces| - 1 ==> OccursAt(text, sep, pieces[i].hi))
  {
    if sep == [] {
      if i > 0 {
        CharIsAtomic(text, lo, hi, i - 1);
      }
    } else {
      SplitsAtFirstOccurrences(text, lo, hi, sep, i);
      var pieces := SplitOn(text, lo, hi, sep);
      var end := pieces[i].hi + if i < |pieces| - 1 then |sep| else 0;
      PiecesFit(text, lo, hi, sep, i);
      forall b | pieces[i].lo < b < end
        ensures !StandsBefore(text, pieces[i].lo, sep, b)
      {
        if pieces[i].lo + |sep| <= b {
          assert !OccursAt(text, sep, b - |sep|);
        }
      }
    }
  }

  lemma {:induction false} PiecesFit(text: Bytes, lo: nat, hi: nat, sep: Bytes, i: nat)
    requires lo <= hi <= |text| && sep != [] && i < |SplitOn(text, lo, hi, sep)|
    ensures
      var pieces := SplitOn(text, lo, hi, sep);
      pieces[i].hi + (if i < |pieces| - 1 then |sep| else 0) <= hi
    decreases hi - lo
  {
    if i > 0 {
      PiecesFit(text, FirstOccurrence(text, lo, hi, sep) + |sep|, hi, sep, i - 1);
    }
  }

  lemma {:induction false} CharIsAtomic(text: Bytes, lo: nat, hi: nat, i: nat)
    requires Valid(text) && StringRange(text, lo, hi) && i < |CharsOf(text, lo, hi)|
    ensures
      var piece := CharsOf(text, lo, hi)[i];
      piece.hi <= hi && Exhausted(text, piece.lo, piece.hi, [])
    decreases hi - lo
  {
    if lo < hi {
      assert CharAt(text, lo);
      if i > 0 {
        CharIsAtomic(text, if lo + Width(text[lo]) <= hi then lo + Width(text[lo]) else hi, hi, i - 1);
      }
    }
  }

  lemma HardEndIsFarthest(cfg: Config, text: Bytes, from: nat, hi: nat)
    requires StringRange(text, from, hi) && HardEnd(cfg, text, from, hi) < hi
    ensures Farthest(text, from + 4 * cfg.maxTokens, HardEnd(cfg, text, from, hi))
  {
    var reach := Min(from + cfg.maxTokens * 4, hi);
    forall c: nat | HardEnd(cfg, text, from, hi) < c <= reach
      ensures !Boundary(text, c)
    {
      if Boundary(text, c) {
        PrevBoundaryIsGreatest(text, reach, c);
      }
    }
    assert Boundary(text, hi);
  }

  lemma {:induction false} HardCutReason(cfg: Config, text: Bytes, from: nat, hi: nat, at: nat, k: nat)
    requires ValidConfig(cfg) && Valid(text) && StringRange(text, from, hi)
    requires k < |HardSplit(cfg, text, from, hi, at)| && HardSplit(cfg, text, from, hi, at)[k].hi < hi
    ensures
      var c := HardSplit(cfg, text, from, hi, at)[k];
      from <= c.lo < c.hi && Farthest(text, c.lo + 4 * cfg.maxTokens, c.hi)
    decreases hi - from
  {
    hide Valid, Farthest, HardEnd;
    if from < hi {
      HardCutIsAString(cfg, text, from, hi);
      var end := HardEnd(cfg, text, from, hi);
      var n := |HardCut(cfg, text, from, end, at)|;
      if k < n {
        HardEndIsFarthest(cfg, text, from, hi);
      } else {
        HardCutReason(cfg, text, end, hi, at + (end - from), k - n);
      }
    }
  }

  lemma {:induction false} ReasonWithin(cfg: Config, text: Bytes, lo: nat, hi: nat, level: nat, at: nat, k: nat)
    returns (from: nat, to: nat, l: nat)
    requires ValidConfig(cfg) && Valid(text) && StringRange(text, lo, hi)
    requires level <= |cfg.separators| && AllExhausted(cfg, text, lo, hi, level)
    requires k < |ChunksOf(cfg, text, lo, hi, level, at)| && ChunksOf(cfg, text, lo, hi, level, at)[k].hi < hi
    ensures lo <= from && to <= hi && CutIn(cfg, text, from, to, l, ChunksOf(cfg, text, lo, hi, level, at)[k])
    decreases |cfg.separators| - level, 1, 0
  {
    hide Valid, AllExhausted, StandsBefore, Farthest;
    if level < |cfg.separators| {
      var pieces := Split(text, lo, hi, cfg.separators[level]);
      SplitChains(text, lo, hi, cfg.separators[level]);
      from, to, l := ReasonAmongPieces(cfg, text, pieces, level, 0, lo, lo, hi, at, k);
    } else {
      HardCutReason(cfg, text, lo, hi, at, k);
      from, to, l := lo, hi, level;
    }
  }

  lemma {:induction false} ReasonAmongPieces(cfg: Config, text: Bytes, pieces: seq<Piece>, level: nat, i: nat,
                                             start: nat, lo: nat, hi: nat, at: nat, k: nat)
    returns (from: nat, to: nat, l: nat)
    requires ValidConfig(cfg) && Valid(text) && level < |cfg.separators| && StringRange(text, lo, hi)
    requires pieces == Split(text, lo, hi, cfg.separators[level]) && OverLimit(cfg, text, lo, hi)
    requires lo <= start && Chain(text, pieces, |cfg.separators[level]|, i, start, hi)
    requires AllExhausted(cfg, text, lo, hi, level)
    requires k < |ChunksOfPieces(cfg, text, pieces, level, i, at)|
    requires ChunksOfPieces(cfg, text, pieces, level, i, at)[k].hi < hi
    ensures lo <= from && to <= hi
    ensures CutIn(cfg, text, from, to, l, ChunksOfPieces(cfg, text, pieces, level, i, at)[k])
    decreases |cfg.separators| - level, 0, |pieces| - i
  {
    hide Valid, AllExhausted, StandsBefore, Farthest, ChunksOf, Chain, Split, EndOf, CutIn, OverLimit;
    NextPiece(cfg, text, pieces, level, i, start, hi);
    PieceIsAString(cfg, text, pieces, level, i, i, start, hi);
    var end := EndOf(cfg, pieces, level, i);
    var sub := ChunksOf(cfg, text, start, end, level + 1, at);
    if k >= |sub| {
      assert i < |pieces| - 1;
      from, to, l := ReasonAmongPieces(cfg, text, pieces, level, i + 1, end, lo, hi, at + (end - start), k - |sub|);
    } else {
      ChunksTile(cfg, text, start, end, level + 1, at);
      TileAt(cfg, text, sub, start, end, at, k);
      PieceIsExhausted(cfg, text, pieces, level, i, lo, hi);
      if sub[k].hi < end {
        from, to, l := ReasonWithin(cfg, text, start, end, level + 1, at, k);
      } else {
        TileEnds(cfg, text, sub, start, end, at, k);
        from, to, l := lo, hi, level;
        SeparatorReason(cfg, text, pieces, level, i, lo, hi, sub[k]);
      }
    }
  }

  lemma {:induction false} TileEnds(cfg: Config, text: Bytes, chunks: seq<Chunk>, lo: nat, hi: nat, at: nat, k: nat)
    requires Tiles(cfg, text, chunks, lo, hi, at) && k < |chunks|
    ensures lo <= chunks[k].lo < chunks[k].hi <= hi
    decreases |chunks|
  {
    TilesGrow(cfg, text, chunks[1..], chunks[0].hi, hi, chunks[0].end);
    if k > 0 {
      TileEnds(cfg, text, chunks[1..], chunks[0].hi, hi, chunks[0].end, k - 1);
    }
  }

  lemma PieceIsExhausted(cfg: Config, text: Bytes, pieces: seq<Piece>, level: nat, i: nat, lo: nat, hi: nat)
    requires ValidConfig(cfg) && Valid(text) && level < |cfg.separators| && StringRange(text, lo, hi)
    requires pieces == Split(text, lo, hi, cfg.separators[level]) && i < |pieces|
    requires lo <= pieces[i].lo && EndOf(cfg, pieces, level, i) <= hi
    requires AllExhausted(cfg, text, lo, hi, level)
    ensures AllExhausted(cfg, text, pieces[i].lo, EndOf(cfg, pieces, level, i), level + 1)
  {
    hide Valid, Exhausted, Split;
    ExhaustedWithin(cfg, text, lo, hi, pieces[i].lo, EndOf(cfg, pieces, level, i), level);
    SplitExhausts(text, lo, hi, cfg.separators[level], i);
  }

  lemma SeparatorReason(cfg: Config, text: Bytes, pieces: seq<Piece>, level: nat, i: nat, lo: nat, hi: nat, c: Chunk)
    requires ValidConfig(cfg) && Valid(text) && level < |cfg.separators| && StringRange(text, lo, hi)
    requires pieces == Split(text, lo, hi, cfg.separators[level]) && i < |pieces| - 1
    requires OverLimit(cfg, text, lo, hi) && AllExhausted(cfg, text, lo, hi, level)
    requires lo <= c.lo < c.hi < hi && c.hi == EndOf(cfg, pieces, level, i) && lo <= pieces[i].hi
    requires Boundary(text, c.hi)
    ensures CutIn(cfg, text, lo, hi, level, c)
  {
    hide Valid, AllExhausted, Split;
    SplitExhausts(text, lo, hi, cfg.separators[level], i);
  }

  /** Chunks of a whole text: every chunk but the last ends where it does for a reason. */
  lemma EveryCutHasAReason(cfg: Config, text: Bytes, k: nat)
    requires ValidConfig(cfg) && Valid(text)
    requires k + 1 < |ChunksOf(cfg, text, 0, |text|, 0, 0)|
    ensures
      var chunks := ChunksOf(cfg, text, 0, |text|, 0, 0);
      exists from, to, level :: CutIn(cfg, text, from, to, level, chunks[k])
  {
    hide CutIn, Valid, ChunksOf;
    var chunks := ChunksOf(cfg, text, 0, |text|, 0, 0);
    ChunksTile(cfg, text, 0, |text|, 0, 0);
    TileAt(cfg, text, chunks, 0, |text|, 0, k + 1);
    TileEnds(cfg, text, chunks, 0, |text|, 0, k + 1);
    var from, to, level := ReasonWithin(cfg, text, 0, |text|, 0, 0, k);
  }
}
