/** The recursive chunker: split on one separator after another, recursing into pieces that
    are still too large, and cut hard when the separators run out. Every string it handles
    is borrowed from one source text, so a string is a range `lo..hi` of that text. */
module Chunker {
  import opened Segments
  import opened Utf8

  /** A chunk records offsets `start..end` and holds the characters `text[lo..hi]`. */
  datatype Chunk = Chunk(start: nat, end: nat, lo: nat, hi: nat)

  datatype Piece = Piece(lo: nat, hi: nat)

  /** `tokens` stands for the tokenizer: of it only `CountsTokens` is assumed. */
  datatype Config = Config(maxTokens: nat, separators: seq<Bytes>, tokens: Bytes -> nat)

  ghost predicate CountsTokens(tokens: Bytes -> nat) {
    forall s :: tokens(s) == 0 <==> s == []
  }

  /** What the chunker is built from: string separators and a limit of at least one token. */
  ghost predicate Usable(cfg: Config) {
    && cfg.maxTokens >= 1
    && forall i | 0 <= i < |cfg.separators| :: Valid(cfg.separators[i])
  }

  ghost predicate ValidConfig(cfg: Config) {
    CountsTokens(cfg.tokens) && Usable(cfg)
  }

  /** A range that is a string: it starts and ends between characters. */
  ghost predicate StringRange(text: Bytes, lo: nat, hi: nat) {
    lo <= hi <= |text| && Boundary(text, lo) && Boundary(text, hi)
  }

  // ----- Splitting on a separator

  /** The first occurrence of `sep` within `lo..hi`, or `hi`. */
  function FirstOccurrence(text: Bytes, lo: nat, hi: nat, sep: Bytes): (k: nat)
    requires lo <= hi <= |text| && sep != []
    ensures lo <= k <= hi
    ensures k < hi ==> k + |sep| <= hi && OccursAt(text, sep, k)
    decreases hi - lo
  {
    if lo + |sep| > hi then hi
    else if OccursAt(text, sep, lo) then lo
    else FirstOccurrence(text, lo + 1, hi, sep)
  }

  lemma {:induction false} FirstOccurrenceIsFirst(text: Bytes, lo: nat, hi: nat, sep: Bytes, j: nat)
    requires lo <= hi <= |text| && sep != []
    requires lo <= j < FirstOccurrence(text, lo, hi, sep)
    ensures !(j + |sep| <= hi && OccursAt(text, sep, j))
    decreases hi - lo
  {
    if lo + |sep| <= hi && lo < j {
      FirstOccurrenceIsFirst(text, lo + 1, hi, sep, j);
    }
  }

  /** `str::split` on a non-empty separator. */
  function SplitOn(text: Bytes, lo: nat, hi: nat, sep: Bytes): (pieces: seq<Piece>)
    requires lo <= hi <= |text| && sep != []
    ensures pieces != []
    decreases hi - lo
  {
    var k := FirstOccurrence(text, lo, hi, sep);
    if k == hi then [Piece(lo, hi)] else [Piece(lo, k)] + SplitOn(text, k + |sep|, hi, sep)
  }

  /** The separator starts nowhere inside the piece, where it would still end by `hi`. */
  ghost predicate FreeOf(text: Bytes, piece: Piece, sep: Bytes, hi: nat) {
    forall j | piece.lo <= j < piece.hi && j + |sep| <= hi :: !OccursAt(text, sep, j)
  }

  /** Each piece runs up to the first occurrence of the separator in what is left, the last
      one to the end. */
  lemma {:induction false} SplitsAtFirstOccurrences(text: Bytes, lo: nat, hi: nat, sep: Bytes, i: nat)
    requires lo <= hi <= |text| && sep != []
    requires i < |SplitOn(text, lo, hi, sep)|
    ensures
      var pieces := SplitOn(text, lo, hi, sep);
      && FreeOf(text, pieces[i], sep, hi)
      && (if i < |pieces| - 1 then OccursAt(text, sep, pieces[i].hi) else pieces[i].hi == hi)
    decreases hi - lo
  {
    var k := FirstOccurrence(text, lo, hi, sep);
    if i == 0 {
      forall j | lo <= j < k && j + |sep| <= hi
        ensures !OccursAt(text, sep, j)
      {
        FirstOccurrenceIsFirst(text, lo, hi, sep, j);
      }
    } else {
      SplitsAtFirstOccurrences(text, k + |sep|, hi, sep, i - 1);
    }
  }

  /** The characters of a range, and the empty piece that ends it. */
  function CharsOf(text: Bytes, lo: nat, hi: nat): (pieces: seq<Piece>)
    requires lo <= hi <= |text|
    ensures pieces != []
    decreases hi - lo
  {
    if lo == hi then [Piece(hi, hi)]
    else
      var next := if lo + Width(text[lo]) <= hi then lo + Width(text[lo]) else hi;
      [Piece(lo, next)] + CharsOf(text, next, hi)
  }

  /** `str::split`; the empty separator matches around every character. */
  function Split(text: Bytes, lo: nat, hi: nat, sep: Bytes): (pieces: seq<Piece>)
    requires lo <= hi <= |text|
    ensures pieces != []
  {
    if sep == [] then [Piece(lo, lo)] + CharsOf(text, lo, hi) else SplitOn(text, lo, hi, sep)
  }

  /** The pieces from `i` on follow each other, one separator apart, from `lo` to `hi`, and
      all are strings. */
  ghost predicate Chain(text: Bytes, pieces: seq<Piece>, gap: nat, i: nat, lo: nat, hi: nat)
    decreases |pieces| - i
  {
    && i < |pieces|
    && pieces[i].lo == lo
    && StringRange(text, lo, pieces[i].hi)
    && if i == |pieces| - 1 then pieces[i].hi == hi
       else StringRange(text, lo, pieces[i].hi + gap) && Chain(text, pieces, gap, i + 1, pieces[i].hi + gap, hi)
  }

  lemma {:induction false} ChainBehind(text: Bytes, first: Piece, pieces: seq<Piece>, gap: nat, i: nat, lo: nat,
                                       hi: nat)
    requires Chain(text, pieces, gap, i, lo, hi)
    ensures Chain(text, [first] + pieces, gap, i + 1, lo, hi)
    decreases |pieces| - i
  {
    assert ([first] + pieces)[i + 1] == pieces[i];
    if i < |pieces| - 1 {
      ChainBehind(text, first, pieces, gap, i + 1, pieces[i].hi + gap, hi);
    }
  }

  lemma {:induction false} SplitOnChains(text: Bytes, lo: nat, hi: nat, sep: Bytes)
    requires Valid(text) && Valid(sep) && sep != [] && StringRange(text, lo, hi)
    ensures Chain(text, SplitOn(text, lo, hi, sep), |sep|, 0, lo, hi)
    decreases hi - lo
  {
    hide Valid, OccursAt, Boundary;
    var k := FirstOccurrence(text, lo, hi, sep);
    if k < hi {
      BoundaryInOccurrence(text, sep, k, 0);
      BoundaryInOccurrence(text, sep, k, |sep|);
      SplitOnChains(text, k + |sep|, hi, sep);
      ChainBehind(text, Piece(lo, k), SplitOn(text, k + |sep|, hi, sep), |sep|, 0, k + |sep|, hi);
    }
  }

  lemma {:induction false} CharsChain(text: Bytes, lo: nat, hi: nat)
    requires Valid(text) && StringRange(text, lo, hi)
    ensures Chain(text, CharsOf(text, lo, hi), 0, 0, lo, hi)
    decreases hi - lo
  {
    if lo < hi {
      assert CharAt(text, lo);
      var next := if lo + Width(text[lo]) <= hi then lo + Width(text[lo]) else hi;
      CharsChain(text, next, hi);
      ChainBehind(text, Piece(lo, next), CharsOf(text, next, hi), 0, 0, next, hi);
    }
  }

  /** Splitting loses nothing and never cuts a character, whatever the separator. */
  lemma SplitChains(text: Bytes, lo: nat, hi: nat, sep: Bytes)
    requires Valid(text) && Valid(sep) && StringRange(text, lo, hi)
    ensures Chain(text, Split(text, lo, hi, sep), |sep|, 0, lo, hi)
  {
    if sep == [] {
      CharsChain(text, lo, hi);
      ChainBehind(text, Piece(lo, lo), CharsOf(text, lo, hi), 0, 0, lo, hi);
    } else {
      SplitOnChains(text, lo, hi, sep);
    }
  }

  // ----- The chunker as a function

  function Min(a: nat, b: nat): nat {
    if a < b then a else b
  }

  /** Where a hard cut that starts at `from` ends. */
  function HardEnd(cfg: Config, text: Bytes, from: nat, hi: nat): nat {
    PrevBoundary(text, Min(from + cfg.maxTokens * 4, hi))
  }

  /** A hard cut gets past its start exactly when the limit is at least one token: a
      character has at most four bytes. With a limit of 0 the loop stays where it is. */
  lemma HardCutAdvancesIff(cfg: Config, text: Bytes, from: nat, hi: nat)
    requires Valid(text) && StringRange(text, from, hi) && from < hi
    ensures HardEnd(cfg, text, from, hi) <= hi
    ensures HardEnd(cfg, text, from, hi) > from <==> cfg.maxTokens >= 1
  {
    if cfg.maxTokens >= 1 {
      assert CharAt(text, from);
      var next := from + Width(text[from]);
      assert next <= hi;
      PrevBoundaryIsGreatest(text, Min(from + cfg.maxTokens * 4, hi), next);
    }
  }

  /** One hard cut (an empty slice would be dropped). */
  function HardCut(cfg: Config, text: Bytes, from: nat, end: nat, at: nat): seq<Chunk>
    requires from <= end <= |text|
  {
    if cfg.tokens(text[from..end]) > 0 then [Chunk(at, at + (end - from), from, end)] else []
  }

  /** The hard cuts from `from` on. It stops where a cut would not advance; by
      `HardCutAdvancesIff` that is only at the end of the range. */
  function HardSplit(cfg: Config, text: Bytes, from: nat, hi: nat, at: nat): seq<Chunk>
    requires from <= hi <= |text|
    decreases hi - from
  {
    var end := HardEnd(cfg, text, from, hi);
    if end <= from || end > hi then []
    else HardCut(cfg, text, from, end, at) + HardSplit(cfg, text, end, hi, at + (end - from))
  }

  function ChunksOf(cfg: Config, text: Bytes, lo: nat, hi: nat, level: nat, at: nat): seq<Chunk>
    requires lo <= hi <= |text| && level <= |cfg.separators|
    decreases |cfg.separators| - level, 1, 0
  {
    var tokens := cfg.tokens(text[lo..hi]);
    if tokens <= cfg.maxTokens then
      if tokens == 0 then [] else [Chunk(at, at + (hi - lo), lo, hi)]
    else if level < |cfg.separators| then
      ChunksOfPieces(cfg, text, Split(text, lo, hi, cfg.separators[level]), level, 0, at)
    else HardSplit(cfg, text, lo, hi, at)
  }

  /** A piece keeps the separator behind it, except for the last one. */
  function EndOf(cfg: Config, pieces: seq<Piece>, level: nat, i: nat): nat
    requires i < |pieces| && level < |cfg.separators|
  {
    pieces[i].hi + if i < |pieces| - 1 then |cfg.separators[level]| else 0
  }

  function ChunksOfPieces(cfg: Config, text: Bytes, pieces: seq<Piece>, level: nat, i: nat, at: nat): seq<Chunk>
    requires level < |cfg.separators| && i <= |pieces|
    decreases |cfg.separators| - level, 0, |pieces| - i
  {
    if i == |pieces| then []
    else
      var lo, hi := pieces[i].lo, EndOf(cfg, pieces, level, i);
      if !(lo <= hi <= |text|) then []
      else ChunksOf(cfg, text, lo, hi, level + 1, at) + ChunksOfPieces(cfg, text, pieces, level, i + 1, at + (hi - lo))
  }

  // ----- What the chunks are

  /** Whole characters, at least one, within the token limit or within four bytes per
      allowed token. */
  ghost predicate Fits(cfg: Config, text: Bytes, chunk: Chunk) {
    && StringRange(text, chunk.lo, chunk.hi) && chunk.lo < chunk.hi
    && (cfg.tokens(text[chunk.lo..chunk.hi]) <= cfg.maxTokens || chunk.hi - chunk.lo <= 4 * cfg.maxTokens)
  }

  /** The chunks cover `lo..hi` from end to end, recording offsets that start at `at`. */
  ghost predicate Tiles(cfg: Config, text: Bytes, chunks: seq<Chunk>, lo: nat, hi: nat, at: nat)
    decreases |chunks|
  {
    if chunks == [] then lo == hi
    else
      var c := chunks[0];
      && Fits(cfg, text, c)
      && c.lo == lo && c.start == at && c.end == at + (c.hi - lo)
      && Tiles(cfg, text, chunks[1..], c.hi, hi, c.end)
  }

  lemma {:induction false} TilesConcat(cfg: Config, text: Bytes, a: seq<Chunk>, lo: nat, mid: nat, at: nat,
                 b: seq<Chunk>, hi: nat)
    requires lo <= mid
    requires Tiles(cfg, text, a, lo, mid, at) && Tiles(cfg, text, b, mid, hi, at + (mid - lo))
    ensures Tiles(cfg, text, a + b, lo, hi, at)
    decreases |a|
  {
    if a == [] {
      assert a + b == b;
    } else {
      TilesGrow(cfg, text, a[1..], a[0].hi, mid, a[0].end);
      TilesConcat(cfg, text, a[1..], a[0].hi, mid, a[0].end, b, hi);
      assert (a + b)[0] == a[0] && (a + b)[1..] == a[1..] + b;
    }
  }

  lemma {:induction false} TilesGrow(cfg: Config, text: Bytes, chunks: seq<Chunk>, lo: nat, hi: nat, at: nat)
    requires Tiles(cfg, text, chunks, lo, hi, at)
    ensures lo <= hi
    decreases |chunks|
  {
    if chunks != [] {
      TilesGrow(cfg, text, chunks[1..], chunks[0].hi, hi, chunks[0].end);
    }
  }

  lemma HardCutIsAString(cfg: Config, text: Bytes, from: nat, hi: nat)
    requires ValidConfig(cfg) && Valid(text) && StringRange(text, from, hi) && from < hi
    ensures
      var end := HardEnd(cfg, text, from, hi);
      && from < end <= hi <= |text| && end <= from + 4 * cfg.maxTokens
      && StringRange(text, from, end) && StringRange(text, end, hi)
  {
    HardCutAdvancesIff(cfg, text, from, hi);
  }

  lemma CutTiles(cfg: Config, text: Bytes, from: nat, end: nat, at: nat)
    requires ValidConfig(cfg) && StringRange(text, from, end) && from < end <= from + 4 * cfg.maxTokens
    ensures Tiles(cfg, text, HardCut(cfg, text, from, end, at), from, end, at)
  {
    assert cfg.tokens(text[from..end]) != 0;
    var cut := HardCut(cfg, text, from, end, at);
    assert cut == [Chunk(at, at + (end - from), from, end)];
    assert cut[1..] == [];
  }

  /** A hard cut in front of a tiled rest. */
  lemma CutInFront(cfg: Config, text: Bytes, from: nat, hi: nat, at: nat)
    requires ValidConfig(cfg) && from <= hi <= |text|
    requires
      var end := HardEnd(cfg, text, from, hi);
      && from < end <= hi && end <= from + 4 * cfg.maxTokens && StringRange(text, from, end)
      && Tiles(cfg, text, HardSplit(cfg, text, end, hi, at + (end - from)), end, hi, at + (end - from))
    ensures Tiles(cfg, text, HardSplit(cfg, text, from, hi, at), from, hi, at)
  {
    hide HardEnd, Tiles, StringRange;
    var end := HardEnd(cfg, text, from, hi);
    CutTiles(cfg, text, from, end, at);
    hide HardCut, ValidConfig;
    TilesConcat(cfg, text, HardCut(cfg, text, from, end, at), from, end, at,
                HardSplit(cfg, text, end, hi, at + (end - from)), hi);
  }

  lemma NothingToCut(cfg: Config, text: Bytes, hi: nat, at: nat)
    requires hi <= |text|
    ensures HardSplit(cfg, text, hi, hi, at) == []
  {
  }

  lemma {:induction false} HardSplitTiles(cfg: Config, text: Bytes, from: nat, hi: nat, at: nat)
    requires ValidConfig(cfg) && Valid(text) && StringRange(text, from, hi)
    ensures Tiles(cfg, text, HardSplit(cfg, text, from, hi, at), from, hi, at)
    decreases hi - from
  {
    hide Valid, HardEnd, HardSplit, ValidConfig, Boundary;
    if from == hi {
      NothingToCut(cfg, text, hi, at);
    } else {
      var end := HardEnd(cfg, text, from, hi);
      HardCutIsAString(cfg, text, from, hi);
      HardSplitTiles(cfg, text, end, hi, at + (end - from));
      CutInFront(cfg, text, from, hi, at);
    }
  }

  /** The chunks tile the text. */
  lemma {:induction false} ChunksTile(cfg: Config, text: Bytes, lo: nat, hi: nat, level: nat, at: nat)
    requires ValidConfig(cfg) && Valid(text) && StringRange(text, lo, hi) && level <= |cfg.separators|
    ensures Tiles(cfg, text, ChunksOf(cfg, text, lo, hi, level, at), lo, hi, at)
    decreases |cfg.separators| - level, 1, 0
  {
    var tokens := cfg.tokens(text[lo..hi]);
    if tokens <= cfg.maxTokens {
      assert tokens == 0 <==> text[lo..hi] == [];
      assert ChunksOf(cfg, text, lo, hi, level, at) == [] || ChunksOf(cfg, text, lo, hi, level, at)[1..] == [];
    } else if level < |cfg.separators| {
      SplitChains(text, lo, hi, cfg.separators[level]);
      PiecesTile(cfg, text, Split(text, lo, hi, cfg.separators[level]), level, 0, lo, hi, at);
    } else {
      HardSplitTiles(cfg, text, lo, hi, at);
    }
  }

  lemma {:induction false} PiecesTile(cfg: Config, text: Bytes, pieces: seq<Piece>, level: nat, i: nat, lo: nat,
                                      hi: nat, at: nat)
    requires ValidConfig(cfg) && Valid(text) && level < |cfg.separators|
    requires Chain(text, pieces, |cfg.separators[level]|, i, lo, hi)
    ensures lo <= hi
    ensures Tiles(cfg, text, ChunksOfPieces(cfg, text, pieces, level, i, at), lo, hi, at)
    decreases |cfg.separators| - level, 0, |pieces| - i
  {
    hide ChunksOf, Chain, StringRange, ValidConfig, Valid, EndOf;
    NextPiece(cfg, text, pieces, level, i, lo, hi);
    var end := EndOf(cfg, pieces, level, i);
    ChunksTile(cfg, text, lo, end, level + 1, at);
    var rest := ChunksOfPieces(cfg, text, pieces, level, i + 1, at + (end - lo));
    if i < |pieces| - 1 {
      PiecesTile(cfg, text, pieces, level, i + 1, end, hi, at + (end - lo));
    }
    assert Tiles(cfg, text, rest, end, hi, at + (end - lo));
    hide Tiles;
    TilesConcat(cfg, text, ChunksOf(cfg, text, lo, end, level + 1, at), lo, end, at, rest, hi);
  }

  lemma NextPiece(cfg: Config, text: Bytes, pieces: seq<Piece>, level: nat, i: nat, lo: nat, hi: nat)
    requires level < |cfg.separators| && Chain(text, pieces, |cfg.separators[level]|, i, lo, hi)
    ensures i < |pieces| && pieces[i].lo == lo
    ensures
      var end := EndOf(cfg, pieces, level, i);
      && StringRange(text, lo, end) && lo <= end <= |text|
      && if i < |pieces| - 1 then Chain(text, pieces, |cfg.separators[level]|, i + 1, end, hi) else end == hi
  {
  }

  ghost function Contents(text: Bytes, chunks: seq<Chunk>): seq<Bytes>
    requires forall k | 0 <= k < |chunks| :: chunks[k].lo <= chunks[k].hi <= |text|
  {
    seq(|chunks|, k requires 0 <= k < |chunks| => text[chunks[k].lo..chunks[k].hi])
  }

  lemma {:induction false} TileAt(cfg: Config, text: Bytes, chunks: seq<Chunk>, lo: nat, hi: nat, at: nat, k: nat)
    requires Tiles(cfg, text, chunks, lo, hi, at) && k < |chunks|
    ensures Fits(cfg, text, chunks[k])
    ensures chunks[k].lo == (if k == 0 then lo else chunks[k - 1].hi)
    ensures chunks[k].start - at == chunks[k].lo - lo && chunks[k].end - at == chunks[k].hi - lo
    ensures k == |chunks| - 1 ==> chunks[k].hi == hi
    decreases |chunks|
  {
    if k > 0 {
      TileAt(cfg, text, chunks[1..], chunks[0].hi, hi, chunks[0].end, k - 1);
    } else if |chunks| == 1 {
      assert chunks[1..] == [];
    }
  }

  lemma {:induction false} TilesFlatten(cfg: Config, text: Bytes, chunks: seq<Chunk>, lo: nat, hi: nat, at: nat)
    requires Tiles(cfg, text, chunks, lo, hi, at) && lo <= hi <= |text|
    requires forall k | 0 <= k < |chunks| :: chunks[k].lo <= chunks[k].hi <= |text|
    ensures Flatten(Contents(text, chunks)) == text[lo..hi]
    decreases |chunks|
  {
    if chunks != [] {
      TilesGrow(cfg, text, chunks[1..], chunks[0].hi, hi, chunks[0].end);
      TilesFlatten(cfg, text, chunks[1..], chunks[0].hi, hi, chunks[0].end);
      assert Contents(text, chunks)[1..] == Contents(text, chunks[1..]);
      assert text[lo..hi] == text[lo..chunks[0].hi] + text[chunks[0].hi..hi];
    }
  }

  /** Chunking a whole text: in order the chunks concatenate to exactly the input, each one
      is the slice at its recorded offsets, none cuts a character or is empty, and each is
      within the token limit or within four bytes per allowed token. */
  lemma ChunksAreTheText(cfg: Config, text: Bytes)
    requires ValidConfig(cfg) && Valid(text)
    ensures
      var chunks := ChunksOf(cfg, text, 0, |text|, 0, 0);
      && (forall k | 0 <= k < |chunks| ::
            && Fits(cfg, text, chunks[k])
            && chunks[k].start == chunks[k].lo && chunks[k].end == chunks[k].hi)
      && Flatten(Contents(text, chunks)) == text
  {
    var chunks := ChunksOf(cfg, text, 0, |text|, 0, 0);
    ChunksTile(cfg, text, 0, |text|, 0, 0);
    forall k | 0 <= k < |chunks|
      ensures Fits(cfg, text, chunks[k])
      ensures chunks[k].start == chunks[k].lo && chunks[k].end == chunks[k].hi
    {
      TileAt(cfg, text, chunks, 0, |text|, 0, k);
    }
    TilesFlatten(cfg, text, chunks, 0, |text|, 0);
    assert text[0..|text|] == text;
  }

  // ----- The chunker as it runs

  /** `HardSplit` with the chunks pushed so far. */
  ghost function HardSplitOnto(cfg: Config, text: Bytes, from: nat, hi: nat, at: nat, done: seq<Chunk>): seq<Chunk>
    requires from <= hi <= |text|
    decreases hi - from
  {
    var end := HardEnd(cfg, text, from, hi);
    if end <= from || end > hi then done
    else HardSplitOnto(cfg, text, end, hi, at + (end - from), done + HardCut(cfg, text, from, end, at))
  }

  lemma {:induction false} HardSplitOntoAppends(cfg: Config, text: Bytes, from: nat, hi: nat, at: nat, done: seq<Chunk>)
    requires from <= hi <= |text|
    ensures HardSplitOnto(cfg, text, from, hi, at, done) == done + HardSplit(cfg, text, from, hi, at)
    decreases hi - from
  {
    var end := HardEnd(cfg, text, from, hi);
    if !(end <= from || end > hi) {
      var cut := HardCut(cfg, text, from, end, at);
      HardSplitOntoAppends(cfg, text, end, hi, at + (end - from), done + cut);
      Associate(done, cut, HardSplit(cfg, text, end, hi, at + (end - from)));
    }
  }

  lemma OntoNext(cfg: Config, text: Bytes, from: nat, hi: nat, at: nat, done: seq<Chunk>)
    requires Usable(cfg) && Valid(text) && StringRange(text, from, hi) && from < hi
    ensures
      var end := HardEnd(cfg, text, from, hi);
      && from < end <= hi && StringRange(text, from, end) && StringRange(text, end, hi)
      && HardSplitOnto(cfg, text, from, hi, at, done)
         == HardSplitOnto(cfg, text, end, hi, at + (end - from), done + HardCut(cfg, text, from, end, at))
  {
    hide Valid;
    HardCutAdvancesIff(cfg, text, from, hi);
  }

  method HardSplitLoop(cfg: Config, text: Bytes, lo: nat, hi: nat, at: nat) returns (chunks: seq<Chunk>)
    requires Usable(cfg) && Valid(text) && StringRange(text, lo, hi)
    ensures chunks == HardSplit(cfg, text, lo, hi, at)
  {
    hide HardSplitOnto, Valid, Boundary, Usable, PrevBoundary;
    chunks := [];
    var start := lo;
    while start < hi
      invariant lo <= start && StringRange(text, start, hi)
      invariant HardSplitOnto(cfg, text, start, hi, at + (start - lo), chunks)
                == HardSplitOnto(cfg, text, lo, hi, at, [])
    {
      OntoNext(cfg, text, start, hi, at + (start - lo), chunks);
      var end := PrevCharBoundary(text, Min(start + cfg.maxTokens * 4, hi));
      ghost var before := chunks;
      if cfg.tokens(text[start..end]) > 0 {
        chunks := chunks + [Chunk(at + (start - lo), at + (end - lo), start, end)];
      }
      assert chunks == before + HardCut(cfg, text, start, end, at + (start - lo));
      start := end;
    }
    NothingLeftToCut(cfg, text, hi, at + (hi - lo), chunks);
    HardSplitOntoAppends(cfg, text, lo, hi, at, []);
  }

  lemma NothingLeftToCut(cfg: Config, text: Bytes, hi: nat, at: nat, done: seq<Chunk>)
    requires hi <= |text|
    ensures HardSplitOnto(cfg, text, hi, hi, at, done) == done
  {
  }

  /** `chunk_recursive`. */
  method ChunkRecursive(cfg: Config, text: Bytes, lo: nat, hi: nat, level: nat, at: nat) returns (chunks: seq<Chunk>)
    requires Usable(cfg) && Valid(text) && StringRange(text, lo, hi) && level <= |cfg.separators|
    ensures chunks == ChunksOf(cfg, text, lo, hi, level, at)
    decreases |cfg.separators| - level, 1
  {
    var tokens := cfg.tokens(text[lo..hi]);
    if tokens <= cfg.maxTokens {
      if tokens == 0 {
        return [];
      }
      return [Chunk(at, at + (hi - lo), lo, hi)];
    }
    if level < |cfg.separators| {
      var pieces := Split(text, lo, hi, cfg.separators[level]);
      SplitChains(text, lo, hi, cfg.separators[level]);
      chunks := ChunkPieces(cfg, text, pieces, level, lo, hi, at);
    } else {
      chunks := HardSplitLoop(cfg, text, lo, hi, at);
    }
  }

  /** `ChunksOfPieces` with the chunks pushed so far. */
  ghost function PiecesOnto(cfg: Config, text: Bytes, pieces: seq<Piece>, level: nat,
                 i: nat, at: nat, done: seq<Chunk>): seq<Chunk>
    requires level < |cfg.separators| && i <= |pieces|
    decreases |pieces| - i
  {
    if i == |pieces| then done
    else
      var lo, hi := pieces[i].lo, EndOf(cfg, pieces, level, i);
      if !(lo <= hi <= |text|) then done
      else PiecesOnto(cfg, text, pieces, level, i + 1, at + (hi - lo),
                      done + ChunksOf(cfg, text, lo, hi, level + 1, at))
  }

  lemma {:induction false} PiecesOntoAppends(cfg: Config, text: Bytes, pieces: seq<Piece>, level: nat,
                 i: nat, at: nat, done: seq<Chunk>)
    requires level < |cfg.separators| && i <= |pieces|
    ensures PiecesOnto(cfg, text, pieces, level, i, at, done) == done + ChunksOfPieces(cfg, text, pieces, level, i, at)
    decreases |pieces| - i
  {
    if i < |pieces| {
      var lo, hi := pieces[i].lo, EndOf(cfg, pieces, level, i);
      if lo <= hi <= |text| {
        var sub := ChunksOf(cfg, text, lo, hi, level + 1, at);
        PiecesOntoAppends(cfg, text, pieces, level, i + 1, at + (hi - lo), done + sub);
        Associate(done, sub, ChunksOfPieces(cfg, text, pieces, level, i + 1, at + (hi - lo)));
      }
    }
  }

  /** The loop over the pieces of one split. */
  method ChunkPieces(cfg: Config, text: Bytes, pieces: seq<Piece>, level: nat, ghost lo: nat, ghost hi: nat, at: nat)
    returns (chunks: seq<Chunk>)
    requires Usable(cfg) && Valid(text) && level < |cfg.separators|
    requires Chain(text, pieces, |cfg.separators[level]|, 0, lo, hi)
    ensures chunks == ChunksOfPieces(cfg, text, pieces, level, 0, at)
    decreases |cfg.separators| - level, 0
  {
    hide ChunksOf;
    chunks := [];
    var offset: nat := at;
    ghost var from: nat := lo;
    for i := 0 to |pieces|
      invariant i < |pieces| ==> Chain(text, pieces, |cfg.separators[level]|, i, from, hi)
      invariant PiecesOnto(cfg, text, pieces, level, i, offset, chunks)
                == PiecesOnto(cfg, text, pieces, level, 0, at, [])
    {
      var end := pieces[i].hi + if i < |pieces| - 1 then |cfg.separators[level]| else 0;
      assert end == EndOf(cfg, pieces, level, i);
      var sub := ChunkRecursive(cfg, text, pieces[i].lo, end, level + 1, offset);
      chunks := chunks + sub;
      offset := offset + (end - pieces[i].lo);
      from := end;
    }
    PiecesOntoAppends(cfg, text, pieces, level, 0, at, []);
  }
}
