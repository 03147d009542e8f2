/** The chain-of-thought stripper: removes `<think>` blocks from a completion. Tags are
    ASCII, so positions are characters here where the program counts bytes. */
module StripCot {
  import opened Wrappers

  // ----- Tags

  const NAME: string := "think"

  function UpperOf(c: char): char
    requires 'a' <= c <= 'z'
  {
    (c as int - 32) as char
  }

  /** White space inside a tag. */
  predicate TagSpace(c: char) {
    c == ' ' || c == '\t' || c == '\n' || c == '\r'
  }

  /** The tag name, each letter in either case, stands at `i`. */
  predicate NameAt(s: string, i: nat) {
    i + 5 <= |s| && forall k | 0 <= k < 5 :: s[i + k] == NAME[k] || s[i + k] == UpperOf(NAME[k])
  }

  /** From `i` on there is only tag space, then the `>` just before `e`. */
  predicate ClosesBy(s: string, i: nat, e: nat) {
    && i < e <= |s| && s[e - 1] == '>'
    && forall k | i <= k < e - 1 :: TagSpace(s[k])
  }

  /** A complete opening tag spans `i..e`. */
  predicate OpenTag(s: string, i: nat, e: nat) {
    i < |s| && s[i] == '<' && NameAt(s, i + 1) && ClosesBy(s, i + 6, e)
  }

  /** A complete closing tag spans `i..e`. */
  predicate CloseTag(s: string, i: nat, e: nat) {
    i + 1 < |s| && s[i] == '<' && s[i + 1] == '/' && NameAt(s, i + 2) && ClosesBy(s, i + 7, e)
  }

  /** Where the tag whose name ends at `i` ends, if it is a tag. */
  function TagEnd(s: string, i: nat): (e: Option<nat>)
    requires i <= |s|
    ensures e.Some? ==> ClosesBy(s, i, e.value)
    decreases |s| - i
  {
    if i == |s| then None
    else if TagSpace(s[i]) then TagEnd(s, i + 1)
    else if s[i] == '>' then Some(i + 1)
    else None
  }

  lemma {:induction false} TagEndIsOnly(s: string, i: nat, e: nat)
    requires ClosesBy(s, i, e)
    ensures TagEnd(s, i) == Some(e)
    decreases |s| - i
  {
    if i < e - 1 {
      assert TagSpace(s[i]);
      TagEndIsOnly(s, i + 1, e);
    }
  }

  function OpenEnd(s: string, i: nat): Option<nat> {
    if i < |s| && s[i] == '<' && NameAt(s, i + 1) then TagEnd(s, i + 6) else None
  }

  function CloseEnd(s: string, i: nat): Option<nat> {
    if i + 1 < |s| && s[i] == '<' && s[i + 1] == '/' && NameAt(s, i + 2) then TagEnd(s, i + 7) else None
  }

  /** A position opens (closes) in at most one way. */
  lemma TagEndsAreUnique(s: string, i: nat, e: nat)
    ensures OpenTag(s, i, e) <==> OpenEnd(s, i) == Some(e)
    ensures CloseTag(s, i, e) <==> CloseEnd(s, i) == Some(e)
  {
    if OpenTag(s, i, e) {
      TagEndIsOnly(s, i + 6, e);
    }
    if CloseTag(s, i, e) {
      TagEndIsOnly(s, i + 7, e);
    }
  }

  method MatchName(s: string, i: nat) returns (matched: bool)
    ensures matched == NameAt(s, i)
  {
    for k := 0 to 5
      invariant i + k <= |s| || k == 0
      invariant forall j | 0 <= j < k :: s[i + j] == NAME[j] || s[i + j] == UpperOf(NAME[j])
    {
      if i + k >= |s| {
        return false;
      }
      if s[i + k] != NAME[k] && s[i + k] != UpperOf(NAME[k]) {
        return false;
      }
    }
    return true;
  }

  method MatchTagEnd(s: string, i: nat) returns (end: Option<nat>)
    requires i <= |s|
    ensures end == TagEnd(s, i)
  {
    var m := i;
    while m < |s| && TagSpace(s[m])
      invariant i <= m <= |s|
      invariant TagEnd(s, m) == TagEnd(s, i)
    {
      m := m + 1;
    }
    if m < |s| && s[m] == '>' {
      return Some(m + 1);
    }
    return None;
  }

  /** `is_open_tag`. */
  method IsOpenTag(s: string, i: nat) returns (end: Option<nat>)
    requires i < |s|
    ensures end == OpenEnd(s, i)
  {
    if i + 6 > |s| || s[i] != '<' {
      return None;
    }
    var named := MatchName(s, i + 1);
    if !named {
      return None;
    }
    end := MatchTagEnd(s, i + 6);
  }

  /** The first position from `from` on where a tag opens, or `|s|`. */
  function FirstOpen(s: string, from: nat): (i: nat)
    requires from <= |s|
    ensures from <= i <= |s| && (i < |s| ==> OpenEnd(s, i).Some?)
    ensures forall j | from <= j < i :: OpenEnd(s, j).None?
    decreases |s| - from
  {
    if from == |s| || OpenEnd(s, from).Some? then from else FirstOpen(s, from + 1)
  }

  /** The end of the first closing tag that starts at or after `from`. */
  function FirstClose(s: string, from: nat): (e: Option<nat>)
    requires from <= |s|
    ensures e.Some? ==> from + 8 <= e.value <= |s|
    decreases |s| - from
  {
    if from == |s| then None
    else if CloseEnd(s, from).Some? then CloseEnd(s, from)
    else FirstClose(s, from + 1)
  }

  lemma {:induction false} NoRoomToClose(s: string, from: nat)
    requires from <= |s| < from + 8
    ensures FirstClose(s, from) == None
    decreases |s| - from
  {
    if from < |s| {
      NoRoomToClose(s, from + 1);
    }
  }

  /** `find_close_tag`. */
  method FindCloseTag(s: string, start: nat) returns (end: Option<nat>)
    requires start <= |s|
    ensures end == FirstClose(s, start)
  {
    var i := start;
    while i + 8 <= |s|
      invariant start <= i <= |s|
      invariant FirstClose(s, i) == FirstClose(s, start)
    {
      if s[i] == '<' && s[i + 1] == '/' {
        var named := MatchName(s, i + 2);
        if named {
          end := MatchTagEnd(s, i + 7);
          if end.Some? {
            return;
          }
        }
      }
      i := i + 1;
    }
    NoRoomToClose(s, i);
    return None;
  }

  // ----- What is removed and what is kept

  datatype Range = Range(lo: nat, hi: nat)

  /** Where the block that opens at `i` ends: behind its first closing tag, or at the end. */
  function BlockEnd(s: string, i: nat): (e: nat)
    requires OpenEnd(s, i).Some?
    ensures i + 7 <= e <= |s|
  {
    var close := FirstClose(s, OpenEnd(s, i).value);
    if close.Some? then close.value else |s|
  }

  /** The removed blocks from `from` on. */
  function Blocks(s: string, from: nat): seq<Range>
    requires from <= |s|
    decreases |s| - from
  {
    var i := FirstOpen(s, from);
    if i == |s| then [] else [Range(i, BlockEnd(s, i))] + Blocks(s, BlockEnd(s, i))
  }

  /** The text between the blocks, empty stretches left out. */
  function Between(blocks: seq<Range>, from: nat, n: nat): seq<Range> {
    if blocks == [] then (if from < n then [Range(from, n)] else [])
    else (if from < blocks[0].lo then [Range(from, blocks[0].lo)] else []) + Between(blocks[1..], blocks[0].hi, n)
  }

  /** A block runs from an opening tag to the end of the first closing tag after it, or to
      the end of the text if there is none. */
  ghost predicate IsBlock(s: string, b: Range) {
    exists e: nat ::
      && OpenTag(s, b.lo, e)
      && (|| (b.hi == |s| && forall i: nat, c: nat | e <= i :: !CloseTag(s, i, c))
          || exists i: nat | e <= i ::
               CloseTag(s, i, b.hi) && forall j: nat, c: nat | e <= j < i :: !CloseTag(s, j, c))
  }

  /** No tag opens in `lo..hi`. */
  ghost predicate NothingOpens(s: string, lo: nat, hi: nat) {
    forall i: nat, e: nat | lo <= i < hi :: !OpenTag(s, i, e)
  }

  /** The blocks are those of the text from `from` on: the first starts at the first
      opening tag, each next one at the first opening tag behind the block before it. */
  ghost predicate AreBlocks(s: string, from: nat, blocks: seq<Range>)
    decreases |blocks|
  {
    if blocks == [] then NothingOpens(s, from, |s|)
    else
      var b := blocks[0];
      && from <= b.lo < b.hi <= |s|
      && NothingOpens(s, from, b.lo)
      && IsBlock(s, b)
      && AreBlocks(s, b.hi, blocks[1..])
  }

  lemma {:induction false} FirstCloseIsFirst(s: string, from: nat) returns (i: nat)
    requires from <= |s|
    ensures FirstClose(s, from).Some? ==> from <= i && CloseTag(s, i, FirstClose(s, from).value)
    ensures FirstClose(s, from).Some? ==> forall j: nat, c: nat | from <= j < i :: !CloseTag(s, j, c)
    ensures FirstClose(s, from).None? ==> forall j: nat, c: nat | from <= j :: !CloseTag(s, j, c)
    decreases |s| - from
  {
    i := from;
    forall c: nat
      ensures CloseTag(s, from, c) <==> CloseEnd(s, from) == Some(c)
    {
      TagEndsAreUnique(s, from, c);
    }
    if from < |s| && CloseEnd(s, from).None? {
      i := FirstCloseIsFirst(s, from + 1);
    }
  }

  lemma NothingOpensBeforeFirst(s: string, from: nat)
    requires from <= |s|
    ensures NothingOpens(s, from, FirstOpen(s, from))
  {
    forall i: nat, e: nat | from <= i < FirstOpen(s, from)
      ensures !OpenTag(s, i, e)
    {
      TagEndsAreUnique(s, i, e);
    }
  }

  /** The blocks the stripper finds are the blocks of the text. */
  lemma {:induction false} BlocksAreBlocks(s: string, from: nat)
    requires from <= |s|
    ensures AreBlocks(s, from, Blocks(s, from))
    decreases |s| - from
  {
    var i := FirstOpen(s, from);
    NothingOpensBeforeFirst(s, from);
    if i < |s| {
      var e := OpenEnd(s, i).value;
      TagEndsAreUnique(s, i, e);
      var c := FirstCloseIsFirst(s, e);
      assert IsBlock(s, Range(i, BlockEnd(s, i)));
      BlocksAreBlocks(s, BlockEnd(s, i));
    }
  }

  /** The ranges are in bounds, non-empty, in order and apart. */
  ghost predicate Separate(ranges: seq<Range>, from: nat, n: nat)
    decreases |ranges|
  {
    ranges == [] ||
    (from <= ranges[0].lo < ranges[0].hi <= n && Separate(ranges[1..], ranges[0].hi, n))
  }

  lemma {:induction false} BlocksAreSeparate(s: string, from: nat)
    requires from <= |s|
    ensures Separate(Blocks(s, from), from, |s|)
    decreases |s| - from
  {
    var i := FirstOpen(s, from);
    if i < |s| {
      BlocksAreSeparate(s, BlockEnd(s, i));
    }
  }

  lemma {:induction false} BetweenIsSeparate(blocks: seq<Range>, from: nat, n: nat)
    requires from <= n && Separate(blocks, from, n)
    ensures Separate(Between(blocks, from, n), from, n)
    decreases |blocks|
  {
    if blocks != [] {
      var b := blocks[0];
      BetweenIsSeparate(blocks[1..], b.hi, n);
      SeparateFromEarlier(Between(blocks[1..], b.hi, n), b.hi, if from < b.lo then b.lo else from, n);
      if from < b.lo {
        assert Between(blocks, from, n)[1..] == Between(blocks[1..], b.hi, n);
      } else {
        assert Between(blocks, from, n) == Between(blocks[1..], b.hi, n);
      }
    } else if from < n {
      assert Between(blocks, from, n)[1..] == [];
    }
  }

  lemma SeparateFromEarlier(ranges: seq<Range>, from: nat, earlier: nat, n: nat)
    requires Separate(ranges, from, n) && earlier <= from
    ensures Separate(ranges, earlier, n)
  {
  }

  /** The kept ranges of a text. */
  function Kept(s: string): seq<Range> {
    Between(Blocks(s, 0), 0, |s|)
  }

  /** `Kept` from `from` on, behind the ranges kept so far. */
  ghost function KeptOnto(s: string, from: nat, done: seq<Range>): seq<Range>
    requires from <= |s|
    decreases |s| - from
  {
    var i := FirstOpen(s, from);
    var more := if from < i then done + [Range(from, i)] else done;
    if i == |s| then more else KeptOnto(s, BlockEnd(s, i), more)
  }

  lemma {:induction false} KeptOntoAppends(s: string, from: nat, done: seq<Range>)
    requires from <= |s|
    ensures KeptOnto(s, from, done) == done + Between(Blocks(s, from), from, |s|)
    decreases |s| - from
  {
    hide FirstOpen;
    hide BlockEnd;
    var i := FirstOpen(s, from);
    if i < |s| {
      var hi := BlockEnd(s, i);
      var head := if from < i then [Range(from, i)] else [];
      var rest := Between(Blocks(s, hi), hi, |s|);
      KeptOntoAppends(s, hi, done + head);
      assert Blocks(s, from)[1..] == Blocks(s, hi);
      assert Between(Blocks(s, from), from, |s|) == head + rest;
      assert (done + head) + rest == done + (head + rest);
      assert from >= i ==> done + head == done;
    }
  }

  /** The scan of `strip_cot`. */
  method KeepRanges(s: string) returns (keep: seq<Range>)
    ensures keep == Kept(s)
  {
    keep := [];
    var cursor: nat, lastKeep: nat := 0, 0;
    while cursor < |s|
      invariant lastKeep <= cursor <= |s|
      invariant FirstOpen(s, lastKeep) == FirstOpen(s, cursor)
      invariant KeptOnto(s, lastKeep, keep) == KeptOnto(s, 0, [])
    {
      if s[cursor] == '<' {
        var open := IsOpenTag(s, cursor);
        if open.Some? {
          if cursor > lastKeep {
            keep := keep + [Range(lastKeep, cursor)];
          }
          var close := FindCloseTag(s, open.value);
          if close.Some? {
            cursor := close.value;
            lastKeep := close.value;
            continue;
          }
          lastKeep := |s|;
          break;
        }
      }
      cursor := cursor + 1;
    }
    assert lastKeep < |s| ==> FirstOpen(s, lastKeep) == |s|;
    if lastKeep < |s| {
      keep := keep + [Range(lastKeep, |s|)];
    }
    KeptOntoAppends(s, 0, []);
  }
}
