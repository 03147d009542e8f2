/** What the chain-of-thought stripper outputs: the kept text, glued and trimmed. */
module StripOutput {
  import opened StripCot
  import opened WhiteSpace
  import opened Wrappers

  // ----- The output

  function TextOf(s: string, r: Range): string
    requires r.lo <= r.hi <= |s|
  {
    s[r.lo..r.hi]
  }

  /** What stands for a removed block: a space, unless its neighbours are spaced already. */
  function Gap(before: string, after: string): string {
    if (before != [] && AsciiWhite(before[|before| - 1])) || (after != [] && AsciiWhite(after[0])) then "" else " "
  }

  ghost predicate InBounds(s: string, keep: seq<Range>) {
    forall k | 0 <= k < |keep| :: keep[k].lo < keep[k].hi <= |s|
  }

  /** The first `k` kept ranges, glued. */
  ghost function Render(s: string, keep: seq<Range>, k: nat): string
    requires InBounds(s, keep) && k <= |keep|
  {
    if k == 0 then []
    else
      var text := TextOf(s, keep[k - 1]);
      if k == 1 then text else Render(s, keep, k - 1) + Gap(TextOf(s, keep[k - 2]), text) + text
  }

  lemma {:induction false} SeparateInBounds(s: string, keep: seq<Range>, from: nat)
    requires Separate(keep, from, |s|)
    ensures InBounds(s, keep)
    decreases |keep|
  {
    if keep != [] {
      SeparateInBounds(s, keep[1..], keep[0].hi);
      assert forall k | 1 <= k < |keep| :: keep[k] == keep[1..][k - 1];
    }
  }

  /** Kept ranges are non-empty, in bounds, in order and apart. */
  lemma KeptIsSeparate(s: string)
    ensures Separate(Kept(s), 0, |s|) && InBounds(s, Kept(s))
  {
    BlocksAreSeparate(s, 0);
    BetweenIsSeparate(Blocks(s, 0), 0, |s|);
    SeparateInBounds(s, Kept(s), 0);
  }

  ghost function Glued(s: string): string {
    KeptIsSeparate(s);
    Render(s, Kept(s), |Kept(s)|)
  }

  ghost function Strip(s: string): string {
    Trim(Glued(s))
  }

  /** `strip_cot`. */
  method StripCoT(input: string) returns (out: string)
    ensures out == Strip(input)
  {
    var keep := KeepRanges(input);
    KeptIsSeparate(input);
    out := [];
    for idx := 0 to |keep|
      invariant out == Render(input, keep, idx)
    {
      var a, b := keep[idx].lo, keep[idx].hi;
      if idx > 0 {
        var prevEnd := keep[idx - 1].hi;
        var prevWs := AsciiWhite(input[prevEnd - 1]);
        var nextWs := AsciiWhite(input[a]);
        assert TextOf(input, keep[idx - 1])[prevEnd - keep[idx - 1].lo - 1] == input[prevEnd - 1];
        ghost var before := out;
        if !prevWs && !nextWs {
          out := out + " ";
        }
        assert out == before + Gap(TextOf(input, keep[idx - 1]), TextOf(input, keep[idx]));
      }
      out := out + input[a..b];
    }
    out := Trim(out);
  }

  lemma RenderOneMore(s: string, keep: seq<Range>, k: nat)
    requires InBounds(s, keep) && 0 < k < |keep|
    ensures Render(s, keep, k + 1)
            == Render(s, keep, k) + Gap(TextOf(s, keep[k - 1]), TextOf(s, keep[k])) + TextOf(s, keep[k])
  {
  }

  /** Between two neighbouring kept stretches stands one space if neither neighbour is white
      there, and nothing otherwise. */
  lemma NeighboursAreSpaced(s: string, k: nat)
    requires 0 < k < |Kept(s)| && InBounds(s, Kept(s))
    ensures
      var before, after := Kept(s)[k - 1], Kept(s)[k];
      var spaced := AsciiWhite(s[before.hi - 1]) || AsciiWhite(s[after.lo]);
      Render(s, Kept(s), k + 1)
      == Render(s, Kept(s), k) + (if spaced then "" else " ") + s[after.lo..after.hi]
  {
    hide Kept, AsciiWhite, Render;
    var before, after := Kept(s)[k - 1], Kept(s)[k];
    RenderOneMore(s, Kept(s), k);
    assert TextOf(s, before)[before.hi - before.lo - 1] == s[before.hi - 1];
  }

  // ----- Length

  /** Room for the first `k` ranges and a space behind each. */
  ghost function Weight(ranges: seq<Range>, k: nat): int
    requires k <= |ranges|
  {
    if k == 0 then 0 else Weight(ranges, k - 1) + (ranges[k - 1].hi - ranges[k - 1].lo) + 1
  }

  lemma {:induction false} WeightCons(r: Range, ranges: seq<Range>, k: nat)
    requires k <= |ranges|
    ensures Weight([r] + ranges, k + 1) == r.hi - r.lo + 1 + Weight(ranges, k)
  {
    if k > 0 {
      WeightCons(r, ranges, k - 1);
      assert ([r] + ranges)[k] == ranges[k - 1];
    }
  }

  lemma {:induction false} RenderLength(s: string, keep: seq<Range>, k: nat)
    requires InBounds(s, keep) && 1 <= k <= |keep|
    ensures |Render(s, keep, k)| <= Weight(keep, k) - 1
  {
    if k > 1 {
      RenderLength(s, keep, k - 1);
    }
  }

  lemma {:induction false} KeptWeight(s: string, from: nat)
    requires from <= |s|
    ensures
      var keep := Between(Blocks(s, from), from, |s|);
      Weight(keep, |keep|) <= |s| - from + 1 - 6 * |Blocks(s, from)|
    decreases |s| - from
  {
    var i := FirstOpen(s, from);
    var keep := Between(Blocks(s, from), from, |s|);
    if i < |s| {
      var hi := BlockEnd(s, i);
      var rest := Between(Blocks(s, hi), hi, |s|);
      KeptWeight(s, hi);
      assert Blocks(s, from)[1..] == Blocks(s, hi);
      if from < i {
        WeightCons(Range(from, i), rest, |rest|);
        assert keep == [Range(from, i)] + rest;
      } else {
        assert keep == rest;
      }
    } else if from < |s| {
      assert Weight(keep, 0) == 0;
    }
  }

  /** The output is never longer than the input, and shorter by at least six characters for
      every block removed, as far as there is anything left. */
  lemma StripShortens(s: string)
    ensures |Strip(s)| <= |s|
    ensures Strip(s) != [] ==> |Strip(s)| <= |s| - 6 * |Blocks(s, 0)|
  {
    KeptIsSeparate(s);
    KeptWeight(s, 0);
    if Kept(s) != [] {
      RenderLength(s, Kept(s), |Kept(s)|);
    }
    TrimShortens(Glued(s));
    TrimShortens(TrimStart(Glued(s)));
  }

  // ----- Text without tags

  ghost predicate HasTag(t: string) {
    exists i: nat, e: nat :: OpenTag(t, i, e)
  }

  lemma BlocksIffTag(s: string)
    ensures Blocks(s, 0) != [] <==> HasTag(s)
  {
    BlocksAreBlocks(s, 0);
    if Blocks(s, 0) != [] {
      var e: nat :| OpenTag(s, Blocks(s, 0)[0].lo, e);
    }
    if Blocks(s, 0) == [] {
      forall i: nat, e: nat
        ensures !OpenTag(s, i, e)
      {
        if i < |s| {
          assert NothingOpens(s, 0, |s|);
        }
      }
    }
  }

  /** A text without a complete opening tag is only trimmed. */
  lemma TaglessIsOnlyTrimmed(s: string)
    requires !HasTag(s)
    ensures Strip(s) == Trim(s)
  {
    BlocksIffTag(s);
    KeptIsSeparate(s);
    assert s[0..|s|] == s;
    if s == [] {
      assert Kept(s) == [];
    } else {
      assert Kept(s) == [Range(0, |s|)];
    }
  }

  lemma {:induction false} NothingOpensInKept(s: string, blocks: seq<Range>, from: nat, k: nat)
    requires from <= |s| && AreBlocks(s, from, blocks)
    requires k < |Between(blocks, from, |s|)|
    ensures
      var r := Between(blocks, from, |s|)[k];
      NothingOpens(s, r.lo, r.hi)
    decreases |blocks|
  {
    if blocks != [] {
      var head := if from < blocks[0].lo then 1 else 0;
      if k >= head {
        NothingOpensInKept(s, blocks[1..], blocks[0].hi, k - head);
      }
    }
  }

  /** No kept range holds a complete opening tag. */
  lemma KeptTextIsTagless(s: string, k: nat)
    requires InBounds(s, Kept(s)) && k < |Kept(s)|
    ensures !HasTag(TextOf(s, Kept(s)[k]))
  {
    BlocksAreBlocks(s, 0);
    NothingOpensInKept(s, Blocks(s, 0), 0, k);
    var r := Kept(s)[k];
    var t := TextOf(s, r);
    if i: nat, e: nat :| OpenTag(t, i, e) {
      TagInSlice(s, r.lo, r.hi, i, e);
    }
  }

  lemma TagInSlice(s: string, lo: nat, hi: nat, i: nat, e: nat)
    requires lo <= hi <= |s|
    ensures OpenTag(s[lo..hi], i, e) <==> lo + e <= hi && OpenTag(s, lo + i, lo + e)
  {
    var t := s[lo..hi];
    assert forall k | 0 <= k < |t| :: t[k] == s[lo + k];
    if lo + e <= hi && OpenTag(s, lo + i, lo + e) {
      forall k | i + 6 <= k < e - 1
        ensures TagSpace(t[k])
      {
        assert TagSpace(s[lo + k]);
      }
      forall k | 0 <= k < 5
        ensures t[i + 1 + k] == NAME[k] || t[i + 1 + k] == UpperOf(NAME[k])
      {
        assert s[lo + i + 1 + k] == t[i + 1 + k];
      }
    }
    if OpenTag(t, i, e) {
      forall k | lo + i + 6 <= k < lo + e - 1
        ensures TagSpace(s[k])
      {
        assert TagSpace(t[k - lo]);
      }
      forall k | 0 <= k < 5
        ensures s[lo + i + 1 + k] == NAME[k] || s[lo + i + 1 + k] == UpperOf(NAME[k])
      {
        assert s[lo + i + 1 + k] == t[i + 1 + k];
      }
    }
  }

  // ----- When the output still holds a tag

  /** The text ends in an opening tag that lacks only its `>`. */
  ghost predicate Dangling(t: string) {
    exists i: nat :: DanglesAt(t, i)
  }

  ghost predicate DanglesAt(t: string, i: nat) {
    i + 6 <= |t| && t[i] == '<' && NameAt(t, i + 1) && forall k | i + 6 <= k < |t| :: TagSpace(t[k])
  }

  /** The text begins with what such a tag lacks. */
  ghost predicate Finishing(t: string) {
    exists e: nat :: ClosesBy(t, 0, e)
  }

  /** Gluing text without a tag behind other text makes a tag exactly if one is there
      already, or the seam completes one. */
  lemma SeamMakesTagIff(x: string, y: string, gap: string)
    requires x != [] && y != [] && !HasTag(y)
    requires gap == "" || gap == " "
    requires gap == "" ==> AsciiWhite(x[|x| - 1]) || AsciiWhite(y[0])
    ensures HasTag(x + gap + y) <==> HasTag(x) || (Dangling(x) && Finishing(y))
  {
    var t, mid := x + gap + y, |x| + |gap|;
    assert t[0..|x|] == x && t[mid..|t|] == y;
    if HasTag(x) {
      var i: nat, e: nat :| OpenTag(x, i, e);
      TagInSlice(t, 0, |x|, i, e);
    }
    if Dangling(x) && Finishing(y) {
      var i: nat :| DanglesAt(x, i);
      var e: nat :| ClosesBy(y, 0, e);
      SeamTag(x, y, gap, i, e);
    }
    if HasTag(t) {
      var i: nat, e: nat :| OpenTag(t, i, e);
      TagAcrossSeam(x, y, gap, i, e);
    }
  }

  lemma NameCarriesOver(x: string, t: string, i: nat)
    requires NameAt(x, i) && i + 5 <= |t|
    requires forall k | i <= k < i + 5 :: t[k] == x[k]
    ensures NameAt(t, i)
  {
    forall k | 0 <= k < 5
      ensures t[i + k] == NAME[k] || t[i + k] == UpperOf(NAME[k])
    {
      assert t[i + k] == x[i + k];
    }
  }

  lemma TagHeadIsNotWhite(t: string, i: nat, e: nat, at: nat)
    requires OpenTag(t, i, e) && i <= at < i + 6
    ensures !AsciiWhite(t[at])
  {
    if i < at {
      assert t[i + 1 + (at - i - 1)] == NAME[at - i - 1] || t[i + 1 + (at - i - 1)] == UpperOf(NAME[at - i - 1]);
    }
  }

  lemma SeamTag(x: string, y: string, gap: string, i: nat, e: nat)
    requires gap == "" || gap == " "
    requires DanglesAt(x, i) && ClosesBy(y, 0, e)
    ensures OpenTag(x + gap + y, i, |x| + |gap| + e)
  {
    var t, mid := x + gap + y, |x| + |gap|;
    NameCarriesOver(x, t, i + 1);
    forall k | i + 6 <= k < mid + e - 1
      ensures TagSpace(t[k])
    {
      if k < |x| {
        assert t[k] == x[k];
      } else if k >= mid {
        assert t[k] == y[k - mid];
      }
    }
  }

  lemma TagAcrossSeam(x: string, y: string, gap: string, i: nat, e: nat)
    requires x != [] && y != [] && !HasTag(y)
    requires gap == "" || gap == " "
    requires gap == "" ==> AsciiWhite(x[|x| - 1]) || AsciiWhite(y[0])
    requires OpenTag(x + gap + y, i, e)
    ensures HasTag(x) || (Dangling(x) && Finishing(y))
  {
    var t, mid := x + gap + y, |x| + |gap|;
    assert t[0..|x|] == x && t[mid..|t|] == y;
    if e <= |x| {
      TagInSlice(t, 0, |x|, i, e);
    } else {
      assert i < mid by {
        if i >= mid {
          TagInSlice(t, mid, |t|, i - mid, e - mid);
        }
      }
      assert i < |x| && e > mid;
      assert i + 6 <= |x| by {
        if i + 6 > |x| {
          assert t[|x| - 1] == x[|x| - 1];
          assert gap == "" ==> t[|x|] == y[0];
          TagHeadIsNotWhite(t, i, e, |x|);
          TagHeadIsNotWhite(t, i, e, |x| - 1);
        }
      }
      assert DanglesAt(x, i) by {
        NameCarriesOver(t, x, i + 1);
        assert forall k | i + 6 <= k < |x| :: t[k] == x[k];
      }
      assert ClosesBy(y, 0, e - mid) by {
        assert forall k | 0 <= k < e - mid :: t[mid + k] == y[k];
      }
    }
  }

  ghost predicate OnlyTagSpace(t: string) {
    forall k | 0 <= k < |t| :: TagSpace(t[k])
  }

  lemma DanglesInSuffix(t: string, lo: nat, i: nat)
    requires lo <= |t|
    ensures DanglesAt(t[lo..], i) <==> DanglesAt(t, lo + i)
  {
    var u := t[lo..];
    assert forall k | 0 <= k < |u| :: u[k] == t[lo + k];
    if DanglesAt(t, lo + i) {
      forall k | 0 <= k < 5
        ensures u[i + 1 + k] == NAME[k] || u[i + 1 + k] == UpperOf(NAME[k])
      {
        assert t[lo + i + 1 + k] == u[i + 1 + k];
      }
    }
    if DanglesAt(u, i) {
      forall k | lo + i + 6 <= k < |t|
        ensures TagSpace(t[k])
      {
        assert TagSpace(u[k - lo]);
      }
      forall k | 0 <= k < 5
        ensures t[lo + i + 1 + k] == NAME[k] || t[lo + i + 1 + k] == UpperOf(NAME[k])
      {
        assert t[lo + i + 1 + k] == u[i + 1 + k];
      }
    }
  }

  /** The tag name does not reach across a seam, so glued text ends in an unfinished tag if
      its last part does, or if the part before does and the last is nothing but space. */
  lemma DanglingSeam(x: string, y: string, gap: string)
    requires x != [] && y != []
    requires gap == "" || gap == " "
    requires gap == "" ==> AsciiWhite(x[|x| - 1]) || AsciiWhite(y[0])
    ensures Dangling(x + gap + y) <==> Dangling(y) || (Dangling(x) && OnlyTagSpace(y))
  {
    var t, mid := x + gap + y, |x| + |gap|;
    assert t[mid..] == y;
    if i: nat :| DanglesAt(y, i) {
      DanglesInSuffix(t, mid, i);
    }
    if Dangling(x) && OnlyTagSpace(y) {
      var i: nat :| DanglesAt(x, i);
      NameCarriesOver(x, t, i + 1);
      assert DanglesAt(t, i) by {
        assert forall k | mid <= k < |t| :: t[k] == y[k - mid];
      }
    }
    if i: nat :| DanglesAt(t, i) {
      if i >= mid {
        DanglesInSuffix(t, mid, i - mid);
      } else {
        DanglesAcross(x, y, gap, i);
      }
    }
  }

  lemma DanglesAcross(x: string, y: string, gap: string, i: nat)
    requires x != [] && y != [] && i < |x| + |gap|
    requires gap == "" || gap == " "
    requires gap == "" ==> AsciiWhite(x[|x| - 1]) || AsciiWhite(y[0])
    requires DanglesAt(x + gap + y, i)
    ensures Dangling(x) && OnlyTagSpace(y)
  {
    var t, mid := x + gap + y, |x| + |gap|;
    assert t[mid..] == y && t[..|x|] == x && i < |x|;
    assert t[|x| - 1] == x[|x| - 1];
    assert gap == "" ==> t[|x|] == y[0];
    DanglingHeadIsNotWhite(t, i, |x| - 1);
    DanglingHeadIsNotWhite(t, i, |x|);
    assert i + 6 <= |x|;
    NameCarriesOver(t, x, i + 1);
    assert DanglesAt(x, i);
    forall k | 0 <= k < |y|
      ensures TagSpace(y[k])
    {
      assert t[mid + k] == y[k];
    }
  }

  lemma DanglingHeadIsNotWhite(t: string, i: nat, at: nat)
    requires DanglesAt(t, i) && i <= at
    ensures at < i + 6 ==> !AsciiWhite(t[at])
  {
    if i < at < i + 6 {
      assert t[i + 1 + (at - i - 1)] == NAME[at - i - 1] || t[i + 1 + (at - i - 1)] == UpperOf(NAME[at - i - 1]);
    }
  }

  /** Range `r` ends in an unfinished tag, and nothing but space is kept from there to
      range `k`. */
  ghost predicate DanglesUpTo(s: string, keep: seq<Range>, r: nat, k: nat)
    requires InBounds(s, keep)
  {
    && r < k <= |keep| && Dangling(TextOf(s, keep[r]))
    && forall j | r < j < k :: OnlyTagSpace(TextOf(s, keep[j]))
  }

  ghost predicate LeftOpen(s: string, keep: seq<Range>, k: nat)
    requires InBounds(s, keep)
  {
    exists r :: DanglesUpTo(s, keep, r, k)
  }

  /** The kept ranges of the input before range `k` leave a tag unfinished, and range `k`
      begins with what it lacks. */
  ghost predicate SeamAt(s: string, keep: seq<Range>, k: nat)
    requires InBounds(s, keep)
  {
    1 <= k < |keep| && LeftOpen(s, keep, k) && Finishing(TextOf(s, keep[k]))
  }

  lemma LeftOpenIff(s: string, keep: seq<Range>, k: nat)
    requires InBounds(s, keep) && k < |keep|
    ensures LeftOpen(s, keep, k + 1) <==>
            Dangling(TextOf(s, keep[k])) || (LeftOpen(s, keep, k) && OnlyTagSpace(TextOf(s, keep[k])))
  {
    hide Dangling, OnlyTagSpace;
    if Dangling(TextOf(s, keep[k])) {
      assert DanglesUpTo(s, keep, k, k + 1);
    }
    if r: nat :| DanglesUpTo(s, keep, r, k) && OnlyTagSpace(TextOf(s, keep[k])) {
      assert DanglesUpTo(s, keep, r, k + 1);
    }
    if LeftOpen(s, keep, k + 1) {
      var r: nat :| DanglesUpTo(s, keep, r, k + 1);
      assert r < k ==> DanglesUpTo(s, keep, r, k);
    }
  }

  lemma RenderEnd(s: string, keep: seq<Range>, k: nat)
    requires InBounds(s, keep) && 1 <= k <= |keep|
    ensures var x, y := Render(s, keep, k), TextOf(s, keep[k - 1]);
      x != [] && y != [] && x[|x| - 1] == y[|y| - 1]
  {
  }

  lemma {:induction false} RenderDanglesIff(s: string, keep: seq<Range>, k: nat)
    requires InBounds(s, keep) && 1 <= k <= |keep|
    ensures Dangling(Render(s, keep, k)) <==> LeftOpen(s, keep, k)
  {
    hide Dangling, OnlyTagSpace, DanglesUpTo, LeftOpen, Render, TextOf;
    LeftOpenIff(s, keep, k - 1);
    if k == 1 {
      NothingLeftOpen(s, keep);
      RenderOne(s, keep);
    } else {
      RenderDanglesIff(s, keep, k - 1);
      LastDanglesIff(s, keep, k);
    }
  }

  lemma LastDanglesIff(s: string, keep: seq<Range>, k: nat)
    requires InBounds(s, keep) && 2 <= k <= |keep|
    ensures
      var y := TextOf(s, keep[k - 1]);
      Dangling(Render(s, keep, k)) <==> Dangling(y) || (Dangling(Render(s, keep, k - 1)) && OnlyTagSpace(y))
  {
    hide Dangling, OnlyTagSpace;
    RenderEnd(s, keep, k - 1);
    var x, prev, y := Render(s, keep, k - 1), TextOf(s, keep[k - 2]), TextOf(s, keep[k - 1]);
    DanglingSeam(x, y, Gap(prev, y));
  }

  lemma NothingLeftOpen(s: string, keep: seq<Range>)
    requires InBounds(s, keep)
    ensures !LeftOpen(s, keep, 0)
  {
  }

  lemma RenderStep(s: string, keep: seq<Range>, k: nat)
    requires InBounds(s, keep) && 1 <= k < |keep|
    requires !HasTag(TextOf(s, keep[k]))
    ensures HasTag(Render(s, keep, k + 1)) <==> HasTag(Render(s, keep, k)) || SeamAt(s, keep, k)
  {
    hide HasTag, Dangling, Finishing, LeftOpen;
    RenderEnd(s, keep, k);
    RenderDanglesIff(s, keep, k);
    var x, prev, y := Render(s, keep, k), TextOf(s, keep[k - 1]), TextOf(s, keep[k]);
    SeamMakesTagIff(x, y, Gap(prev, y));
  }

  lemma RenderOne(s: string, keep: seq<Range>)
    requires InBounds(s, keep) && keep != []
    ensures Render(s, keep, 1) == TextOf(s, keep[0])
  {
  }

  lemma {:induction false} RenderHasTagIff(s: string, keep: seq<Range>, k: nat)
    requires InBounds(s, keep) && 1 <= k <= |keep|
    requires forall j | 0 <= j < |keep| :: !HasTag(TextOf(s, keep[j]))
    ensures HasTag(Render(s, keep, k)) <==> exists j | 1 <= j < k :: SeamAt(s, keep, j)
  {
    hide HasTag, SeamAt, Render;
    if k > 1 {
      RenderHasTagIff(s, keep, k - 1);
      RenderStep(s, keep, k - 1);
      if j :| 1 <= j < k && SeamAt(s, keep, j) {
        assert j == k - 1 || j < k - 1;
      }
    } else {
      assert Render(s, keep, 1) == TextOf(s, keep[0]) by {
        RenderOne(s, keep);
      }
    }
  }

  lemma {:induction false} TrimKeepsTags(t: string)
    ensures HasTag(TrimStart(t)) <==> HasTag(t)
    ensures HasTag(TrimEnd(t)) <==> HasTag(t)
  {
    if t != [] && White(t[0]) {
      TrimKeepsTags(t[1..]);
      assert t[1..|t|] == t[1..];
      OuterWhiteHoldsNoTag(t, 1, |t|);
    }
    if t != [] && White(t[|t| - 1]) {
      TrimKeepsTags(t[..|t| - 1]);
      assert t[0..|t| - 1] == t[..|t| - 1];
      OuterWhiteHoldsNoTag(t, 0, |t| - 1);
    }
  }

  lemma OuterWhiteHoldsNoTag(t: string, lo: nat, hi: nat)
    requires lo <= hi <= |t| && |t| <= hi - lo + 1 && t != []
    requires lo == 1 ==> White(t[0])
    requires hi == |t| - 1 ==> White(t[|t| - 1])
    ensures HasTag(t[lo..hi]) <==> HasTag(t)
  {
    if HasTag(t[lo..hi]) {
      var i: nat, e: nat :| OpenTag(t[lo..hi], i, e);
      TagInSlice(t, lo, hi, i, e);
    }
    if HasTag(t) {
      var i: nat, e: nat :| OpenTag(t, i, e);
      assert lo <= i && e <= hi;
      TagInSlice(t, lo, hi, i - lo, e - lo);
    }
  }

  /** The output is meant to be free of tags. It holds one exactly if some kept range ends in
      an unfinished tag, the ranges kept behind it are nothing but space, and the next one
      begins with what the tag lacks. */
  lemma OutputHasTagIff(s: string)
    ensures InBounds(s, Kept(s))
    ensures HasTag(Strip(s)) <==> exists k :: SeamAt(s, Kept(s), k)
  {
    KeptIsSeparate(s);
    var keep := Kept(s);
    forall j | 0 <= j < |keep|
      ensures !HasTag(TextOf(s, keep[j]))
    {
      KeptTextIsTagless(s, j);
    }
    if keep != [] {
      RenderHasTagIff(s, keep, |keep|);
    }
    TrimKeepsTags(Glued(s));
    TrimKeepsTags(TrimStart(Glued(s)));
  }

  /** Stripping again changes nothing exactly if no kept ranges put a tag together. */
  lemma StripIsIdempotentIff(s: string)
    ensures InBounds(s, Kept(s))
    ensures Strip(Strip(s)) == Strip(s) <==> forall k :: !SeamAt(s, Kept(s), k)
  {
    var t := Strip(s);
    OutputHasTagIff(s);
    hide SeamAt, HasTag;
    if HasTag(t) {
      BlocksIffTag(t);
      StripShortens(t);
    } else {
      TaglessIsOnlyTrimmed(t);
      TrimTwice(Glued(s));
    }
  }

  /** The two halves of a tag around a block. */
  const LEAKY: string := "<think<think>x</think>>"

  lemma LeakyOpens()
    ensures OpenEnd(LEAKY, 6) == Some(13) && FirstOpen(LEAKY, 0) == 6
  {
    assert NameAt(LEAKY, 7) && ClosesBy(LEAKY, 12, 13);
    TagEndsAreUnique(LEAKY, 6, 13);
    assert TagEnd(LEAKY, 6) == None;
    assert forall j | 1 <= j < 6 :: LEAKY[j] != '<';
    assert forall j | 0 <= j < 6 :: OpenEnd(LEAKY, j).None?;
  }

  lemma LeakyCloses()
    ensures FirstClose(LEAKY, 13) == Some(22) && FirstOpen(LEAKY, 22) == 23
  {
    assert NameAt(LEAKY, 16) && ClosesBy(LEAKY, 21, 22);
    TagEndsAreUnique(LEAKY, 14, 22);
  }

  lemma LeakyBlock()
    ensures Blocks(LEAKY, 0) == [Range(6, 22)]
  {
    hide OpenEnd, FirstOpen, FirstClose;
    LeakyOpens();
    LeakyCloses();
  }

  const LEAKY_KEPT: seq<Range> := [Range(0, 6), Range(22, 23)]

  lemma LeakyKept()
    ensures Kept(LEAKY) == LEAKY_KEPT
  {
    LeakyBlock();
    assert Between([], 22, 23) == [Range(22, 23)];
    assert [Range(6, 22)][1..] == [];
  }

  /** Such an input, although every occurrence is meant to be stripped. */
  lemma StrippedTextCanHoldTag()
    ensures HasTag(Strip(LEAKY))
  {
    hide Kept;
    LeakyKept();
    KeptIsSeparate(LEAKY);
    assert TextOf(LEAKY, LEAKY_KEPT[0]) == "<think" && TextOf(LEAKY, LEAKY_KEPT[1]) == ">";
    assert DanglesAt("<think", 0) && ClosesBy(">", 0, 1);
    assert DanglesUpTo(LEAKY, LEAKY_KEPT, 0, 1);
    assert SeamAt(LEAKY, LEAKY_KEPT, 1);
    OutputHasTagIff(LEAKY);
  }
}
