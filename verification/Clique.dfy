/** The agreeing-clique search of the RLM quorum: a sweep over every non-empty
    bitmask of candidates, keeping the largest set whose members agree pairwise and,
    among sets of equal size, the one whose weakest pair is strongest. */
module Clique {

  /** A double that may still hold the sentinel it was initialised with. */
  datatype Bound = NegInf | Num(value: real) | PosInf {
    predicate Below(that: Bound) {
      match (this, that)
      case (NegInf, NegInf) => false
      case (NegInf, _) => true
      case (Num(_), PosInf) => true
      case (Num(x), Num(y)) => x < y
      case _ => false
    }

    function Min(that: Bound): Bound {
      if that.Below(this) then that else this
    }
  }

  type Matrix = seq<seq<real>>

  predicate Square(sims: Matrix) {
    forall i | 0 <= i < |sims| :: |sims[i]| == |sims|
  }

  // ----- Masks and the sets they denote

  function Pow2(n: nat): (p: nat)
    ensures p >= 1
  {
    if n == 0 then 1 else 2 * Pow2(n - 1)
  }

  /** Whether bit `i` of `mask` is set: the lowest bit after shifting right `i` times. */
  predicate Bit(mask: nat, i: nat) {
    if i == 0 then mask % 2 == 1 else Bit(mask / 2, i - 1)
  }

  /** The indices below `n` whose bit is set, in increasing order. */
  function Members(mask: nat, n: nat): seq<nat> {
    if n == 0 then [] else
    Members(mask, n - 1) + if Bit(mask, n - 1) then [n - 1] else []
  }

  /** A set of candidates, written as its strictly increasing list of indices. */
  ghost predicate IndexList(s: seq<nat>, n: nat) {
    && (forall i | 0 <= i < |s| :: s[i] < n)
    && (forall i, j | 0 <= i < j < |s| :: s[i] < s[j])
  }

  /** The mask of a set of indices below `n`. */
  ghost function MaskOf(s: seq<nat>, n: nat): nat {
    if n == 0 then 0
    else if s != [] && s[|s| - 1] == n - 1 then Pow2(n - 1) + MaskOf(s[..|s| - 1], n - 1)
    else MaskOf(s, n - 1)
  }

  lemma {:induction false} HighBit(mask: nat, n: nat, i: nat)
    requires mask < Pow2(n) && i <= n
    ensures !Bit(mask, n)
    ensures Bit(mask + Pow2(n), i) == (i == n || Bit(mask, i))
  {
    if n > 0 {
      assert (mask + Pow2(n)) / 2 == mask / 2 + Pow2(n - 1);
      HighBit(mask / 2, n - 1, if i == 0 then 0 else i - 1);
    }
  }

  lemma {:induction false} MembersIgnoreHighBit(mask: nat, n: nat, k: nat)
    requires mask < Pow2(n) && k <= n
    ensures Members(mask + Pow2(n), k) == Members(mask, k)
  {
    if k > 0 {
      HighBit(mask, n, k - 1);
      MembersIgnoreHighBit(mask, n, k - 1);
    }
  }

  /** Every mask denotes a set ... */
  lemma {:induction false} MembersAreASet(mask: nat, n: nat)
    ensures IndexList(Members(mask, n), n)
  {
    if n > 0 {
      MembersAreASet(mask, n - 1);
    }
  }

  /** ... whose members are its set bits. */
  lemma {:induction false} MembersAreTheBits(mask: nat, n: nat, i: nat)
    requires i < n
    ensures Bit(mask, i) <==> i in Members(mask, n)
  {
    if i == n - 1 {
      MembersAreASet(mask, n - 1);
    } else {
      MembersAreTheBits(mask, n - 1, i);
    }
  }

  /** Every set has a mask below `Pow2(n)` that denotes it, so the sweep misses none. */
  lemma {:induction false} MaskDenotesSet(s: seq<nat>, n: nat)
    requires IndexList(s, n)
    ensures MaskOf(s, n) < Pow2(n)
    ensures Members(MaskOf(s, n), n) == s
  {
    if n == 0 {
      assert s == [];
    } else if s != [] && s[|s| - 1] == n - 1 {
      var front := s[..|s| - 1];
      assert s == front + [n - 1];
      MaskDenotesSet(front, n - 1);
      var low := MaskOf(front, n - 1);
      HighBit(low, n - 1, n - 1);
      MembersIgnoreHighBit(low, n - 1, n - 1);
    } else {
      MaskDenotesSet(s, n - 1);
      HighBit(MaskOf(s, n - 1), n - 1, n - 1);
    }
  }

  /** Every mask below `Pow2(n)` is the mask of the set it denotes: with
      `MaskDenotesSet`, masks and sets correspond one to one. */
  lemma {:induction false} SetDeterminesMask(mask: nat, n: nat)
    requires mask < Pow2(n)
    ensures MaskOf(Members(mask, n), n) == mask
  {
    if n > 0 {
      var high := Pow2(n - 1);
      var low := if mask >= high then mask - high else mask;
      var rest := Members(low, n - 1);
      HighBit(low, n - 1, n - 1);
      SetDeterminesMask(low, n - 1);
      assert rest == [] || rest[|rest| - 1] != n - 1 by {
        MembersAreASet(low, n - 1);
      }
      if mask >= high {
        MembersIgnoreHighBit(low, n - 1, n - 1);
        assert (rest + [n - 1])[..|rest|] == rest;
      } else {
        assert rest + [] == rest;
      }
    }
  }

  // ----- What the sweep looks for

  predicate AllAtLeast(sims: Matrix, threshold: real, s: seq<nat>)
    requires Square(sims)
    requires forall i | 0 <= i < |s| :: s[i] < |sims|
  {
    forall a, b | 0 <= a < b < |s| :: sims[s[a]][s[b]] >= threshold
  }

  /** At least two candidates, every pair at or above the threshold. */
  ghost predicate Agreeing(sims: Matrix, threshold: real, s: seq<nat>)
    requires Square(sims)
  {
    && |s| >= 2
    && IndexList(s, |sims|)
    && AllAtLeast(sims, threshold, s)
  }

  /** The weakest similarity among the pairs `(a, j)` with `a < j < b`. */
  function RowMin(sims: Matrix, s: seq<nat>, a: nat, b: nat): Bound
    requires Square(sims) && a < |s| && b <= |s|
    requires forall i | 0 <= i < |s| :: s[i] < |sims|
  {
    if b <= a + 1 then PosInf else RowMin(sims, s, a, b - 1).Min(Num(sims[s[a]][s[b - 1]]))
  }

  /** The weakest similarity among the pairs whose first position is below `a`. */
  function PairMin(sims: Matrix, s: seq<nat>, a: nat): Bound
    requires Square(sims) && a <= |s|
    requires forall i | 0 <= i < |s| :: s[i] < |sims|
  {
    if a == 0 then PosInf else PairMin(sims, s, a - 1).Min(RowMin(sims, s, a - 1, |s|))
  }

  function Weakest(sims: Matrix, s: seq<nat>): Bound
    requires Square(sims)
    requires forall i | 0 <= i < |s| :: s[i] < |sims|
  {
    PairMin(sims, s, |s|)
  }

  lemma {:induction false} RowMinMeaning(sims: Matrix, s: seq<nat>, a: nat, b: nat)
    requires Square(sims) && a < |s| && b <= |s|
    requires forall i | 0 <= i < |s| :: s[i] < |sims|
    ensures forall j | a < j < b :: !Num(sims[s[a]][s[j]]).Below(RowMin(sims, s, a, b))
    ensures RowMin(sims, s, a, b) == PosInf ||
            exists j | a < j < b :: RowMin(sims, s, a, b) == Num(sims[s[a]][s[j]])
    ensures a + 1 < b ==> RowMin(sims, s, a, b).Num?
  {
    if b > a + 1 {
      RowMinMeaning(sims, s, a, b - 1);
    }
  }

  lemma {:induction false} PairMinIsLowerBound(sims: Matrix, s: seq<nat>, a: nat, i: nat, j: nat)
    requires Square(sims) && i < a <= |s| && i < j < |s|
    requires forall k | 0 <= k < |s| :: s[k] < |sims|
    ensures !Num(sims[s[i]][s[j]]).Below(PairMin(sims, s, a))
  {
    if i == a - 1 {
      RowMinMeaning(sims, s, i, |s|);
    } else {
      PairMinIsLowerBound(sims, s, a - 1, i, j);
    }
  }

  lemma {:induction false} PairMinIsAttained(sims: Matrix, s: seq<nat>, a: nat) returns (i: nat, j: nat)
    requires Square(sims) && 0 < a <= |s| && |s| >= 2
    requires forall k | 0 <= k < |s| :: s[k] < |sims|
    ensures i < j < |s| && PairMin(sims, s, a) == Num(sims[s[i]][s[j]])
  {
    RowMinMeaning(sims, s, a - 1, |s|);
    var row, rest := RowMin(sims, s, a - 1, |s|), PairMin(sims, s, a - 1);
    if a > 1 && (row == PosInf || row.Below(rest) == false) {
      i, j := PairMinIsAttained(sims, s, a - 1);
    }
    if PairMin(sims, s, a) == row {
      i := a - 1;
      j :| a - 1 < j < |s| && row == Num(sims[s[a - 1]][s[j]]);
    }
  }

  /** `Weakest` of a set with a pair is the similarity of one of its pairs, and no pair
      is weaker. */
  lemma WeakestMeaning(sims: Matrix, s: seq<nat>)
    requires Square(sims) && IndexList(s, |sims|) && |s| >= 2
    ensures exists a, b | 0 <= a < b < |s| :: Weakest(sims, s) == Num(sims[s[a]][s[b]])
    ensures forall a, b | 0 <= a < b < |s| :: !Num(sims[s[a]][s[b]]).Below(Weakest(sims, s))
  {
    var a, b := PairMinIsAttained(sims, s, |s|);
    forall a, b | 0 <= a < b < |s|
      ensures !Num(sims[s[a]][s[b]]).Below(Weakest(sims, s))
    {
      PairMinIsLowerBound(sims, s, |s|, a, b);
    }
  }

  /** How a set competes: by size, then by its weakest pair, then by the earlier mask. */
  datatype Rank = Rank(size: nat, weakest: Bound, mask: nat) {
    predicate AtMost(that: Rank) {
      || size < that.size
      || (size == that.size &&
          (weakest.Below(that.weakest) || (weakest == that.weakest && that.mask <= mask)))
    }
  }

  ghost function RankOf(sims: Matrix, s: seq<nat>): Rank
    requires Square(sims) && IndexList(s, |sims|)
  {
    Rank(|s|, Weakest(sims, s), MaskOf(s, |sims|))
  }

  /** `best` is chosen over `s`. */
  ghost predicate Preferred(sims: Matrix, best: seq<nat>, s: seq<nat>)
    requires Square(sims) && IndexList(best, |sims|) && IndexList(s, |sims|)
  {
    RankOf(sims, s).AtMost(RankOf(sims, best))
  }

  /** What the search promises. It names exactly one list, see `BestCliqueIsUnique`. */
  ghost predicate IsBestClique(sims: Matrix, threshold: real, best: seq<nat>)
    requires Square(sims)
  {
    if best == [] then
      forall i, j | 0 <= i < j < |sims| :: sims[i][j] < threshold
    else
      && Agreeing(sims, threshold, best)
      && forall s | Agreeing(sims, threshold, s) :: Preferred(sims, best, s)
  }

  // ----- The sweep itself

  /** The best set so far together with the similarity of its weakest pair. */
  datatype Found = Found(members: seq<nat>, weakest: Bound)

  ghost function Consider(sims: Matrix, threshold: real, found: Found, s: seq<nat>): Found
    requires Square(sims)
    requires forall i | 0 <= i < |s| :: s[i] < |sims|
  {
    if && |s| >= 2
       && AllAtLeast(sims, threshold, s)
       && (|s| > |found.members| ||
           (|s| == |found.members| && found.weakest.Below(Weakest(sims, s))))
    then Found(s, Weakest(sims, s))
    else found
  }

  /** What has been found after looking at the masks from 1 up to, not including, `k`. */
  ghost function Sweep(sims: Matrix, threshold: real, k: nat): Found
    requires Square(sims)
  {
    if k <= 1 then Found([], NegInf)
    else
      MembersAreASet(k - 1, |sims|);
      Consider(sims, threshold, Sweep(sims, threshold, k - 1), Members(k - 1, |sims|))
  }

  /** If mask `m` denotes an agreeing set, `best` is chosen over it. */
  ghost predicate Covered(sims: Matrix, threshold: real, best: seq<nat>, m: nat)
    requires Square(sims) && IndexList(best, |sims|)
  {
    var s := Members(m, |sims|);
    Agreeing(sims, threshold, s) ==> best != [] && Preferred(sims, best, s)
  }

  ghost predicate SweptBest(sims: Matrix, threshold: real, k: nat, found: Found)
    requires Square(sims)
  {
    && IndexList(found.members, |sims|)
    && (if found.members == [] then found.weakest == NegInf
        else
          && Agreeing(sims, threshold, found.members)
          && found.weakest == Weakest(sims, found.members)
          && MaskOf(found.members, |sims|) < k)
    && forall m | 1 <= m < k :: Covered(sims, threshold, found.members, m)
  }

  lemma {:induction false} SweepKeepsBest(sims: Matrix, threshold: real, k: nat)
    requires Square(sims) && k <= Pow2(|sims|)
    ensures SweptBest(sims, threshold, k, Sweep(sims, threshold, k))
  {
    if k > 1 {
      SweepKeepsBest(sims, threshold, k - 1);
      var before, s := Sweep(sims, threshold, k - 1), Members(k - 1, |sims|);
      MembersAreASet(k - 1, |sims|);
      SetDeterminesMask(k - 1, |sims|);
      ConsiderKeepsBest(sims, threshold, k, before, s);
    }
  }

  lemma ConsiderKeepsBest(sims: Matrix, threshold: real, k: nat, before: Found, s: seq<nat>)
    requires Square(sims) && 1 < k <= Pow2(|sims|)
    requires s == Members(k - 1, |sims|) && IndexList(s, |sims|) && MaskOf(s, |sims|) == k - 1
    requires SweptBest(sims, threshold, k - 1, before)
    ensures SweptBest(sims, threshold, k, Consider(sims, threshold, before, s))
  {
    var after := Consider(sims, threshold, before, s);
    ConsiderPrefers(sims, threshold, before, s);
    forall m | 1 <= m < k
      ensures Covered(sims, threshold, after.members, m)
    {
      if m < k - 1 {
        CoverageGrows(sims, threshold, before.members, after.members, m);
      }
    }
  }

  /** The step keeps what was found unless the new set is preferred to it. */
  lemma ConsiderPrefers(sims: Matrix, threshold: real, before: Found, s: seq<nat>)
    requires Square(sims) && IndexList(s, |sims|) && IndexList(before.members, |sims|)
    requires before.members != [] ==> before.weakest == Weakest(sims, before.members)
    requires before.members != [] ==> MaskOf(before.members, |sims|) < MaskOf(s, |sims|)
    ensures
      var after := Consider(sims, threshold, before, s);
      && IndexList(after.members, |sims|)
      && (before.members == [] || before == after || Preferred(sims, after.members, before.members))
      && (Agreeing(sims, threshold, s) ==> after.members != [] && Preferred(sims, after.members, s))
  {
  }

  lemma CoverageGrows(sims: Matrix, threshold: real, best: seq<nat>, better: seq<nat>, m: nat)
    requires Square(sims) && IndexList(best, |sims|) && IndexList(better, |sims|)
    requires Covered(sims, threshold, best, m)
    requires best == [] || best == better || Preferred(sims, better, best)
    ensures Covered(sims, threshold, better, m)
  {
    if Agreeing(sims, threshold, Members(m, |sims|)) && best != better {
      ghost var r := RankOf(sims, Members(m, |sims|));
      assert r.AtMost(RankOf(sims, best)) && RankOf(sims, best).AtMost(RankOf(sims, better));
    }
  }

  /** The complete sweep meets the promise: no agreeing set is preferred to its result. */
  lemma SweepFindsBestClique(sims: Matrix, threshold: real)
    requires Square(sims)
    ensures IsBestClique(sims, threshold, Sweep(sims, threshold, Pow2(|sims|)).members)
  {
    var best := Sweep(sims, threshold, Pow2(|sims|)).members;
    SweepKeepsBest(sims, threshold, Pow2(|sims|));
    forall s | Agreeing(sims, threshold, s)
      ensures best != [] && Preferred(sims, best, s)
    {
      NonEmptyMask(s, |sims|);
      assert Covered(sims, threshold, best, MaskOf(s, |sims|));
    }
    forall i: nat, j: nat | i < j < |sims| && sims[i][j] >= threshold
      ensures best != []
    {
      assert Agreeing(sims, threshold, [i, j]);
    }
  }

  lemma NonEmptyMask(s: seq<nat>, n: nat)
    requires IndexList(s, n) && s != []
    ensures 1 <= MaskOf(s, n) < Pow2(n)
    ensures Members(MaskOf(s, n), n) == s
  {
    MaskDenotesSet(s, n);
    NoMembers(n);
  }

  lemma {:induction false} NoMembers(n: nat)
    ensures Members(0, n) == []
  {
    if n > 0 {
      NoMembers(n - 1);
      HighBit(0, n - 1, n - 1);
    }
  }

  /** The search comes back empty exactly when no pair reaches the threshold. */
  lemma EmptyIffNoPairAgrees(sims: Matrix, threshold: real, best: seq<nat>)
    requires Square(sims) && IsBestClique(sims, threshold, best)
    ensures best == [] <==> forall i, j | 0 <= i < j < |sims| :: sims[i][j] < threshold
  {
    if best != [] {
      assert sims[best[0]][best[1]] >= threshold;
    }
  }

  /** The promise leaves no choice. */
  lemma BestCliqueIsUnique(sims: Matrix, threshold: real, s: seq<nat>, t: seq<nat>)
    requires Square(sims)
    requires IsBestClique(sims, threshold, s) && IsBestClique(sims, threshold, t)
    ensures s == t
  {
    EmptyIffNoPairAgrees(sims, threshold, s);
    EmptyIffNoPairAgrees(sims, threshold, t);
    if s != [] {
      MaskDenotesSet(s, |sims|);
      MaskDenotesSet(t, |sims|);
    }
  }

  /** `best_agreeing_clique`. A `u32` mask has room for 31 candidates below `1 << n`. */
  method BestAgreeingClique(sims: Matrix, threshold: real) returns (best: seq<nat>)
    requires Square(sims) && |sims| <= 31
    ensures best == Sweep(sims, threshold, Pow2(|sims|)).members
    ensures IsBestClique(sims, threshold, best)
  {
    var n := |sims|;
    if n < 2 {
      best := [];
    } else {
      best := SweepMasks(sims, threshold);
    }
    SweepFindsBestClique(sims, threshold);
    EmptyIffNoPairAgrees(sims, threshold, Sweep(sims, threshold, Pow2(n)).members);
  }

  method SweepMasks(sims: Matrix, threshold: real) returns (best: seq<nat>)
    requires Square(sims) && 2 <= |sims| <= 31
    ensures best == Sweep(sims, threshold, Pow2(|sims|)).members
  {
    hide Members, AllAtLeast, Weakest;
    var n := |sims|;
    best := [];
    var bestSize, bestMin := 0, NegInf;
    var mask, limit := 1, Pow2(n);
    while mask < limit
      invariant 1 <= mask <= limit
      invariant Found(best, bestMin) == Sweep(sims, threshold, mask)
      invariant bestSize == |best|
    {
      var members := Members(mask, n);
      MembersAreASet(mask, n);
      mask := mask + 1;
      if |members| < 2 {
        continue;
      }
      var ok, minSim := WeighPairs(sims, threshold, members);
      if ok && (|members| > bestSize || (|members| == bestSize && bestMin.Below(minSim))) {
        bestSize := |members|;
        bestMin := minSim;
        best := members;
      }
    }
  }

  /** The two inner loops of the sweep: does every pair agree, and how weak is the
      weakest. */
  method WeighPairs(sims: Matrix, threshold: real, members: seq<nat>) returns (ok: bool, minSim: Bound)
    requires Square(sims)
    requires forall i | 0 <= i < |members| :: members[i] < |sims|
    ensures ok == AllAtLeast(sims, threshold, members)
    ensures minSim == Weakest(sims, members)
  {
    ok, minSim := true, PosInf;
    for a := 0 to |members|
      invariant ok == forall i, j | 0 <= i < a && i < j < |members| :: sims[members[i]][members[j]] >= threshold
      invariant minSim == PairMin(sims, members, a)
    {
      ok, minSim := WeighRow(sims, threshold, members, a, ok, minSim);
    }
  }

  method WeighRow(sims: Matrix, threshold: real, members: seq<nat>, a: nat, ok0: bool, min0: Bound)
    returns (ok: bool, minSim: Bound)
    requires Square(sims) && a < |members|
    requires forall i | 0 <= i < |members| :: members[i] < |sims|
    ensures ok == (ok0 && forall j | a < j < |members| :: sims[members[a]][members[j]] >= threshold)
    ensures minSim == min0.Min(RowMin(sims, members, a, |members|))
  {
    ok, minSim := ok0, min0;
    for b := a + 1 to |members|
      invariant ok == (ok0 && forall j | a < j < b :: sims[members[a]][members[j]] >= threshold)
      invariant minSim == min0.Min(RowMin(sims, members, a, b))
    {
      var s := sims[members[a]][members[b]];
      if s < threshold {
        ok := false;
      }
      minSim := minSim.Min(Num(s));
    }
  }
}
