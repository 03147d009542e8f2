/** Which sets of candidates the decision can accept at all, and when any two of them have
    to share more members than there can be liars. */
module Quorums {
  import opened Clique
  import opened Consensus
  import opened Lists
  import opened Similarity

  /** The smallest set a decision for `n` volunteers accepts: the search never returns a
      single candidate. */
  function QuorumSize(n: nat): nat {
    if n == 1 || MinClique(n) >= 2 then MinClique(n) else 2
  }

  /** Some round of `m` candidate vectors has `s` as its accepted set. */
  ghost predicate Acceptable(sqrt: real -> real, threshold: real, n: nat, m: nat, s: seq<nat>) {
    exists vectors: seq<Vector> :: AcceptedIn(sqrt, threshold, n, m, vectors, s)
  }

  ghost predicate AcceptedIn(sqrt: real -> real, threshold: real, n: nat, m: nat, vectors: seq<Vector>, s: seq<nat>) {
    && |vectors| == m && SameDims(vectors)
    && s == AgreedSet(Similarities(sqrt, vectors), threshold, n)
    && Accepts(n, s)
  }

  // ----- Unit vectors

  function Basis(i: nat, dims: nat): Vector {
    seq(dims, k => if k == i then 1.0 else 0.0)
  }

  lemma {:induction false} DotBasis(i: nat, j: nat, dims: nat)
    ensures Dot(Basis(i, dims), Basis(j, dims)) == if i == j && i < dims then 1.0 else 0.0
  {
    if dims > 0 {
      assert Basis(i, dims)[..dims - 1] == Basis(i, dims - 1);
      assert Basis(j, dims)[..dims - 1] == Basis(j, dims - 1);
      DotBasis(i, j, dims - 1);
    }
  }

  lemma OneIsItsRoot(x: real)
    requires x >= 0.0 && x * x == 1.0
    ensures x == 1.0
  {
    assert (x - 1.0) * (x + 1.0) == 0.0;
    assert x - 1.0 == (x - 1.0) * (x + 1.0) / (x + 1.0);
  }

  lemma UnitCosine(sqrt: real -> real, a: Vector, b: Vector)
    requires IsRoot(sqrt) && |a| == |b| > 0
    requires Dot(a, a) == Dot(b, b) == 1.0 && -1.0 <= Dot(a, b) <= 1.0
    ensures Cosine(sqrt, a, b) == Dot(a, b)
  {
    hide Dot;
    OneIsItsRoot(sqrt(1.0));
  }

  // ----- Every large enough set is accepted in some round

  /** Members of `s` all say the same, everybody else something of their own. */
  function Planted(s: seq<nat>, m: nat): seq<Vector> {
    seq(m, i requires 0 <= i < m => Basis(if i in s then 0 else i + 1, m + 1))
  }

  lemma PlantedSimilarity(sqrt: real -> real, s: seq<nat>, m: nat, i: nat, j: nat)
    requires IsRoot(sqrt) && i < j < m
    ensures Similarities(sqrt, Planted(s, m))[i][j] == if i in s && j in s then 1.0 else 0.0
  {
    var a, b := if i in s then 0 else i + 1, if j in s then 0 else j + 1;
    DotBasis(a, a, m + 1);
    DotBasis(b, b, m + 1);
    DotBasis(a, b, m + 1);
    UnitCosine(sqrt, Basis(a, m + 1), Basis(b, m + 1));
  }

  lemma PlantedIsBest(sqrt: real -> real, threshold: real, s: seq<nat>, m: nat)
    requires IsRoot(sqrt) && 0.0 < threshold <= 1.0
    requires IndexList(s, m) && |s| >= 2
    ensures IsBestClique(Similarities(sqrt, Planted(s, m)), threshold, s)
  {
    var sims := Similarities(sqrt, Planted(s, m));
    forall a, b | 0 <= a < b < |s|
      ensures sims[s[a]][s[b]] >= threshold
    {
      PlantedSimilarity(sqrt, s, m, s[a], s[b]);
    }
    forall q | Agreeing(sims, threshold, q)
      ensures Preferred(sims, s, q)
    {
      forall x | x in q
        ensures x in s
      {
        AgreeingIsPlanted(sqrt, threshold, s, m, q, x);
      }
      IndexListSize(q, m);
      IndexListSize(s, m);
      SubsetSize(SetOf(q), SetOf(s));
      if |q| == |s| {
        SameSetSameList(q, s, m);
      }
    }
  }

  lemma AgreeingIsPlanted(sqrt: real -> real, threshold: real, s: seq<nat>, m: nat, q: seq<nat>, x: nat)
    requires IsRoot(sqrt) && 0.0 < threshold
    requires Agreeing(Similarities(sqrt, Planted(s, m)), threshold, q) && x in q
    ensures x in s
  {
    var sims := Similarities(sqrt, Planted(s, m));
    var k :| 0 <= k < |q| && q[k] == x;
    if k == 0 {
      PlantedSimilarity(sqrt, s, m, q[0], q[1]);
      assert sims[q[0]][q[1]] >= threshold;
    } else {
      PlantedSimilarity(sqrt, s, m, q[0], q[k]);
      assert sims[q[0]][q[k]] >= threshold;
    }
  }

  lemma PlantedIsAccepted(sqrt: real -> real, threshold: real, n: nat, m: nat, s: seq<nat>)
    requires IsRoot(sqrt) && 0.0 < threshold <= 1.0 && 2 <= n <= m
    requires IndexList(s, m) && |s| >= QuorumSize(n)
    ensures AcceptedIn(sqrt, threshold, n, m, Planted(s, m), s)
  {
    var sims := Similarities(sqrt, Planted(s, m));
    hide Similarities, IsBestClique;
    PlantedIsBest(sqrt, threshold, s, m);
    SweepFindsBestClique(sims, threshold);
    BestCliqueIsUnique(sims, threshold, s, AgreedSet(sims, threshold, n));
  }

  lemma AcceptedIsLarge(sqrt: real -> real, threshold: real, n: nat, m: nat, vectors: seq<Vector>, s: seq<nat>)
    requires 2 <= n <= m && AcceptedIn(sqrt, threshold, n, m, vectors, s)
    ensures IndexList(s, m) && |s| >= QuorumSize(n)
  {
    hide Similarities;
    SweepFindsBestClique(Similarities(sqrt, vectors), threshold);
  }

  /** The sets a decision can accept are exactly those of at least the quorum size. */
  lemma AcceptableIff(sqrt: real -> real, threshold: real, n: nat, m: nat, s: seq<nat>)
    requires IsRoot(sqrt) && 0.0 < threshold <= 1.0 && 2 <= n <= m
    ensures Acceptable(sqrt, threshold, n, m, s) <==> IndexList(s, m) && |s| >= QuorumSize(n)
  {
    hide AcceptedIn;
    if Acceptable(sqrt, threshold, n, m, s) {
      var vectors :| AcceptedIn(sqrt, threshold, n, m, vectors, s);
      AcceptedIsLarge(sqrt, threshold, n, m, vectors, s);
    }
    if IndexList(s, m) && |s| >= QuorumSize(n) {
      PlantedIsAccepted(sqrt, threshold, n, m, s);
    }
  }

  // ----- When accepted sets have to meet

  /** Any two sets that decisions on `m` candidates can accept share more members than there
      can be liars. */
  ghost predicate QuorumsMeet(sqrt: real -> real, threshold: real, n: nat, m: nat) {
    forall a, b | Acceptable(sqrt, threshold, n, m, a) && Acceptable(sqrt, threshold, n, m, b) :: ShareHonest(n, a, b)
  }

  /** More members in common than there can be liars. */
  ghost predicate ShareHonest(n: nat, a: seq<nat>, b: seq<nat>) {
    |SetOf(a) * SetOf(b)| >= MaxFaulty(n) + 1
  }

  function Stretch(low: nat, high: nat): (s: seq<nat>)
    requires low <= high
    ensures |s| == high - low && forall k | 0 <= k < |s| :: s[k] == low + k
  {
    seq(high - low, k requires 0 <= k < high - low => low + k)
  }

  lemma StretchesMeet(low: nat, mid: nat, high: nat)
    requires low <= high && mid >= low
    ensures SetOf(Stretch(0, high)) * SetOf(Stretch(low, mid)) == SetOf(Stretch(low, if high < mid then high else mid))
  {
    var s, t, both := Stretch(0, high), Stretch(low, mid), Stretch(low, if high < mid then high else mid);
    forall x
      ensures x in SetOf(s) * SetOf(t) <==> x in SetOf(both)
    {
      if x in SetOf(s) * SetOf(t) {
        assert both[x - low] == x;
      }
      if x in SetOf(both) {
        assert s[x] == x && t[x - low] == x;
      }
    }
  }

  lemma StretchesApart(high: nat, low: nat, end: nat)
    requires high <= low <= end
    ensures SetOf(Stretch(0, high)) * SetOf(Stretch(low, end)) == {}
  {
  }

  lemma LargeSetsMeet(n: nat, m: nat, a: seq<nat>, b: seq<nat>)
    requires 2 <= n <= m && IndexList(a, m) && IndexList(b, m)
    requires |a| >= QuorumSize(n) && |b| >= QuorumSize(n)
    requires m <= 3 * MaxFaulty(n) + 1 || (MaxFaulty(n) == 0 && m <= 3)
    ensures ShareHonest(n, a, b)
  {
    var all := SetOf(Stretch(0, m));
    SetOfSize(Stretch(0, m));
    forall x | x in SetOf(a) + SetOf(b)
      ensures x in all
    {
      assert Stretch(0, m)[x] == x;
    }
    IndexListSize(a, m);
    IndexListSize(b, m);
    hide SetOf, Stretch;
    LargeSetsOverlap(SetOf(a), SetOf(b), all);
  }

  /** Accepted sets meet in `f + 1` members if and only if at most `3f + 1` candidates are
      pending, or at most three when no liar is tolerated. */
  lemma QuorumsMeetIff(sqrt: real -> real, threshold: real, n: nat, m: nat)
    requires IsRoot(sqrt) && 0.0 < threshold <= 1.0 && 2 <= n <= m
    ensures QuorumsMeet(sqrt, threshold, n, m) <==> m <= 3 * MaxFaulty(n) + 1 || (MaxFaulty(n) == 0 && m <= 3)
  {
    hide Acceptable, ShareHonest, IndexList;
    if m <= 3 * MaxFaulty(n) + 1 || (MaxFaulty(n) == 0 && m <= 3) {
      forall a, b | Acceptable(sqrt, threshold, n, m, a) && Acceptable(sqrt, threshold, n, m, b)
        ensures ShareHonest(n, a, b)
      {
        AcceptableIff(sqrt, threshold, n, m, a);
        AcceptableIff(sqrt, threshold, n, m, b);
        LargeSetsMeet(n, m, a, b);
      }
    } else {
      var q := QuorumSize(n);
      EndsShareTooFew(n, m);
      EndsAreLists(q, m);
      AcceptableIff(sqrt, threshold, n, m, Stretch(0, q));
      AcceptableIff(sqrt, threshold, n, m, Stretch(m - q, m));
    }
  }

  lemma EndsAreLists(q: nat, m: nat)
    requires q <= m
    ensures IndexList(Stretch(0, q), m) && IndexList(Stretch(m - q, m), m)
  {
  }

  lemma EndsShareTooFew(n: nat, m: nat)
    requires 2 <= n <= m && m > 3 * MaxFaulty(n) + 1 && (MaxFaulty(n) > 0 || m > 3)
    ensures
      var q := QuorumSize(n);
      q <= m && !ShareHonest(n, Stretch(0, q), Stretch(m - q, m))
  {
    var q := QuorumSize(n);
    if m - q < q {
      StretchesMeet(m - q, m, q);
      SetOfSize(Stretch(m - q, q));
    } else {
      StretchesApart(q, m - q, m);
    }
  }

  /** Among exactly `n` candidates accepted sets meet for the fan-out sizes up to three, and
      beyond that for every third one. */
  lemma FanOutMeetsIff(sqrt: real -> real, threshold: real, n: nat)
    requires IsRoot(sqrt) && 0.0 < threshold <= 1.0 && n >= 2
    ensures QuorumsMeet(sqrt, threshold, n, n) <==> n <= 3 || n % 3 == 1
  {
    QuorumsMeetIff(sqrt, threshold, n, n);
  }
}
