/** The Byzantine bound of the RLM quorum, and what an accepted set owes to it. */
module Consensus {
  import opened Clique
  import opened Lists
  import opened Similarity

  /** The similarity matrix of a round. */
  function Similarities(sqrt: real -> real, vectors: seq<Vector>): (sims: Matrix)
    ensures |sims| == |vectors| && Square(sims)
  {
    seq(|vectors|, i requires 0 <= i < |vectors| =>
      seq(|vectors|, j requires 0 <= j < |vectors| => Cosine(sqrt, vectors[i], vectors[j])))
  }

  /** `f`, the number of malicious candidates a fan-out to `n` volunteers tolerates. */
  function MaxFaulty(n: nat): nat {
    (if n == 0 then 0 else n - 1) / 3
  }

  /** The smallest agreeing set that counts as a quorum. */
  function MinClique(n: nat): nat {
    2 * MaxFaulty(n) + 1
  }

  /** The agreeing set the decision works with. */
  ghost function AgreedSet(sims: Matrix, threshold: real, n: nat): seq<nat>
    requires Square(sims)
  {
    if n == 1 then [0] else Sweep(sims, threshold, Pow2(|sims|)).members
  }

  predicate Accepts(n: nat, agreeing: seq<nat>) {
    agreeing != [] && |agreeing| >= MinClique(n)
  }

  ghost predicate Similar(sims: Matrix, threshold: real, i: nat, j: nat)
    requires Square(sims) && i < |sims| && j < |sims|
  {
    if i < j then sims[i][j] >= threshold else sims[j][i] >= threshold
  }

  lemma IndexListSize(s: seq<nat>, n: nat)
    requires IndexList(s, n)
    ensures |SetOf(s)| == |s|
  {
    SetOfSize(s);
  }

  lemma {:induction false} SameSetSameList(s: seq<nat>, t: seq<nat>, n: nat)
    requires IndexList(s, n) && IndexList(t, n) && SetOf(s) == SetOf(t)
    ensures s == t
    decreases |s|
  {
    IndexListSize(s, n);
    IndexListSize(t, n);
    if s != [] {
      var a, b := s[|s| - 1], t[|t| - 1];
      assert a in SetOf(t) && b in SetOf(s);
      assert a == b;
      assert SetOf(s[..|s| - 1]) == SetOf(s) - {a} == SetOf(t[..|t| - 1]);
      SameSetSameList(s[..|s| - 1], t[..|t| - 1], n);
    }
  }

  lemma SameMembersSameList(s: seq<nat>, t: seq<nat>, n: nat)
    requires IndexList(s, n) && IndexList(t, n)
    requires forall id: nat :: id in s <==> id in t
    ensures s == t
  {
    assert SetOf(s) == SetOf(t);
    SameSetSameList(s, t, n);
  }

  lemma AgreedSetIsASet(sims: Matrix, threshold: real, n: nat)
    requires Square(sims) && 1 <= n <= |sims|
    ensures
      var agreeing := AgreedSet(sims, threshold, n);
      IndexList(agreeing, |sims|) && AllAtLeast(sims, threshold, agreeing)
  {
    SweepFindsBestClique(sims, threshold);
  }

  lemma MembersAreSimilar(sims: Matrix, threshold: real, s: seq<nat>, i: nat, j: nat)
    requires Square(sims) && IndexList(s, |sims|)
    requires forall a, b | 0 <= a < b < |s| :: sims[s[a]][s[b]] >= threshold
    requires i in s && j in s && i != j
    ensures Similar(sims, threshold, i, j)
  {
    var a :| 0 <= a < |s| && s[a] == i;
    var b :| 0 <= b < |s| && s[b] == j;
    if a < b {
      assert sims[s[a]][s[b]] >= threshold;
    } else {
      assert sims[s[b]][s[a]] >= threshold;
    }
  }

  /** Whatever at most `f` malicious candidates say, a quorum holds `f + 1` honest ones,
      and each of its members, the published one included, is honest or similar to that
      many honest ones. */
  lemma QuorumHasHonestSupport(sims: Matrix, threshold: real, n: nat, byzantine: set<nat>, published: nat)
    requires Square(sims) && 1 <= n <= |sims|
    requires |byzantine| <= MaxFaulty(n)
    requires Accepts(n, AgreedSet(sims, threshold, n)) && published in AgreedSet(sims, threshold, n)
    ensures published < |sims|
    ensures
      var honest := SetOf(AgreedSet(sims, threshold, n)) - byzantine;
      && |honest| >= MaxFaulty(n) + 1
      && (forall h | h in honest :: h < |sims|)
      && (published in honest ||
          forall h | h in honest :: Similar(sims, threshold, published, h))
  {
    var agreeing := AgreedSet(sims, threshold, n);
    AgreedSetIsASet(sims, threshold, n);
    IndexListSize(agreeing, |sims|);
    DifferenceSize(SetOf(agreeing), byzantine);
    forall h | h in agreeing && h != published
      ensures Similar(sims, threshold, published, h)
    {
      MembersAreSimilar(sims, threshold, agreeing, published, h);
    }
  }

  /** The candidates below `m` outside `out`, as an index list. */
  ghost function AllBut(m: nat, out: set<nat>): seq<nat> {
    if m == 0 then [] else AllBut(m - 1, out) + if m - 1 in out then [] else [m - 1]
  }

  lemma {:induction false} AllButIsAList(m: nat, out: set<nat>)
    ensures IndexList(AllBut(m, out), m)
    ensures forall i :: i in AllBut(m, out) <==> 0 <= i < m && i !in out
  {
    if m > 0 {
      AllButIsAList(m - 1, out);
    }
  }

  lemma {:induction false} AllButSize(m: nat, out: set<nat>)
    ensures |AllBut(m, out)| >= m - |out|
    ensures (forall i | i in out :: i < m) ==> |AllBut(m, out)| == m - |out|
    decreases m
  {
    if m > 0 {
      var rest := out - {m - 1};
      AllButSize(m - 1, rest);
      AllButIgnores(m - 1, out, m - 1);
    } else if out != {} {
      var i :| i in out;
    }
  }

  lemma {:induction false} AllButIgnores(m: nat, out: set<nat>, x: nat)
    requires x >= m
    ensures AllBut(m, out) == AllBut(m, out - {x})
  {
    if m > 0 {
      AllButIgnores(m - 1, out, x);
    }
  }

  /** Candidates that agree pairwise are an agreeing set. */
  lemma AllButAgree(sims: Matrix, threshold: real, out: set<nat>)
    requires Square(sims) && |AllBut(|sims|, out)| >= 2
    requires forall i, j | 0 <= i < j < |sims| && i !in out && j !in out :: sims[i][j] >= threshold
    ensures IndexList(AllBut(|sims|, out), |sims|) && Agreeing(sims, threshold, AllBut(|sims|, out))
  {
    var list := AllBut(|sims|, out);
    AllButIsAList(|sims|, out);
    forall a, b | 0 <= a < b < |list|
      ensures sims[list[a]][list[b]] >= threshold
    {
      assert list[a] in list && list[b] in list;
    }
  }

  /** If the honest candidates agree pairwise, the decision is to accept, and honest
      members strictly outnumber malicious ones in the accepted set. */
  lemma HonestAgreementIsAccepted(sims: Matrix, threshold: real, n: nat, byzantine: set<nat>)
    requires Square(sims) && 2 <= n <= |sims|
    requires |byzantine| <= MaxFaulty(n)
    requires forall i, j | 0 <= i < j < |sims| && i !in byzantine && j !in byzantine :: sims[i][j] >= threshold
    ensures
      var agreeing := AgreedSet(sims, threshold, n);
      && Accepts(n, agreeing)
      && |agreeing| >= |sims| - |byzantine|
      && |SetOf(agreeing) - byzantine| > |SetOf(agreeing) * byzantine|
  {
    var m, agreeing := |sims|, AgreedSet(sims, threshold, n);
    var honest := AllBut(m, byzantine);
    AllButIsAList(m, byzantine);
    AllButSize(m, byzantine);
    AllButAgree(sims, threshold, byzantine);
    SweepFindsBestClique(sims, threshold);
    EmptyIffNoPairAgrees(sims, threshold, agreeing);
    assert Preferred(sims, agreeing, honest) by {
      assert sims[honest[0]][honest[1]] >= threshold;
    }
    IndexListSize(agreeing, m);
    DifferenceSize(SetOf(agreeing), byzantine);
  }
}
