/** Whether honest candidates that agree pairwise are all accepted. Similarities decide, not
    honesty: a malicious candidate can take an honest one's seat. */
module Seats {
  import opened Clique
  import opened Consensus
  import opened Lists
  import opened Quorums
  import opened Similarity

  ghost predicate HonestAgree(sims: Matrix, threshold: real, byzantine: set<nat>)
    requires Square(sims)
  {
    forall i, j | 0 <= i < j < |sims| && i !in byzantine && j !in byzantine :: sims[i][j] >= threshold
  }

  /** No honest candidate is left out of `s`. */
  ghost predicate AllSeated(m: nat, byzantine: set<nat>, s: seq<nat>) {
    forall h: nat | h < m && h !in byzantine :: h in s
  }

  /** The honest candidates that `x` does not agree with. */
  ghost function Misses(sims: Matrix, threshold: real, byzantine: set<nat>, x: nat): (hs: set<nat>)
    requires Square(sims) && x < |sims|
  {
    set h: nat | h < |sims| && h !in byzantine && h != x && !Similar(sims, threshold, x, h)
  }

  lemma MembersFit(m: nat, s: seq<nat>, out: set<nat>)
    requires IndexList(s, m) && (forall i | i in out :: i < m) && forall i | i in s :: i !in out
    ensures |s| <= m - |out|
  {
    IndexListSize(s, m);
    AllButIsAList(m, out);
    AllButSize(m, out);
    IndexListSize(AllBut(m, out), m);
    SubsetSize(SetOf(s), SetOf(AllBut(m, out)));
  }

  /** A malicious member of the accepted set agrees with all honest candidates, if every one
      that does not misses more of them than there are malicious candidates. */
  lemma AcceptedLiarsAgree(sims: Matrix, threshold: real, byzantine: set<nat>, s: seq<nat>, x: nat)
    requires Square(sims) && Agreeing(sims, threshold, s) && x in s && x in byzantine
    requires |s| >= |sims| - |byzantine|
    requires Misses(sims, threshold, byzantine, x) == {} || |Misses(sims, threshold, byzantine, x)| > |byzantine|
    ensures Misses(sims, threshold, byzantine, x) == {}
  {
    forall h | h in Misses(sims, threshold, byzantine, x)
      ensures h !in s
    {
      if h in s {
        MembersAreSimilar(sims, threshold, s, x, h);
      }
    }
    MembersFit(|sims|, s, Misses(sims, threshold, byzantine, x));
  }

  /** All honest candidates are accepted, if every malicious one agrees with all of them or
      misses more of them than there are malicious candidates. */
  lemma HonestKeepTheirSeats(sims: Matrix, threshold: real, n: nat, byzantine: set<nat>)
    requires Square(sims) && n >= 2 && |sims| >= |byzantine| + 2
    requires HonestAgree(sims, threshold, byzantine) && forall x | x in byzantine :: x < |sims|
    requires forall x | x in byzantine ::
      Misses(sims, threshold, byzantine, x) == {} || |Misses(sims, threshold, byzantine, x)| > |byzantine|
    ensures AllSeated(|sims|, byzantine, AgreedSet(sims, threshold, n))
  {
    var m, best := |sims|, AgreedSet(sims, threshold, n);
    SweepFindsBestClique(sims, threshold);
    BestIsLarge(sims, threshold, byzantine, best);
    forall h: nat | h < m && h !in byzantine
      ensures h in best
    {
      if h !in best {
        forall x | x in best && x in byzantine
          ensures Similar(sims, threshold, x, h)
        {
          AcceptedLiarsAgree(sims, threshold, byzantine, best, x);
          assert h !in Misses(sims, threshold, byzantine, x);
        }
        OneMoreAgrees(sims, threshold, byzantine, best, h);
      }
    }
  }

  /** With pairwise agreement of the honest, the accepted set is at least as large as they
      are many. */
  lemma BestIsLarge(sims: Matrix, threshold: real, byzantine: set<nat>, best: seq<nat>)
    requires Square(sims) && |sims| >= |byzantine| + 2 && HonestAgree(sims, threshold, byzantine)
    requires IsBestClique(sims, threshold, best)
    ensures Agreeing(sims, threshold, best) && |best| >= |sims| - |byzantine|
  {
    var m := |sims|;
    var honest := AllBut(m, byzantine);
    AllButIsAList(m, byzantine);
    AllButSize(m, byzantine);
    AllButAgree(sims, threshold, byzantine);
    EmptyIffNoPairAgrees(sims, threshold, best);
    assert honest[0] in honest && honest[1] in honest;
    assert sims[honest[0]][honest[1]] >= threshold;
    assert Preferred(sims, best, honest);
  }

  lemma NoneIsLarger(sims: Matrix, threshold: real, best: seq<nat>, s: seq<nat>)
    requires Square(sims) && IsBestClique(sims, threshold, best) && best != [] && Agreeing(sims, threshold, s)
    ensures |s| <= |best|
  {
    assert Preferred(sims, best, s);
  }

  ghost function Others(m: nat, best: seq<nat>, h: nat): set<nat> {
    set i: nat | i < m && i !in best && i != h
  }

  lemma JoinedSize(m: nat, best: seq<nat>, h: nat)
    requires IndexList(best, m) && h < m && h !in best
    ensures |AllBut(m, Others(m, best, h))| == |best| + 1
  {
    var more := AllBut(m, Others(m, best, h));
    AllButIsAList(m, Others(m, best, h));
    IndexListSize(best, m);
    IndexListSize(more, m);
    assert SetOf(more) == SetOf(best) + {h};
  }

  lemma JoinerAgrees(sims: Matrix, threshold: real, byzantine: set<nat>, best: seq<nat>, h: nat, i: nat, j: nat)
    requires Square(sims) && Agreeing(sims, threshold, best)
    requires HonestAgree(sims, threshold, byzantine) && h < |sims| && h !in byzantine && h !in best
    requires forall x | x in best && x in byzantine :: Similar(sims, threshold, x, h)
    requires i < j < |sims| && (i in best || i == h) && (j in best || j == h)
    ensures sims[i][j] >= threshold
  {
    if i in best && j in best {
      MembersAreSimilar(sims, threshold, best, i, j);
    } else if i == h && j in byzantine {
      assert Similar(sims, threshold, j, h);
    } else if j == h && i in byzantine {
      assert Similar(sims, threshold, i, h);
    }
  }

  /** An honest candidate that agrees with the whole of an agreeing set could join it. */
  lemma OneMoreAgrees(sims: Matrix, threshold: real, byzantine: set<nat>, best: seq<nat>, h: nat)
    requires Square(sims) && IsBestClique(sims, threshold, best) && best != []
    requires HonestAgree(sims, threshold, byzantine) && h < |sims| && h !in byzantine
    requires forall x | x in best && x in byzantine :: Similar(sims, threshold, x, h)
    ensures h in best
  {
    var m := |sims|;
    if h !in best {
      var out := Others(m, best, h);
      JoinedSize(m, best, h);
      forall i: nat, j: nat | i < j < m && i !in out && j !in out
        ensures sims[i][j] >= threshold
      {
        JoinerAgrees(sims, threshold, byzantine, best, h, i, j);
      }
      AllButAgree(sims, threshold, out);
      hide IsBestClique, HonestAgree, Similar, AllBut;
      NoneIsLarger(sims, threshold, best, AllBut(m, out));
    }
  }

  // ----- Groups of malicious candidates

  /** The group agrees among itself. */
  ghost predicate IsGroup(sims: Matrix, threshold: real, byzantine: set<nat>, group: set<nat>)
    requires Square(sims)
  {
    && group <= byzantine && (forall x | x in group :: x < |sims|)
    && forall x, y | x in group && y in group && x != y :: Similar(sims, threshold, x, y)
  }

  /** An honest candidate some member of the group does not agree with. */
  ghost predicate Missed(sims: Matrix, threshold: real, byzantine: set<nat>, group: set<nat>, h: nat)
    requires Square(sims)
  {
    && h < |sims| && h !in byzantine
    && exists x | x in group :: x < |sims| && !Similar(sims, threshold, x, h)
  }

  ghost predicate LeavesOut(sims: Matrix, threshold: real, byzantine: set<nat>, group: set<nat>)
    requires Square(sims)
  {
    exists h :: Missed(sims, threshold, byzantine, group, h)
  }

  ghost function Unseated(sims: Matrix, threshold: real, byzantine: set<nat>, group: set<nat>): set<nat>
    requires Square(sims)
  {
    set i: nat | i < |sims| && (i in byzantine - group || Missed(sims, threshold, byzantine, group, i))
  }

  /** The group in the place of the honest candidates it misses. */
  ghost function Seating(sims: Matrix, threshold: real, byzantine: set<nat>, group: set<nat>): (s: seq<nat>)
    requires Square(sims)
    ensures IndexList(s, |sims|)
  {
    AllButIsAList(|sims|, Unseated(sims, threshold, byzantine, group));
    AllBut(|sims|, Unseated(sims, threshold, byzantine, group))
  }

  /** The group leaves an honest candidate out, and is chosen over every group that does not. */
  ghost predicate TakesSeats(sims: Matrix, threshold: real, byzantine: set<nat>, group: set<nat>)
    requires Square(sims)
  {
    && IsGroup(sims, threshold, byzantine, group) && LeavesOut(sims, threshold, byzantine, group)
    && forall c | IsGroup(sims, threshold, byzantine, c) && !LeavesOut(sims, threshold, byzantine, c) ::
         Preferred(sims, Seating(sims, threshold, byzantine, group), Seating(sims, threshold, byzantine, c))
  }

  lemma SeatedIff(sims: Matrix, threshold: real, byzantine: set<nat>, group: set<nat>, i: nat)
    requires Square(sims)
    ensures i in Seating(sims, threshold, byzantine, group) <==>
            i < |sims| && i !in byzantine - group && !Missed(sims, threshold, byzantine, group, i)
  {
    AllButIsAList(|sims|, Unseated(sims, threshold, byzantine, group));
    hide AllBut;
  }

  lemma SeatedAgree(sims: Matrix, threshold: real, byzantine: set<nat>, group: set<nat>, i: nat, j: nat)
    requires Square(sims) && HonestAgree(sims, threshold, byzantine) && IsGroup(sims, threshold, byzantine, group)
    requires i < j < |sims| && i !in byzantine - group && j !in byzantine - group
    requires !Missed(sims, threshold, byzantine, group, i) && !Missed(sims, threshold, byzantine, group, j)
    ensures sims[i][j] >= threshold
  {
    if i in byzantine || j in byzantine {
      assert Similar(sims, threshold, i, j) || Similar(sims, threshold, j, i);
    }
  }

  lemma SeatingAgrees(sims: Matrix, threshold: real, byzantine: set<nat>, group: set<nat>)
    requires Square(sims) && HonestAgree(sims, threshold, byzantine) && IsGroup(sims, threshold, byzantine, group)
    requires |Seating(sims, threshold, byzantine, group)| >= 2
    ensures Agreeing(sims, threshold, Seating(sims, threshold, byzantine, group))
  {
    var out := Unseated(sims, threshold, byzantine, group);
    forall i: nat, j: nat | i < j < |sims| && i !in out && j !in out
      ensures sims[i][j] >= threshold
    {
      SeatedAgree(sims, threshold, byzantine, group, i, j);
    }
    hide HonestAgree, IsGroup, Unseated;
    AllButAgree(sims, threshold, out);
  }

  /** A group that leaves nobody out is seated with all the honest candidates. */
  lemma FullSeating(sims: Matrix, threshold: real, byzantine: set<nat>, group: set<nat>)
    requires Square(sims) && !LeavesOut(sims, threshold, byzantine, group)
    ensures |Seating(sims, threshold, byzantine, group)| >= |sims| - |byzantine|
  {
    var out := Unseated(sims, threshold, byzantine, group);
    AllButSize(|sims|, out);
    SubsetSize(out, byzantine);
  }

  ghost function Liars(byzantine: set<nat>, s: seq<nat>): set<nat> {
    set x | x in byzantine && x in s
  }

  /** The accepted set is the seating of the malicious candidates in it. */
  lemma BestIsASeating(sims: Matrix, threshold: real, byzantine: set<nat>, best: seq<nat>)
    requires Square(sims) && HonestAgree(sims, threshold, byzantine)
    requires IsBestClique(sims, threshold, best) && best != []
    ensures IsGroup(sims, threshold, byzantine, Liars(byzantine, best))
    ensures best == Seating(sims, threshold, byzantine, Liars(byzantine, best))
  {
    var group := Liars(byzantine, best);
    forall x, y | x in group && y in group && x != y
      ensures Similar(sims, threshold, x, y)
    {
      MembersAreSimilar(sims, threshold, best, x, y);
    }
    forall i: nat
      ensures i in best <==> i in Seating(sims, threshold, byzantine, group)
    {
      SeatedIff(sims, threshold, byzantine, group, i);
      if i in best {
        InBestIsSeated(sims, threshold, byzantine, best, i);
      } else if i < |sims| && i !in byzantine && !Missed(sims, threshold, byzantine, group, i) {
        OneMoreAgrees(sims, threshold, byzantine, best, i);
      }
    }
    hide Seating, HonestAgree;
    SameMembersSameList(best, Seating(sims, threshold, byzantine, group), |sims|);
  }

  lemma InBestIsSeated(sims: Matrix, threshold: real, byzantine: set<nat>, best: seq<nat>, i: nat)
    requires Square(sims) && Agreeing(sims, threshold, best) && i in best
    ensures i < |sims| && !Missed(sims, threshold, byzantine, Liars(byzantine, best), i)
  {
    forall x | x in Liars(byzantine, best) && x != i
      ensures x < |sims| && Similar(sims, threshold, x, i)
    {
      MembersAreSimilar(sims, threshold, best, x, i);
    }
  }

  /** Nothing that agrees is preferred to the best set but itself. */
  lemma PreferredToBest(sims: Matrix, threshold: real, best: seq<nat>, s: seq<nat>)
    requires Square(sims) && IsBestClique(sims, threshold, best) && best != []
    requires Agreeing(sims, threshold, s) && Preferred(sims, s, best)
    ensures s == best
  {
    forall q | Agreeing(sims, threshold, q)
      ensures Preferred(sims, s, q)
    {
      assert Preferred(sims, best, q);
    }
    hide RankOf;
    BestCliqueIsUnique(sims, threshold, s, best);
  }

  lemma PreferredIsAsLarge(sims: Matrix, a: seq<nat>, b: seq<nat>)
    requires Square(sims) && IndexList(a, |sims|) && IndexList(b, |sims|) && Preferred(sims, a, b)
    ensures |a| >= |b|
  {
    hide Weakest, MaskOf;
  }

  /** For any malicious candidates: an honest one loses its seat if and only if some group of
      them takes seats. */
  lemma SomeSeatIsLostIff(sims: Matrix, threshold: real, n: nat, byzantine: set<nat>)
    requires Square(sims) && n >= 2 && |sims| >= |byzantine| + 2 && HonestAgree(sims, threshold, byzantine)
    ensures !AllSeated(|sims|, byzantine, AgreedSet(sims, threshold, n)) <==>
            exists group :: TakesSeats(sims, threshold, byzantine, group)
  {
    var best := AgreedSet(sims, threshold, n);
    SweepFindsBestClique(sims, threshold);
    hide Sweep, AgreedSet, TakesSeats, HonestAgree;
    BestIsLarge(sims, threshold, byzantine, best);
    if !AllSeated(|sims|, byzantine, best) {
      LostSeatIsTaken(sims, threshold, byzantine, best);
    }
    if AllSeated(|sims|, byzantine, best) {
      forall group
        ensures !TakesSeats(sims, threshold, byzantine, group)
      {
        SeatedIsNotTaken(sims, threshold, byzantine, best, group);
      }
    }
  }

  lemma LostSeatIsTaken(sims: Matrix, threshold: real, byzantine: set<nat>, best: seq<nat>)
    requires Square(sims) && |sims| >= |byzantine| + 2 && HonestAgree(sims, threshold, byzantine)
    requires IsBestClique(sims, threshold, best) && best != [] && !AllSeated(|sims|, byzantine, best)
    ensures TakesSeats(sims, threshold, byzantine, Liars(byzantine, best))
  {
    var group := Liars(byzantine, best);
    BestIsASeating(sims, threshold, byzantine, best);
    var h: nat :| h < |sims| && h !in byzantine && h !in best;
    SeatedIff(sims, threshold, byzantine, group, h);
    hide HonestAgree, IsGroup, LeavesOut, Seating, Missed;
    LeavesOutIf(sims, threshold, byzantine, group, h);
    forall c | IsGroup(sims, threshold, byzantine, c) && !LeavesOut(sims, threshold, byzantine, c)
      ensures Preferred(sims, best, Seating(sims, threshold, byzantine, c))
    {
      FullSeating(sims, threshold, byzantine, c);
      SeatingAgrees(sims, threshold, byzantine, c);
    }
  }

  lemma LeavesOutIf(sims: Matrix, threshold: real, byzantine: set<nat>, group: set<nat>, h: nat)
    requires Square(sims) && Missed(sims, threshold, byzantine, group, h)
    ensures LeavesOut(sims, threshold, byzantine, group)
  {
  }

  lemma SeatedIsNotTaken(sims: Matrix, threshold: real, byzantine: set<nat>, best: seq<nat>, group: set<nat>)
    requires Square(sims) && HonestAgree(sims, threshold, byzantine)
    requires IsBestClique(sims, threshold, best) && |best| >= 2 && AllSeated(|sims|, byzantine, best)
    ensures !TakesSeats(sims, threshold, byzantine, group)
  {
    var c, s := Liars(byzantine, best), Seating(sims, threshold, byzantine, group);
    BestIsASeating(sims, threshold, byzantine, best);
    assert !LeavesOut(sims, threshold, byzantine, c) by {
      forall h: nat
        ensures !Missed(sims, threshold, byzantine, c, h)
      {
        if h in best {
          InBestIsSeated(sims, threshold, byzantine, best, h);
        }
      }
    }
    if TakesSeats(sims, threshold, byzantine, group) {
      var h: nat :| Missed(sims, threshold, byzantine, group, h);
      SeatedIff(sims, threshold, byzantine, group, h);
      hide Seating, HonestAgree, Missed, IsGroup, LeavesOut;
      PreferredIsAsLarge(sims, s, best);
      SeatingAgrees(sims, threshold, byzantine, group);
      PreferredToBest(sims, threshold, best, s);
    }
  }

  // ----- One malicious candidate

  /** `x` agrees with all honest candidates but `k`. */
  ghost predicate MissesOnly(sims: Matrix, threshold: real, x: nat, k: nat)
    requires Square(sims) && x < |sims|
  {
    && k < |sims| && k != x && !Similar(sims, threshold, x, k)
    && forall h: nat | h < |sims| && h != x && h != k :: Similar(sims, threshold, x, h)
  }

  /** The set with `x` in the place of `k` is chosen over the honest one. */
  ghost predicate SwapWins(sims: Matrix, x: nat, k: nat)
    requires Square(sims) && x < |sims| && k < |sims|
  {
    AllButIsAList(|sims|, {k});
    AllButIsAList(|sims|, {x});
    Preferred(sims, AllBut(|sims|, {k}), AllBut(|sims|, {x}))
  }

  lemma LacksOne(m: nat, s: seq<nat>, k: nat)
    requires IndexList(s, m) && k < m && k !in s && |s| >= m - 1
    ensures s == AllBut(m, {k})
  {
    var rest := AllBut(m, {k});
    AllButIsAList(m, {k});
    AllButSize(m, {k});
    IndexListSize(s, m);
    IndexListSize(rest, m);
    SubsetSize(SetOf(s), SetOf(rest));
    SameSetSameList(s, rest, m);
  }

  /** If a seat is lost, the liar misses just that candidate and the swap wins. */
  lemma LostSeatIsSwapped(sims: Matrix, threshold: real, n: nat, x: nat, k: nat)
    requires Square(sims) && n >= 2 && |sims| >= 3 && x < |sims| && k < |sims| && k != x
    requires HonestAgree(sims, threshold, {x}) && k !in AgreedSet(sims, threshold, n)
    ensures MissesOnly(sims, threshold, x, k) && SwapWins(sims, x, k)
  {
    SweepFindsBestClique(sims, threshold);
    hide HonestAgree, MissesOnly, SwapWins, AllBut, Sweep;
    BestIsLarge(sims, threshold, {x}, AgreedSet(sims, threshold, n));
    LacksOne(|sims|, AgreedSet(sims, threshold, n), k);
    LeftOutIsMissed(sims, threshold, x, k);
    LeftOutIsSwapped(sims, threshold, x, k);
  }

  lemma LeftOutIsMissed(sims: Matrix, threshold: real, x: nat, k: nat)
    requires Square(sims) && x < |sims| && k < |sims| && k != x && HonestAgree(sims, threshold, {x})
    requires IsBestClique(sims, threshold, AllBut(|sims|, {k})) && Agreeing(sims, threshold, AllBut(|sims|, {k}))
    ensures MissesOnly(sims, threshold, x, k)
  {
    hide AllBut, HonestAgree, IsBestClique;
    forall h: nat | h < |sims| && h != x && h != k
      ensures Similar(sims, threshold, x, h)
    {
      SeatedAreSimilar(sims, threshold, x, h, k);
    }
    LeftOutIsNotSimilar(sims, threshold, x, k);
  }

  lemma SeatedAreSimilar(sims: Matrix, threshold: real, i: nat, j: nat, k: nat)
    requires Square(sims) && i < |sims| && j < |sims| && i != j && k != i && k != j
    requires Agreeing(sims, threshold, AllBut(|sims|, {k}))
    ensures Similar(sims, threshold, i, j)
  {
    AllButIsAList(|sims|, {k});
    hide AllBut;
    MembersAreSimilar(sims, threshold, AllBut(|sims|, {k}), i, j);
  }

  lemma LeftOutIsNotSimilar(sims: Matrix, threshold: real, x: nat, k: nat)
    requires Square(sims) && x < |sims| && k < |sims| && k != x && HonestAgree(sims, threshold, {x})
    requires IsBestClique(sims, threshold, AllBut(|sims|, {k})) && Agreeing(sims, threshold, AllBut(|sims|, {k}))
    ensures !Similar(sims, threshold, x, k)
  {
    AllButIsAList(|sims|, {k});
    hide AllBut, HonestAgree, IsBestClique;
    if Similar(sims, threshold, x, k) {
      OneMoreAgrees(sims, threshold, {x}, AllBut(|sims|, {k}), k);
    }
  }

  lemma LeftOutIsSwapped(sims: Matrix, threshold: real, x: nat, k: nat)
    requires Square(sims) && |sims| >= 3 && x < |sims| && k < |sims| && HonestAgree(sims, threshold, {x})
    requires IsBestClique(sims, threshold, AllBut(|sims|, {k})) && AllBut(|sims|, {k}) != []
    ensures SwapWins(sims, x, k)
  {
    AllButSize(|sims|, {x});
    AllButAgree(sims, threshold, {x});
  }

  lemma HonestPairAgrees(sims: Matrix, threshold: real, byzantine: set<nat>, i: nat, j: nat)
    requires Square(sims) && HonestAgree(sims, threshold, byzantine)
    requires i < j < |sims| && i !in byzantine && j !in byzantine
    ensures sims[i][j] >= threshold
  {
  }

  lemma SwapAgrees(sims: Matrix, threshold: real, x: nat, k: nat)
    requires Square(sims) && |sims| >= 3 && x < |sims|
    requires HonestAgree(sims, threshold, {x}) && MissesOnly(sims, threshold, x, k)
    ensures Agreeing(sims, threshold, AllBut(|sims|, {k}))
  {
    AllButSize(|sims|, {k});
    forall i: nat, j: nat | i < j < |sims| && i !in {k} && j !in {k}
      ensures sims[i][j] >= threshold
    {
      if i == x {
        assert Similar(sims, threshold, x, j);
      } else if j == x {
        assert Similar(sims, threshold, x, i);
      } else {
        HonestPairAgrees(sims, threshold, {x}, i, j);
      }
    }
    AllButAgree(sims, threshold, {k});
  }

  lemma SwapIsBest(sims: Matrix, threshold: real, x: nat, k: nat)
    requires Square(sims) && |sims| >= 3 && x < |sims|
    requires HonestAgree(sims, threshold, {x}) && MissesOnly(sims, threshold, x, k) && SwapWins(sims, x, k)
    ensures IsBestClique(sims, threshold, AllBut(|sims|, {k}))
  {
    SwapAgrees(sims, threshold, x, k);
    hide HonestAgree, MissesOnly, SwapWins, AllBut;
    forall q | Agreeing(sims, threshold, q)
      ensures Preferred(sims, AllBut(|sims|, {k}), q)
    {
      LosersAreSmaller(sims, threshold, x, k, q);
    }
  }

  lemma LosersAreSmaller(sims: Matrix, threshold: real, x: nat, k: nat, q: seq<nat>)
    requires Square(sims) && |sims| >= 3 && x < |sims|
    requires MissesOnly(sims, threshold, x, k) && SwapWins(sims, x, k) && Agreeing(sims, threshold, q)
    ensures IndexList(AllBut(|sims|, {k}), |sims|) && Preferred(sims, AllBut(|sims|, {k}), q)
  {
    hide Weakest, MaskOf, Similar;
    var m := |sims|;
    AllButIsAList(m, {k});
    AllButSize(m, {k});
    assert x !in q || k !in q by {
      if x in q && k in q {
        MembersAreSimilar(sims, threshold, q, x, k);
      }
    }
    var gone := if k in q then x else k;
    MembersFit(m, q, {gone});
    if |q| == m - 1 {
      LacksOne(m, q, gone);
    }
  }

  /** With one malicious candidate an honest one loses its seat if and only if the malicious
      one agrees with all the others, misses just that one, and the swapped set wins. */
  lemma SeatIsLostIff(sims: Matrix, threshold: real, n: nat, x: nat, k: nat)
    requires Square(sims) && n >= 2 && |sims| >= 3 && x < |sims| && k < |sims| && k != x
    requires HonestAgree(sims, threshold, {x})
    ensures k !in AgreedSet(sims, threshold, n) <==> MissesOnly(sims, threshold, x, k) && SwapWins(sims, x, k)
  {
    if k !in AgreedSet(sims, threshold, n) {
      LostSeatIsSwapped(sims, threshold, n, x, k);
    } else if MissesOnly(sims, threshold, x, k) && SwapWins(sims, x, k) {
      SwapIsBest(sims, threshold, x, k);
      SweepFindsBestClique(sims, threshold);
      BestCliqueIsUnique(sims, threshold, AllBut(|sims|, {k}), AgreedSet(sims, threshold, n));
      AllButIsAList(|sims|, {k});
    }
  }

  // ----- A round in which it happens

  // Candidates 0, 1 and 2 are honest and agree pairwise; 3 is closer to 1 and 2 than 0 is.
  const FLATTERED: seq<Vector> :=
    [[1.0, 0.0], [15.0 / 17.0, 8.0 / 17.0], [15.0 / 17.0, 8.0 / 17.0], [0.8, 0.6]]

  function FlatteredEntry(i: nat, j: nat): real {
    if j < 3 then (if i == 0 then 15.0 / 17.0 else 1.0) else if i == 0 then 0.8 else 84.0 / 85.0
  }

  lemma FlatteredSimilarity(sqrt: real -> real, i: nat, j: nat)
    requires IsRoot(sqrt) && i < j < 4
    ensures Similarities(sqrt, FLATTERED)[i][j] == FlatteredEntry(i, j)
  {
    var a, b := FLATTERED[i], FLATTERED[j];
    DotOfPairs(a, a);
    DotOfPairs(b, b);
    DotOfPairs(a, b);
    UnitCosine(sqrt, a, b);
  }

  lemma TighterTripleWins(sims: Matrix)
    requires Square(sims) && |sims| == 4
    requires sims[0][1] < sims[1][2] && sims[0][1] < sims[1][3] && sims[0][1] < sims[2][3]
    ensures Preferred(sims, [1, 2, 3], [0, 1, 2])
  {
    hide Weakest, MaskOf;
    var loose, tight: seq<nat> := [0, 1, 2], [1, 2, 3];
    WeakestMeaning(sims, loose);
    WeakestMeaning(sims, tight);
    assert !Num(sims[loose[0]][loose[1]]).Below(Weakest(sims, loose));
    var a, b :| 0 <= a < b < |tight| && Weakest(sims, tight) == Num(sims[tight[a]][tight[b]]);
    assert sims[tight[a]][tight[b]] > sims[0][1];
  }

  lemma AllButOfFour()
    ensures AllBut(4, {0}) == [1, 2, 3] && AllBut(4, {3}) == [0, 1, 2]
  {
    assert AllBut(1, {0}) == [] && AllBut(2, {0}) == [1] && AllBut(3, {0}) == [1, 2];
    assert AllBut(1, {3}) == [0] && AllBut(2, {3}) == [0, 1] && AllBut(3, {3}) == [0, 1, 2];
  }

  /** The accepted value is meant to be unique with an honest majority. In this round of four,
      of which one may be malicious, all honest candidates agree pairwise, and the accepted
      set holds the malicious candidate and leaves an honest one out. */
  lemma HonestCandidateCanLoseItsSeat(sqrt: real -> real)
    requires IsRoot(sqrt)
    ensures |FLATTERED| == 4 && SameDims(FLATTERED) && MaxFaulty(4) == 1
    ensures
      var sims := Similarities(sqrt, FLATTERED);
      var agreeing := AgreedSet(sims, 0.85, 4);
      && HonestAgree(sims, 0.85, {3}) && Accepts(4, agreeing)
      && 0 !in agreeing && 3 in agreeing
  {
    var sims := Similarities(sqrt, FLATTERED);
    forall i, j | 0 <= i < j < 4
      ensures sims[i][j] == FlatteredEntry(i, j)
    {
      FlatteredSimilarity(sqrt, i, j);
    }
    hide Similarities, AgreedSet;
    SeatIsTaken(sims, 4);
  }

  lemma SeatIsTaken(sims: Matrix, n: nat)
    requires Square(sims) && |sims| == 4 && n >= 2
    requires forall i, j | 0 <= i < j < 4 :: sims[i][j] == FlatteredEntry(i, j)
    ensures HonestAgree(sims, 0.85, {3})
    ensures AgreedSet(sims, 0.85, n) == [1, 2, 3]
  {
    hide Sweep;
    TighterTripleWins(sims);
    AllButOfFour();
    SeatIsLostIff(sims, 0.85, n, 3, 0);
    SweepFindsBestClique(sims, 0.85);
    BestIsLarge(sims, 0.85, {3}, AgreedSet(sims, 0.85, n));
    LacksOne(4, AgreedSet(sims, 0.85, n), 0);
  }
}
