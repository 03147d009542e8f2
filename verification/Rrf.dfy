/** Reciprocal rank fusion: ranked lists merged by summed reciprocal ranks. Scores are exact
    reals; the hash map they are summed in is read back in an arbitrary order. */
module Rrf {

  /** `i64`. */
  type Id = i: int | -0x8000_0000_0000_0000 <= i < 0x8000_0000_0000_0000

  datatype HybridResult = HybridResult(chunkId: Id, score: real)

  type Ranking = seq<HybridResult>

  /** `rrf_score`: the reciprocal of the rank, counted from 1, on top of the constant. */
  function RrfScore(rank: nat, k: real): (s: real)
    requires k > -1.0
    ensures s > 0.0 && s * (k + rank as real + 1.0) == 1.0
  {
    var d := k + rank as real + 1.0;
    assert (1.0 / d) * d == 1.0;
    1.0 / d
  }

  // ----- The score of an item

  /** What one list adds to an item's score. */
  ghost function ListScore(list: Ranking, id: Id, k: real): (s: real)
    requires k > -1.0
    ensures s >= 0.0
  {
    if list == [] then 0.0
    else
      var last := |list| - 1;
      ListScore(list[..last], id, k) + if list[last].chunkId == id then RrfScore(last, k) else 0.0
  }

  ghost function Score(lists: seq<Ranking>, id: Id, k: real): (s: real)
    requires k > -1.0
    ensures s >= 0.0
  {
    if lists == [] then 0.0 else Score(lists[..|lists| - 1], id, k) + ListScore(lists[|lists| - 1], id, k)
  }

  ghost predicate Occurs(list: Ranking, id: Id) {
    exists i | 0 <= i < |list| :: list[i].chunkId == id
  }

  ghost predicate OccursInAny(lists: seq<Ranking>, id: Id) {
    exists l | 0 <= l < |lists| :: Occurs(lists[l], id)
  }

  // ----- The fused ranking

  /** Higher score first, equal scores by id. */
  predicate Before(a: HybridResult, b: HybridResult) {
    a.score > b.score || (a.score == b.score && a.chunkId < b.chunkId)
  }

  ghost predicate Ordered(out: Ranking) {
    forall i, j | 0 <= i < j < |out| :: Before(out[i], out[j])
  }

  /** Every item that occurs, with its score, best first. */
  ghost predicate IsFusion(lists: seq<Ranking>, k: real, out: Ranking)
    requires k > -1.0
  {
    && Ordered(out)
    && (forall i | 0 <= i < |out| ::
          OccursInAny(lists, out[i].chunkId) && out[i].score == Score(lists, out[i].chunkId, k))
    && forall id | OccursInAny(lists, id) :: HybridResult(id, Score(lists, id, k)) in out
  }

  lemma FirstIsLeast(s: Ranking, x: HybridResult)
    requires Ordered(s) && x in s
    ensures x == s[0] || Before(s[0], x)
  {
  }

  lemma {:induction false} SameElementsSameOrder(s: Ranking, t: Ranking)
    requires Ordered(s) && Ordered(t)
    requires forall x :: x in s <==> x in t
    ensures s == t
    decreases |s|
  {
    if s != [] {
      HasFirst(s);
    }
    if t != [] {
      HasFirst(t);
    }
    if s != [] && t != [] {
      FirstIsLeast(t, s[0]);
      FirstIsLeast(s, t[0]);
      forall x
        ensures x in s[1..] <==> x in t[1..]
      {
        assert x in s <==> x == s[0] || x in s[1..];
        assert x in t <==> x == t[0] || x in t[1..];
        assert x in s[1..] ==> Before(s[0], x);
        assert x in t[1..] ==> Before(t[0], x);
      }
      SameElementsSameOrder(s[1..], t[1..]);
    }
  }

  lemma HasFirst(s: Ranking)
    requires s != []
    ensures exists x :: x in s
  {
    assert s[0] in s;
  }

  /** The fused ranking is a function of the lists, in whatever order the scores are read. */
  lemma FusionIsUnique(lists: seq<Ranking>, k: real, s: Ranking, t: Ranking)
    requires k > -1.0 && IsFusion(lists, k, s) && IsFusion(lists, k, t)
    ensures s == t
  {
    forall x
      ensures x in s <==> x in t
    {
      if x in s || x in t {
        assert x == HybridResult(x.chunkId, Score(lists, x.chunkId, k));
      }
    }
    SameElementsSameOrder(s, t);
  }

  // ----- The program

  lemma PutIn(out: Ranking, x: HybridResult, p: nat)
    requires Ordered(out) && p <= |out|
    requires forall i | 0 <= i < p :: Before(out[i], x)
    requires p < |out| ==> Before(x, out[p])
    ensures Ordered(out[..p] + [x] + out[p..])
  {
    var more := out[..p] + [x] + out[p..];
    forall i, j | 0 <= i < j < |more|
      ensures Before(more[i], more[j])
    {
      if j == p {
        assert more[j] == x && more[i] == out[i];
      } else if i == p {
        assert more[i] == x && more[j] == out[j - 1];
        assert j - 1 == p || Before(out[p], out[j - 1]);
      } else {
        assert more[i] == out[if i < p then i else i - 1] && more[j] == out[if j < p then j else j - 1];
      }
    }
  }

  /** `sort_by` on score and id. */
  method SortResults(items: Ranking) returns (out: Ranking)
    requires forall i, j | 0 <= i < j < |items| :: items[i].chunkId != items[j].chunkId
    ensures Ordered(out) && forall x :: x in out <==> x in items
  {
    out := [];
    for n := 0 to |items|
      invariant Ordered(out) && forall x :: x in out <==> x in items[..n]
    {
      var x := items[n];
      assert items[..n + 1] == items[..n] + [x];
      var p := 0;
      while p < |out| && Before(out[p], x)
        invariant 0 <= p <= |out|
        invariant forall i | 0 <= i < p :: Before(out[i], x)
      {
        p := p + 1;
      }
      if p < |out| {
        assert out[p] in items[..n];
      }
      PutIn(out, x, p);
      assert out == out[..p] + out[p..];
      out := out[..p] + [x] + out[p..];
    }
    assert items[..|items|] == items;
  }

  /** One list's contribution. */
  method AddList(scores0: map<Id, real>, list: Ranking, k: real) returns (scores: map<Id, real>)
    requires k > -1.0
    ensures forall id :: id in scores <==> id in scores0 || Occurs(list, id)
    ensures forall id | id in scores ::
              scores[id] == (if id in scores0 then scores0[id] else 0.0) + ListScore(list, id, k)
  {
    scores := scores0;
    for rank := 0 to |list|
      invariant forall id :: id in scores <==> id in scores0 || Occurs(list[..rank], id)
      invariant forall id | id in scores ::
                  scores[id] == (if id in scores0 then scores0[id] else 0.0) + ListScore(list[..rank], id, k)
    {
      var id := list[rank].chunkId;
      var was := if id in scores then scores[id] else 0.0;
      ghost var before := scores;
      scores := scores[id := was + RrfScore(rank, k)];
      forall x
        ensures Occurs(list[..rank + 1], x) <==> Occurs(list[..rank], x) || x == id
        ensures ListScore(list[..rank + 1], x, k)
                == ListScore(list[..rank], x, k) + if x == id then RrfScore(rank, k) else 0.0
      {
        OneMore(list, rank, x, k);
      }
      forall x | !Occurs(list[..rank], x)
        ensures ListScore(list[..rank], x, k) == 0.0
      {
        AbsentScoresNothing(list[..rank], x, k);
      }
    }
    assert list[..|list|] == list;
  }

  lemma OneMore(list: Ranking, rank: nat, x: Id, k: real)
    requires rank < |list| && k > -1.0
    ensures Occurs(list[..rank + 1], x) <==> Occurs(list[..rank], x) || x == list[rank].chunkId
    ensures ListScore(list[..rank + 1], x, k) ==
            ListScore(list[..rank], x, k) + if x == list[rank].chunkId then RrfScore(rank, k) else 0.0
  {
    var more, less := list[..rank + 1], list[..rank];
    assert more[..rank] == less && more[rank] == list[rank];
    if Occurs(less, x) {
      var i :| 0 <= i < |less| && less[i].chunkId == x;
      assert more[i].chunkId == x;
    }
  }

  lemma {:induction false} AbsentScoresNothing(list: Ranking, id: Id, k: real)
    requires k > -1.0 && !Occurs(list, id)
    ensures ListScore(list, id, k) == 0.0
  {
    if list != [] {
      OneMore(list, |list| - 1, id, k);
      assert list[..|list|] == list;
      AbsentScoresNothing(list[..|list| - 1], id, k);
    }
  }

  lemma {:induction false} AbsentEverywhereScoresNothing(lists: seq<Ranking>, id: Id, k: real)
    requires k > -1.0 && !OccursInAny(lists, id)
    ensures Score(lists, id, k) == 0.0
  {
    if lists != [] {
      var init, last := lists[..|lists| - 1], lists[|lists| - 1];
      AbsentScoresNothing(last, id, k);
      AbsentEverywhereScoresNothing(init, id, k);
    }
  }

  /** The score map. */
  ghost predicate AreScores(scores: map<Id, real>, lists: seq<Ranking>, k: real)
    requires k > -1.0
  {
    && (forall id :: id in scores <==> OccursInAny(lists, id))
    && forall id | id in scores :: scores[id] == Score(lists, id, k)
  }

  lemma ScoresExtend(before: map<Id, real>, after: map<Id, real>, lists: seq<Ranking>, list: Ranking, k: real)
    requires k > -1.0 && AreScores(before, lists, k)
    requires forall id :: id in after <==> id in before || Occurs(list, id)
    requires forall id | id in after :: after[id] == (if id in before then before[id] else 0.0) + ListScore(list, id, k)
    ensures AreScores(after, lists + [list], k)
  {
    var more := lists + [list];
    assert more[..|lists|] == lists && more[|lists|] == list;
    forall id
      ensures OccursInAny(more, id) <==> OccursInAny(lists, id) || Occurs(list, id)
      ensures !OccursInAny(lists, id) ==> Score(lists, id, k) == 0.0
    {
      if OccursInAny(lists, id) {
        var l :| 0 <= l < |lists| && Occurs(lists[l], id);
        assert Occurs(more[l], id);
      } else {
        AbsentEverywhereScoresNothing(lists, id, k);
      }
      if Occurs(list, id) {
        assert Occurs(more[|lists|], id);
      }
    }
  }

  /** The items of the map whose ids are in `ids`, each once. */
  ghost predicate AreItems(items: Ranking, scores: map<Id, real>, ids: set<Id>)
    requires ids <= scores.Keys
  {
    && (forall i, j | 0 <= i < j < |items| :: items[i].chunkId != items[j].chunkId)
    && (forall i | 0 <= i < |items| :: items[i].chunkId in ids && items[i].score == scores[items[i].chunkId])
    && forall id | id in ids :: HybridResult(id, scores[id]) in items
  }

  /** The map read back in some order. */
  method ReadBack(scores: map<Id, real>) returns (items: Ranking)
    ensures AreItems(items, scores, scores.Keys)
  {
    items := [];
    var todo := scores.Keys;
    while todo != {}
      invariant todo <= scores.Keys && AreItems(items, scores, scores.Keys - todo)
      decreases |todo|
    {
      var id :| id in todo;
      todo := todo - {id};
      items := items + [HybridResult(id, scores[id])];
    }
  }

  /** `rrf_fuse`: the best `topK` of the one fused ranking. */
  method RrfFuse(lists: seq<Ranking>, topK: nat, k: real) returns (fused: Ranking)
    requires k > -1.0
    ensures exists full :: IsFusion(lists, k, full) && fused == if topK < |full| then full[..topK] else full
  {
    var scores: map<Id, real> := map[];
    for l := 0 to |lists|
      invariant AreScores(scores, lists[..l], k)
    {
      ghost var before := scores;
      scores := AddList(scores, lists[l], k);
      ScoresExtend(before, scores, lists[..l], lists[l], k);
      assert lists[..l + 1] == lists[..l] + [lists[l]];
    }
    assert lists[..|lists|] == lists;
    var items := ReadBack(scores);
    var full := SortResults(items);
    assert IsFusion(lists, k, full) by {
      assert forall i | 0 <= i < |full| :: full[i] in items;
      assert forall id | OccursInAny(lists, id) :: HybridResult(id, scores[id]) in items;
    }
    fused := if topK < |full| then full[..topK] else full;
  }

  // ----- What the constant is for

  /** Item 1 is first in one list, item 2 third in both. */
  const ONE_FIRST: Ranking := [HybridResult(1, 0.0), HybridResult(3, 0.0), HybridResult(2, 0.0)]
  const TWO_AGAIN: Ranking := [HybridResult(4, 0.0), HybridResult(5, 0.0), HybridResult(2, 0.0)]

  lemma ScoreOfThree(list: Ranking, id: Id, k: real)
    requires k > -1.0 && |list| == 3
    ensures ListScore(list, id, k) ==
            (if list[0].chunkId == id then RrfScore(0, k) else 0.0)
            + (if list[1].chunkId == id then RrfScore(1, k) else 0.0)
            + (if list[2].chunkId == id then RrfScore(2, k) else 0.0)
  {
    hide RrfScore;
    OneMore(list, 0, id, k);
    OneMore(list, 1, id, k);
    OneMore(list, 2, id, k);
    assert list[..3] == list && list[..0] == [];
  }

  lemma OneFirstBeatsTwoThirds(k: real)
    requires k > -1.0
    ensures RrfScore(0, k) >= RrfScore(2, k) + RrfScore(2, k) <==> k <= 1.0
  {
    var x, y := RrfScore(0, k), RrfScore(2, k);
    assert x == x * (y * (k + 3.0));
    assert y == y * (x * (k + 1.0));
    assert x - (y + y) == (x * y) * (1.0 - k);
    assert x * y > 0.0;
  }

  /** A small constant lets one first place win, a large one two third places. */
  lemma ConstantDecidesOrder(k: real, full: Ranking) returns (i: nat, j: nat)
    requires k > -1.0 && IsFusion([ONE_FIRST, TWO_AGAIN], k, full)
    ensures i < |full| && full[i].chunkId == 1 && j < |full| && full[j].chunkId == 2
    ensures i < j <==> k <= 1.0
  {
    hide RrfScore, ListScore;
    var lists := [ONE_FIRST, TWO_AGAIN];
    assert Occurs(lists[0], ONE_FIRST[0].chunkId) && Occurs(lists[0], ONE_FIRST[2].chunkId);
    assert HybridResult(1, Score(lists, 1, k)) in full && HybridResult(2, Score(lists, 2, k)) in full;
    i :| 0 <= i < |full| && full[i] == HybridResult(1, Score(lists, 1, k));
    j :| 0 <= j < |full| && full[j] == HybridResult(2, Score(lists, 2, k));
    TwoLists(1, k);
    TwoLists(2, k);
    OneFirstBeatsTwoThirds(k);
    assert i < j ==> Before(full[i], full[j]);
    assert j < i ==> Before(full[j], full[i]);
  }

  lemma TwoLists(id: Id, k: real)
    requires k > -1.0
    ensures Score([ONE_FIRST, TWO_AGAIN], id, k) == ListScore(ONE_FIRST, id, k) + ListScore(TWO_AGAIN, id, k)
    ensures id == 1 ==> ListScore(ONE_FIRST, id, k) == RrfScore(0, k) && ListScore(TWO_AGAIN, id, k) == 0.0
    ensures id == 2 ==> ListScore(ONE_FIRST, id, k) == ListScore(TWO_AGAIN, id, k) == RrfScore(2, k)
  {
    hide RrfScore, ListScore;
    var lists := [ONE_FIRST, TWO_AGAIN];
    assert lists[..1] == [ONE_FIRST] && [ONE_FIRST][..0] == [];
    assert Score([ONE_FIRST], id, k) == Score([], id, k) + ListScore(ONE_FIRST, id, k);
    ScoreOfThree(ONE_FIRST, id, k);
    ScoreOfThree(TWO_AGAIN, id, k);
  }

  /** In the fused ranking an item is before another exactly if it scores more, or as much
      and has the lower id. */
  lemma FusedOrder(lists: seq<Ranking>, k: real, full: Ranking, i: nat, j: nat)
    requires k > -1.0 && IsFusion(lists, k, full) && i < |full| && j < |full| && i != j
    ensures
      var a, b := Score(lists, full[i].chunkId, k), Score(lists, full[j].chunkId, k);
      i < j <==> a > b || (a == b && full[i].chunkId < full[j].chunkId)
  {
    hide Score;
    assert i < j ==> Before(full[i], full[j]);
    assert j < i ==> Before(full[j], full[i]);
  }

  // ----- Order of the lists

  lemma {:induction false} ScoreWithout(lists: seq<Ranking>, l: nat, id: Id, k: real)
    requires k > -1.0 && l < |lists|
    ensures Score(lists, id, k) == Score(lists[..l] + lists[l + 1..], id, k) + ListScore(lists[l], id, k)
  {
    var rest := lists[..l] + lists[l + 1..];
    var n := |lists| - 1;
    if l == n {
      assert rest == lists[..n];
    } else {
      var init := lists[..n];
      assert init[..l] + init[l + 1..] == rest[..n - 1];
      assert rest[n - 1] == lists[n] && init[l] == lists[l];
      ScoreWithout(init, l, id, k);
    }
  }

  lemma {:induction false} ScoreIgnoresOrder(s: seq<Ranking>, t: seq<Ranking>, id: Id, k: real)
    requires k > -1.0 && multiset(s) == multiset(t)
    ensures Score(s, id, k) == Score(t, id, k)
    decreases |s|
  {
    if s == [] {
      assert |multiset(t)| == 0;
    } else {
      var l := TakeLast(s, t);
      ScoreIgnoresOrder(s[..|s| - 1], t[..l] + t[l + 1..], id, k);
      ScoreWithout(t, l, id, k);
    }
  }

  lemma RemoveAt<T>(t: seq<T>, l: nat)
    requires l < |t|
    ensures multiset(t) == multiset(t[..l] + t[l + 1..]) + multiset{t[l]}
  {
    assert t == t[..l] + [t[l]] + t[l + 1..];
  }

  lemma Cancel<T>(a: multiset<T>, b: multiset<T>, m: multiset<T>)
    requires a + m == b + m
    ensures a == b
  {
    assert a == (a + m) - m && b == (b + m) - m;
  }

  lemma TakeLast(s: seq<Ranking>, t: seq<Ranking>) returns (l: nat)
    requires s != [] && multiset(s) == multiset(t)
    ensures l < |t| && t[l] == s[|s| - 1]
    ensures multiset(s[..|s| - 1]) == multiset(t[..l] + t[l + 1..])
  {
    var n := |s| - 1;
    assert s[n] in multiset(t);
    l :| 0 <= l < |t| && t[l] == s[n];
    RemoveAt(s, n);
    RemoveAt(t, l);
    assert s[..n] + s[n + 1..] == s[..n];
    Cancel(multiset(s[..n]), multiset(t[..l] + t[l + 1..]), multiset{s[n]});
  }

  /** Permuting the lists does not change the fused ranking. */
  lemma FusionIgnoresListOrder(s: seq<Ranking>, t: seq<Ranking>, k: real, full: Ranking)
    requires k > -1.0 && multiset(s) == multiset(t)
    ensures IsFusion(s, k, full) <==> IsFusion(t, k, full)
  {
    forall id
      ensures Score(s, id, k) == Score(t, id, k)
      ensures OccursInAny(s, id) <==> OccursInAny(t, id)
    {
      ScoreIgnoresOrder(s, t, id, k);
      SameOccurrences(s, t, id);
      SameOccurrences(t, s, id);
    }
  }

  lemma SameOccurrences(s: seq<Ranking>, t: seq<Ranking>, id: Id)
    requires multiset(s) == multiset(t)
    ensures OccursInAny(s, id) ==> OccursInAny(t, id)
  {
    if OccursInAny(s, id) {
      var l :| 0 <= l < |s| && Occurs(s[l], id);
      assert s[l] in multiset(t);
    }
  }

  // ----- Dominance

  ghost predicate RanksOnce(list: Ranking) {
    forall i, j | 0 <= i < j < |list| :: list[i].chunkId != list[j].chunkId
  }

  /** Wherever `b` is, `a` is above it. */
  ghost predicate AboveIn(list: Ranking, a: Id, b: Id) {
    forall j | 0 <= j < |list| && list[j].chunkId == b :: Occurs(list[..j], a)
  }

  lemma {:induction false} ScoreAtRank(list: Ranking, rank: nat, k: real)
    requires k > -1.0 && RanksOnce(list) && rank < |list|
    ensures ListScore(list, list[rank].chunkId, k) == RrfScore(rank, k)
  {
    var id, last := list[rank].chunkId, |list| - 1;
    if rank == last {
      AbsentScoresNothing(list[..last], id, k);
    } else {
      ScoreAtRank(list[..last], rank, k);
    }
  }

  lemma HigherRankScoresMore(i: nat, j: nat, k: real)
    requires k > -1.0 && i < j
    ensures RrfScore(i, k) > RrfScore(j, k)
  {
    var c, d := k + i as real + 1.0, k + j as real + 1.0;
    var x, y := RrfScore(i, k), RrfScore(j, k);
    assert x * c == 1.0 && y * d == 1.0;
    assert y * c < y * d;
  }

  lemma AboveScoresMore(list: Ranking, a: Id, b: Id, k: real)
    requires k > -1.0 && RanksOnce(list) && AboveIn(list, a, b)
    ensures ListScore(list, a, k) >= ListScore(list, b, k)
    ensures Occurs(list, b) ==> ListScore(list, a, k) > ListScore(list, b, k)
  {
    if Occurs(list, b) {
      var j :| 0 <= j < |list| && list[j].chunkId == b;
      assert Occurs(list[..j], a);
      var i :| 0 <= i < |list[..j]| && list[..j][i].chunkId == a;
      ScoreAtRank(list, i, k);
      ScoreAtRank(list, j, k);
      HigherRankScoresMore(i, j, k);
    } else {
      AbsentScoresNothing(list, b, k);
    }
  }

  lemma OccursInLastOrBefore(lists: seq<Ranking>, b: Id)
    requires OccursInAny(lists, b)
    ensures lists != [] && (OccursInAny(lists[..|lists| - 1], b) || Occurs(lists[|lists| - 1], b))
  {
    var l :| 0 <= l < |lists| && Occurs(lists[l], b);
    if l < |lists| - 1 {
      assert lists[..|lists| - 1][l] == lists[l];
    }
  }

  lemma {:induction false} DominanceInScore(lists: seq<Ranking>, a: Id, b: Id, k: real)
    requires k > -1.0
    requires forall l | 0 <= l < |lists| :: RanksOnce(lists[l]) && AboveIn(lists[l], a, b)
    ensures Score(lists, a, k) >= Score(lists, b, k)
    ensures OccursInAny(lists, b) ==> Score(lists, a, k) > Score(lists, b, k)
  {
    if lists != [] {
      var init, last := lists[..|lists| - 1], lists[|lists| - 1];
      AboveScoresMore(last, a, b, k);
      DominanceInScore(init, a, b, k);
      if OccursInAny(lists, b) {
        OccursInLastOrBefore(lists, b);
      }
    }
  }

  lemma EarlierIsBefore(full: Ranking, i: nat, j: nat)
    requires Ordered(full) && i < |full| && j < |full|
    ensures i < j ==> Before(full[i], full[j])
  {
  }

  /** An item ranked above another wherever that one appears comes first in the fusion. */
  lemma DominanceIsKept(lists: seq<Ranking>, k: real, full: Ranking, a: Id, j: nat)
    requires k > -1.0 && IsFusion(lists, k, full) && j < |full|
    requires forall l | 0 <= l < |lists| :: RanksOnce(lists[l]) && AboveIn(lists[l], a, full[j].chunkId)
    ensures exists i | 0 <= i < j :: full[i].chunkId == a
  {
    var b := full[j].chunkId;
    DominanceInScore(lists, a, b, k);
    var l :| 0 <= l < |lists| && Occurs(lists[l], b);
    var at :| 0 <= at < |lists[l]| && lists[l][at].chunkId == b;
    assert Occurs(lists[l][..at], a);
    assert Occurs(lists[l], a);
    var x := HybridResult(a, Score(lists, a, k));
    assert x in full;
    var i :| 0 <= i < |full| && full[i] == x;
    EarlierIsBefore(full, j, i);
  }
}
