/** Lists of indices and ids, as the sets they denote. */
module Lists {

  ghost predicate NoDuplicates(ids: seq<nat>) {
    forall i, j | 0 <= i < j < |ids| :: ids[i] != ids[j]
  }

  ghost function SetOf(ids: seq<nat>): set<nat> {
    set id | id in ids
  }

  lemma SetOfAppend(ids: seq<nat>, id: nat)
    ensures SetOf(ids + [id]) == SetOf(ids) + {id}
  {
  }

  lemma {:induction false} SetOfSize(ids: seq<nat>)
    requires NoDuplicates(ids)
    ensures |SetOf(ids)| == |ids|
  {
    if ids != [] {
      var init, last := ids[..|ids| - 1], ids[|ids| - 1];
      SetOfSize(init);
      assert ids == init + [last];
      assert SetOf(ids) == SetOf(init) + {last};
    }
  }

  lemma SubsetSize(a: set<nat>, b: set<nat>)
    requires a <= b
    ensures |a| <= |b|
    ensures |a| == |b| ==> a == b
  {
    assert b == a + (b - a);
  }

  lemma DifferenceSize(a: set<nat>, b: set<nat>)
    ensures |a - b| >= |a| - |b|
    ensures |a - b| + |a * b| == |a|
    ensures |a * b| <= |b|
  {
    assert a == (a - b) + a * b;
    assert b == (b - a) + a * b;
  }

  lemma LargeSetsOverlap(a: set<nat>, b: set<nat>, all: set<nat>)
    requires a + b <= all
    ensures |a * b| >= |a| + |b| - |all|
  {
    SubsetSize(a + b, all);
    DifferenceSize(a, b);
    assert a + b == b + (a - b);
  }
}
