/** Runs that stage a round: each volunteer of a list claims a slot and hands in a text. */
module QuorumStage {
  import opened Clique
  import opened Consensus
  import opened Publish
  import opened QuorumRounds
  import opened QuorumRuns
  import opened QuorumState
  import opened Similarity
  import opened Wrappers

  lemma {:induction false} RunConcat(cfg: Config, st: State, a: seq<Event>, b: seq<Event>)
    requires ValidConfig(cfg)
    ensures Run(cfg, st, a + b) == Run(cfg, Run(cfg, st, a), b)
  {
    if b == [] {
      assert a + b == a;
    } else {
      assert (a + b)[..|a + b| - 1] == a + b[..|b| - 1];
      RunConcat(cfg, st, a, b[..|b| - 1]);
    }
  }

  lemma RunOne(cfg: Config, st: State, ev: Event)
    requires ValidConfig(cfg)
    ensures Run(cfg, st, [ev]) == Step(cfg, st, ev)
  {
    assert [ev][..0] == [];
  }

  lemma RunTwo(cfg: Config, st: State, a: Event, b: Event)
    requires ValidConfig(cfg)
    ensures Run(cfg, st, [a, b]) == Step(cfg, Step(cfg, st, a), b)
  {
    assert [a, b] == [a] + [b];
    RunConcat(cfg, st, [a], [b]);
    RunOne(cfg, st, a);
    RunOne(cfg, Step(cfg, st, a), b);
  }

  // ----- Other subjects

  /** Other subjects decide on `k` rows of the volunteer, all alike. */
  function DecidedElsewhere(author: string, effect: Effect, k: nat): seq<Event> {
    seq(k, _ => Elsewhere(author, effect))
  }

  lemma {:induction false} StrikesAddUp(cfg: Config, st: State, author: string, k: nat)
    requires ValidConfig(cfg)
    ensures
      var after := Run(cfg, st, DecidedElsewhere(author, Struck, k));
      var (before, now) := (StandingOf(st.standing, author), StandingOf(after.standing, author));
      && after == st.(standing := after.standing)
      && now.strikes == before.strikes + k
      && (before.trust >= 0.0 ==>
            now.trust == if before.trust - 0.2 * k as real < 0.0 then 0.0 else before.trust - 0.2 * k as real)
  {
    if k > 0 {
      assert DecidedElsewhere(author, Struck, k)[..k - 1] == DecidedElsewhere(author, Struck, k - 1);
      StrikesAddUp(cfg, st, author, k - 1);
    }
  }

  lemma {:induction false} AcceptancesAddUp(cfg: Config, st: State, author: string, k: nat)
    requires ValidConfig(cfg)
    ensures
      var after := Run(cfg, st, DecidedElsewhere(author, Forgiven, k));
      var (before, now) := (StandingOf(st.standing, author), StandingOf(after.standing, author));
      && now.strikes == (if k < before.strikes then before.strikes - k else 0)
      && (before.trust <= 1.0 ==>
            now.trust == if before.trust + 0.1 * k as real > 1.0 then 1.0 else before.trust + 0.1 * k as real)
  {
    if k > 0 {
      assert DecidedElsewhere(author, Forgiven, k)[..k - 1] == DecidedElsewhere(author, Forgiven, k - 1);
      AcceptancesAddUp(cfg, st, author, k - 1);
    }
  }

  /** Two tenths of trust for a strike, one for an acceptance, never below 0 or above 1: a
      newcomer after `k` strikes and then `m` acceptances. */
  lemma NewcomerAfter(cfg: Config, author: string, k: nat, m: nat)
    requires ValidConfig(cfg)
    ensures
      var after := Run(cfg, EMPTY, DecidedElsewhere(author, Struck, k) + DecidedElsewhere(author, Forgiven, m));
      var low := if k >= 5 then 0.0 else 1.0 - 0.2 * k as real;
      var lifted := low + 0.1 * m as real;
      StandingOf(after.standing, author)
      == Standing(if m < k then k - m else 0, if lifted > 1.0 then 1.0 else lifted)
  {
    hide Run, StandingOf;
    Newcomer(author);
    StrikesAddUp(cfg, EMPTY, author, k);
    AcceptancesAddUp(cfg, Run(cfg, EMPTY, DecidedElsewhere(author, Struck, k)), author, m);
    RunConcat(cfg, EMPTY, DecidedElsewhere(author, Struck, k), DecidedElsewhere(author, Forgiven, m));
  }

  lemma Newcomer(author: string)
    ensures StandingOf(EMPTY.standing, author) == Standing(0, 1.0)
  {
  }

  // ----- Staging

  /** A volunteer claims a slot, completes it and has the candidate staged. */
  function Vote(slot: nat, author: string, text: string): seq<Event> {
    [Claim(slot, author), Complete(slot, author, text), Stage(Answer(text, author), true)]
  }

  lemma VoteIsCast(cfg: Config, st: State, slot: nat, author: string, text: string)
    requires ValidConfig(cfg) && MayClaim(cfg, st, slot, author)
    ensures Run(cfg, st, Vote(slot, author, text))
            == st.(slots := st.slots[slot := st.slots[slot].(status := Done, claimedBy := Some(author))],
                   submissions := st.submissions + [Submission(text, author, Candidate)])
  {
    var claimed := Step(cfg, st, Claim(slot, author));
    assert MayComplete(claimed, slot, author);
    var completed := Step(cfg, claimed, Complete(slot, author, text));
    assert completed.handed - multiset{Answer(text, author)} == st.handed;
    var after := Step(cfg, completed, Stage(Answer(text, author), true));
    assert after.slots == st.slots[slot := st.slots[slot].(status := Done, claimedBy := Some(author))];
    hide Step;
    assert Vote(slot, author, text)
           == [Claim(slot, author), Complete(slot, author, text)] + [Stage(Answer(text, author), true)];
    RunTwo(cfg, st, Claim(slot, author), Complete(slot, author, text));
    RunConcat(cfg, st, [Claim(slot, author), Complete(slot, author, text)], [Stage(Answer(text, author), true)]);
    RunOne(cfg, completed, Stage(Answer(text, author), true));
  }

  /** The first `k` volunteers hand in their texts. */
  function Staging(texts: seq<string>, authors: seq<string>, k: nat): seq<Event>
    requires k <= |texts| == |authors|
  {
    if k == 0 then []
    else Staging(texts, authors, k - 1) + Vote(k - 1, authors[k - 1], texts[k - 1])
  }

  /** All slots of one group, untouched. */
  ghost predicate Untouched(slots: seq<Slot>, n: nat, generation: nat, group: nat) {
    slots == FreshSlots(n, generation, group)
  }

  /** Distinct volunteers who may claim slots of the group. */
  ghost predicate MayTakePart(cfg: Config, st: State, group: nat, authors: seq<string>) {
    && (forall i, j | 0 <= i < j < |authors| :: authors[i] != authors[j])
    && forall i | 0 <= i < |authors| ::
         && !(authors[i] in st.standing && st.standing[authors[i]].strikes >= cfg.strikesLimit)
         && (group, authors[i]) !in st.excluded
  }

  function Candidates(texts: seq<string>, authors: seq<string>, k: nat): seq<Submission>
    requires k <= |texts| == |authors|
  {
    seq(k, i requires 0 <= i < k => Submission(texts[i], authors[i], Candidate))
  }

  function StagedSlots(n: nat, generation: nat, group: nat, authors: seq<string>, k: nat): seq<Slot>
    requires k <= |authors|
  {
    seq(n, i requires 0 <= i < n =>
      if i < k then Slot(generation, group, Done, Some(authors[i])) else Slot(generation, group, Pending, None))
  }

  /** What a round is once the first `k` texts are in. */
  function Staged(st: State, generation: nat, group: nat, texts: seq<string>, authors: seq<string>, k: nat): State
    requires k <= |texts| == |authors|
  {
    st.(slots := StagedSlots(|st.slots|, generation, group, authors, k),
        submissions := st.submissions + Candidates(texts, authors, k))
  }

  lemma UsedUp(st: State, generation: nat, group: nat, texts: seq<string>, authors: seq<string>)
    requires |texts| == |authors| == |st.slots| > 0
    ensures
      var staged := Staged(st, generation, group, texts, authors, |texts|);
      staged.slots != [] && !AnyLive(staged.slots) && staged.slots[0].generation == generation
  {
  }

  lemma {:induction false} StagedGeneration(n: nat, generation: nat, group: nat, authors: seq<string>, k: nat)
    requires k <= |authors|
    ensures MaxGeneration(StagedSlots(n, generation, group, authors, k)) == if n == 0 then 0 else generation
    decreases n
  {
    var slots := StagedSlots(n, generation, group, authors, k);
    if n > 0 {
      assert slots[..n - 1] == StagedSlots(n - 1, generation, group, authors, k);
      StagedGeneration(n - 1, generation, group, authors, k);
    }
  }

  lemma StageOne(cfg: Config, st: State, generation: nat, group: nat, texts: seq<string>, authors: seq<string>, k: nat)
    requires ValidConfig(cfg) && k < |texts| == |authors| <= |st.slots|
    requires MayTakePart(cfg, st, group, authors)
    ensures
      var before := Staged(st, generation, group, texts, authors, k);
      Run(cfg, before, Vote(k, authors[k], texts[k])) == Staged(st, generation, group, texts, authors, k + 1)
  {
    hide Run, Vote;
    var before := Staged(st, generation, group, texts, authors, k);
    assert MayClaim(cfg, before, k, authors[k]);
    VoteIsCast(cfg, before, k, authors[k], texts[k]);
    assert Candidates(texts, authors, k + 1)
           == Candidates(texts, authors, k) + [Submission(texts[k], authors[k], Candidate)];
    assert Run(cfg, before, Vote(k, authors[k], texts[k])).slots
           == StagedSlots(|st.slots|, generation, group, authors, k + 1);
  }

  lemma {:induction false} StagingStages(cfg: Config, st: State, generation: nat, group: nat, texts: seq<string>,
                                         authors: seq<string>, k: nat)
    requires ValidConfig(cfg) && k <= |texts| == |authors| <= |st.slots|
    requires Untouched(st.slots, |st.slots|, generation, group) && MayTakePart(cfg, st, group, authors)
    ensures Run(cfg, st, Staging(texts, authors, k)) == Staged(st, generation, group, texts, authors, k)
  {
    if k == 0 {
      hide PendingIds, MayTakePart, Step;
      assert Staged(st, generation, group, texts, authors, 0).submissions == st.submissions;
      assert Staged(st, generation, group, texts, authors, 0).slots == st.slots;
    } else {
      hide Run, Staged, Untouched, MayTakePart, Step, Vote;
      StagingStages(cfg, st, generation, group, texts, authors, k - 1);
      StageOne(cfg, st, generation, group, texts, authors, k - 1);
      RunConcat(cfg, st, Staging(texts, authors, k - 1), Vote(k - 1, authors[k - 1], texts[k - 1]));
    }
  }

  // ----- The round that was staged

  /** What the decision finds agreeing among these texts. */
  ghost function TextsAgreed(cfg: Config, texts: seq<string>): seq<nat> {
    AgreedSet(Similarities(cfg.sqrt, VectorsOf(cfg, texts)), cfg.threshold, AtLeastOne(cfg.n))
  }

  function VectorsOf(cfg: Config, texts: seq<string>): (vectors: seq<Vector>)
    ensures |vectors| == |texts|
  {
    seq(|texts|, i requires 0 <= i < |texts| => cfg.embed(texts[i]))
  }

  /** The `k` ids from `start` on. */
  function Behind(start: nat, k: nat): (ids: seq<nat>)
    ensures |ids| == k
    ensures forall i | 0 <= i < k :: ids[i] == start + i
  {
    if k == 0 then [] else Behind(start, k - 1) + [start + k - 1]
  }

  lemma BehindIsAList(start: nat, k: nat)
    ensures IndexList(Behind(start, k), start + k)
    ensures forall id: nat :: id in Behind(start, k) <==> start <= id < start + k
  {
    forall id | start <= id < start + k
      ensures id in Behind(start, k)
    {
      assert Behind(start, k)[id - start] == id;
    }
  }

  lemma StagedIsPendingIff(st: State, generation: nat, group: nat, texts: seq<string>, authors: seq<string>, id: nat)
    requires |texts| == |authors| && PendingIds(st) == []
    ensures id in PendingIds(Staged(st, generation, group, texts, authors, |texts|))
            <==> |st.submissions| <= id < |st.submissions| + |texts|
  {
    NonePending(st);
    if id < |st.submissions| {
      assert Staged(st, generation, group, texts, authors, |texts|).submissions[id] == st.submissions[id];
    }
  }

  lemma StagedPendingIsAList(st: State, generation: nat, group: nat, texts: seq<string>, authors: seq<string>)
    requires |texts| == |authors|
    ensures IndexList(PendingIds(Staged(st, generation, group, texts, authors, |texts|)), |st.submissions| + |texts|)
  {
    hide IndexList;
  }

  lemma StagedPending(st: State, generation: nat, group: nat, texts: seq<string>, authors: seq<string>)
    requires |texts| == |authors| && PendingIds(st) == []
    ensures PendingIds(Staged(st, generation, group, texts, authors, |texts|)) == Behind(|st.submissions|, |texts|)
  {
    hide WithStatus, PendingIds, Staged, IndexList, Behind;
    var start, k := |st.submissions|, |texts|;
    var ids := PendingIds(Staged(st, generation, group, texts, authors, k));
    forall id: nat
      ensures id in ids <==> start <= id < start + k
    {
      StagedIsPendingIff(st, generation, group, texts, authors, id);
    }
    StagedPendingIsAList(st, generation, group, texts, authors);
    BehindIsAList(start, k);
    SameMembersSameList(ids, Behind(start, k), start + k);
  }

  /** The decision on a staged round looks at nothing but the staged texts. */
  lemma StagedRound(cfg: Config, st: State, generation: nat, group: nat, texts: seq<string>, authors: seq<string>)
    requires |texts| == |authors| && PendingIds(st) == []
    ensures Agreed(cfg, Staged(st, generation, group, texts, authors, |texts|)) == TextsAgreed(cfg, texts)
  {
    hide Similarities, AgreedSet, PendingIds;
    var staged := Staged(st, generation, group, texts, authors, |texts|);
    StagedPending(st, generation, group, texts, authors);
    assert Embedded(cfg, AnswersOf(staged.submissions, Behind(|st.submissions|, |texts|))) == VectorsOf(cfg, texts);
  }
}
