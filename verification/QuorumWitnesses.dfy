/** Runs from the empty store in which the protocol does what its documentation rules out. */
module QuorumWitnesses {
  import opened Consensus
  import opened Publish
  import opened QuorumCap
  import opened QuorumRounds
  import opened QuorumRuns
  import opened QuorumStage
  import opened QuorumState
  import opened QuorumVotes
  import opened Wrappers

  // ----- A finished group that is enqueued again

  /** "a" stages a candidate, the other slot fails. */
  const HALF_DONE: seq<Event> := [EnqueueAgain(2, 0)] + Vote(0, "a", "x") + [Claim(1, "b"), Release(1, true)]

  /** The same, but the candidate of "a" is not staged yet. */
  const HANDED_IN: seq<Event> :=
    [EnqueueAgain(2, 0)] + [Claim(0, "a"), Complete(0, "a", "x")] + [Claim(1, "b"), Release(1, true)]

  const FINISHED: seq<Slot> := [Slot(0, 1, Done, Some("a")), Slot(0, 1, Failed, None)]

  lemma FirstGroupIsDealt(cfg: Config)
    requires ValidConfig(cfg)
    ensures Run(cfg, EMPTY, [EnqueueAgain(2, 0)]) == EMPTY.(slots := FreshSlots(2, 0, 1))
  {
    RunOne(cfg, EMPTY, EnqueueAgain(2, 0));
  }

  lemma SecondSlotFails(cfg: Config, st: State)
    requires ValidConfig(cfg) && st.slots == [Slot(0, 1, Done, Some("a")), Slot(0, 1, Pending, None)]
    requires st.standing == map[] && st.excluded == {}
    ensures Run(cfg, st, [Claim(1, "b"), Release(1, true)]) == st.(slots := FINISHED)
  {
    hide Run;
    RunTwo(cfg, st, Claim(1, "b"), Release(1, true));
    assert MayClaim(cfg, st, 1, "b");
  }

  lemma AfterHalfDone(cfg: Config)
    requires ValidConfig(cfg)
    ensures Run(cfg, EMPTY, HALF_DONE)
            == EMPTY.(slots := FINISHED, submissions := [Submission("x", "a", Candidate)])
  {
    hide Run, Vote;
    var dealt := EMPTY.(slots := FreshSlots(2, 0, 1));
    FirstGroupIsDealt(cfg);
    RunConcat(cfg, EMPTY, [EnqueueAgain(2, 0)], Vote(0, "a", "x"));
    assert MayClaim(cfg, dealt, 0, "a");
    VoteIsCast(cfg, dealt, 0, "a", "x");
    RunConcat(cfg, EMPTY, [EnqueueAgain(2, 0)] + Vote(0, "a", "x"), [Claim(1, "b"), Release(1, true)]);
    SecondSlotFails(cfg, Run(cfg, dealt, Vote(0, "a", "x")));
  }

  lemma AfterHandedIn(cfg: Config)
    requires ValidConfig(cfg)
    ensures Run(cfg, EMPTY, HANDED_IN) == EMPTY.(slots := FINISHED, handed := multiset{Answer("x", "a")})
  {
    hide Run;
    var dealt, last := EMPTY.(slots := FreshSlots(2, 0, 1)), [Claim(1, "b"), Release(1, true)];
    var claim, complete := Claim(0, "a"), Complete(0, "a", "x");
    FirstGroupIsDealt(cfg);
    RunConcat(cfg, EMPTY, [EnqueueAgain(2, 0)], [claim, complete]);
    RunTwo(cfg, dealt, claim, complete);
    assert MayClaim(cfg, dealt, 0, "a");
    var handed := Run(cfg, dealt, [claim, complete]);
    assert handed.slots == [Slot(0, 1, Done, Some("a")), Slot(0, 1, Pending, None)];
    RunConcat(cfg, EMPTY, [EnqueueAgain(2, 0)] + [claim, complete], last);
    SecondSlotFails(cfg, handed);
  }

  lemma FinishedIsDealtAgain(cfg: Config, evs: seq<Event>)
    requires ValidConfig(cfg) && Run(cfg, EMPTY, evs).slots == FINISHED
    ensures
      var st := Run(cfg, EMPTY, evs);
      Run(cfg, EMPTY, evs + [EnqueueAgain(2, 0)]) == st.(slots := FreshSlots(2, 1, 1))
  {
    hide Run;
    var st := Run(cfg, EMPTY, evs);
    RunConcat(cfg, EMPTY, evs, [EnqueueAgain(2, 0)]);
    RunOne(cfg, st, EnqueueAgain(2, 0));
    assert !AnyLive(FINISHED);
    assert st.excluded + Exclusions(1, []) == st.excluded;
  }

  lemma BothPending(st: State)
    requires |st.submissions| == 2 && st.submissions[0].status == st.submissions[1].status == Candidate
    ensures PendingIds(st) == [0, 1]
  {
    assert WithStatus(st.submissions, Candidate, 0) == [];
    assert WithStatus(st.submissions, Candidate, 1) == [0];
  }

  /** The finished group is enqueued again, and "a" stages a second candidate. */
  lemma ReEnqueueLetsAVolunteerVoteTwice(cfg: Config)
    requires ValidConfig(cfg)
    ensures
      var st := Run(cfg, EMPTY, HALF_DONE + [EnqueueAgain(2, 0)] + Vote(0, "a", "y"));
      |PendingIds(st)| == 2 && AuthorAt(st, 0) == AuthorAt(st, 1)
  {
    hide Run, Vote;
    AfterHalfDone(cfg);
    FinishedIsDealtAgain(cfg, HALF_DONE);
    var again := Run(cfg, EMPTY, HALF_DONE + [EnqueueAgain(2, 0)]);
    assert MayClaim(cfg, again, 0, "a");
    VoteIsCast(cfg, again, 0, "a", "y");
    RunConcat(cfg, EMPTY, HALF_DONE + [EnqueueAgain(2, 0)], Vote(0, "a", "y"));
    BothPending(Run(cfg, again, Vote(0, "a", "y")));
  }

  /** A ban does not help: "a" is banned when the finished group is enqueued again, and votes
      again once other subjects have lifted the ban. */
  lemma LiftedBanLetsAVolunteerVoteTwice(cfg: Config, k: nat) returns (more: seq<Event>)
    requires ValidConfig(cfg) && k >= cfg.strikesLimit > 0
    ensures
      var front := HALF_DONE + DecidedElsewhere("a", Struck, k);
      && StandingOf(Run(cfg, EMPTY, front).standing, "a").strikes >= cfg.strikesLimit
      && NoNewSlots(more) && !DistinctVotes(Run(cfg, EMPTY, front + [EnqueueAgain(2, 0)] + more))
  {
    hide Run, Vote, DistinctVotes, NoNewSlots, StandingOf;
    var front := HALF_DONE + DecidedElsewhere("a", Struck, k);
    AfterHalfDone(cfg);
    RunConcat(cfg, EMPTY, HALF_DONE, DecidedElsewhere("a", Struck, k));
    StrikesAddUp(cfg, Run(cfg, EMPTY, HALF_DONE), "a", k);
    NobodyIsStruckYet();
    FinishedIsDealtAgain(cfg, front);
    var again := Run(cfg, EMPTY, front + [EnqueueAgain(2, 0)]);
    assert IsPending(again, 0) && again.submissions[0].author == "a";
    more := OutVotesTwice(cfg, again, 2, 1, 1, "a");
    RunConcat(cfg, EMPTY, front + [EnqueueAgain(2, 0)], more);
  }

  lemma NobodyIsStruckYet()
    ensures StandingOf(EMPTY.standing, "a").strikes == 0
  {
  }

  /** Nor does an empty list of pending candidates: "a" has handed in when the finished group
      is enqueued again, and both candidates get staged. */
  lemma HandedInVotesTwice(cfg: Config) returns (more: seq<Event>)
    requires ValidConfig(cfg)
    ensures PendingIds(Run(cfg, EMPTY, HANDED_IN)) == []
    ensures NoNewSlots(more) && !DistinctVotes(Run(cfg, EMPTY, HANDED_IN + [EnqueueAgain(2, 0)] + more))
  {
    hide Run, DistinctVotes, NoNewSlots;
    AfterHandedIn(cfg);
    FinishedIsDealtAgain(cfg, HANDED_IN);
    var again := Run(cfg, EMPTY, HANDED_IN + [EnqueueAgain(2, 0)]);
    assert Answer("x", "a") in again.handed;
    more := OutVotesTwice(cfg, again, 2, 1, 1, "a");
    RunConcat(cfg, EMPTY, HANDED_IN + [EnqueueAgain(2, 0)], more);
  }

  // ----- A rejection that is not written

  /** Everything works but the first call for the first row. */
  const FIRST_ROW_FAILS := Faults(false, false, false, id => if id == 0 then FirstCallFails else Works, false, false, 0)

  /** The first round, staged. */
  ghost function FirstRound(texts: seq<string>): State {
    Staged(EMPTY.(slots := FreshSlots(|texts|, 0, 1)), 0, 1, texts, Names(0, |texts|), |texts|)
  }

  function FirstRoundEvents(texts: seq<string>): seq<Event> {
    [EnqueueAgain(|texts|, 0)] + Staging(texts, Names(0, |texts|), |texts|)
  }

  lemma FirstRoundIsReached(cfg: Config, texts: seq<string>)
    requires ValidConfig(cfg) && |texts| == AtLeastOne(cfg.n)
    ensures Run(cfg, EMPTY, FirstRoundEvents(texts)) == FirstRound(texts)
    ensures PendingIds(FirstRound(texts)) == Behind(0, |texts|)
    ensures Agreed(cfg, FirstRound(texts)) == TextsAgreed(cfg, texts)
  {
    var st := EMPTY.(slots := FreshSlots(|texts|, 0, 1));
    RunOne(cfg, EMPTY, EnqueueAgain(|texts|, 0));
    assert Run(cfg, EMPTY, [EnqueueAgain(|texts|, 0)]) == st;
    RunConcat(cfg, EMPTY, [EnqueueAgain(|texts|, 0)], Staging(texts, Names(0, |texts|), |texts|));
    assert PendingIds(st) == [];
    hide Run, PendingIds, AgreedSet, Staging, Names;
    NewcomersMayTakePart(cfg, st, 0, 1, |texts|);
    StagingStages(cfg, st, 0, 1, texts, Names(0, |texts|), |texts|);
    StagedPending(st, 0, 1, texts, Names(0, |texts|));
    StagedRound(cfg, st, 0, 1, texts, Names(0, |texts|));
  }

  lemma {:induction false} FewStandings(st: State, ids: seq<nat>, row: nat -> RowFault, k: nat)
    requires 1 <= k <= |ids| && IsListOfRows(st, ids) && st.standing == map[] && row(ids[0]) == FirstCallFails
    ensures |MarkRows(st, ids, [], row, k).st.standing| <= k - 1
  {
    if k > 1 {
      FewStandings(st, ids, row, k - 1);
    }
  }

  /** If the first row's rejection is not written and its author has no other row, the row
      stays pending, and its author is neither on record nor among the divergers; somebody
      else is. */
  lemma FirstAuthorEscapes(st: State, ids: seq<nat>, row: nat -> RowFault)
    requires |ids| >= 2 && IsListOfRows(st, ids) && st.standing == map[]
    requires row(ids[0]) == FirstCallFails && row(ids[1]) == Works && IsPending(st, ids[0])
    requires forall i | 1 <= i < |ids| :: st.submissions[ids[i]].author != st.submissions[ids[0]].author
    ensures
      var m, a := MarkRows(st, ids, [], row, |ids|), st.submissions[ids[0]].author;
      && m.st.submissions[ids[0]] == st.submissions[ids[0]]
      && a !in m.st.standing && a !in m.divergers && m.divergers != [] && |m.st.standing| < |ids|
      && m.st == st.(submissions := m.st.submissions, standing := m.st.standing)
  {
    var n, a := |ids|, st.submissions[ids[0]].author;
    MarkRowsSettles(st, ids, [], row, n, 0);
    MarkRowsKeeps(st, ids, [], row, n, ids[0]);
    StandingUntouched(st, ids, [], row, n, a);
    DivergersWorked(st, ids, row, n, a);
    FewStandings(st, ids, row, n);
    assert ids[..n] == ids && ids[1] in ids;
    RejectedAuthorDiverges(st, ids, row, n, ids[1]);
    hide MarkRows;
  }

  lemma FirstRoundRows(texts: seq<string>)
    requires |texts| >= 2
    ensures
      var st, ids := FirstRound(texts), Behind(0, |texts|);
      && IsListOfRows(st, ids) && st.standing == map[] && st.excluded == {} && IsPending(st, ids[0])
      && st.submissions[0].author == Name(0)
      && (forall i | 1 <= i < |ids| :: st.submissions[ids[i]].author != st.submissions[ids[0]].author)
      && st.slots != [] && !AnyLive(st.slots) && st.slots[0].generation == 0 && MaxGeneration(st.slots) == 0
  {
    StagedGeneration(|texts|, 0, 1, Names(0, |texts|), |texts|);
    assert Names(0, |texts|)[0] == Name(0);
  }

  lemma ReFanOutIsDealt(cfg: Config, st: State, divergers: seq<string>, n: nat)
    requires n >= 1 && cfg.strikesLimit > 0 && divergers != [] && |st.standing| < n
    requires st.slots != [] && !AnyLive(st.slots) && st.slots[0].generation == 0 && MaxGeneration(st.slots) == 0
    ensures
      var after, group := Reassign(cfg, st, divergers, n, FIRST_ROW_FAILS), MaxGroup(st.slots) + 1;
      && after.slots == FreshSlots(n, 1, group) && after.excluded == st.excluded + Exclusions(group, divergers)
      && after.submissions == st.submissions && after.standing == st.standing
  {
    hide MaxGroup, MaxGeneration, AnyLive, Available, FreshSlots, Exclusions;
  }

  /** The re-fan-out behind it gives the author who escaped another chance. */
  lemma ReFanOutLetsIn(cfg: Config, st: State, divergers: seq<string>, n: nat, a: string)
    requires n >= 1 && cfg.strikesLimit > 0 && divergers != [] && a !in divergers && a !in st.standing
    requires |st.standing| < n && st.excluded == {}
    requires st.slots != [] && !AnyLive(st.slots) && st.slots[0].generation == 0 && MaxGeneration(st.slots) == 0
    ensures
      var after := Reassign(cfg, st, divergers, n, FIRST_ROW_FAILS);
      && after.slots == FreshSlots(n, 1, MaxGroup(st.slots) + 1)
      && after.submissions == st.submissions && MayClaim(cfg, after, 0, a)
  {
    hide MaxGroup, MaxGeneration, AnyLive, Reassign;
    ReFanOutIsDealt(cfg, st, divergers, n);
  }

  /** A round without a quorum, in which the rejection of the first row is not written, is
      followed by a group its author may take part in, with the first candidate still
      pending. */
  lemma FailedRejectionReopens(cfg: Config, texts: seq<string>) returns (group: nat)
    requires ValidConfig(cfg) && Diverges(cfg, texts) && |texts| >= 2 && cfg.strikesLimit > 0
    ensures
      var after := Step(cfg, FirstRound(texts), DecideNow(FIRST_ROW_FAILS));
      && after.slots == FreshSlots(|texts|, 1, group)
      && IsPending(after, 0) && after.submissions[0].author == Name(0) && MayClaim(cfg, after, 0, Name(0))
  {
    hide MarkRows, PendingIds, MaxGroup, MaxGeneration, AnyLive, AgreedSet, MayClaim, FirstRound, Reassign;
    var st, ids := FirstRound(texts), Behind(0, |texts|);
    FirstRoundIsReached(cfg, texts);
    FirstRoundRows(texts);
    FirstAuthorEscapes(st, ids, FIRST_ROW_FAILS.row);
    MarkedRoundFrame(cfg, st, FIRST_ROW_FAILS);
    var m := MarkRows(st, ids, [], FIRST_ROW_FAILS.row, |ids|);
    hide Decide;
    group := MaxGroup(st.slots) + 1;
    ReFanOutLetsIn(cfg, m.st, m.divergers, |texts|, Name(0));
  }

  /** Two candidates of one author, after nothing but one status that was not written. */
  lemma FailedRejectionLetsAVolunteerVoteTwice(cfg: Config, texts: seq<string>)
    requires ValidConfig(cfg) && Diverges(cfg, texts) && |texts| >= 2 && cfg.strikesLimit > 0
    ensures !DistinctVotes(Run(cfg, EMPTY,
      FirstRoundEvents(texts) + [DecideNow(FIRST_ROW_FAILS)] + Vote(0, Name(0), "")))
  {
    hide DistinctVotes, Step, Run, FirstRound, MayClaim, Vote;
    var front := FirstRoundEvents(texts);
    FirstRoundIsReached(cfg, texts);
    RunConcat(cfg, EMPTY, front, [DecideNow(FIRST_ROW_FAILS)]);
    RunOne(cfg, FirstRound(texts), DecideNow(FIRST_ROW_FAILS));
    RunConcat(cfg, EMPTY, front + [DecideNow(FIRST_ROW_FAILS)], Vote(0, Name(0), ""));
    var group := FailedRejectionReopens(cfg, texts);
    PendingVotesAgain(cfg, Step(cfg, FirstRound(texts), DecideNow(FIRST_ROW_FAILS)), 0, 0);
  }

  // ----- A subject that is decided twice

  const NO_FAULTS := Faults(false, false, false, _ => Works, false, false, 0)

  ghost predicate HasAccepted(st: State) {
    exists id | 0 <= id < |st.submissions| :: st.submissions[id].status == Accepted
  }

  lemma AcceptedIsThere(st: State, accepted: seq<nat>, w: nat)
    requires HaveStatus(st, accepted, Accepted) && w in accepted
    ensures HasAccepted(st)
  {
    var i :| 0 <= i < |accepted| && accepted[i] == w;
    assert st.submissions[accepted[i]].status == Accepted;
  }

  /** A round with a quorum, decided: nothing is pending, a row is accepted, the slots are
      used up. */
  lemma QuorumIsAccepted(cfg: Config, st: State)
    requires ValidConfig(cfg) && Gathered(cfg, st) && Accepts(AtLeastOne(cfg.n), Agreed(cfg, st))
    ensures
      var after := Decide(cfg, st, NO_FAULTS).0;
      && PendingIds(after) == [] && HasAccepted(after)
      && after.slots == st.slots && after.excluded == st.excluded
  {
    MarkedRoundFrame(cfg, st, NO_FAULTS);
    DecisionSplitsBatch(cfg, st, NO_FAULTS);
    var (after, d) := Decide(cfg, st, NO_FAULTS);
    assert d.AcceptedAs?;
    hide Decide, PendingIds, AgreedSet, HaveStatus, HasAccepted;
    var w :| w in d.accepted && w < |st.submissions|;
    AcceptedIsThere(after, d.accepted, w);
  }

  /** The decision puts nobody but the authors of the round on record. */
  lemma QuorumRecordsAuthors(cfg: Config, st: State, base: nat)
    requires ValidConfig(cfg) && Gathered(cfg, st) && Accepts(AtLeastOne(cfg.n), Agreed(cfg, st)) && OnRecord(st, base)
    requires forall id | 0 <= id < |st.submissions| && id in PendingIds(st) :: |st.submissions[id].author| <= base
    ensures OnRecord(Decide(cfg, st, NO_FAULTS).0, base)
  {
    hide AgreedSet;
    var ids := PendingIds(st);
    var winner := st.submissions[ids[Winner(cfg, st)]];
    var published := st.(nodes := st.nodes + [Node(winner.text, winner.author)]);
    SamePending(st, published);
    PendingIsAListOfRows(published);
    assert forall i | 0 <= i < |ids| :: ids[i] in ids;
    MarkingRecordsAuthors(published, ids, Agreed(cfg, st), NO_FAULTS.row, |ids|, base);
  }

  function SecondRoundEvents(texts: seq<string>): seq<Event> {
    [EnqueueAgain(|texts|, 0)] + Staging(texts, Names(|texts|, |texts|), |texts|)
  }

  lemma DealtAgain(st: State, n: nat)
    requires st.slots != [] && !AnyLive(st.slots) && n >= 1
    ensures Enqueue(st, n, [], 0) == st.(slots := FreshSlots(n, st.slots[0].generation + 1, st.slots[0].group))
  {
    assert st.excluded + Exclusions(st.slots[0].group, []) == st.excluded;
  }

  /** From any state with nothing pending and all slots used up, another round is staged by
      newcomers. */
  lemma SecondRoundIsStaged(cfg: Config, st: State, texts: seq<string>)
    requires ValidConfig(cfg) && |texts| == AtLeastOne(cfg.n) && PendingIds(st) == [] && OnRecord(st, |texts|)
    requires st.slots != [] && !AnyLive(st.slots)
    ensures Gathered(cfg, Run(cfg, st, SecondRoundEvents(texts)))
  {
    hide Run, PendingIds, AnyLive, Enqueue, OnRecord, Staging, Names, MayTakePart;
    var n, names := |texts|, Names(|texts|, |texts|);
    var generation, group := st.slots[0].generation + 1, st.slots[0].group;
    var dealt := st.(slots := FreshSlots(n, generation, group));
    DealtAgain(st, n);
    RunConcat(cfg, st, [EnqueueAgain(n, 0)], Staging(texts, names, n));
    RunOne(cfg, st, EnqueueAgain(n, 0));
    SamePending(st, dealt);
    OnRecordForLonger(st, dealt, n, n);
    NewcomersMayTakePart(cfg, dealt, n, group, n);
    StagingStages(cfg, dealt, generation, group, texts, names, n);
    hide Staged, FreshSlots;
    StagedPending(dealt, generation, group, texts, names);
  }

  lemma AcceptedStays(st: State, after: State)
    requires Extends(st, after) && HasAccepted(st)
    ensures HasAccepted(after)
  {
    var id :| 0 <= id < |st.submissions| && st.submissions[id].status == Accepted;
    assert RowExtends(st.submissions[id], after.submissions[id]);
  }

  lemma NobodyOnRecord(st: State, base: nat)
    requires st.standing == map[] && st.excluded == {}
    ensures OnRecord(st, base)
  {
  }

  lemma FirstRoundRecords(texts: seq<string>)
    requires texts != []
    ensures
      var st := FirstRound(texts);
      && OnRecord(st, |texts|) && st.slots != [] && !AnyLive(st.slots)
      && forall id | 0 <= id < |st.submissions| && id in PendingIds(st) :: |st.submissions[id].author| <= |texts|
  {
    var st := EMPTY.(slots := FreshSlots(|texts|, 0, 1));
    assert PendingIds(st) == [];
    hide PendingIds, OnRecord, Names;
    StagedAuthorsAreShort(st, 0, 0, 1, texts);
    NobodyOnRecord(FirstRound(texts), |texts|);
    UsedUp(st, 0, 1, texts, Names(0, |texts|));
  }

  /** The first round, accepted: nothing is pending, and the slots are used up. */
  lemma FirstRoundIsAccepted(cfg: Config, texts: seq<string>)
    requires ValidConfig(cfg) && |texts| == AtLeastOne(cfg.n) && Accepts(AtLeastOne(cfg.n), TextsAgreed(cfg, texts))
    ensures
      var st := Run(cfg, EMPTY, FirstRoundEvents(texts) + [DecideNow(NO_FAULTS)]);
      && PendingIds(st) == [] && OnRecord(st, |texts|) && HasAccepted(st)
      && st.slots != [] && !AnyLive(st.slots)
  {
    hide Run, Decide, PendingIds, FirstRound, AgreedSet, AnyLive, OnRecord, HasAccepted;
    var first := FirstRound(texts);
    FirstRoundIsReached(cfg, texts);
    FirstRoundRecords(texts);
    QuorumIsAccepted(cfg, first);
    QuorumRecordsAuthors(cfg, first, |texts|);
    RunConcat(cfg, EMPTY, FirstRoundEvents(texts), [DecideNow(NO_FAULTS)]);
    RunOne(cfg, first, DecideNow(NO_FAULTS));
  }

  /** A subject that has an accepted submission is decided again, although that is documented
      as impossible: one round is accepted, the finished group is enqueued again, and a second
      round is staged. */
  lemma AcceptedSubjectIsDecidedAgain(cfg: Config, texts: seq<string>, f: Faults)
    requires ValidConfig(cfg) && |texts| == AtLeastOne(cfg.n) && Accepts(AtLeastOne(cfg.n), TextsAgreed(cfg, texts))
    requires NoFaults(f)
    ensures
      var st := Run(cfg, EMPTY, FirstRoundEvents(texts) + [DecideNow(NO_FAULTS)] + SecondRoundEvents(texts));
      HasAccepted(st) && Decide(cfg, st, f).0 != st
  {
    hide Run, Decide, PendingIds, AgreedSet, AnyLive, OnRecord, Extends, HasAccepted, NoFaults, Gathered,
      FirstRoundEvents, SecondRoundEvents;
    var first := FirstRoundEvents(texts) + [DecideNow(NO_FAULTS)];
    var decided := Run(cfg, EMPTY, first);
    FirstRoundIsAccepted(cfg, texts);
    RunConcat(cfg, EMPTY, first, SecondRoundEvents(texts));
    SecondRoundIsStaged(cfg, decided, texts);
    RunExtends(cfg, decided, SecondRoundEvents(texts));
    AcceptedStays(decided, Run(cfg, decided, SecondRoundEvents(texts)));
    DecisionActsIff(cfg, Run(cfg, decided, SecondRoundEvents(texts)), f);
  }

  /** With a fan-out of one this takes a single volunteer a round. */
  lemma SoleVolunteerIsDecidedAgain(cfg: Config, text: string, f: Faults)
    requires ValidConfig(cfg) && cfg.n <= 1 && NoFaults(f)
    ensures
      var st := Run(cfg, EMPTY, FirstRoundEvents([text]) + [DecideNow(NO_FAULTS)] + SecondRoundEvents([text]));
      HasAccepted(st) && Decide(cfg, st, f).0 != st
  {
    hide Run, Decide, HasAccepted, NoFaults;
    OneIsAQuorum(cfg, text);
    AcceptedSubjectIsDecidedAgain(cfg, [text], f);
  }

  /** A single volunteer always has a quorum. */
  lemma OneIsAQuorum(cfg: Config, text: string)
    requires cfg.n <= 1
    ensures Accepts(AtLeastOne(cfg.n), TextsAgreed(cfg, [text]))
  {
  }
}
