/** From the slot protocol to the Byzantine bound: each volunteer has one vote in a round,
    so few malicious volunteers means few malicious candidates. */
module QuorumVotes {
  import opened Consensus
  import opened Lists
  import opened Publish
  import opened QuorumRounds
  import opened QuorumRuns
  import opened QuorumStage
  import opened QuorumState
  import opened Wrappers

  // ----- Votes

  ghost predicate HasDoneSlot(slots: seq<Slot>, author: string) {
    exists i | 0 <= i < |slots| :: slots[i].status == Done && slots[i].claimedBy == Some(author)
  }

  ghost predicate HasSlot(slots: seq<Slot>, author: string) {
    exists i | 0 <= i < |slots| :: slots[i].claimedBy == Some(author)
  }

  ghost predicate IsPending(st: State, id: int) {
    0 <= id < |st.submissions| && st.submissions[id].status == Candidate
  }

  /** No two pending candidates share an author. */
  ghost predicate DistinctVotes(st: State) {
    forall i, j | i < j && IsPending(st, i) && IsPending(st, j) :: st.submissions[i].author != st.submissions[j].author
  }

  /** Nobody has handed in twice, or beside a pending candidate. */
  ghost predicate DistinctHands(st: State) {
    && (forall x | x in st.handed :: st.handed[x] == 1)
    && (forall x, y | x in st.handed && y in st.handed && x.author == y.author :: x == y)
    && forall id, x | IsPending(st, id) && x in st.handed :: st.submissions[id].author != x.author
  }

  /** The author has a vote out: a candidate pending, or handed in and not yet staged. */
  ghost predicate Out(st: State, author: string) {
    || (exists id :: IsPending(st, id) && st.submissions[id].author == author)
    || exists x :: x in st.handed && x.author == author
  }

  /** All slots belong to one group, each volunteer holds at most one of them. */
  ghost predicate OneSlotEach(slots: seq<Slot>) {
    forall i, j | 0 <= i < j < |slots| ::
      && slots[i].group == slots[j].group
      && (slots[i].claimedBy != slots[j].claimedBy || slots[i].claimedBy == None)
  }

  /** A limit of 0 bans everybody on record, for good. Any other ban can be lifted by a
      decision on another subject. */
  ghost predicate ShutOut(cfg: Config, st: State, author: string) {
    cfg.strikesLimit == 0 && author in st.standing
  }

  /** The author has used up a slot of the group, or will never get one. */
  ghost predicate Spent(cfg: Config, st: State, author: string) {
    HasDoneSlot(st.slots, author) || (!HasSlot(st.slots, author) && ShutOut(cfg, st, author))
  }

  ghost predicate OneVoteEach(cfg: Config, st: State) {
    && OneSlotEach(st.slots) && DistinctVotes(st) && DistinctHands(st)
    && forall a | Out(st, a) :: Spent(cfg, st, a)
  }

  /** The event deals new slots only when nobody has a vote out (shut out volunteers aside). */
  ghost predicate Safe(cfg: Config, st: State, ev: Event)
    requires ValidConfig(cfg)
  {
    var after := Step(cfg, st, ev);
    (ev.EnqueueAgain? || ev.DecideNow?) && after.slots != st.slots ==>
      forall a | Out(after, a) :: ShutOut(cfg, after, a)
  }

  ghost predicate SafeRun(cfg: Config, evs: seq<Event>)
    requires ValidConfig(cfg)
  {
    forall i | 0 <= i < |evs| :: Safe(cfg, Run(cfg, EMPTY, evs[..i]), evs[i])
  }

  // ----- Safe events keep one vote each

  lemma SameVotes(a: State, b: State)
    requires a.submissions == b.submissions && a.handed == b.handed
    ensures DistinctVotes(a) <==> DistinctVotes(b)
    ensures DistinctHands(a) <==> DistinctHands(b)
    ensures forall v :: Out(a, v) <==> Out(b, v)
  {
    assert forall id :: IsPending(a, id) <==> IsPending(b, id);
  }

  lemma DoneSlotStays(slots: seq<Slot>, now: seq<Slot>, a: string)
    requires HasDoneSlot(slots, a) && |now| == |slots|
    requires forall i | 0 <= i < |slots| && slots[i].status == Done :: now[i] == slots[i]
    ensures HasDoneSlot(now, a)
  {
    var s :| 0 <= s < |slots| && slots[s].status == Done && slots[s].claimedBy == Some(a);
    assert now[s] == slots[s];
  }

  lemma ClaimKeepsVotes(cfg: Config, st: State, ev: Event)
    requires ValidConfig(cfg) && OneVoteEach(cfg, st) && ev.Claim? && MayClaim(cfg, st, ev.slot, ev.author)
    ensures OneVoteEach(cfg, Step(cfg, st, ev))
  {
    var after := Step(cfg, st, ev);
    SameVotes(st, after);
    hide Out, DistinctVotes, DistinctHands;
    assert st.slots[ev.slot].group == st.slots[0].group;
    assert !HasSlot(st.slots, ev.author) && !ShutOut(cfg, st, ev.author);
    forall a | Out(after, a)
      ensures Spent(cfg, after, a)
    {
      if HasDoneSlot(st.slots, a) {
        DoneSlotStays(st.slots, after.slots, a);
      }
    }
  }

  lemma FreeingKeepsVotes(cfg: Config, st: State, ev: Event)
    requires ValidConfig(cfg) && OneVoteEach(cfg, st) && (ev.Release? || ev.Cancel?)
    ensures OneVoteEach(cfg, Step(cfg, st, ev))
  {
    var after := Step(cfg, st, ev);
    SameVotes(st, after);
    hide Out, DistinctVotes, DistinctHands;
    forall a | Out(after, a)
      ensures Spent(cfg, after, a)
    {
      if HasDoneSlot(st.slots, a) {
        DoneSlotStays(st.slots, after.slots, a);
      }
    }
  }

  lemma CompleteKeepsVotes(cfg: Config, st: State, ev: Event)
    requires ValidConfig(cfg) && OneVoteEach(cfg, st) && ev.Complete? && MayComplete(st, ev.slot, ev.author)
    ensures OneVoteEach(cfg, Step(cfg, st, ev))
  {
    var after := Step(cfg, st, ev);
    assert HasSlot(st.slots, ev.author) && !HasDoneSlot(st.slots, ev.author);
    assert !Out(st, ev.author);
    OneMoreHand(st, after, Answer(ev.text, ev.author));
    hide Out, DistinctVotes, DistinctHands;
    assert after.slots[ev.slot].status == Done && after.slots[ev.slot].claimedBy == Some(ev.author);
    forall a | Out(after, a)
      ensures Spent(cfg, after, a)
    {
      if HasDoneSlot(st.slots, a) {
        DoneSlotStays(st.slots, after.slots, a);
      }
    }
  }

  lemma OneMoreHand(st: State, after: State, x: Answer)
    requires DistinctVotes(st) && DistinctHands(st) && !Out(st, x.author)
    requires after.submissions == st.submissions && after.handed == st.handed + multiset{x}
    ensures DistinctVotes(after) && DistinctHands(after)
    ensures forall a :: Out(after, a) ==> Out(st, a) || a == x.author
  {
    assert forall id :: IsPending(after, id) <==> IsPending(st, id);
    assert forall y :: y in after.handed <==> y in st.handed || y == x;
  }

  lemma OneHandLess(st: State, after: State, x: Answer)
    requires DistinctVotes(st) && DistinctHands(st) && x in st.handed && after.handed == st.handed - multiset{x}
    requires after.submissions == st.submissions
      || after.submissions == st.submissions + [Submission(x.text, x.author, Candidate)]
    ensures DistinctVotes(after) && DistinctHands(after)
    ensures forall a :: Out(after, a) ==> Out(st, a)
  {
    assert st.handed[x] == 1;
    assert forall y :: y in after.handed <==> y in st.handed && y != x;
    assert forall id :: IsPending(after, id) <==>
      IsPending(st, id) || (id == |st.submissions| && |after.submissions| > |st.submissions|);
    forall a | Out(after, a)
      ensures Out(st, a)
    {
      if id :| IsPending(after, id) && after.submissions[id].author == a {
        assert IsPending(st, id) || a == x.author;
      }
    }
  }

  lemma StageKeepsVotes(cfg: Config, st: State, ev: Event)
    requires ValidConfig(cfg) && OneVoteEach(cfg, st) && ev.Stage? && ev.answer in st.handed
    ensures OneVoteEach(cfg, Step(cfg, st, ev))
  {
    hide Out, DistinctVotes, DistinctHands;
    OneHandLess(st, Step(cfg, st, ev), ev.answer);
    assert forall a :: Spent(cfg, Step(cfg, st, ev), a) <==> Spent(cfg, st, a);
  }

  lemma ElsewhereKeepsVotes(cfg: Config, st: State, ev: Event)
    requires ValidConfig(cfg) && OneVoteEach(cfg, st) && ev.Elsewhere?
    ensures OneVoteEach(cfg, Step(cfg, st, ev))
  {
    hide Touched;
    var after := Step(cfg, st, ev);
    SameVotes(st, after);
    hide Out, DistinctVotes, DistinctHands;
    assert forall a | Spent(cfg, st, a) :: Spent(cfg, after, a);
  }

  lemma FreshSlotsKeepVotes(cfg: Config, st: State, n: nat, generation: nat, group: nat)
    requires DistinctVotes(st) && DistinctHands(st) && st.slots == FreshSlots(n, generation, group)
    requires forall a | Out(st, a) :: ShutOut(cfg, st, a)
    ensures OneVoteEach(cfg, st)
  {
    hide Out, DistinctVotes, DistinctHands;
  }

  /** A decision stages nothing and puts nobody off record; it changes the slots only to deal
      new ones. */
  lemma DecisionFrame(cfg: Config, st: State, f: Faults) returns (n: nat, generation: nat, group: nat)
    requires ValidConfig(cfg)
    ensures
      var after := Decide(cfg, st, f).0;
      && after.handed == st.handed && st.standing.Keys <= after.standing.Keys
      && |after.submissions| == |st.submissions|
      && (after.slots == st.slots || (n >= 1 && after.slots == FreshSlots(n, generation, group)))
  {
    hide MarkRows, PendingIds, Agreed, Accepts, MaxGroup, MaxGeneration, Available, Exclusions;
    n, generation, group := 0, 0, 0;
    if Gathered(cfg, st) {
      MarkedRoundFrame(cfg, st, f);
      PendingIsAListOfRows(st);
      DecisionForgetsNobody(cfg, st, f);
      var after := Decide(cfg, st, f).0;
      if after.slots != st.slots {
        hide Decide;
        n := |after.slots|;
        generation, group := after.slots[0].generation, after.slots[0].group;
      }
    }
  }

  lemma DecisionForgetsNobody(cfg: Config, st: State, f: Faults)
    requires ValidConfig(cfg) && Gathered(cfg, st)
    ensures st.standing.Keys <= Decide(cfg, st, f).0.standing.Keys
    ensures |Decide(cfg, st, f).0.submissions| == |st.submissions|
  {
    hide MarkRows, WithStatus, AgreedSet, Reassign;
    var ids := PendingIds(st);
    PendingIsAListOfRows(st);
    if Accepts(AtLeastOne(cfg.n), Agreed(cfg, st)) {
      var winner := st.submissions[ids[Winner(cfg, st)]];
      var published := st.(nodes := st.nodes + [Node(winner.text, winner.author)]);
      NobodyIsForgotten(published, ids, Agreed(cfg, st), f.row, |ids|);
    } else {
      var m := MarkRows(st, ids, [], f.row, |ids|);
      NobodyIsForgotten(st, ids, [], f.row, |ids|);
      ReassignKeepsRows(cfg, m.st, m.divergers, AtLeastOne(cfg.n), f);
    }
  }

  lemma FewerPending(st: State, after: State)
    requires Extends(st, after) && |after.submissions| == |st.submissions| && after.handed == st.handed
    ensures forall id | IsPending(after, id) ::
              IsPending(st, id) && after.submissions[id].author == st.submissions[id].author
    ensures forall a :: Out(after, a) ==> Out(st, a)
    ensures DistinctVotes(st) ==> DistinctVotes(after)
    ensures DistinctHands(st) ==> DistinctHands(after)
  {
    forall id | IsPending(after, id)
      ensures IsPending(st, id) && after.submissions[id].author == st.submissions[id].author
    {
      assert RowExtends(st.submissions[id], after.submissions[id]);
    }
  }

  lemma DecideKeepsVotes(cfg: Config, st: State, f: Faults)
    requires ValidConfig(cfg) && OneVoteEach(cfg, st) && Safe(cfg, st, DecideNow(f))
    ensures OneVoteEach(cfg, Decide(cfg, st, f).0)
  {
    hide Decide, Extends, Out, DistinctVotes, DistinctHands;
    var after := Decide(cfg, st, f).0;
    var n, generation, group := DecisionFrame(cfg, st, f);
    DecideExtends(cfg, st, f);
    FewerPending(st, after);
    if after.slots == st.slots {
      assert forall a | Spent(cfg, st, a) :: Spent(cfg, after, a);
    } else {
      hide Spent, ShutOut;
      FreshSlotsKeepVotes(cfg, after, n, generation, group);
    }
  }

  lemma StepKeepsVotes(cfg: Config, st: State, ev: Event)
    requires ValidConfig(cfg) && OneVoteEach(cfg, st) && Safe(cfg, st, ev)
    ensures OneVoteEach(cfg, Step(cfg, st, ev))
  {
    hide Decide, OneVoteEach;
    match ev
    case Claim(slot, author) =>
      if MayClaim(cfg, st, slot, author) {
        ClaimKeepsVotes(cfg, st, ev);
      }
    case Complete(slot, author, _) =>
      if MayComplete(st, slot, author) {
        CompleteKeepsVotes(cfg, st, ev);
      }
    case Stage(answer, _) =>
      if answer in st.handed {
        StageKeepsVotes(cfg, st, ev);
      }
    case EnqueueAgain(n, otherGroups) => EnqueueKeepsVotes(cfg, st, n, otherGroups);
    case DecideNow(f) => DecideKeepsVotes(cfg, st, f);
    case Elsewhere(_, _) => ElsewhereKeepsVotes(cfg, st, ev);
    case _ => FreeingKeepsVotes(cfg, st, ev);
  }

  lemma EnqueueKeepsVotes(cfg: Config, st: State, n: nat, otherGroups: nat)
    requires ValidConfig(cfg) && OneVoteEach(cfg, st) && Safe(cfg, st, EnqueueAgain(n, otherGroups))
    ensures OneVoteEach(cfg, Enqueue(st, n, [], otherGroups))
  {
    var after := Enqueue(st, n, [], otherGroups);
    SameVotes(st, after);
    hide Out, DistinctVotes, DistinctHands, MaxGroup, AnyLive;
    if after.slots != st.slots {
      FreshSlotsKeepVotes(cfg, after, AtLeastOne(n), after.slots[0].generation, after.slots[0].group);
    } else {
      assert forall a :: Spent(cfg, st, a) <==> Spent(cfg, after, a);
    }
  }

  lemma SafeFront(cfg: Config, evs: seq<Event>)
    requires ValidConfig(cfg) && SafeRun(cfg, evs) && evs != []
    ensures SafeRun(cfg, evs[..|evs| - 1])
    ensures Safe(cfg, Run(cfg, EMPTY, evs[..|evs| - 1]), evs[|evs| - 1])
  {
    hide Run, Safe;
    var k := |evs| - 1;
    forall i | 0 <= i < k
      ensures Safe(cfg, Run(cfg, EMPTY, evs[..k][..i]), evs[..k][i])
    {
      assert evs[..k][..i] == evs[..i];
    }
  }

  /** In every safe run nobody ever has two votes out. */
  lemma {:induction false} VotesAreDistinct(cfg: Config, evs: seq<Event>)
    requires ValidConfig(cfg) && SafeRun(cfg, evs)
    ensures OneVoteEach(cfg, Run(cfg, EMPTY, evs))
    ensures DistinctVotes(Run(cfg, EMPTY, evs))
  {
    if evs != [] {
      var front := evs[..|evs| - 1];
      hide OneVoteEach, Step, Safe, DistinctVotes, SafeRun;
      SafeFront(cfg, evs);
      VotesAreDistinct(cfg, front);
      StepKeepsVotes(cfg, Run(cfg, EMPTY, front), evs[|evs| - 1]);
      OneVoteIsDistinct(cfg, Run(cfg, EMPTY, evs));
    }
  }

  lemma OneVoteIsDistinct(cfg: Config, st: State)
    requires OneVoteEach(cfg, st)
    ensures DistinctVotes(st)
  {
  }

  // ----- And no others

  /** Claims, hand-ins, lease releases, cancellations, decisions on other subjects. */
  ghost predicate NoNewSlots(evs: seq<Event>) {
    forall i | 0 <= i < |evs| :: !evs[i].EnqueueAgain? && !evs[i].DecideNow?
  }

  /** Nothing that happens, short of another enqueue or decision, gives anybody two pending
      candidates. */
  ghost predicate StaysDistinct(cfg: Config, st: State)
    requires ValidConfig(cfg)
  {
    forall more | NoNewSlots(more) :: DistinctVotes(Run(cfg, st, more))
  }

  lemma {:induction false} OldSlotsKeepVotes(cfg: Config, st: State, evs: seq<Event>)
    requires ValidConfig(cfg) && OneVoteEach(cfg, st) && NoNewSlots(evs)
    ensures DistinctVotes(Run(cfg, st, evs)) && OneVoteEach(cfg, Run(cfg, st, evs))
  {
    hide OneVoteEach, Step;
    if evs != [] {
      OldSlotsKeepVotes(cfg, st, evs[..|evs| - 1]);
      StepKeepsVotes(cfg, Run(cfg, st, evs[..|evs| - 1]), evs[|evs| - 1]);
    }
    OneVoteIsDistinct(cfg, Run(cfg, st, evs));
  }

  /** Other subjects accept the volunteer `k` times. */
  function Amnesty(author: string, k: nat): seq<Event> {
    seq(k, _ => Elsewhere(author, Forgiven))
  }

  lemma {:induction false} AmnestyLiftsBan(cfg: Config, st: State, author: string, k: nat)
    requires ValidConfig(cfg) && k <= StandingOf(st.standing, author).strikes
    ensures
      var after := Run(cfg, st, Amnesty(author, k));
      && after == st.(standing := after.standing) && (k == 0 ==> after == st)
      && StandingOf(after.standing, author).strikes == StandingOf(st.standing, author).strikes - k
  {
    if k > 0 {
      assert Amnesty(author, k)[..k - 1] == Amnesty(author, k - 1);
      AmnestyLiftsBan(cfg, st, author, k - 1);
    }
  }

  lemma PendingVotesAgain(cfg: Config, st: State, id: nat, slot: nat)
    requires ValidConfig(cfg) && IsPending(st, id) && MayClaim(cfg, st, slot, st.submissions[id].author)
    ensures !DistinctVotes(Run(cfg, st, Vote(slot, st.submissions[id].author, "")))
  {
    hide Run, Vote;
    VoteIsCast(cfg, st, slot, st.submissions[id].author, "");
    var after := Run(cfg, st, Vote(slot, st.submissions[id].author, ""));
    assert IsPending(after, id) && IsPending(after, |st.submissions|);
  }

  lemma HandedVotesAgain(cfg: Config, st: State, x: Answer, slot: nat)
    requires ValidConfig(cfg) && x in st.handed && MayClaim(cfg, st, slot, x.author)
    ensures !DistinctVotes(Run(cfg, st, Vote(slot, x.author, "") + [Stage(x, true)]))
  {
    hide Run, Vote;
    VoteIsCast(cfg, st, slot, x.author, "");
    var voted := Run(cfg, st, Vote(slot, x.author, ""));
    RunConcat(cfg, st, Vote(slot, x.author, ""), [Stage(x, true)]);
    RunOne(cfg, voted, Stage(x, true));
    var after := Step(cfg, voted, Stage(x, true));
    assert IsPending(after, |st.submissions|) && IsPending(after, |st.submissions| + 1);
  }

  lemma FreedMayClaim(cfg: Config, st: State, free: State, n: nat, generation: nat, group: nat, author: string)
    requires n >= 1 && st.slots == FreshSlots(n, generation, group) && free == st.(standing := free.standing)
    requires !ShutOut(cfg, st, author) && (group, author) !in st.excluded
    requires StandingOf(st.standing, author).strikes == 0 ==> free == st
    requires StandingOf(free.standing, author).strikes == 0
    ensures MayClaim(cfg, free, 0, author)
  {
  }

  lemma AmnestyDealsNothing(author: string, k: nat)
    ensures NoNewSlots(Amnesty(author, k)) && NoNewSlots(Amnesty(author, k) + Vote(0, author, ""))
    ensures forall x :: NoNewSlots(Amnesty(author, k) + (Vote(0, author, "") + [Stage(x, true)]))
  {
  }

  /** With fresh slots, whoever has a vote out, is not excluded and not shut out has a second
      candidate pending in the end: their ban, if there is one, is lifted first. */
  lemma OutVotesTwice(cfg: Config, st: State, n: nat, generation: nat, group: nat, author: string)
    returns (evs: seq<Event>)
    requires ValidConfig(cfg) && n >= 1 && st.slots == FreshSlots(n, generation, group)
    requires Out(st, author) && !ShutOut(cfg, st, author) && (group, author) !in st.excluded
    ensures NoNewSlots(evs) && !DistinctVotes(Run(cfg, st, evs))
  {
    hide Run, DistinctVotes, MayClaim, ShutOut, StandingOf, Amnesty, Vote, FreshSlots;
    var k := StandingOf(st.standing, author).strikes;
    var free := Run(cfg, st, Amnesty(author, k));
    AmnestyLiftsBan(cfg, st, author, k);
    FreedMayClaim(cfg, st, free, n, generation, group, author);
    AmnestyDealsNothing(author, k);
    if id: nat :| IsPending(st, id) && st.submissions[id].author == author {
      evs := Amnesty(author, k) + Vote(0, author, "");
      RunConcat(cfg, st, Amnesty(author, k), Vote(0, author, ""));
      PendingVotesAgain(cfg, free, id, 0);
    } else {
      var x :| x in st.handed && x.author == author;
      evs := Amnesty(author, k) + (Vote(0, author, "") + [Stage(x, true)]);
      RunConcat(cfg, st, Amnesty(author, k), Vote(0, author, "") + [Stage(x, true)]);
      HandedVotesAgain(cfg, free, x, 0);
    }
  }

  /** Every group somebody is excluded from is the current one or an earlier one. */
  ghost predicate ExclusionsAreKnown(st: State) {
    && (st.excluded != {} ==> st.slots != [])
    && forall e, i | e in st.excluded && 0 <= i < |st.slots| :: e.0 <= st.slots[i].group
  }

  lemma {:induction false} GroupAtMostMax(slots: seq<Slot>, i: nat)
    requires i < |slots|
    ensures slots[i].group <= MaxGroup(slots)
  {
    if i < |slots| - 1 {
      GroupAtMostMax(slots[..|slots| - 1], i);
    }
  }

  lemma EnqueueKeepsKnown(st: State, n: nat, exclude: seq<string>, otherGroups: nat)
    requires ExclusionsAreKnown(st)
    ensures ExclusionsAreKnown(Enqueue(st, n, exclude, otherGroups))
  {
    hide MaxGroup, AnyLive;
    if st.slots != [] {
      GroupAtMostMax(st.slots, 0);
    }
  }

  lemma ReassignKeepsKnown(cfg: Config, st: State, divergers: seq<string>, n: nat, f: Faults)
    requires ExclusionsAreKnown(st)
    ensures ExclusionsAreKnown(Reassign(cfg, st, divergers, n, f))
  {
    EnqueueKeepsKnown(st, n, divergers, f.otherGroups);
    hide Enqueue, AnyLive, MaxGeneration, Available;
  }

  lemma StepKeepsKnown(cfg: Config, st: State, ev: Event)
    requires ValidConfig(cfg) && ExclusionsAreKnown(st)
    ensures ExclusionsAreKnown(Step(cfg, st, ev))
  {
    hide Reassign, Enqueue, MarkRows, Agreed, AcceptRound, PendingIds;
    if ev.EnqueueAgain? {
      EnqueueKeepsKnown(st, ev.n, [], ev.otherGroups);
    } else if ev.DecideNow? && Gathered(cfg, st) {
      MarkedRoundFrame(cfg, st, ev.faults);
      PendingIsAListOfRows(st);
      hide Decide;
      var m := MarkRows(st, PendingIds(st), [], ev.faults.row, |PendingIds(st)|);
      if !ev.faults.embedFails && !Accepts(AtLeastOne(cfg.n), Agreed(cfg, st)) {
        ReassignKeepsKnown(cfg, m.st, m.divergers, AtLeastOne(cfg.n), ev.faults);
      }
    }
  }

  lemma {:induction false} ExclusionsStayKnown(cfg: Config, evs: seq<Event>)
    requires ValidConfig(cfg)
    ensures ExclusionsAreKnown(Run(cfg, EMPTY, evs))
  {
    if evs != [] {
      ExclusionsStayKnown(cfg, evs[..|evs| - 1]);
      StepKeepsKnown(cfg, Run(cfg, EMPTY, evs[..|evs| - 1]), evs[|evs| - 1]);
    }
  }

  // ----- The condition is exact

  /** What holds in every safe run. */
  ghost predicate Regular(cfg: Config, st: State) {
    OneVoteEach(cfg, st) && ExclusionsHold(st) && ExclusionsAreKnown(st)
  }

  lemma SafeRunsAreRegular(cfg: Config, evs: seq<Event>)
    requires ValidConfig(cfg) && SafeRun(cfg, evs)
    ensures Regular(cfg, Run(cfg, EMPTY, evs))
  {
    hide OneVoteEach, ExclusionsHold, ExclusionsAreKnown, Run;
    VotesAreDistinct(cfg, evs);
    ExcludedNeverHold(cfg, evs);
    ExclusionsStayKnown(cfg, evs);
  }

  lemma OutHoldsSlot(cfg: Config, st: State, after: State, author: string)
    requires Regular(cfg, st) && Out(st, author)
    requires st.standing.Keys <= after.standing.Keys && !ShutOut(cfg, after, author)
    ensures st.slots != [] && (st.slots[0].group, author) !in st.excluded
  {
    hide Out;
    assert HasDoneSlot(st.slots, author);
    var s :| 0 <= s < |st.slots| && st.slots[s].status == Done && st.slots[s].claimedBy == Some(author);
    assert st.slots[s].group == st.slots[0].group;
  }

  lemma EnqueuedOutIsNotExcluded(cfg: Config, st: State, n: nat, otherGroups: nat, author: string)
    requires ValidConfig(cfg) && Regular(cfg, st)
    requires
      var after := Enqueue(st, n, [], otherGroups);
      after.slots != st.slots && Out(after, author) && !ShutOut(cfg, after, author)
    ensures
      var after := Enqueue(st, n, [], otherGroups);
      after.slots != [] && (after.slots[0].group, author) !in after.excluded
  {
    hide MaxGroup, AnyLive, Regular;
    SameVotes(st, Enqueue(st, n, [], otherGroups));
    hide Out;
    OutHoldsSlot(cfg, st, Enqueue(st, n, [], otherGroups), author);
  }

  /** What a decision leaves pending are the rows it could not write. */
  lemma LeftPendingIff(cfg: Config, st: State, f: Faults, id: nat)
    requires ValidConfig(cfg) && Gathered(cfg, st) && Decide(cfg, st, f).0.slots != st.slots
    ensures IsPending(Decide(cfg, st, f).0, id) <==> IsPending(st, id) && f.row(id) == FirstCallFails
  {
    hide MarkRows, Agreed, AcceptRound;
    var ids := PendingIds(st);
    PendingIsAListOfRows(st);
    MarkedRoundFrame(cfg, st, f);
    hide Decide;
    var m := MarkRows(st, ids, [], f.row, |ids|);
    ReassignKeepsRows(cfg, m.st, m.divergers, AtLeastOne(cfg.n), f);
    hide Reassign;
    assert ids[..|ids|] == ids;
    if IsPending(st, id) {
      assert id in ids;
      var p :| 0 <= p < |ids| && ids[p] == id;
      MarkRowsSettles(st, ids, [], f.row, |ids|, p);
    } else if id < |st.submissions| {
      assert id !in ids;
      MarkRowsKeeps(st, ids, [], f.row, |ids|, id);
    }
  }

  lemma PendingRowsDiffer(st: State, id: nat)
    requires DistinctVotes(st) && IsPending(st, id)
    ensures
      var ids := PendingIds(st);
      forall i | 0 <= i < |ids| && ids[i] < |st.submissions| ::
        st.submissions[ids[i]].author == st.submissions[id].author ==> ids[i] == id
  {
    var ids := PendingIds(st);
    forall i | 0 <= i < |ids|
      ensures IsPending(st, ids[i])
    {
      assert ids[i] in ids;
    }
  }

  /** Who has a vote out behind a re-fan-out is not among its divergers. */
  lemma OutDidNotDiverge(cfg: Config, st: State, f: Faults, author: string)
    requires ValidConfig(cfg) && Gathered(cfg, st) && DistinctVotes(st) && DistinctHands(st)
    requires Decide(cfg, st, f).0.slots != st.slots && Out(Decide(cfg, st, f).0, author)
    ensures author !in MarkRows(st, PendingIds(st), [], f.row, |PendingIds(st)|).divergers
  {
    hide MarkRows, Decide;
    var ids, after := PendingIds(st), Decide(cfg, st, f).0;
    PendingIsAListOfRows(st);
    var n, generation, group := DecisionFrame(cfg, st, f);
    DecideExtends(cfg, st, f);
    forall i | 0 <= i < |ids| && st.submissions[ids[i]].author == author
      ensures f.row(ids[i]) != Works
    {
      assert ids[i] in ids && IsPending(st, ids[i]);
      if id: nat :| IsPending(after, id) && after.submissions[id].author == author {
        LeftPendingIff(cfg, st, f, id);
        assert RowExtends(st.submissions[id], after.submissions[id]);
        PendingRowsDiffer(st, id);
      }
    }
    DivergersWorked(st, ids, f.row, |ids|, author);
  }

  lemma ReFannedOutIsNotExcluded(cfg: Config, st: State, f: Faults, author: string)
    requires ValidConfig(cfg) && Gathered(cfg, st) && Regular(cfg, st)
    requires
      var after := Decide(cfg, st, f).0;
      after.slots != st.slots && Out(after, author) && !ShutOut(cfg, after, author)
    ensures
      var after := Decide(cfg, st, f).0;
      after.slots != [] && (after.slots[0].group, author) !in after.excluded
  {
    hide MarkRows, PendingIds, Agreed, AcceptRound, MaxGroup, MaxGeneration, AnyLive, Available, Decide, OneVoteEach;
    var after := Decide(cfg, st, f).0;
    var n, generation, group := DecisionFrame(cfg, st, f);
    DecideExtends(cfg, st, f);
    FewerPending(st, after);
    RegularIsDistinct(cfg, st);
    OutDidNotDiverge(cfg, st, f, author);
    hide Out, DistinctVotes, DistinctHands, Extends;
    OutHoldsSlot(cfg, st, after, author);
    MarkedRoundFrame(cfg, st, f);
    GroupAtMostMax(st.slots, 0);
  }

  lemma RegularIsOneVote(cfg: Config, st: State)
    requires Regular(cfg, st)
    ensures OneVoteEach(cfg, st)
  {
  }

  lemma RegularIsDistinct(cfg: Config, st: State)
    requires Regular(cfg, st)
    ensures DistinctVotes(st) && DistinctHands(st)
  {
  }

  lemma UnsafeLetsSomebodyVoteTwice(cfg: Config, st: State, ev: Event) returns (evs: seq<Event>)
    requires ValidConfig(cfg) && Regular(cfg, st) && !Safe(cfg, st, ev)
    ensures NoNewSlots(evs) && !DistinctVotes(Run(cfg, Step(cfg, st, ev), evs))
  {
    hide Decide, Regular, Out, ShutOut, Run, DistinctVotes, MaxGroup, AnyLive;
    var after := Step(cfg, st, ev);
    var author :| Out(after, author) && !ShutOut(cfg, after, author);
    var n, generation, group;
    if ev.DecideNow? {
      n, generation, group := DecisionFrame(cfg, st, ev.faults);
      UndecidedKeepsSlots(cfg, st, ev.faults);
      ReFannedOutIsNotExcluded(cfg, st, ev.faults, author);
    } else {
      n, generation, group := |after.slots|, after.slots[0].generation, after.slots[0].group;
      EnqueuedOutIsNotExcluded(cfg, st, ev.n, ev.otherGroups, author);
    }
    evs := OutVotesTwice(cfg, after, n, generation, group, author);
  }

  lemma UndecidedKeepsSlots(cfg: Config, st: State, f: Faults)
    requires ValidConfig(cfg)
    ensures !Gathered(cfg, st) ==> Decide(cfg, st, f).0.slots == st.slots
  {
    hide WithStatus;
  }

  /** Behind a safe run the condition is exact: an event is safe if and only if nothing that
      follows, short of another enqueue or decision, gives anybody two pending candidates. */
  lemma SafeIff(cfg: Config, evs: seq<Event>, ev: Event)
    requires ValidConfig(cfg) && SafeRun(cfg, evs)
    ensures
      var st := Run(cfg, EMPTY, evs);
      Safe(cfg, st, ev) <==> StaysDistinct(cfg, Step(cfg, st, ev))
  {
    hide Step, Safe, NoNewSlots, DistinctVotes, OneVoteEach, Regular;
    var st := Run(cfg, EMPTY, evs);
    SafeRunsAreRegular(cfg, evs);
    hide Run;
    if Safe(cfg, st, ev) {
      RegularIsOneVote(cfg, st);
      StepKeepsVotes(cfg, st, ev);
      forall more | NoNewSlots(more)
        ensures DistinctVotes(Run(cfg, Step(cfg, st, ev), more))
      {
        OldSlotsKeepVotes(cfg, Step(cfg, st, ev), more);
      }
    } else {
      var more := UnsafeLetsSomebodyVoteTwice(cfg, st, ev);
    }
  }

  /** Enqueueing a finished group again is safe if and only if nobody has a vote out, except
      with a limit of 0, where everybody on record is shut out. */
  lemma ReEnqueueIsSafeIff(cfg: Config, evs: seq<Event>, n: nat, otherGroups: nat)
    requires ValidConfig(cfg) && SafeRun(cfg, evs) && !AnyLive(Run(cfg, EMPTY, evs).slots)
    ensures
      var st := Run(cfg, EMPTY, evs);
      StaysDistinct(cfg, Step(cfg, st, EnqueueAgain(n, otherGroups))) <==>
      forall a | Out(st, a) :: ShutOut(cfg, st, a)
  {
    var st, ev := Run(cfg, EMPTY, evs), EnqueueAgain(n, otherGroups);
    hide Run, StaysDistinct, MaxGroup, AnyLive, SafeRun;
    SafeIff(cfg, evs, ev);
    FreshIsNotFinished(st, n, otherGroups);
    SameVotes(st, Step(cfg, st, ev));
    hide Out;
  }

  lemma FreshIsNotFinished(st: State, n: nat, otherGroups: nat)
    requires !AnyLive(st.slots)
    ensures Enqueue(st, n, [], otherGroups).slots != st.slots
  {
    assert Enqueue(st, n, [], otherGroups).slots[0].Live();
  }

  /** A decision that deals new slots is safe if and only if nothing is handed in and not yet
      staged, and every rejection was written. */
  lemma DecisionIsSafeIff(cfg: Config, evs: seq<Event>, f: Faults)
    requires ValidConfig(cfg) && SafeRun(cfg, evs)
    requires Decide(cfg, Run(cfg, EMPTY, evs), f).0.slots != Run(cfg, EMPTY, evs).slots
    ensures
      var st := Run(cfg, EMPTY, evs);
      StaysDistinct(cfg, Step(cfg, st, DecideNow(f))) <==>
      st.handed == multiset{} && forall id: nat | IsPending(st, id) :: f.row(id) != FirstCallFails
  {
    hide StaysDistinct, Run, Step, SafeRun, Decide, Safe, IsPending;
    SafeIff(cfg, evs, DecideNow(f));
    SafeDecisionIff(cfg, Run(cfg, EMPTY, evs), f);
  }

  lemma SafeDecisionIff(cfg: Config, st: State, f: Faults)
    requires ValidConfig(cfg) && Decide(cfg, st, f).0.slots != st.slots
    ensures Safe(cfg, st, DecideNow(f)) <==>
            st.handed == multiset{} && forall id: nat | IsPending(st, id) :: f.row(id) != FirstCallFails
  {
    hide Decide, Out, IsPending, Gathered;
    UndecidedKeepsSlots(cfg, st, f);
    ReFanOutHasALimit(cfg, st, f);
    NobodyOutBehindIff(cfg, st, f);
  }

  lemma NobodyOutBehindIff(cfg: Config, st: State, f: Faults)
    requires ValidConfig(cfg) && Gathered(cfg, st) && Decide(cfg, st, f).0.slots != st.slots
    ensures (forall a :: !Out(Decide(cfg, st, f).0, a)) <==>
            st.handed == multiset{} && forall id: nat | IsPending(st, id) :: f.row(id) != FirstCallFails
  {
    hide Decide, Out, IsPending, Gathered;
    var n, generation, group := DecisionFrame(cfg, st, f);
    var after := Decide(cfg, st, f).0;
    NobodyOutIff(after);
    forall id: nat
      ensures IsPending(after, id) <==> IsPending(st, id) && f.row(id) == FirstCallFails
    {
      LeftPendingIff(cfg, st, f, id);
    }
  }

  lemma NobodyOutIff(st: State)
    ensures (forall a :: !Out(st, a)) <==> st.handed == multiset{} && forall id: nat :: !IsPending(st, id)
  {
    if st.handed != multiset{} {
      var x :| x in st.handed;
      assert Out(st, x.author);
    }
    if id: nat :| IsPending(st, id) {
      assert Out(st, st.submissions[id].author);
    }
  }

  lemma ReFanOutHasALimit(cfg: Config, st: State, f: Faults)
    requires ValidConfig(cfg) && Gathered(cfg, st) && Decide(cfg, st, f).0.slots != st.slots
    ensures cfg.strikesLimit > 0
  {
    hide MarkRows, PendingIds, Agreed, AcceptRound, MaxGroup, MaxGeneration, Available;
    MarkedRoundFrame(cfg, st, f);
    hide Decide;
  }

  // ----- Few malicious volunteers, few malicious candidates

  /** The positions below `k` whose author is in `names`, and how many they are. */
  ghost function PositionsOf(authors: seq<string>, names: set<string>, k: nat): (ps: set<nat>)
    requires k <= |authors|
    ensures forall p: nat :: p in ps <==> p < k && authors[p] in names
    ensures |ps| == HowMany(authors, names, k)
  {
    if k == 0 then {}
    else PositionsOf(authors, names, k - 1) + if authors[k - 1] in names then {k - 1} else {}
  }

  ghost function HowMany(authors: seq<string>, names: set<string>, k: nat): nat
    requires k <= |authors|
  {
    if k == 0 then 0 else HowMany(authors, names, k - 1) + if authors[k - 1] in names then 1 else 0
  }

  lemma {:induction false} HowManyIgnores(authors: seq<string>, names: set<string>, k: nat, a: string)
    requires k <= |authors| && forall p | 0 <= p < k :: authors[p] != a
    ensures HowMany(authors, names, k) == HowMany(authors, names - {a}, k)
  {
    if k > 0 {
      HowManyIgnores(authors, names, k - 1, a);
    }
  }

  lemma {:induction false} DistinctAuthorsBound(authors: seq<string>, names: set<string>, k: nat)
    requires k <= |authors|
    requires forall i, j | 0 <= i < j < |authors| :: authors[i] != authors[j]
    ensures HowMany(authors, names, k) <= |names|
    decreases k
  {
    if k > 0 {
      var a := authors[k - 1];
      if a in names {
        HowManyIgnores(authors, names, k - 1, a);
        DistinctAuthorsBound(authors, names - {a}, k - 1);
      } else {
        DistinctAuthorsBound(authors, names, k - 1);
      }
    }
  }

  ghost function AuthorAt(st: State, p: nat): string
    requires p < |PendingIds(st)|
  {
    st.submissions[PendingIds(st)[p]].author
  }

  lemma PendingAuthorsDiffer(st: State)
    requires DistinctVotes(st)
    ensures forall p, q | 0 <= p < q < |PendingIds(st)| :: AuthorAt(st, p) != AuthorAt(st, q)
  {
    var ids := PendingIds(st);
    PendingIsAListOfRows(st);
    forall p, q | 0 <= p < q < |ids|
      ensures AuthorAt(st, p) != AuthorAt(st, q)
    {
      assert ids[p] in ids && ids[q] in ids;
    }
  }

  /** Positions of the pending rows that malicious volunteers staged. */
  ghost function MaliciousPositions(st: State, malicious: set<string>): set<nat> {
    var n := |PendingIds(st)|;
    PositionsOf(seq(n, p requires 0 <= p < n => AuthorAt(st, p)), malicious, n)
  }

  lemma FewMaliciousPositions(st: State, malicious: set<string>)
    requires DistinctVotes(st)
    ensures |MaliciousPositions(st, malicious)| <= |malicious|
    ensures forall p: nat | p < |PendingIds(st)| && p !in MaliciousPositions(st, malicious) ::
              AuthorAt(st, p) !in malicious
  {
    var n := |PendingIds(st)|;
    var authors := seq(n, p requires 0 <= p < n => AuthorAt(st, p));
    PendingAuthorsDiffer(st);
    DistinctAuthorsBound(authors, malicious, n);
  }

  /** `f + 1` members of the agreeing set come from honest volunteers, and the text about
      to be published is honest or similar to each of theirs. */
  ghost predicate HonestSupport(cfg: Config, st: State, malicious: set<string>, honest: set<nat>)
    requires ValidConfig(cfg) && Gathered(cfg, st) && Accepts(AtLeastOne(cfg.n), Agreed(cfg, st))
  {
    && |honest| >= MaxFaulty(AtLeastOne(cfg.n)) + 1
    && honest <= SetOf(Agreed(cfg, st))
    && (forall p | p in honest :: p < |PendingIds(st)| && AuthorAt(st, p) !in malicious)
    && (AuthorAt(st, Winner(cfg, st)) !in malicious ||
        forall p | p in honest :: Similar(Round(cfg, st).2, cfg.threshold, Winner(cfg, st), p))
  }

  lemma OneVoteGivesSupport(cfg: Config, st: State, malicious: set<string>)
    requires ValidConfig(cfg) && DistinctVotes(st)
    requires |malicious| <= MaxFaulty(AtLeastOne(cfg.n))
    requires Gathered(cfg, st) && Accepts(AtLeastOne(cfg.n), Agreed(cfg, st))
    ensures HonestSupport(cfg, st, malicious, SetOf(Agreed(cfg, st)) - MaliciousPositions(st, malicious))
  {
    hide PendingIds, MaliciousPositions, DistinctVotes, AgreedSet, Similar;
    var byzantine := MaliciousPositions(st, malicious);
    FewMaliciousPositions(st, malicious);
    QuorumHasHonestSupport(Round(cfg, st).2, cfg.threshold, AtLeastOne(cfg.n), byzantine, Winner(cfg, st));
  }

  /** End to end: after any safe run, if at most `f` volunteers are malicious and the
      pending round reaches a quorum, the text about to be published has honest support. */
  lemma HonestSupportOverRuns(cfg: Config, evs: seq<Event>, malicious: set<string>)
    requires ValidConfig(cfg) && SafeRun(cfg, evs)
    requires |malicious| <= MaxFaulty(AtLeastOne(cfg.n))
    requires Gathered(cfg, Run(cfg, EMPTY, evs))
    requires Accepts(AtLeastOne(cfg.n), Agreed(cfg, Run(cfg, EMPTY, evs)))
    ensures exists honest :: HonestSupport(cfg, Run(cfg, EMPTY, evs), malicious, honest)
  {
    VotesAreDistinct(cfg, evs);
    OneVoteGivesSupport(cfg, Run(cfg, EMPTY, evs), malicious);
  }

  // ----- Published text was accepted

  ghost predicate AcceptedNode(subs: seq<Submission>, node: Node) {
    exists id | 0 <= id < |subs| ::
      subs[id].text == node.text && subs[id].author == node.author && subs[id].status == Accepted
  }

  lemma DecideAddsOnlyAccepted(cfg: Config, st: State, f: Faults, node: Node)
    requires ValidConfig(cfg) && forall id :: f.row(id) != FirstCallFails
    requires node in Decide(cfg, st, f).0.nodes && node !in st.nodes
    ensures AcceptedNode(Decide(cfg, st, f).0.submissions, node)
  {
    var ids := PendingIds(st);
    PendingIsAListOfRows(st);
    if Gathered(cfg, st) {
      MarkedRoundFrame(cfg, st, f);
    }
    if Accepts(AtLeastOne(cfg.n), Agreed(cfg, st)) {
      var w := Winner(cfg, st);
      var winner := st.submissions[ids[w]];
      var published := st.(nodes := st.nodes + [Node(winner.text, winner.author)]);
      MarkRowsKeeps(published, ids, Agreed(cfg, st), f.row, |ids|, ids[w]);
      MarkRowsSettles(published, ids, Agreed(cfg, st), f.row, |ids|, w);
      var after := Decide(cfg, st, f).0;
      assert after.submissions[ids[w]].status == Accepted;
    } else {
      var m := MarkRows(st, ids, [], f.row, |ids|);
      ReassignKeepsRows(cfg, m.st, m.divergers, AtLeastOne(cfg.n), f);
    }
  }

  ghost predicate WritesStatuses(ev: Event) {
    ev.DecideNow? ==> forall id :: ev.faults.row(id) != FirstCallFails
  }

  lemma StepAddsOnlyAccepted(cfg: Config, st: State, ev: Event, node: Node)
    requires ValidConfig(cfg) && WritesStatuses(ev)
    requires node in Step(cfg, st, ev).nodes && node !in st.nodes
    ensures AcceptedNode(Step(cfg, st, ev).submissions, node)
  {
    hide Decide, Touched, MaxGroup, AnyLive, Exclusions;
    DecideAddsOnlyAccepted(cfg, st, ev.faults, node);
  }

  lemma AcceptedNodeStays(before: State, after: State, node: Node)
    requires Extends(before, after) && AcceptedNode(before.submissions, node)
    ensures AcceptedNode(after.submissions, node)
  {
    var id :| 0 <= id < |before.submissions| && before.submissions[id].text == node.text
      && before.submissions[id].author == node.author && before.submissions[id].status == Accepted;
    assert RowExtends(before.submissions[id], after.submissions[id]);
  }

  /** In every run whose decisions write their statuses each published revision is the text of
      an accepted submission. */
  lemma {:induction false} PublishedIsAccepted(cfg: Config, evs: seq<Event>, i: nat)
    requires ValidConfig(cfg)
    requires forall k | 0 <= k < |evs| :: WritesStatuses(evs[k])
    requires i < |Run(cfg, EMPTY, evs).nodes|
    ensures AcceptedNode(Run(cfg, EMPTY, evs).submissions, Run(cfg, EMPTY, evs).nodes[i])
  {
    hide Step, WritesStatuses, AcceptedNode, Extends;
    var front := evs[..|evs| - 1];
    var before, ev, after := Run(cfg, EMPTY, front), evs[|evs| - 1], Run(cfg, EMPTY, evs);
    StepExtends(cfg, before, ev);
    var node := after.nodes[i];
    if node in before.nodes {
      var j :| 0 <= j < |before.nodes| && before.nodes[j] == node;
      PublishedIsAccepted(cfg, front, j);
      AcceptedNodeStays(before, after, node);
    } else {
      StepAddsOnlyAccepted(cfg, before, ev, node);
    }
  }
}
