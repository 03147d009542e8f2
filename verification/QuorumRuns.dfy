/** Whole runs of the quorum: any interleaving of claims, submissions, lease releases,
    cancellations, enqueues and decisions, with any storage or embedding failures. */
module QuorumRuns {
  import opened Consensus
  import opened Publish
  import opened QuorumRounds
  import opened QuorumState
  import opened Wrappers

  /** What a decision on another subject does to the standing of a volunteer. */
  datatype Effect = Seeded | Struck | Forgiven

  /** Handing in is two calls: `Complete` finishes the slot, `Stage` inserts the candidate, if
      the call succeeds. `Elsewhere` is a row of a decision on another subject. */
  datatype Event =
    | Claim(slot: nat, author: string)
    | Complete(slot: nat, author: string, text: string)
    | Stage(answer: Answer, stored: bool)
    | Release(slot: nat, failed: bool)
    | Cancel
    | EnqueueAgain(n: nat, otherGroups: nat)
    | DecideNow(faults: Faults)
    | Elsewhere(author: string, effect: Effect)

  const EMPTY := State([], multiset{}, map[], [], {}, [], 0, 0)

  predicate HoldsSlot(slots: seq<Slot>, group: nat, author: string) {
    exists i | 0 <= i < |slots| :: slots[i].group == group && slots[i].claimedBy == Some(author)
  }

  /** The guard of `claim_rlm_job`. An unseen volunteer is never banned. */
  predicate MayClaim(cfg: Config, st: State, slot: nat, author: string) {
    && slot < |st.slots|
    && st.slots[slot].status == Pending
    && !HoldsSlot(st.slots, st.slots[slot].group, author)
    && !(author in st.standing && st.standing[author].strikes >= cfg.strikesLimit)
    && (st.slots[slot].group, author) !in st.excluded
  }

  /** An open slot the volunteer may have. */
  ghost predicate IsFree(cfg: Config, st: State, slot: nat, author: string) {
    && slot < |st.slots| && st.slots[slot].status == Pending
    && (forall i | 0 <= i < |st.slots| && st.slots[i].group == st.slots[slot].group ::
          st.slots[i].claimedBy != Some(author))
    && (author in st.standing ==> st.standing[author].strikes < cfg.strikesLimit)
    && (st.slots[slot].group, author) !in st.excluded
  }

  /** The guard of `complete_rlm_job` (lease and generation checks only narrow it). */
  predicate MayComplete(st: State, slot: nat, author: string) {
    slot < |st.slots| && st.slots[slot].status == Claimed && st.slots[slot].claimedBy == Some(author)
  }

  function Touched(s: Standing, effect: Effect): Standing {
    match effect
    case Seeded => s
    case Struck => Strike(s)
    case Forgiven => Forgive(s)
  }

  function CancelSlot(s: Slot): Slot {
    if s.Live() then Slot(s.generation + 1, s.group, Pending, None) else s
  }

  ghost function Step(cfg: Config, st: State, ev: Event): State
    requires ValidConfig(cfg)
  {
    match ev
    case Claim(slot, author) =>
      if MayClaim(cfg, st, slot, author)
      then st.(slots := st.slots[slot := st.slots[slot].(status := Claimed, claimedBy := Some(author))])
      else st
    case Complete(slot, author, text) =>
      if MayComplete(st, slot, author)
      then st.(slots := st.slots[slot := st.slots[slot].(status := Done)],
               handed := st.handed + multiset{Answer(text, author)})
      else st
    case Stage(answer, stored) =>
      if answer in st.handed
      then st.(handed := st.handed - multiset{answer},
               submissions := if stored then st.submissions + [Submission(answer.text, answer.author, Candidate)]
                              else st.submissions)
      else st
    case Release(slot, failed) =>
      if slot < |st.slots| && st.slots[slot].status == Claimed
      then
        var status := if failed then Failed else Pending;
        st.(slots := st.slots[slot := st.slots[slot].(status := status, claimedBy := None)])
      else st
    case Cancel =>
      st.(slots := seq(|st.slots|, i requires 0 <= i < |st.slots| => CancelSlot(st.slots[i])))
    case EnqueueAgain(n, otherGroups) => Enqueue(st, n, [], otherGroups)
    case DecideNow(faults) => Decide(cfg, st, faults).0
    case Elsewhere(author, effect) =>
      st.(standing := st.standing[author := Touched(StandingOf(st.standing, author), effect)])
  }

  ghost function Run(cfg: Config, st: State, evs: seq<Event>): State
    requires ValidConfig(cfg)
  {
    if evs == [] then st else Step(cfg, Run(cfg, st, evs[..|evs| - 1]), evs[|evs| - 1])
  }

  // ----- History is kept

  lemma RowsExtend(st: State, after: State)
    requires st.submissions <= after.submissions && st.nodes <= after.nodes
    requires st.excluded <= after.excluded && st.rounds <= after.rounds
    ensures Extends(st, after)
  {
  }

  lemma StepExtends(cfg: Config, st: State, ev: Event)
    requires ValidConfig(cfg)
    ensures Extends(st, Step(cfg, st, ev))
  {
    hide Decide, Extends, Touched, MaxGroup, AnyLive, Exclusions, MayComplete, CancelSlot;
    if ev.DecideNow? {
      DecideExtends(cfg, st, ev.faults);
    } else {
      RowsExtend(st, Step(cfg, st, ev));
    }
  }

  /** Over every run decided statuses are final, no submission is altered or dropped, and
      published revisions stay. */
  lemma {:induction false} RunExtends(cfg: Config, st: State, evs: seq<Event>)
    requires ValidConfig(cfg)
    ensures Extends(st, Run(cfg, st, evs))
  {
    if evs != [] {
      var before := Run(cfg, st, evs[..|evs| - 1]);
      RunExtends(cfg, st, evs[..|evs| - 1]);
      StepExtends(cfg, before, evs[|evs| - 1]);
      ExtendsTransitive(st, before, Run(cfg, st, evs));
    }
  }

  // ----- Published text was submitted

  ghost predicate SubmittedAs(subs: seq<Submission>, node: Node) {
    exists id | 0 <= id < |subs| :: subs[id].text == node.text && subs[id].author == node.author
  }

  /** Every published revision carries the text and the author of a submission. */
  ghost predicate NodesAreSubmissions(st: State) {
    forall i | 0 <= i < |st.nodes| :: SubmittedAs(st.submissions, st.nodes[i])
  }

  lemma ExtendsKeepsSubmitted(before: State, after: State, node: Node)
    requires Extends(before, after) && SubmittedAs(before.submissions, node)
    ensures SubmittedAs(after.submissions, node)
  {
    var id :| 0 <= id < |before.submissions|
      && before.submissions[id].text == node.text && before.submissions[id].author == node.author;
    assert RowExtends(before.submissions[id], after.submissions[id]);
  }

  lemma DecideAddsOnlySubmitted(cfg: Config, st: State, f: Faults, node: Node)
    requires ValidConfig(cfg)
    requires node in Decide(cfg, st, f).0.nodes && node !in st.nodes
    ensures SubmittedAs(st.submissions, node)
  {
    var ids := PendingIds(st);
    PendingIsAListOfRows(st);
    if Accepts(AtLeastOne(cfg.n), Agreed(cfg, st)) {
      var w := ids[Winner(cfg, st)];
      var winner := st.submissions[w];
      var published := st.(nodes := st.nodes + [Node(winner.text, winner.author)]);
      MarkRowsKeeps(published, ids, Agreed(cfg, st), f.row, |ids|, w);
    } else {
      MarkRowsKeeps(st, ids, [], f.row, |ids|, ids[0]);
      var m := MarkRows(st, ids, [], f.row, |ids|);
      ReassignKeepsRows(cfg, m.st, m.divergers, AtLeastOne(cfg.n), f);
    }
  }

  lemma {:induction false} PublishedWasSubmitted(cfg: Config, evs: seq<Event>)
    requires ValidConfig(cfg)
    ensures NodesAreSubmissions(Run(cfg, EMPTY, evs))
  {
    if evs != [] {
      var before, ev := Run(cfg, EMPTY, evs[..|evs| - 1]), evs[|evs| - 1];
      var after := Step(cfg, before, ev);
      PublishedWasSubmitted(cfg, evs[..|evs| - 1]);
      StepExtends(cfg, before, ev);
      forall i | 0 <= i < |after.nodes|
        ensures SubmittedAs(after.submissions, after.nodes[i])
      {
        var node := after.nodes[i];
        if node !in before.nodes {
          DecideAddsOnlySubmitted(cfg, before, ev.faults, node);
        }
        ExtendsKeepsSubmitted(before, after, node);
      }
    }
  }

  /** Marking a round, on either branch, touches only rows and standing. */
  lemma MarkedRoundFrame(cfg: Config, st: State, f: Faults)
    requires ValidConfig(cfg) && Gathered(cfg, st)
    ensures
      if f.embedFails then Decide(cfg, st, f).0 == st
      else if Accepts(AtLeastOne(cfg.n), Agreed(cfg, st)) then
        var after := Decide(cfg, st, f).0;
        after == st.(submissions := after.submissions, standing := after.standing, nodes := after.nodes)
      else
        var m := MarkRows(st, PendingIds(st), [], f.row, |PendingIds(st)|);
        && m.st == st.(submissions := m.st.submissions, standing := m.st.standing)
        && Decide(cfg, st, f).0 == Reassign(cfg, m.st, m.divergers, AtLeastOne(cfg.n), f)
  {
    hide MarkRows, WithStatus, AgreedSet, Reassign;
    var ids := PendingIds(st);
    PendingIsAListOfRows(st);
    MarkRowsKeeps(st, ids, [], f.row, |ids|, ids[0]);
    if !f.embedFails && Accepts(AtLeastOne(cfg.n), Agreed(cfg, st)) {
      var winner := st.submissions[ids[Winner(cfg, st)]];
      var published := st.(nodes := st.nodes + [Node(winner.text, winner.author)]);
      MarkRowsKeeps(published, ids, Agreed(cfg, st), f.row, |ids|, ids[0]);
    }
  }

  // ----- Re-fan-outs are capped

  /** Every slot's generation counts the re-fan-outs that led to it, blind ones aside. */
  ghost predicate RoundsAreCounted(cfg: Config, st: State) {
    && (st.submissions != [] || st.handed != multiset{} ==> st.slots != [])
    && (st.slots == [] ==> st.rounds == 0)
    && (forall i | 0 <= i < |st.slots| :: st.rounds <= st.slots[i].generation + st.misreads)
    && st.rounds <= cfg.strikesLimit + st.misreads
  }

  lemma {:induction false} GenerationAtMostMax(slots: seq<Slot>, i: nat)
    requires i < |slots|
    ensures slots[i].generation <= MaxGeneration(slots)
  {
    if i < |slots| - 1 {
      GenerationAtMostMax(slots[..|slots| - 1], i);
    }
  }

  lemma ReassignCounts(cfg: Config, st: State, divergers: seq<string>, n: nat, f: Faults)
    requires RoundsAreCounted(cfg, st) && st.slots != []
    ensures RoundsAreCounted(cfg, Reassign(cfg, st, divergers, n, f))
  {
    GenerationAtMostMax(st.slots, 0);
  }

  lemma DecideCounts(cfg: Config, st: State, f: Faults)
    requires ValidConfig(cfg) && RoundsAreCounted(cfg, st)
    ensures RoundsAreCounted(cfg, Decide(cfg, st, f).0)
  {
    hide MarkRows, PendingIds, Agreed, Accepts, Reassign, AcceptRound;
    if Gathered(cfg, st) {
      var ids := PendingIds(st);
      PendingIsAListOfRows(st);
      MarkedRoundFrame(cfg, st, f);
      hide Decide;
      assert ids[0] < |st.submissions|;
      if !f.embedFails && !Accepts(AtLeastOne(cfg.n), Agreed(cfg, st)) {
        var m := MarkRows(st, ids, [], f.row, |ids|);
        assert |st.submissions| == |m.st.submissions|;
        assert RoundsAreCounted(cfg, m.st);
        ReassignCounts(cfg, m.st, m.divergers, AtLeastOne(cfg.n), f);
      }
    }
  }

  lemma EnqueueCounts(cfg: Config, st: State, n: nat, otherGroups: nat)
    requires RoundsAreCounted(cfg, st)
    ensures RoundsAreCounted(cfg, Enqueue(st, n, [], otherGroups))
  {
    hide MaxGroup, Exclusions, AnyLive;
  }

  lemma StepCounts(cfg: Config, st: State, ev: Event)
    requires ValidConfig(cfg) && RoundsAreCounted(cfg, st)
    ensures RoundsAreCounted(cfg, Step(cfg, st, ev))
  {
    hide Decide, Touched, Enqueue;
    if ev.EnqueueAgain? {
      EnqueueCounts(cfg, st, ev.n, ev.otherGroups);
    } else if ev.DecideNow? {
      DecideCounts(cfg, st, ev.faults);
    }
  }

  /** A subject is re-fanned-out at most `strikesLimit` times, plus once for each time the
      cap could not be read: an unreadable generation counts as 0. */
  lemma {:induction false} ReFanOutsAreCapped(cfg: Config, evs: seq<Event>)
    requires ValidConfig(cfg)
    ensures RoundsAreCounted(cfg, Run(cfg, EMPTY, evs))
    ensures Run(cfg, EMPTY, evs).rounds <= cfg.strikesLimit + Run(cfg, EMPTY, evs).misreads
  {
    if evs != [] {
      ReFanOutsAreCapped(cfg, evs[..|evs| - 1]);
      StepCounts(cfg, Run(cfg, EMPTY, evs[..|evs| - 1]), evs[|evs| - 1]);
    }
  }

  lemma ReadableStep(cfg: Config, st: State, ev: Event)
    requires ValidConfig(cfg) && (ev.DecideNow? ==> !ev.faults.rosterFails)
    ensures Step(cfg, st, ev).misreads == st.misreads
  {
    hide MarkRows, PendingIds, Agreed, AcceptRound, Accepts, Touched, MaxGroup, MaxGeneration, AnyLive, Available;
    if ev.DecideNow? && Gathered(cfg, st) {
      MarkedRoundFrame(cfg, st, ev.faults);
      hide Decide;
    }
  }

  lemma {:induction false} ReadableCapHolds(cfg: Config, evs: seq<Event>)
    requires ValidConfig(cfg)
    requires forall i | 0 <= i < |evs| && evs[i].DecideNow? :: !evs[i].faults.rosterFails
    ensures Run(cfg, EMPTY, evs).misreads == 0
    ensures Run(cfg, EMPTY, evs).rounds <= cfg.strikesLimit
  {
    hide Step;
    ReFanOutsAreCapped(cfg, evs);
    if evs != [] {
      ReadableCapHolds(cfg, evs[..|evs| - 1]);
      ReadableStep(cfg, Run(cfg, EMPTY, evs[..|evs| - 1]), evs[|evs| - 1]);
    }
  }

  // ----- Excluded volunteers stay out

  /** No slot is held by a volunteer excluded from its group. */
  ghost predicate ExclusionsHold(st: State) {
    forall i, a | 0 <= i < |st.slots| && st.slots[i].claimedBy == Some(a) :: (st.slots[i].group, a) !in st.excluded
  }

  /** In every run, with any failures, a volunteer excluded from a group never holds, and so
      never completes, one of its slots. */
  lemma {:induction false} ExcludedNeverHold(cfg: Config, evs: seq<Event>)
    requires ValidConfig(cfg)
    ensures ExclusionsHold(Run(cfg, EMPTY, evs))
  {
    if evs != [] {
      ExcludedNeverHold(cfg, evs[..|evs| - 1]);
      StepKeepsExclusions(cfg, Run(cfg, EMPTY, evs[..|evs| - 1]), evs[|evs| - 1]);
    }
  }

  lemma StepKeepsExclusions(cfg: Config, st: State, ev: Event)
    requires ValidConfig(cfg) && ExclusionsHold(st)
    ensures ExclusionsHold(Step(cfg, st, ev))
  {
    hide MarkRows, PendingIds, Agreed, AcceptRound, MaxGroup, MaxGeneration, Available;
    if ev.DecideNow? && Gathered(cfg, st) {
      MarkedRoundFrame(cfg, st, ev.faults);
      hide Decide;
    }
  }

  /** Slots are dealt to those who may have them: in whatever step a slot changes hands, its
      new holder claimed it while it was open, held no other slot of the group, had fewer
      strikes than the limit or was never seen, and was not excluded from the group. */
  lemma NewHolderWasAllowed(cfg: Config, st: State, ev: Event, i: nat, author: string)
    requires ValidConfig(cfg) && i < |Step(cfg, st, ev).slots|
    requires Step(cfg, st, ev).slots[i].claimedBy == Some(author)
    requires i < |st.slots| ==> st.slots[i].claimedBy != Some(author)
    ensures ev == Claim(i, author) && IsFree(cfg, st, i, author)
  {
    hide PendingIds, Agreed, MaxGroup, MaxGeneration, Available, Exclusions, Touched;
    if ev.DecideNow? && Gathered(cfg, st) {
      MarkedRoundFrame(cfg, st, ev.faults);
      hide Decide, MarkRows;
    }
  }

  /** And whoever asks for such a slot gets it. */
  lemma FreeSlotIsDealt(cfg: Config, st: State, i: nat, author: string)
    requires ValidConfig(cfg) && IsFree(cfg, st, i, author)
    ensures Step(cfg, st, Claim(i, author))
            == st.(slots := st.slots[i := Slot(st.slots[i].generation, st.slots[i].group, Claimed, Some(author))])
  {
  }

  /** A re-fan-out puts every author it just rejected on the exclusion list of the group it
      opens. */
  lemma DivergersAreExcluded(cfg: Config, st: State, f: Faults, id: nat)
    requires ValidConfig(cfg) && Gathered(cfg, st) && NoFaults(f)
    requires Decide(cfg, st, f).0.rounds > st.rounds
    requires id in PendingIds(st) && st.submissions[id].author != ""
    ensures
      var after := Decide(cfg, st, f).0;
      && after.slots != []
      && forall i | 0 <= i < |after.slots| :: (after.slots[i].group, st.submissions[id].author) in after.excluded
  {
    hide MarkRows, PendingIds, Agreed, AcceptRound;
    var ids := PendingIds(st);
    PendingIsAListOfRows(st);
    MarkedRoundFrame(cfg, st, f);
    hide Decide;
    var m := MarkRows(st, ids, [], f.row, |ids|);
    assert ids[..|ids|] == ids;
    RejectedAuthorDiverges(st, ids, f.row, |ids|, id);
    assert st.submissions[id].author in m.divergers;
  }

  lemma {:induction false} RejectedAuthorDiverges(st: State, ids: seq<nat>, row: nat -> RowFault, k: nat, id: nat)
    requires k <= |ids| && IsListOfRows(st, ids) && row(id) == Works
    requires id in ids[..k]
    ensures st.submissions[id].author in MarkRows(st, ids, [], row, k).divergers
  {
    assert ids[..k] == ids[..k - 1] + [ids[k - 1]];
    if id in ids[..k - 1] {
      RejectedAuthorDiverges(st, ids, row, k - 1, id);
    }
  }
}
