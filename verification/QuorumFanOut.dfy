/** When a decision without a quorum is followed by a re-fan-out, and what that opens. */
module QuorumFanOut {
  import opened Consensus
  import opened QuorumCap
  import opened QuorumPublished
  import opened QuorumRounds
  import opened QuorumRuns
  import opened QuorumStage
  import opened QuorumState
  import opened Wrappers

  /** The volunteer has a pending row whose rejection and strike are both written. */
  ghost predicate Diverged(st: State, f: Faults, author: string) {
    exists id: nat | id < |st.submissions| ::
      st.submissions[id].status == Candidate && st.submissions[id].author == author && f.row(id) == Works
  }

  /** Somebody on record is neither banned nor among those who just diverged. */
  ghost predicate SomebodyIsLeft(cfg: Config, st: State, f: Faults, standing: map<string, Standing>) {
    exists v | v in standing :: standing[v].strikes < cfg.strikesLimit && !Diverged(st, f, v)
  }

  ghost predicate AllFinished(slots: seq<Slot>) {
    forall i | 0 <= i < |slots| :: slots[i].status == Done || slots[i].status == Failed
  }

  ghost predicate BelowCap(cfg: Config, slots: seq<Slot>) {
    cfg.strikesLimit > 0 && forall i | 0 <= i < |slots| :: slots[i].generation < cfg.strikesLimit
  }

  /** The two caps, as far as they can be read; `standing` is what the rejections left. */
  ghost predicate MayGoOn(cfg: Config, st: State, f: Faults, standing: map<string, Standing>) {
    if f.rosterFails then cfg.strikesLimit > 0
    else
      && BelowCap(cfg, st.slots)
      && ((forall v :: !Diverged(st, f, v)) || |standing| < AtLeastOne(cfg.n) || SomebodyIsLeft(cfg, st, f, standing))
  }

  lemma {:induction false} MaxGenerationBelowIff(slots: seq<Slot>, limit: nat)
    ensures MaxGeneration(slots) < limit <==>
            limit > 0 && forall i | 0 <= i < |slots| :: slots[i].generation < limit
  {
    if slots != [] {
      MaxGenerationBelowIff(slots[..|slots| - 1], limit);
    }
  }

  lemma {:induction false} MaxGroupIsLargest(slots: seq<Slot>, i: nat)
    requires i < |slots|
    ensures slots[i].group <= MaxGroup(slots)
  {
    if i < |slots| - 1 {
      MaxGroupIsLargest(slots[..|slots| - 1], i);
    }
  }

  /** The divergers of a round are the volunteers who diverged. */
  lemma DivergersDiverged(st: State, f: Faults, author: string)
    ensures author in MarkRows(st, PendingIds(st), [], f.row, |PendingIds(st)|).divergers <==> Diverged(st, f, author)
  {
    hide MarkRows;
    var ids := PendingIds(st);
    PendingIsAListOfRows(st);
    var m := MarkRows(st, ids, [], f.row, |ids|);
    DivergersAreTheRejected(st, ids, [], f.row, |ids|, author);
    if author in m.divergers {
      var i :| 0 <= i < |m.rejected| && m.rejected[i] < |st.submissions|
        && st.submissions[m.rejected[i]].author == author;
      MarkRowsReportsTruly(st, ids, [], f.row, |ids|, m.rejected[i]);
      assert m.rejected[i] in ids;
    }
    if Diverged(st, f, author) {
      var id: nat :| id < |st.submissions| && st.submissions[id].status == Candidate
        && st.submissions[id].author == author && f.row(id) == Works;
      assert id in ids && ids[..|ids|] == ids;
      RejectedAuthorDiverges(st, ids, f.row, |ids|, id);
    }
  }

  lemma AvailableIff(cfg: Config, st: State, f: Faults, standing: map<string, Standing>, divergers: seq<string>)
    requires forall v :: v in divergers <==> Diverged(st, f, v)
    ensures Available(standing, cfg.strikesLimit, divergers) != {} <==> SomebodyIsLeft(cfg, st, f, standing)
    ensures divergers == [] <==> forall v :: !Diverged(st, f, v)
  {
    hide Diverged;
    if divergers != [] {
      assert divergers[0] in divergers;
    }
    if SomebodyIsLeft(cfg, st, f, standing) {
      var v :| v in standing && standing[v].strikes < cfg.strikesLimit && !Diverged(st, f, v);
      assert v in Available(standing, cfg.strikesLimit, divergers);
    }
  }

  lemma ReassignIff(cfg: Config, st: State, marked: State, divergers: seq<string>, f: Faults)
    requires forall v :: v in divergers <==> Diverged(st, f, v)
    requires marked == st.(submissions := marked.submissions, standing := marked.standing)
    ensures
      var after := Reassign(cfg, marked, divergers, AtLeastOne(cfg.n), f);
      && after.standing == marked.standing
      && after.rounds == st.rounds + if MayGoOn(cfg, st, f, marked.standing) && AllFinished(st.slots) && !f.enqueueFails
                                     then 1 else 0
  {
    hide Diverged, SomebodyIsLeft, Available, MaxGeneration, MaxGroup, Exclusions;
    MaxGenerationBelowIff(st.slots, cfg.strikesLimit);
    AvailableIff(cfg, st, f, marked.standing, divergers);
    LiveIff(st.slots);
    hide AnyLive, AllFinished;
  }

  lemma LiveIff(slots: seq<Slot>)
    ensures AnyLive(slots) <==> !AllFinished(slots)
  {
  }

  /** A decision is followed by a re-fan-out exactly when enough answers are in and embedded,
      they have no quorum, no slot is open, the enqueue works, and neither cap is in the way. */
  lemma ReFanOutIff(cfg: Config, st: State, f: Faults)
    requires ValidConfig(cfg)
    ensures
      var after := Decide(cfg, st, f).0;
      && after.rounds <= st.rounds + 1
      && (after.rounds > st.rounds <==>
            && Gathered(cfg, st) && !f.embedFails && !HasQuorum(cfg, st)
            && AllFinished(st.slots) && !f.enqueueFails
            && MayGoOn(cfg, st, f, after.standing))
  {
    hide MarkRows, PendingIds, Agreed, Accepts, Reassign, AcceptRound, MayGoOn, AllFinished, Diverged;
    if Gathered(cfg, st) {
      MarkedRoundFrame(cfg, st, f);
      hide Decide, Gathered;
      if !f.embedFails && !HasQuorum(cfg, st) {
        PendingIsAListOfRows(st);
        var m := MarkRows(st, PendingIds(st), [], f.row, |PendingIds(st)|);
        forall v
          ensures v in m.divergers <==> Diverged(st, f, v)
        {
          DivergersDiverged(st, f, v);
        }
        ReassignIff(cfg, st, m.st, m.divergers, f);
      }
    }
  }

  /** It opens one slot per volunteer asked for, all pending and of the next generation. The
      group is one no subject had before, from which those who diverged are excluded and nobody
      else; it is the old group when nobody is known to have diverged. */
  lemma ReFanOutOpens(cfg: Config, st: State, f: Faults) returns (group: nat)
    requires ValidConfig(cfg) && st.slots != [] && Decide(cfg, st, f).0.rounds > st.rounds
    ensures
      var after := Decide(cfg, st, f).0;
      && |after.slots| == AtLeastOne(cfg.n)
      && (forall i | 0 <= i < |after.slots| ::
            after.slots[i] == Slot(st.slots[0].generation + 1, group, Pending, None))
      && (if forall v :: !Diverged(st, f, v) then group == st.slots[0].group
          else group > f.otherGroups && forall i | 0 <= i < |st.slots| :: st.slots[i].group < group)
      && (forall g, v :: (g, v) in after.excluded <==>
            (g, v) in st.excluded || (g == group && v != "" && Diverged(st, f, v)))
  {
    hide MarkRows, PendingIds, Agreed, Accepts, AcceptRound, Diverged, MaxGroup, MaxGeneration, Available;
    ReFanOutIff(cfg, st, f);
    MarkedRoundFrame(cfg, st, f);
    hide Decide, Gathered;
    PendingIsAListOfRows(st);
    var m := MarkRows(st, PendingIds(st), [], f.row, |PendingIds(st)|);
    forall v
      ensures v in m.divergers <==> Diverged(st, f, v)
    {
      DivergersDiverged(st, f, v);
    }
    assert m.divergers != [] ==> m.divergers[0] in m.divergers;
    group := ReassignOpens(cfg, m.st, m.divergers, f);
  }

  // ----- Cancellations count

  function Cancels(k: nat): seq<Event> {
    seq(k, _ => Cancel)
  }

  lemma {:induction false} CancelsRaise(cfg: Config, st: State, n: nat, generation: nat, group: nat, k: nat)
    requires ValidConfig(cfg) && st.slots == FreshSlots(n, generation, group)
    ensures Run(cfg, st, Cancels(k)) == st.(slots := FreshSlots(n, generation + k, group))
  {
    if k > 0 {
      assert Cancels(k)[..k - 1] == Cancels(k - 1);
      CancelsRaise(cfg, st, n, generation, group, k - 1);
      assert Run(cfg, st, Cancels(k)).slots == FreshSlots(n, generation + k, group);
    }
  }

  /** A subject whose slots were cancelled as often as the cap allows re-fan-outs. */
  lemma CancelledSubject(cfg: Config) returns (evs: seq<Event>)
    requires ValidConfig(cfg) && cfg.strikesLimit > 0
    ensures forall i | 0 <= i < |evs| :: !evs[i].DecideNow?
    ensures Between(cfg, Run(cfg, EMPTY, evs), 1, 0, cfg.strikesLimit, 1)
  {
    hide Run, Between;
    var first := [Elsewhere(Name(0), Seeded), EnqueueAgain(cfg.n, 0)];
    evs := first + Cancels(cfg.strikesLimit);
    FirstGroup(cfg);
    RunConcat(cfg, EMPTY, first, Cancels(cfg.strikesLimit));
    StillBetween(cfg, Run(cfg, EMPTY, first), cfg.strikesLimit);
  }

  lemma StillBetween(cfg: Config, st: State, k: nat)
    requires ValidConfig(cfg) && Between(cfg, st, 1, 0, 0, 1)
    ensures Between(cfg, Run(cfg, st, Cancels(k)), 1, 0, k, 1)
  {
    hide Run, PendingIds, Bystander;
    CancelsRaise(cfg, st, AtLeastOne(cfg.n), 0, 1, k);
    SamePending(st, Run(cfg, st, Cancels(k)));
    SameBystander(cfg, st, Run(cfg, st, Cancels(k)));
  }

  lemma SameBystander(cfg: Config, a: State, b: State)
    requires Bystander(cfg, a) && a.standing == b.standing
    ensures Bystander(cfg, b)
  {
  }

  /** Cancellations count against the cap: a run in which nothing fails, with an unbanned
      volunteer at hand, whose first round ends without a quorum and is not re-fanned-out. */
  lemma CancelsUseUpTheCap(cfg: Config, texts: seq<string>) returns (evs: seq<Event>, staged: State)
    requires ValidConfig(cfg) && Diverges(cfg, texts) && cfg.strikesLimit > 0
    ensures NothingFails(evs + [DecideNow(Calm(true))]) && Run(cfg, EMPTY, evs) == staged
    ensures Gathered(cfg, staged) && !HasQuorum(cfg, staged) && AllFinished(staged.slots) && Bystander(cfg, staged)
    ensures staged.rounds == 0 && Run(cfg, EMPTY, evs + [DecideNow(Calm(true))]).rounds == 0
  {
    hide Run, Between, Decide, Step, Staging, Staged, Names, Bystander, PendingIds, Agreed, AllFinished, MaxGeneration;
    hide AnyLive, BelowCap;
    var front := CancelledSubject(cfg);
    var st, names := Run(cfg, EMPTY, front), Names(1, |texts|);
    evs := front + Staging(texts, names, |texts|);
    staged := Staged(st, cfg.strikesLimit, 1, texts, names, |texts|);
    RunConcat(cfg, EMPTY, front, Staging(texts, names, |texts|));
    StagedIsGathered(cfg, st, 1, 0, cfg.strikesLimit, 1, texts);
    StagedSlotsAreDone(cfg, st, 1, 0, cfg.strikesLimit, 1, texts);
    BetweenIsIdle(cfg, st, 1, 0, cfg.strikesLimit, 1, texts);
    StagingDecidesNothing(texts, names, |texts|);
    LiveIff(staged.slots);
    RunConcat(cfg, EMPTY, evs, [DecideNow(Calm(true))]);
    RunOne(cfg, staged, DecideNow(Calm(true)));
    CappedStays(cfg, staged);
  }

  lemma CappedStays(cfg: Config, st: State)
    requires ValidConfig(cfg) && st.slots != [] && st.slots[0].generation >= cfg.strikesLimit
    ensures Step(cfg, st, DecideNow(Calm(true))).rounds == st.rounds
  {
    hide Decide, Gathered, HasQuorum, AllFinished, Diverged;
    ReFanOutIff(cfg, st, Calm(true));
    DecideExtends(cfg, st, Calm(true));
  }

  lemma ReassignOpens(cfg: Config, st: State, divergers: seq<string>, f: Faults) returns (group: nat)
    requires st.slots != []
    requires Reassign(cfg, st, divergers, AtLeastOne(cfg.n), f).rounds > st.rounds
    ensures
      var after := Reassign(cfg, st, divergers, AtLeastOne(cfg.n), f);
      && |after.slots| == AtLeastOne(cfg.n)
      && (forall i | 0 <= i < |after.slots| ::
            after.slots[i] == Slot(st.slots[0].generation + 1, group, Pending, None))
      && (if divergers == [] then group == st.slots[0].group
          else group > f.otherGroups && forall i | 0 <= i < |st.slots| :: st.slots[i].group < group)
      && (forall g, v :: (g, v) in after.excluded <==>
            (g, v) in st.excluded || (g == group && v != "" && v in divergers))
  {
    hide MaxGroup, MaxGeneration, Available, AnyLive;
    var own := MaxGroup(st.slots);
    var newGroup := (if own < f.otherGroups then f.otherGroups else own) + 1;
    group := if divergers == [] then st.slots[0].group else newGroup;
    forall i: nat | i < |st.slots|
      ensures st.slots[i].group < newGroup
    {
      MaxGroupIsLargest(st.slots, i);
    }
  }
}
