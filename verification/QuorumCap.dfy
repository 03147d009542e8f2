/** The cap on re-fan-outs over whole runs: what it takes to get beyond it. */
module QuorumCap {
  import opened Clique
  import opened Consensus
  import opened QuorumRounds
  import opened QuorumRuns
  import opened QuorumStage
  import opened QuorumState
  import opened Similarity

  /** As many texts as a round needs, without a quorum among them. */
  ghost predicate Diverges(cfg: Config, texts: seq<string>) {
    |texts| == AtLeastOne(cfg.n) && !Accepts(AtLeastOne(cfg.n), TextsAgreed(cfg, texts))
  }

  /** Nothing fails, unless generation and roster cannot be read. */
  function Calm(readable: bool): Faults {
    Faults(false, false, false, _ => Works, !readable, false, 0)
  }

  // ----- Fresh volunteers

  function Name(k: nat): (name: string)
    ensures |name| == k + 1
  {
    seq(k + 1, _ => 'a')
  }

  function Names(base: nat, n: nat): (names: seq<string>)
    ensures |names| == n && forall i | 0 <= i < n :: |names[i]| == base + i + 1
  {
    var names := seq(n, i requires 0 <= i < n => Name(base + i));
    assert forall i | 0 <= i < n :: names[i] == Name(base + i);
    names
  }

  /** Everybody on record has a name of at most `base` letters. */
  ghost predicate OnRecord(st: State, base: nat) {
    && (forall a | a in st.standing :: |a| <= base)
    && forall e | e in st.excluded :: |e.1| <= base
  }

  ghost predicate Short(names: seq<string>, base: nat) {
    forall i | 0 <= i < |names| :: |names[i]| <= base
  }

  /** One volunteer known from elsewhere, not banned, who never takes part here. */
  ghost predicate Bystander(cfg: Config, st: State) {
    Name(0) in st.standing && st.standing[Name(0)].strikes < cfg.strikesLimit
  }

  lemma {:induction false} MarkingRecordsAuthors(st: State, ids: seq<nat>, agreeing: seq<nat>,
                                                 row: nat -> RowFault, k: nat, base: nat)
    requires k <= |ids| && IsListOfRows(st, ids)
    requires OnRecord(st, base) && forall i | 0 <= i < |ids| :: |st.submissions[ids[i]].author| <= base
    ensures
      var m := MarkRows(st, ids, agreeing, row, k);
      OnRecord(m.st, base) && Short(m.divergers, base)
  {
    hide OnRecord;
    if k > 0 {
      var before, id := MarkRows(st, ids, agreeing, row, k - 1), ids[k - 1];
      MarkingRecordsAuthors(st, ids, agreeing, row, k - 1, base);
      RowsKeepAuthors(st, ids, agreeing, row, k - 1, id);
      MarkRowRecordsAuthor(before.st, id, k - 1 in agreeing, row(id), base);
      StillShort(before.divergers, st.submissions[id].author, base);
      hide MarkRow, PushNew, Short;
    }
  }

  lemma StillShort(names: seq<string>, name: string, base: nat)
    requires Short(names, base) && |name| <= base
    ensures Short(PushNew(names, name), base)
  {
  }

  lemma MarkRowRecordsAuthor(st: State, id: nat, accept: bool, fault: RowFault, base: nat)
    requires id < |st.submissions| && OnRecord(st, base) && |st.submissions[id].author| <= base
    ensures OnRecord(MarkRow(st, id, accept, fault), base)
  {
  }

  // ----- One more round

  /** Between rounds: nothing pending, a fresh group of slots, somebody who stands by. */
  ghost predicate Between(cfg: Config, st: State, base: nat, rounds: nat, generation: nat, group: nat) {
    && PendingIds(st) == [] && OnRecord(st, base) && Bystander(cfg, st) && base >= 1 && st.rounds == rounds
    && st.slots == FreshSlots(AtLeastOne(cfg.n), generation, group)
  }

  function RoundEvents(cfg: Config, texts: seq<string>, base: nat, readable: bool): seq<Event>
    requires |texts| == AtLeastOne(cfg.n)
  {
    Staging(texts, Names(base, |texts|), |texts|) + [DecideNow(Calm(readable))]
  }

  lemma NewcomersMayTakePart(cfg: Config, st: State, base: nat, group: nat, n: nat)
    requires OnRecord(st, base)
    ensures MayTakePart(cfg, st, group, Names(base, n))
  {
  }

  lemma OnRecordForLonger(st: State, other: State, base: nat, more: nat)
    requires OnRecord(st, base) && base <= more && other.standing == st.standing && other.excluded == st.excluded
    ensures OnRecord(other, more)
  {
  }

  lemma StagedIsGathered(cfg: Config, st: State, base: nat, rounds: nat, generation: nat, group: nat,
                         texts: seq<string>)
    requires ValidConfig(cfg) && Diverges(cfg, texts) && Between(cfg, st, base, rounds, generation, group)
    ensures
      var names := Names(base, |texts|);
      var staged := Staged(st, generation, group, texts, names, |texts|);
      && Run(cfg, st, Staging(texts, names, |texts|)) == staged
      && Gathered(cfg, staged) && Agreed(cfg, staged) == TextsAgreed(cfg, texts)
      && PendingIds(staged) == Behind(|st.submissions|, |texts|)
      && OnRecord(staged, base)
  {
    hide PendingIds, MayTakePart, OnRecord, AgreedSet, Staging, Names;
    var names := Names(base, |texts|);
    NewcomersMayTakePart(cfg, st, base, group, |texts|);
    StagingStages(cfg, st, generation, group, texts, names, |texts|);
    StagedPending(st, generation, group, texts, names);
    StagedRound(cfg, st, generation, group, texts, names);
    OnRecordForLonger(st, Staged(st, generation, group, texts, names, |texts|), base, base);
  }

  /** All rows of a round rejected: nothing pending, slots as they were, the authors on
      record and, at least one of them, among the divergers. */
  lemma AllRejected(st: State, base: nat, row: nat -> RowFault)
    requires PendingIds(st) != [] && OnRecord(st, base) && AllWork(row)
    requires forall id | 0 <= id < |st.submissions| && id in PendingIds(st) :: |st.submissions[id].author| <= base
    ensures
      var ids := PendingIds(st);
      var m := MarkRows(st, ids, [], row, |ids|);
      && PendingIds(m.st) == [] && OnRecord(m.st, base) && m.divergers != []
      && m.st == st.(submissions := m.st.submissions, standing := m.st.standing)
      && Short(m.divergers, base)
  {
    var ids := PendingIds(st);
    PendingIsAListOfRows(st);
    NothingLeftPending(st, [], row);
    MarkRowsKeeps(st, ids, [], row, |ids|, ids[0]);
    assert forall i | 0 <= i < |ids| :: ids[i] in ids;
    MarkingRecordsAuthors(st, ids, [], row, |ids|, base);
    assert ids[..|ids|] == ids;
    RejectedAuthorDiverges(st, ids, row, |ids|, ids[0]);
  }

  /** The bystander keeps standing by. */
  lemma BystanderStays(cfg: Config, st: State, row: nat -> RowFault)
    requires Bystander(cfg, st)
    requires forall id | 0 <= id < |st.submissions| && id in PendingIds(st) :: |st.submissions[id].author| > 1
    ensures
      var ids := PendingIds(st);
      var m := MarkRows(st, ids, [], row, |ids|);
      Bystander(cfg, m.st) && Name(0) !in m.divergers
  {
    var ids := PendingIds(st);
    PendingIsAListOfRows(st);
    assert forall i | 0 <= i < |ids| :: ids[i] in ids;
    StandingUntouched(st, ids, [], row, |ids|, Name(0));
    DivergersWorked(st, ids, row, |ids|, Name(0));
  }

  lemma BetweenIsIdle(cfg: Config, st: State, base: nat, rounds: nat, generation: nat, group: nat, texts: seq<string>)
    requires Between(cfg, st, base, rounds, generation, group)
    ensures PendingIds(st) == [] && Bystander(cfg, st) && base >= 1
    ensures Bystander(cfg, Staged(st, generation, group, texts, Names(base, |texts|), |texts|))
  {
  }

  lemma StagedAuthorsAreShort(st: State, base: nat, generation: nat, group: nat, texts: seq<string>)
    requires PendingIds(st) == []
    ensures
      var staged := Staged(st, generation, group, texts, Names(base, |texts|), |texts|);
      forall id | 0 <= id < |staged.submissions| && id in PendingIds(staged) ::
        base < |staged.submissions[id].author| <= base + |texts|
  {
    hide PendingIds;
    StagedPending(st, generation, group, texts, Names(base, |texts|));
  }

  lemma StagedSlotsAreDone(cfg: Config, st: State, base: nat, rounds: nat, generation: nat, group: nat,
                           texts: seq<string>)
    requires |texts| == AtLeastOne(cfg.n) && Between(cfg, st, base, rounds, generation, group)
    ensures
      var staged := Staged(st, generation, group, texts, Names(base, |texts|), |texts|);
      && staged.rounds == rounds && staged.slots != [] && !AnyLive(staged.slots)
      && staged.slots[0].generation == generation == MaxGeneration(staged.slots)
  {
    hide AnyLive, PendingIds, OnRecord, Names, MaxGeneration, Bystander;
    StagedGeneration(|texts|, generation, group, Names(base, |texts|), |texts|);
    UsedUp(st, generation, group, texts, Names(base, |texts|));
  }

  lemma SomePending(cfg: Config, st: State)
    requires Gathered(cfg, st)
    ensures PendingIds(st) != []
  {
  }

  /** A round without a quorum is re-fanned-out: below the cap, or blindly. */
  lemma DecisionReFansOut(cfg: Config, st: State, base: nat, generation: nat, readable: bool)
    requires ValidConfig(cfg) && cfg.strikesLimit > 0
    requires Gathered(cfg, st) && !Accepts(AtLeastOne(cfg.n), Agreed(cfg, st))
    requires OnRecord(st, base) && Bystander(cfg, st) && base >= 1
    requires forall id | 0 <= id < |st.submissions| && id in PendingIds(st) :: 1 < |st.submissions[id].author| <= base
    requires st.slots != [] && !AnyLive(st.slots) && st.slots[0].generation == generation == MaxGeneration(st.slots)
    requires readable ==> generation < cfg.strikesLimit
    ensures Between(cfg, Decide(cfg, st, Calm(readable)).0, base, st.rounds + 1, generation + 1,
                    MaxGroup(st.slots) + 1)
  {
    hide Decide, MarkRows, PendingIds, Agreed, OnRecord, AnyLive, MaxGroup, MaxGeneration, Reassign, Between;
    hide AcceptRound, Bystander;
    MarkedRoundFrame(cfg, st, Calm(readable));
    SomePending(cfg, st);
    AllRejected(st, base, Calm(readable).row);
    BystanderStays(cfg, st, Calm(readable).row);
    PendingIsAListOfRows(st);
    var m := MarkRows(st, PendingIds(st), [], Calm(readable).row, |PendingIds(st)|);
    ReFanOut(cfg, m.st, m.divergers, base, generation, MaxGroup(st.slots) + 1, readable);
  }

  lemma OneMoreRound(cfg: Config, st: State, base: nat, rounds: nat, generation: nat, group: nat, texts: seq<string>,
                     readable: bool)
    returns (nextGroup: nat)
    requires ValidConfig(cfg) && Diverges(cfg, texts) && cfg.strikesLimit > 0
    requires Between(cfg, st, base, rounds, generation, group)
    requires readable ==> generation < cfg.strikesLimit
    ensures Between(cfg, Run(cfg, st, RoundEvents(cfg, texts, base, readable)),
                    base + |texts|, rounds + 1, generation + 1, nextGroup)
  {
    hide Run, Decide, PendingIds, Agreed, AgreedSet, OnRecord, AnyLive, MaxGroup, Staged, Staging, Names, Between;
    hide MaxGeneration, Bystander;
    var names, n := Names(base, |texts|), |texts|;
    var staged := Staged(st, generation, group, texts, names, n);
    StagedIsGathered(cfg, st, base, rounds, generation, group, texts);
    StagedSlotsAreDone(cfg, st, base, rounds, generation, group, texts);
    BetweenIsIdle(cfg, st, base, rounds, generation, group, texts);
    StagedAuthorsAreShort(st, base, generation, group, texts);
    OnRecordForLonger(staged, staged, base, base + n);
    RunConcat(cfg, st, Staging(texts, names, n), [DecideNow(Calm(readable))]);
    RunOne(cfg, staged, DecideNow(Calm(readable)));
    DecisionReFansOut(cfg, staged, base + n, generation, readable);
    nextGroup := MaxGroup(staged.slots) + 1;
  }

  lemma SamePending(a: State, b: State)
    requires a.submissions == b.submissions
    ensures PendingIds(a) == PendingIds(b)
  {
  }

  /** A re-fan-out over finished slots opens a new group: below the cap when somebody is
      left to take part, blindly whatever the generation. */
  lemma ReFanOut(cfg: Config, st: State, divergers: seq<string>, base: nat, generation: nat, group: nat,
                 readable: bool)
    requires cfg.strikesLimit > 0 && divergers != [] && OnRecord(st, base) && PendingIds(st) == []
    requires Short(divergers, base) && Bystander(cfg, st) && Name(0) !in divergers && base >= 1
    requires st.slots != [] && !AnyLive(st.slots)
    requires st.slots[0].generation == generation == MaxGeneration(st.slots) && group == MaxGroup(st.slots) + 1
    requires readable ==> generation < cfg.strikesLimit
    ensures Between(cfg, Reassign(cfg, st, divergers, AtLeastOne(cfg.n), Calm(readable)),
                    base, st.rounds + 1, generation + 1, group)
  {
    hide PendingIds, MaxGroup, MaxGeneration, AnyLive;
    assert Name(0) in Available(st.standing, cfg.strikesLimit, divergers);
    SamePending(st, Reassign(cfg, st, divergers, AtLeastOne(cfg.n), Calm(readable)));
  }

  // ----- Whole runs

  /** Every number of re-fan-outs up to the cap is reached when nothing fails at all, and any
      number when nothing fails but the reading of generation and roster. */
  lemma {:induction false} EveryRoundIsReached(cfg: Config, texts: seq<string>, k: nat, readable: bool)
    returns (evs: seq<Event>, group: nat)
    requires ValidConfig(cfg) && |texts| == AtLeastOne(cfg.n) && Diverges(cfg, texts) && cfg.strikesLimit > 0
    requires readable ==> k <= cfg.strikesLimit
    ensures Between(cfg, Run(cfg, EMPTY, evs), k * |texts| + 1, k, k, group)
    ensures forall i | 0 <= i < |evs| && evs[i].DecideNow? :: evs[i].faults == Calm(readable)
  {
    hide Run, Between, Diverges, Staging, Names;
    if k == 0 {
      evs, group := [Elsewhere(Name(0), Seeded), EnqueueAgain(cfg.n, 0)], 1;
      FirstGroup(cfg);
    } else {
      var front, before := EveryRoundIsReached(cfg, texts, k - 1, readable);
      var base := (k - 1) * |texts| + 1;
      assert base + |texts| == k * |texts| + 1;
      evs := front + RoundEvents(cfg, texts, base, readable);
      RunConcat(cfg, EMPTY, front, RoundEvents(cfg, texts, base, readable));
      group := OneMoreRound(cfg, Run(cfg, EMPTY, front), base, k - 1, k - 1, before, texts, readable);
      StagingDecidesNothing(texts, Names(base, |texts|), |texts|);
    }
  }

  lemma FirstGroup(cfg: Config)
    requires ValidConfig(cfg) && cfg.strikesLimit > 0
    ensures Between(cfg, Run(cfg, EMPTY, [Elsewhere(Name(0), Seeded), EnqueueAgain(cfg.n, 0)]), 1, 0, 0, 1)
  {
    RunTwo(cfg, EMPTY, Elsewhere(Name(0), Seeded), EnqueueAgain(cfg.n, 0));
  }

  lemma {:induction false} StagingDecidesNothing(texts: seq<string>, authors: seq<string>, k: nat)
    requires k <= |texts| == |authors|
    ensures forall i | 0 <= i < |Staging(texts, authors, k)| :: !Staging(texts, authors, k)[i].DecideNow?
  {
    if k > 0 {
      StagingDecidesNothing(texts, authors, k - 1);
    }
  }

  /** Longer lists of texts have a quorum if their beginnings have. */
  lemma PrefixQuorum(cfg: Config, texts: seq<string>, n: nat)
    requires 1 <= n <= |texts| && AtLeastOne(cfg.n) == n
    requires Accepts(n, TextsAgreed(cfg, texts[..n]))
    ensures Accepts(n, TextsAgreed(cfg, texts))
  {
    if n > 1 {
      var small := Similarities(cfg.sqrt, VectorsOf(cfg, texts[..n]));
      var large := Similarities(cfg.sqrt, VectorsOf(cfg, texts));
      assert forall i, j | 0 <= i < n && 0 <= j < n :: small[i][j] == large[i][j];
      PartOfMatrix(small, large, cfg.threshold, n);
    }
  }

  lemma PartOfMatrix(small: Matrix, large: Matrix, threshold: real, n: nat)
    requires Square(small) && Square(large) && |small| <= |large| && n >= 2
    requires forall i, j | 0 <= i < |small| && 0 <= j < |small| :: small[i][j] == large[i][j]
    requires AgreedSet(small, threshold, n) != []
    ensures |AgreedSet(large, threshold, n)| >= |AgreedSet(small, threshold, n)|
  {
    var s, best := AgreedSet(small, threshold, n), AgreedSet(large, threshold, n);
    SweepFindsBestClique(small, threshold);
    SweepFindsBestClique(large, threshold);
    forall a, b | 0 <= a < b < |s|
      ensures large[s[a]][s[b]] >= threshold
    {
      assert small[s[a]][s[b]] >= threshold;
    }
    assert Agreeing(large, threshold, s);
    assert large[s[0]][s[1]] >= threshold;
    assert Preferred(large, best, s);
  }

  /** The texts that are pending. */
  ghost function PendingTexts(st: State): seq<string> {
    var ids := PendingIds(st);
    seq(|ids|, i requires 0 <= i < |ids| => st.submissions[ids[i]].text)
  }

  lemma AgreedIsAboutTexts(cfg: Config, st: State)
    ensures Agreed(cfg, st) == TextsAgreed(cfg, PendingTexts(st))
  {
    hide Similarities, AgreedSet, PendingIds;
    assert Round(cfg, st).1 == VectorsOf(cfg, PendingTexts(st));
  }

  lemma CalmRoundsAccept(cfg: Config, st: State)
    requires Gathered(cfg, st) && forall texts :: !Diverges(cfg, texts)
    ensures Accepts(AtLeastOne(cfg.n), Agreed(cfg, st))
  {
    var n, texts := AtLeastOne(cfg.n), PendingTexts(st);
    AgreedIsAboutTexts(cfg, st);
    assert !Diverges(cfg, texts[..n]);
    PrefixQuorum(cfg, texts, n);
  }

  lemma {:induction false} NoRounds(cfg: Config, evs: seq<Event>)
    requires ValidConfig(cfg)
    requires cfg.strikesLimit == 0 || forall texts :: !Diverges(cfg, texts)
    ensures Run(cfg, EMPTY, evs).rounds == 0
  {
    if evs != [] {
      var before, ev := Run(cfg, EMPTY, evs[..|evs| - 1]), evs[|evs| - 1];
      NoRounds(cfg, evs[..|evs| - 1]);
      hide Run;
      NoRoundInOneStep(cfg, before, ev);
    }
  }

  lemma NoRoundInOneStep(cfg: Config, st: State, ev: Event)
    requires ValidConfig(cfg)
    requires cfg.strikesLimit == 0 || forall texts :: !Diverges(cfg, texts)
    ensures Step(cfg, st, ev).rounds == st.rounds
  {
    hide Agreed, MarkRows, AcceptRound;
    if ev.DecideNow? && Gathered(cfg, st) {
      MarkedRoundFrame(cfg, st, ev.faults);
      hide Decide, Gathered;
      if cfg.strikesLimit > 0 {
        CalmRoundsAccept(cfg, st);
      }
    }
  }

  /** The cap holds on every run if and only if it is 0 or no round can end without a
      quorum. */
  lemma CapHoldsIff(cfg: Config)
    requires ValidConfig(cfg)
    ensures (forall evs :: Run(cfg, EMPTY, evs).rounds <= cfg.strikesLimit)
            <==> cfg.strikesLimit == 0 || forall texts :: !Diverges(cfg, texts)
  {
    hide Run, Step;
    if cfg.strikesLimit == 0 || forall texts :: !Diverges(cfg, texts) {
      forall evs
        ensures Run(cfg, EMPTY, evs).rounds <= cfg.strikesLimit
      {
        NoRounds(cfg, evs);
      }
    } else {
      var texts :| Diverges(cfg, texts);
      hide Diverges;
      var evs, group := EveryRoundIsReached(cfg, texts, cfg.strikesLimit + 1, false);
    }
  }

  ghost predicate NothingFails(evs: seq<Event>) {
    forall i | 0 <= i < |evs| && evs[i].DecideNow? ::
      NoFaults(evs[i].faults) && !evs[i].faults.rosterFails && !evs[i].faults.enqueueFails
  }

  /** Runs in which nothing fails reach exactly the numbers of re-fan-outs up to the cap, if any
      round can end without a quorum. */
  lemma CalmRunsReachIff(cfg: Config, texts: seq<string>, k: nat)
    requires ValidConfig(cfg) && Diverges(cfg, texts)
    ensures (exists evs :: NothingFails(evs) && Run(cfg, EMPTY, evs).rounds == k) <==> k <= cfg.strikesLimit
  {
    hide Run, Step, Diverges;
    if k <= cfg.strikesLimit {
      var evs, group := CalmRun(cfg, texts, k);
    }
    forall evs | NothingFails(evs)
      ensures Run(cfg, EMPTY, evs).rounds <= cfg.strikesLimit
    {
      ReadableCapHolds(cfg, evs);
    }
  }

  lemma CalmRun(cfg: Config, texts: seq<string>, k: nat) returns (evs: seq<Event>, group: nat)
    requires ValidConfig(cfg) && Diverges(cfg, texts) && k <= cfg.strikesLimit
    ensures NothingFails(evs) && Run(cfg, EMPTY, evs).rounds == k
  {
    hide Step;
    if cfg.strikesLimit == 0 {
      evs, group := [], 0;
    } else {
      evs, group := EveryRoundIsReached(cfg, texts, k, true);
    }
  }

  /** Two texts with orthogonal vectors diverge. */
  lemma OrthogonalTextsDiverge(cfg: Config)
    requires cfg.n == 2 && cfg.threshold > 0.0
    requires cfg.embed("x") == [1.0, 0.0] && cfg.embed("y") == [0.0, 1.0]
    ensures Diverges(cfg, ["x", "y"])
  {
    var texts := ["x", "y"];
    var sims := Similarities(cfg.sqrt, VectorsOf(cfg, texts));
    DotOfPairs([1.0, 0.0], [0.0, 1.0]);
    assert sims[0][1] <= 0.0;
    SweepFindsBestClique(sims, cfg.threshold);
    EmptyIffNoPairAgrees(sims, cfg.threshold, AgreedSet(sims, cfg.threshold, 2));
  }
}
