/** Strikes and trust over whole runs: what a volunteer's standing says about the fate of
    their submissions. */
module QuorumLedger {
  import opened Consensus
  import opened QuorumRounds
  import opened QuorumRuns
  import opened QuorumState

  /** How many submissions of `author` have the given status. */
  ghost function Count(subs: seq<Submission>, author: string, status: Status): nat {
    if subs == [] then 0
    else
      var last := subs[|subs| - 1];
      Count(subs[..|subs| - 1], author, status) + if last.author == author && last.status == status then 1 else 0
  }

  lemma {:induction false} CountUpdate(subs: seq<Submission>, id: nat, sub: Submission, author: string, status: Status)
    requires id < |subs| && subs[id].author == sub.author
    ensures Count(subs[id := sub], author, status)
            + (if sub.author == author && subs[id].status == status then 1 else 0)
            == Count(subs, author, status) + (if sub.author == author && sub.status == status then 1 else 0)
  {
    var n := |subs| - 1;
    if id < n {
      CountUpdate(subs[..n], id, sub, author, status);
      assert subs[id := sub][..n] == subs[..n][id := sub];
    } else {
      assert subs[id := sub][..n] == subs[..n];
    }
  }

  /** The standing is the sum of what happened: each rejection is a strike, except for those
      `waived`, and trust is in its range. Strikes from other subjects count as negative. */
  ghost predicate Balanced(st: State, author: string, waived: int) {
    var s := StandingOf(st.standing, author);
    && s.strikes + waived == Count(st.submissions, author, Rejected)
    && 0.0 <= s.trust <= 1.0
  }

  // ----- What is waived

  /** The status is written and the change of standing is not. */
  predicate LosesStanding(fault: RowFault) {
    fault == SecondCallFails || fault == OnlySeeds
  }

  /** A rejection whose strike is not written is waived, and an acceptance waives a strike if
      there is one to waive. */
  ghost function WaivedByRow(st: State, id: nat, accept: bool, fault: RowFault, author: string): nat
    requires id < |st.submissions|
  {
    if st.submissions[id].author != author || fault == FirstCallFails then 0
    else if accept then (if !LosesStanding(fault) && StandingOf(st.standing, author).strikes > 0 then 1 else 0)
    else (if LosesStanding(fault) then 1 else 0)
  }

  ghost function WaivedByRows(st: State, ids: seq<nat>, agreeing: seq<nat>, row: nat -> RowFault, k: nat,
                              author: string): nat
    requires k <= |ids| && forall i | 0 <= i < |ids| :: ids[i] < |st.submissions|
  {
    if k == 0 then 0
    else
      var before, id := MarkRows(st, ids, agreeing, row, k - 1).st, ids[k - 1];
      WaivedByRows(st, ids, agreeing, row, k - 1, author) + WaivedByRow(before, id, k - 1 in agreeing, row(id), author)
  }

  ghost function WaivedByDecision(cfg: Config, st: State, f: Faults, author: string): nat
    requires ValidConfig(cfg)
  {
    var ids := PendingIds(st);
    if !Gathered(cfg, st) || f.embedFails then 0
    else if !Accepts(AtLeastOne(cfg.n), Agreed(cfg, st)) then WaivedByRows(st, ids, [], f.row, |ids|, author)
    else if f.trustFails || f.publishFails then 0
    else WaivedByRows(st, ids, Agreed(cfg, st), f.row, |ids|, author)
  }

  ghost function WaivedInRun(cfg: Config, evs: seq<Event>, author: string): nat
    requires ValidConfig(cfg)
  {
    if evs == [] then 0
    else
      var front, last := evs[..|evs| - 1], evs[|evs| - 1];
      WaivedInRun(cfg, front, author)
      + if last.DecideNow? then WaivedByDecision(cfg, Run(cfg, EMPTY, front), last.faults, author) else 0
  }

  /** What a decision on another subject adds to the strikes. */
  ghost function AddedBy(st: State, ev: Event, author: string): int {
    if !ev.Elsewhere? || ev.author != author then 0
    else
      match ev.effect
      case Seeded => 0
      case Struck => 1
      case Forgiven => if StandingOf(st.standing, author).strikes > 0 then -1 else 0
  }

  /** Strikes written by decisions on other subjects, less those taken back by them. */
  ghost function AddedElsewhere(cfg: Config, evs: seq<Event>, author: string): int
    requires ValidConfig(cfg)
  {
    if evs == [] then 0
    else
      var front, last := evs[..|evs| - 1], evs[|evs| - 1];
      AddedElsewhere(cfg, front, author) + AddedBy(Run(cfg, EMPTY, front), last, author)
  }

  /** How often other subjects struck or forgave the author. */
  function TimesElsewhere(evs: seq<Event>, author: string, effect: Effect): nat {
    if evs == [] then 0
    else
      TimesElsewhere(evs[..|evs| - 1], author, effect) + if evs[|evs| - 1] == Elsewhere(author, effect) then 1 else 0
  }

  lemma {:induction false} AddedElsewhereBounds(cfg: Config, evs: seq<Event>, author: string)
    requires ValidConfig(cfg)
    ensures TimesElsewhere(evs, author, Struck) - TimesElsewhere(evs, author, Forgiven)
            <= AddedElsewhere(cfg, evs, author) <= TimesElsewhere(evs, author, Struck)
  {
    hide Run;
    if evs != [] {
      AddedElsewhereBounds(cfg, evs[..|evs| - 1], author);
    }
  }

  // ----- The balance is kept

  /** From `st` to `after`, `more` rejections were waived; if every status came with its
      standing, no more than submissions were accepted. */
  ghost predicate Keeps(st: State, after: State, author: string, waived: int, more: nat, written: bool) {
    && Balanced(after, author, waived + more)
    && (written ==>
          Count(st.submissions, author, Accepted) + more <= Count(after.submissions, author, Accepted))
  }

  ghost predicate Written(row: nat -> RowFault) {
    forall id :: !LosesStanding(row(id))
  }

  lemma MarkRowKeepsBalance(st: State, id: nat, accept: bool, fault: RowFault, author: string, waived: int)
    requires id < |st.submissions| && st.submissions[id].status == Candidate
    requires Balanced(st, author, waived)
    ensures Keeps(st, MarkRow(st, id, accept, fault), author, waived, WaivedByRow(st, id, accept, fault, author),
                  !LosesStanding(fault))
  {
    if fault != FirstCallFails {
      var sub := st.submissions[id].(status := if accept then Accepted else Rejected);
      CountUpdate(st.submissions, id, sub, author, Rejected);
      CountUpdate(st.submissions, id, sub, author, Accepted);
    }
  }

  lemma {:induction false} MarkRowsKeepsBalance(st: State, ids: seq<nat>, agreeing: seq<nat>, row: nat -> RowFault,
                                                k: nat, author: string, waived: int)
    requires k <= |ids| && IsListOfRows(st, ids)
    requires forall i | 0 <= i < |ids| :: st.submissions[ids[i]].status == Candidate
    requires Balanced(st, author, waived)
    ensures Keeps(st, MarkRows(st, ids, agreeing, row, k).st, author, waived,
                  WaivedByRows(st, ids, agreeing, row, k, author), Written(row))
  {
    hide Balanced, Count, MarkRow, WaivedByRow;
    if k > 0 {
      var id, before := ids[k - 1], MarkRows(st, ids, agreeing, row, k - 1).st;
      MarkRowsKeepsBalance(st, ids, agreeing, row, k - 1, author, waived);
      MarkRowsKeeps(st, ids, agreeing, row, k - 1, id);
      MarkRowKeepsBalance(before, id, k - 1 in agreeing, row(id), author,
                          waived + WaivedByRows(st, ids, agreeing, row, k - 1, author));
    }
  }

  lemma RowIgnoresNodes(a: State, b: State, id: nat, accept: bool, fault: RowFault, author: string)
    requires id < |a.submissions| && b == a.(nodes := b.nodes)
    ensures WaivedByRow(a, id, accept, fault, author) == WaivedByRow(b, id, accept, fault, author)
    ensures MarkRow(b, id, accept, fault) == MarkRow(a, id, accept, fault).(nodes := b.nodes)
  {
    hide Strike, Forgive;
  }

  lemma {:induction false} WaivedIgnoresNodes(a: State, b: State, ids: seq<nat>, agreeing: seq<nat>,
                                              row: nat -> RowFault, k: nat, author: string)
    requires k <= |ids| && IsListOfRows(a, ids) && b == a.(nodes := b.nodes)
    ensures WaivedByRows(a, ids, agreeing, row, k, author) == WaivedByRows(b, ids, agreeing, row, k, author)
    ensures MarkRows(b, ids, agreeing, row, k).st == MarkRows(a, ids, agreeing, row, k).st.(nodes := b.nodes)
  {
    hide MarkRow, WaivedByRow, PushNew;
    if k > 0 {
      WaivedIgnoresNodes(a, b, ids, agreeing, row, k - 1, author);
      RowIgnoresNodes(MarkRows(a, ids, agreeing, row, k - 1).st, MarkRows(b, ids, agreeing, row, k - 1).st,
                      ids[k - 1], k - 1 in agreeing, row(ids[k - 1]), author);
    }
  }

  lemma PendingAreCandidates(st: State)
    ensures forall i | 0 <= i < |PendingIds(st)| :: st.submissions[PendingIds(st)[i]].status == Candidate
  {
    forall i | 0 <= i < |PendingIds(st)|
      ensures st.submissions[PendingIds(st)[i]].status == Candidate
    {
      assert PendingIds(st)[i] in PendingIds(st);
    }
  }

  lemma AcceptKeepsBalance(cfg: Config, st: State, f: Faults, author: string, waived: int)
    requires ValidConfig(cfg) && Gathered(cfg, st) && Balanced(st, author, waived)
    requires Accepts(AtLeastOne(cfg.n), Agreed(cfg, st)) && !f.trustFails && !f.publishFails
    ensures Keeps(st, AcceptRound(cfg, st, f).0, author, waived,
                  WaivedByRows(st, PendingIds(st), Agreed(cfg, st), f.row, |PendingIds(st)|, author), Written(f.row))
  {
    hide MarkRows, WaivedByRows, WithStatus, AgreedSet, Count, Written;
    var ids := PendingIds(st);
    PendingIsAListOfRows(st);
    PendingAreCandidates(st);
    var winner := st.submissions[ids[Winner(cfg, st)]];
    var published := st.(nodes := st.nodes + [Node(winner.text, winner.author)]);
    WaivedIgnoresNodes(st, published, ids, Agreed(cfg, st), f.row, |ids|, author);
    MarkRowsKeepsBalance(published, ids, Agreed(cfg, st), f.row, |ids|, author, waived);
  }

  lemma RejectKeepsBalance(cfg: Config, st: State, f: Faults, author: string, waived: int)
    requires Balanced(st, author, waived)
    ensures Keeps(st, RejectRound(cfg, st, f).0, author, waived,
                  WaivedByRows(st, PendingIds(st), [], f.row, |PendingIds(st)|, author), Written(f.row))
  {
    hide MarkRows, WaivedByRows, WithStatus, Count, Written, Reassign;
    var ids := PendingIds(st);
    PendingIsAListOfRows(st);
    PendingAreCandidates(st);
    var m := MarkRows(st, ids, [], f.row, |ids|);
    MarkRowsKeepsBalance(st, ids, [], f.row, |ids|, author, waived);
    ReassignKeepsRows(cfg, m.st, m.divergers, AtLeastOne(cfg.n), f);
  }

  lemma UnchangedKeeps(st: State, author: string, waived: int, written: bool)
    requires Balanced(st, author, waived)
    ensures Keeps(st, st, author, waived, 0, written)
  {
  }

  lemma DecideKeepsBalance(cfg: Config, st: State, f: Faults, author: string, waived: int)
    requires ValidConfig(cfg) && Balanced(st, author, waived)
    ensures Keeps(st, Decide(cfg, st, f).0, author, waived, WaivedByDecision(cfg, st, f, author), Written(f.row))
  {
    hide Keeps, Balanced, Written, WaivedByRows, RejectRound, Agreed, PendingIds, Accepts;
    UnchangedKeeps(st, author, waived, Written(f.row));
    if Gathered(cfg, st) && !f.embedFails {
      if !Accepts(AtLeastOne(cfg.n), Agreed(cfg, st)) {
        RejectKeepsBalance(cfg, st, f, author, waived);
      } else if !f.trustFails && !f.publishFails {
        AcceptKeepsBalance(cfg, st, f, author, waived);
      }
    }
  }

  /** The second call of a row never fails: whenever a status is written, so is the
      standing. */
  ghost predicate StandingWrites(ev: Event) {
    ev.DecideNow? ==> Written(ev.faults.row)
  }

  lemma CandidatesDoNotCount(subs: seq<Submission>, sub: Submission, author: string)
    requires sub.status == Candidate
    ensures Count(subs + [sub], author, Rejected) == Count(subs, author, Rejected)
    ensures Count(subs + [sub], author, Accepted) == Count(subs, author, Accepted)
  {
    assert (subs + [sub])[..|subs|] == subs;
  }

  lemma OtherStepsKeepBalance(cfg: Config, st: State, ev: Event, author: string, waived: int)
    requires ValidConfig(cfg) && !ev.DecideNow? && !ev.Elsewhere? && Balanced(st, author, waived)
    ensures Keeps(st, Step(cfg, st, ev), author, waived, 0, true)
  {
    hide MayClaim, MayComplete, CancelSlot, Decide, MaxGroup, AnyLive, Count, StandingOf;
    if ev.Stage? {
      CandidatesDoNotCount(st.submissions, Submission(ev.answer.text, ev.answer.author, Candidate), author);
    }
  }

  lemma ElsewhereKeepsBalance(cfg: Config, st: State, ev: Event, author: string, waived: int)
    requires ValidConfig(cfg) && ev.Elsewhere? && Balanced(st, author, waived)
    ensures Keeps(st, Step(cfg, st, ev), author, waived - AddedBy(st, ev, author), 0, true)
  {
  }

  lemma StepKeepsBalance(cfg: Config, st: State, ev: Event, author: string, waived: int)
    requires ValidConfig(cfg) && Balanced(st, author, waived)
    ensures Keeps(st, Step(cfg, st, ev), author, waived - AddedBy(st, ev, author),
                  if ev.DecideNow? then WaivedByDecision(cfg, st, ev.faults, author) else 0, StandingWrites(ev))
  {
    hide Balanced, Count, Decide, WaivedByDecision;
    if ev.DecideNow? {
      DecideKeepsBalance(cfg, st, ev.faults, author, waived);
    } else if ev.Elsewhere? {
      ElsewhereKeepsBalance(cfg, st, ev, author, waived);
    } else {
      OtherStepsKeepBalance(cfg, st, ev, author, waived);
    }
  }

  ghost predicate AllWritten(evs: seq<Event>) {
    forall i | 0 <= i < |evs| :: StandingWrites(evs[i])
  }

  lemma WrittenSoFar(evs: seq<Event>)
    requires evs != []
    ensures AllWritten(evs) ==> AllWritten(evs[..|evs| - 1]) && StandingWrites(evs[|evs| - 1])
  {
    hide StandingWrites;
  }

  lemma LastEventAdds(cfg: Config, evs: seq<Event>, author: string)
    requires ValidConfig(cfg) && evs != []
    ensures
      var front, last := evs[..|evs| - 1], evs[|evs| - 1];
      var before := Run(cfg, EMPTY, front);
      && Run(cfg, EMPTY, evs) == Step(cfg, before, last)
      && WaivedInRun(cfg, evs, author) == WaivedInRun(cfg, front, author)
         + (if last.DecideNow? then WaivedByDecision(cfg, before, last.faults, author) else 0)
      && AddedElsewhere(cfg, evs, author) == AddedElsewhere(cfg, front, author) + AddedBy(before, last, author)
  {
    hide Step, WaivedByDecision, AddedBy;
  }

  lemma NothingYet(cfg: Config, author: string)
    requires ValidConfig(cfg)
    ensures Balanced(Run(cfg, EMPTY, []), author, 0)
    ensures WaivedInRun(cfg, [], author) == 0 == AddedElsewhere(cfg, [], author)
  {
  }

  lemma {:induction false} BalanceIsKept(cfg: Config, evs: seq<Event>, author: string)
    requires ValidConfig(cfg)
    ensures Balanced(Run(cfg, EMPTY, evs), author, WaivedInRun(cfg, evs, author) - AddedElsewhere(cfg, evs, author))
    ensures AllWritten(evs) ==>
              WaivedInRun(cfg, evs, author) <= Count(Run(cfg, EMPTY, evs).submissions, author, Accepted)
  {
    hide Balanced, Run, Step, WaivedByDecision, WaivedInRun, AddedElsewhere, Count, AllWritten, StandingWrites, AddedBy;
    if evs == [] {
      NothingYet(cfg, author);
    } else {
      var front, last := evs[..|evs| - 1], evs[|evs| - 1];
      WrittenSoFar(evs);
      LastEventAdds(cfg, evs, author);
      BalanceIsKept(cfg, front, author);
      StepKeepsBalance(cfg, Run(cfg, EMPTY, front), last, author,
                       WaivedInRun(cfg, front, author) - AddedElsewhere(cfg, front, author));
    }
  }

  /** In every run, whatever fails here and whatever other subjects decide: the strikes are
      exactly the rejections here, less those whose strike was not written and less the
      acceptances here that met a positive count, and what other subjects added. */
  lemma StrikesAreExact(cfg: Config, evs: seq<Event>, author: string)
    requires ValidConfig(cfg)
    ensures
      var st := Run(cfg, EMPTY, evs);
      StandingOf(st.standing, author).strikes + WaivedInRun(cfg, evs, author)
      == Count(st.submissions, author, Rejected) + AddedElsewhere(cfg, evs, author)
  {
    hide Run, Count, WaivedInRun, AddedElsewhere, StandingOf, AllWritten;
    BalanceIsKept(cfg, evs, author);
  }

  /** In every run, whatever fails, nobody is struck without a rejection here or a strike from
      elsewhere, and trust stays within [0, 1]. */
  lemma StrikesAreEarned(cfg: Config, evs: seq<Event>, author: string)
    requires ValidConfig(cfg)
    ensures
      var st := Run(cfg, EMPTY, evs);
      && StandingOf(st.standing, author).strikes
         <= Count(st.submissions, author, Rejected) + TimesElsewhere(evs, author, Struck)
      && 0.0 <= StandingOf(st.standing, author).trust <= 1.0
  {
    hide Run, Count, WaivedInRun, AddedElsewhere, TimesElsewhere, StandingOf, AllWritten;
    BalanceIsKept(cfg, evs, author);
    AddedElsewhereBounds(cfg, evs, author);
  }

  /** If standings are always written with their statuses, the strikes are at most the
      rejections and the strikes from elsewhere, and at least these less the acceptances, here
      and elsewhere. For an author nobody accepted they are equal. */
  lemma StrikesCountRejections(cfg: Config, evs: seq<Event>, author: string)
    requires ValidConfig(cfg)
    requires AllWritten(evs)
    ensures
      var st := Run(cfg, EMPTY, evs);
      var strikes := StandingOf(st.standing, author).strikes;
      var rejected := Count(st.submissions, author, Rejected) + TimesElsewhere(evs, author, Struck);
      var accepted := Count(st.submissions, author, Accepted) + TimesElsewhere(evs, author, Forgiven);
      && strikes <= rejected <= strikes + accepted
      && (accepted == 0 ==> strikes == rejected)
  {
    hide Run, Count, WaivedInRun, AddedElsewhere, TimesElsewhere, StandingOf, AllWritten;
    BalanceIsKept(cfg, evs, author);
    AddedElsewhereBounds(cfg, evs, author);
  }
}
