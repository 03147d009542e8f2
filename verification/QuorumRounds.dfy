/** What one decision does: which rows it settles, what it reports, when it acts. */
module QuorumRounds {
  import opened Consensus
  import opened QuorumState

  /** The row a pass leaves behind at position `p`. */
  ghost function Settled(sub: Submission, accept: bool, fault: RowFault): Submission {
    if fault == FirstCallFails then sub else sub.(status := if accept then Accepted else Rejected)
  }

  ghost predicate IsListOfRows(st: State, ids: seq<nat>) {
    && (forall i | 0 <= i < |ids| :: ids[i] < |st.submissions|)
    && (forall i, j | 0 <= i < j < |ids| :: ids[i] < ids[j])
  }

  /** Marking one row settles it and touches nothing else but its author's standing. */
  lemma MarkRowSettles(st: State, id: nat, accept: bool, fault: RowFault)
    requires id < |st.submissions|
    ensures
      var after := MarkRow(st, id, accept, fault);
      && after == st.(submissions := st.submissions[id := Settled(st.submissions[id], accept, fault)],
                      standing := after.standing)
      && st.standing.Keys <= after.standing.Keys <= st.standing.Keys + {st.submissions[id].author}
  {
    hide Strike, Forgive;
    assert st.submissions[id := st.submissions[id]] == st.submissions;
  }

  /** Marking changes nothing but the rows named and the standing. */
  lemma {:induction false} MarkRowsKeeps(st: State, ids: seq<nat>, agreeing: seq<nat>, row: nat -> RowFault,
                                         k: nat, id: nat)
    requires k <= |ids| && IsListOfRows(st, ids) && id < |st.submissions|
    ensures
      var m := MarkRows(st, ids, agreeing, row, k).st;
      && m == st.(submissions := m.submissions, standing := m.standing)
      && (id !in ids[..k] ==> m.submissions[id] == st.submissions[id])
  {
    hide MarkRow, PushNew;
    if k > 0 {
      MarkRowsKeeps(st, ids, agreeing, row, k - 1, id);
      MarkRowSettles(MarkRows(st, ids, agreeing, row, k - 1).st, ids[k - 1], k - 1 in agreeing, row(ids[k - 1]));
      assert ids[..k] == ids[..k - 1] + [ids[k - 1]];
    }
  }

  lemma {:induction false} RowsKeepAuthors(st: State, ids: seq<nat>, agreeing: seq<nat>, row: nat -> RowFault,
                                           k: nat, id: nat)
    requires k <= |ids| && IsListOfRows(st, ids) && id < |st.submissions|
    ensures MarkRows(st, ids, agreeing, row, k).st.submissions[id].author == st.submissions[id].author
  {
    hide MarkRow, PushNew;
    if k > 0 {
      RowsKeepAuthors(st, ids, agreeing, row, k - 1, id);
      MarkRowSettles(MarkRows(st, ids, agreeing, row, k - 1).st, ids[k - 1], k - 1 in agreeing, row(ids[k - 1]));
    }
  }

  lemma {:induction false} NobodyIsForgotten(st: State, ids: seq<nat>, agreeing: seq<nat>, row: nat -> RowFault, k: nat)
    requires k <= |ids| && IsListOfRows(st, ids)
    ensures st.standing.Keys <= MarkRows(st, ids, agreeing, row, k).st.standing.Keys
  {
    hide MarkRow, PushNew;
    if k > 0 {
      NobodyIsForgotten(st, ids, agreeing, row, k - 1);
      MarkRowSettles(MarkRows(st, ids, agreeing, row, k - 1).st, ids[k - 1], k - 1 in agreeing, row(ids[k - 1]));
    }
  }

  /** A volunteer none of whose rows were touched keeps their standing. */
  lemma {:induction false} StandingUntouched(st: State, ids: seq<nat>, agreeing: seq<nat>, row: nat -> RowFault,
                                             k: nat, a: string)
    requires k <= |ids| && IsListOfRows(st, ids)
    requires forall i | 0 <= i < k && st.submissions[ids[i]].author == a :: row(ids[i]) == FirstCallFails
    ensures
      var after := MarkRows(st, ids, agreeing, row, k).st;
      (a in after.standing <==> a in st.standing) && (a in st.standing ==> after.standing[a] == st.standing[a])
  {
    hide Strike, Forgive, PushNew;
    if k > 0 {
      StandingUntouched(st, ids, agreeing, row, k - 1, a);
      RowsKeepAuthors(st, ids, agreeing, row, k - 1, ids[k - 1]);
    }
  }

  /** Every row named is settled, unless its first call fails. */
  lemma {:induction false} MarkRowsSettles(st: State, ids: seq<nat>, agreeing: seq<nat>, row: nat -> RowFault,
                                           k: nat, p: nat)
    requires p < k <= |ids| && IsListOfRows(st, ids)
    ensures MarkRows(st, ids, agreeing, row, k).st.submissions[ids[p]]
            == Settled(st.submissions[ids[p]], p in agreeing, row(ids[p]))
  {
    hide MarkRow, PushNew;
    MarkRowSettles(MarkRows(st, ids, agreeing, row, k - 1).st, ids[k - 1], k - 1 in agreeing, row(ids[k - 1]));
    if p < k - 1 {
      MarkRowsSettles(st, ids, agreeing, row, k - 1, p);
    } else {
      MarkRowsKeeps(st, ids, agreeing, row, k - 1, ids[p]);
    }
  }

  ghost predicate AllWork(row: nat -> RowFault) {
    forall id :: row(id) == Works
  }

  lemma WorkingRowIsReported(st: State, ids: seq<nat>, agreeing: seq<nat>, row: nat -> RowFault, k: nat)
    requires 0 < k <= |ids| && IsListOfRows(st, ids) && AllWork(row)
    ensures
      var m, before, id := MarkRows(st, ids, agreeing, row, k), MarkRows(st, ids, agreeing, row, k - 1), ids[k - 1];
      if k - 1 in agreeing
      then m.accepted == before.accepted + [id] && m.rejected == before.rejected
      else m.accepted == before.accepted && m.rejected == before.rejected + [id]
  {
    assert row(ids[k - 1]) == Works;
  }

  /** The two lists together are all ids, each as often as there. */
  ghost predicate Shared(accepted: seq<nat>, rejected: seq<nat>, all: seq<nat>) {
    multiset(accepted) + multiset(rejected) == multiset(all)
  }

  lemma OneMoreShared(accepted0: seq<nat>, rejected0: seq<nat>, all0: seq<nat>, id: nat)
    requires Shared(accepted0, rejected0, all0)
    ensures Shared(accepted0 + [id], rejected0, all0 + [id])
    ensures Shared(accepted0, rejected0 + [id], all0 + [id])
  {
  }

  lemma NothingReported(st: State, ids: seq<nat>, agreeing: seq<nat>, row: nat -> RowFault)
    requires IsListOfRows(st, ids)
    ensures
      var m := MarkRows(st, ids, agreeing, row, 0);
      Shared(m.accepted, m.rejected, ids[..0])
  {
  }

  /** When every call works, each row is reported once, as accepted or as rejected. */
  lemma {:induction false} MarkRowsReportsAll(st: State, ids: seq<nat>, agreeing: seq<nat>,
                                              row: nat -> RowFault, k: nat)
    requires k <= |ids| && IsListOfRows(st, ids) && AllWork(row)
    ensures
      var m := MarkRows(st, ids, agreeing, row, k);
      Shared(m.accepted, m.rejected, ids[..k])
  {
    hide MarkRows, Shared, AllWork;
    if k == 0 {
      NothingReported(st, ids, agreeing, row);
    } else {
      MarkRowsReportsAll(st, ids, agreeing, row, k - 1);
      WorkingRowIsReported(st, ids, agreeing, row, k);
      var before := MarkRows(st, ids, agreeing, row, k - 1);
      assert ids[..k] == ids[..k - 1] + [ids[k - 1]];
      OneMoreShared(before.accepted, before.rejected, ids[..k - 1], ids[k - 1]);
    }
  }

  /** Whatever fails, what is reported as accepted (rejected) is in the set (is not) and
      its calls worked. */
  lemma {:induction false} MarkRowsReportsTruly(st: State, ids: seq<nat>, agreeing: seq<nat>, row: nat -> RowFault,
                 k: nat, id: nat)
    requires k <= |ids| && IsListOfRows(st, ids)
    ensures
      var m := MarkRows(st, ids, agreeing, row, k);
      && (id in m.accepted ==> exists p :: 0 <= p < k && ids[p] == id && p in agreeing && row(id) == Works)
      && (id in m.rejected ==> exists p :: 0 <= p < k && ids[p] == id && p !in agreeing && row(id) == Works)
  {
    if k > 0 {
      MarkRowsReportsTruly(st, ids, agreeing, row, k - 1, id);
      var m, before := MarkRows(st, ids, agreeing, row, k), MarkRows(st, ids, agreeing, row, k - 1);
      if id in m.accepted && id !in before.accepted {
        assert ids[k - 1] == id;
      }
      if id in m.rejected && id !in before.rejected {
        assert ids[k - 1] == id;
      }
    }
  }

  /** The divergers are the authors of the rejected rows. */
  lemma {:induction false} DivergersAreTheRejected(st: State, ids: seq<nat>, agreeing: seq<nat>, row: nat -> RowFault,
                 k: nat, author: string)
    requires k <= |ids| && IsListOfRows(st, ids)
    ensures
      var m := MarkRows(st, ids, agreeing, row, k);
      author in m.divergers <==>
      exists i :: 0 <= i < |m.rejected| && m.rejected[i] < |st.submissions|
                  && st.submissions[m.rejected[i]].author == author
  {
    if k > 0 {
      DivergersAreTheRejected(st, ids, agreeing, row, k - 1, author);
      var m, before := MarkRows(st, ids, agreeing, row, k), MarkRows(st, ids, agreeing, row, k - 1);
      if m.rejected != before.rejected {
        assert m.rejected == before.rejected + [ids[k - 1]];
        assert forall i | 0 <= i < |before.rejected| :: m.rejected[i] == before.rejected[i];
        assert m.rejected[|before.rejected|] == ids[k - 1];
      }
    }
  }

  lemma {:induction false} DivergersWorked(st: State, ids: seq<nat>, row: nat -> RowFault, k: nat, a: string)
    requires k <= |ids| && IsListOfRows(st, ids)
    requires forall i | 0 <= i < k && st.submissions[ids[i]].author == a :: row(ids[i]) != Works
    ensures a !in MarkRows(st, ids, [], row, k).divergers
  {
    hide MarkRow;
    if k > 0 {
      DivergersWorked(st, ids, row, k - 1, a);
    }
  }

  // ----- Decided rows are final

  ghost predicate RowExtends(before: Submission, after: Submission) {
    && after.text == before.text && after.author == before.author
    && (before.status != Candidate ==> after.status == before.status)
  }

  /** Nothing recorded is lost: rows keep their text and author, a decided row keeps its
      status, published revisions and exclusions stay. */
  ghost predicate Extends(before: State, after: State) {
    && |before.submissions| <= |after.submissions|
    && (forall id | 0 <= id < |before.submissions| :: RowExtends(before.submissions[id], after.submissions[id]))
    && before.nodes <= after.nodes
    && before.excluded <= after.excluded
    && before.rounds <= after.rounds
  }

  lemma ExtendsTransitive(a: State, b: State, c: State)
    requires Extends(a, b) && Extends(b, c)
    ensures Extends(a, c)
  {
    forall id | 0 <= id < |a.submissions|
      ensures RowExtends(a.submissions[id], c.submissions[id])
    {
      assert RowExtends(a.submissions[id], b.submissions[id]);
      assert RowExtends(b.submissions[id], c.submissions[id]);
    }
  }

  lemma PendingIsAListOfRows(st: State)
    ensures IsListOfRows(st, PendingIds(st))
  {
  }

  lemma MarkingPendingExtends(st: State, agreeing: seq<nat>, row: nat -> RowFault)
    ensures
      var ids := PendingIds(st);
      Extends(st, MarkRows(st, ids, agreeing, row, |ids|).st)
  {
    var ids := PendingIds(st);
    var m := MarkRows(st, ids, agreeing, row, |ids|).st;
    PendingIsAListOfRows(st);
    assert ids[..|ids|] == ids;
    assert st.excluded == m.excluded && st.nodes == m.nodes && st.rounds == m.rounds by {
      if st.submissions != [] {
        MarkRowsKeeps(st, ids, agreeing, row, |ids|, 0);
      }
    }
    forall id | 0 <= id < |st.submissions|
      ensures RowExtends(st.submissions[id], m.submissions[id])
    {
      if id in ids {
        var p :| 0 <= p < |ids| && ids[p] == id;
        MarkRowsSettles(st, ids, agreeing, row, |ids|, p);
      } else {
        MarkRowsKeeps(st, ids, agreeing, row, |ids|, id);
      }
    }
  }

  lemma ReassignKeepsRows(cfg: Config, st: State, divergers: seq<string>, n: nat, f: Faults)
    ensures
      var after := Reassign(cfg, st, divergers, n, f);
      && after == st.(slots := after.slots, excluded := after.excluded,
                      rounds := after.rounds, misreads := after.misreads)
      && st.excluded <= after.excluded && st.rounds <= after.rounds
  {
  }

  lemma DecideExtends(cfg: Config, st: State, f: Faults)
    requires ValidConfig(cfg)
    ensures Extends(st, Decide(cfg, st, f).0)
  {
    hide MarkRows, PendingIds;
    var ids := PendingIds(st);
    PendingIsAListOfRows(st);
    if ids != [] && |ids| >= AtLeastOne(cfg.n) && !f.embedFails {
      if Accepts(AtLeastOne(cfg.n), Agreed(cfg, st)) {
        AcceptExtends(cfg, st, f);
      } else {
        MarkingPendingExtends(st, [], f.row);
        var m := MarkRows(st, ids, [], f.row, |ids|);
        ReassignKeepsRows(cfg, m.st, m.divergers, AtLeastOne(cfg.n), f);
      }
    }
  }

  lemma AcceptExtends(cfg: Config, st: State, f: Faults)
    requires ValidConfig(cfg) && |PendingIds(st)| >= AtLeastOne(cfg.n)
    requires Accepts(AtLeastOne(cfg.n), Agreed(cfg, st))
    ensures Extends(st, AcceptRound(cfg, st, f).0)
  {
    if !f.trustFails && !f.publishFails {
      var winner := st.submissions[PendingIds(st)[Winner(cfg, st)]];
      var published := st.(nodes := st.nodes + [Node(winner.text, winner.author)]);
      assert PendingIds(published) == PendingIds(st);
      MarkingPendingExtends(published, Agreed(cfg, st), f.row);
      ExtendsTransitive(st, published, AcceptRound(cfg, st, f).0);
    }
  }

  // ----- What a decision without faults reports

  ghost predicate NoFaults(f: Faults) {
    !f.embedFails && !f.trustFails && !f.publishFails && AllWork(f.row)
  }

  ghost predicate HaveStatus(st: State, ids: seq<nat>, status: Status) {
    forall i | 0 <= i < |ids| :: ids[i] < |st.submissions| && st.submissions[ids[i]].status == status
  }

  /** A marked round is split: every pending row is reported exactly once, the accepted
      ones hold status accepted, the rejected ones rejected, and none is left pending. */
  lemma MarkedRoundSplits(st: State, agreeing: seq<nat>, row: nat -> RowFault)
    requires AllWork(row)
    ensures
      var ids := PendingIds(st);
      var m := MarkRows(st, ids, agreeing, row, |ids|);
      && multiset(m.accepted) + multiset(m.rejected) == multiset(ids)
      && HaveStatus(m.st, m.accepted, Accepted)
      && HaveStatus(m.st, m.rejected, Rejected)
      && PendingIds(m.st) == []
      && (forall p | 0 <= p < |ids| && p in agreeing :: ids[p] in m.accepted)
  {
    hide MarkRows, PendingIds;
    var ids := PendingIds(st);
    PendingIsAListOfRows(st);
    var m := MarkRows(st, ids, agreeing, row, |ids|);
    MarkRowsReportsAll(st, ids, agreeing, row, |ids|);
    assert ids[..|ids|] == ids;
    forall i | 0 <= i < |m.accepted|
      ensures m.accepted[i] < |m.st.submissions| && m.st.submissions[m.accepted[i]].status == Accepted
    {
      MarkRowsReportsTruly(st, ids, agreeing, row, |ids|, m.accepted[i]);
      var p :| 0 <= p < |ids| && ids[p] == m.accepted[i] && p in agreeing;
      MarkRowsSettles(st, ids, agreeing, row, |ids|, p);
    }
    forall i | 0 <= i < |m.rejected|
      ensures m.rejected[i] < |m.st.submissions| && m.st.submissions[m.rejected[i]].status == Rejected
    {
      MarkRowsReportsTruly(st, ids, agreeing, row, |ids|, m.rejected[i]);
      var p :| 0 <= p < |ids| && ids[p] == m.rejected[i] && p !in agreeing;
      MarkRowsSettles(st, ids, agreeing, row, |ids|, p);
    }
    NothingLeftPending(st, agreeing, row);
    forall p | 0 <= p < |ids| && p in agreeing
      ensures ids[p] in m.accepted
    {
      AgreeingIsReported(st, ids, agreeing, row, |ids|, p);
    }
  }

  lemma {:induction false} AgreeingIsReported(st: State, ids: seq<nat>, agreeing: seq<nat>,
                                              row: nat -> RowFault, k: nat, p: nat)
    requires p < k <= |ids| && IsListOfRows(st, ids) && p in agreeing && row(ids[p]) == Works
    ensures ids[p] in MarkRows(st, ids, agreeing, row, k).accepted
  {
    if p < k - 1 {
      AgreeingIsReported(st, ids, agreeing, row, k - 1, p);
    }
  }

  /** Unless a first call fails, a round leaves no row pending. */
  lemma NothingLeftPending(st: State, agreeing: seq<nat>, row: nat -> RowFault)
    requires forall id :: row(id) != FirstCallFails
    ensures
      var ids := PendingIds(st);
      PendingIds(MarkRows(st, ids, agreeing, row, |ids|).st) == []
  {
    var ids := PendingIds(st);
    var m := MarkRows(st, ids, agreeing, row, |ids|).st;
    PendingIsAListOfRows(st);
    assert ids[..|ids|] == ids;
    forall id: nat | id < |m.submissions|
      ensures m.submissions[id].status != Candidate
    {
      if id in ids {
        var p :| 0 <= p < |ids| && ids[p] == id;
        MarkRowsSettles(st, ids, agreeing, row, |ids|, p);
      } else {
        MarkRowsKeeps(st, ids, agreeing, row, |ids|, id);
      }
    }
    if PendingIds(m) != [] {
      HasMember(PendingIds(m));
    }
  }

  lemma NonePending(st: State)
    requires PendingIds(st) == []
    ensures forall i | 0 <= i < |st.submissions| :: st.submissions[i].status != Candidate
  {
    forall i: nat | i < |st.submissions|
      ensures st.submissions[i].status != Candidate
    {
      assert i !in PendingIds(st);
    }
  }

  lemma HasMember(s: seq<nat>)
    requires s != []
    ensures exists id :: id in s
  {
    assert s[0] in s;
  }

  /** Enough answers to decide. */
  ghost predicate Gathered(cfg: Config, st: State) {
    |PendingIds(st)| >= AtLeastOne(cfg.n)
  }

  lemma {:induction false} NothingAccepted(st: State, ids: seq<nat>, row: nat -> RowFault, k: nat)
    requires k <= |ids| && IsListOfRows(st, ids)
    ensures MarkRows(st, ids, [], row, k).accepted == []
  {
    if k > 0 {
      NothingAccepted(st, ids, row, k - 1);
    }
  }

  lemma AcceptSplitsBatch(cfg: Config, st: State, f: Faults)
    requires ValidConfig(cfg) && Gathered(cfg, st) && NoFaults(f) && Accepts(AtLeastOne(cfg.n), Agreed(cfg, st))
    ensures
      var (after, d) := AcceptRound(cfg, st, f);
      && PendingIds(after) == [] && d.AcceptedAs?
      && multiset(d.accepted) + multiset(d.rejected) == multiset(PendingIds(st))
      && HaveStatus(after, d.accepted, Accepted) && HaveStatus(after, d.rejected, Rejected)
      && exists w | w in d.accepted && w < |st.submissions| ::
           && d.text == st.submissions[w].text
           && after.nodes == st.nodes + [Node(d.text, st.submissions[w].author)]
  {
    hide MarkRows, WithStatus, AgreedSet, HaveStatus, AllWork;
    var ids := PendingIds(st);
    PendingIsAListOfRows(st);
    var w := ids[Winner(cfg, st)];
    var winner := st.submissions[w];
    var published := st.(nodes := st.nodes + [Node(winner.text, winner.author)]);
    MarkedRoundSplits(published, Agreed(cfg, st), f.row);
    MarkRowsKeeps(published, ids, Agreed(cfg, st), f.row, |ids|, w);
    assert w in MarkRows(published, ids, Agreed(cfg, st), f.row, |ids|).accepted;
  }

  lemma RejectSplitsBatch(cfg: Config, st: State, f: Faults)
    requires Gathered(cfg, st) && NoFaults(f)
    ensures
      var (after, d) := RejectRound(cfg, st, f);
      && PendingIds(after) == [] && d.RejectedAll?
      && multiset(d.rejected) == multiset(PendingIds(st))
      && HaveStatus(after, d.rejected, Rejected) && after.nodes == st.nodes
  {
    hide MarkRows, WithStatus, AllWork, Reassign;
    var ids := PendingIds(st);
    PendingIsAListOfRows(st);
    MarkedRoundSplits(st, [], f.row);
    var m := MarkRows(st, ids, [], f.row, |ids|);
    NothingAccepted(st, ids, f.row, |ids|);
    MarkRowsKeeps(st, ids, [], f.row, |ids|, ids[0]);
    ReassignKeepsRows(cfg, m.st, m.divergers, AtLeastOne(cfg.n), f);
  }

  /** A decision splits its batch exactly. With a quorum, the text published (as the new
      live node, under its author's name) is that of one of the accepted submissions;
      without one, everything is rejected and nothing is published. */
  lemma DecisionSplitsBatch(cfg: Config, st: State, f: Faults)
    requires ValidConfig(cfg) && Gathered(cfg, st) && NoFaults(f)
    ensures
      var (after, d) := Decide(cfg, st, f);
      && PendingIds(after) == []
      && match d
         case AcceptedAs(text, accepted, rejected) =>
           && multiset(accepted) + multiset(rejected) == multiset(PendingIds(st))
           && HaveStatus(after, accepted, Accepted) && HaveStatus(after, rejected, Rejected)
           && exists w | w in accepted && w < |st.submissions| ::
                && text == st.submissions[w].text
                && after.nodes == st.nodes + [Node(text, st.submissions[w].author)]
         case RejectedAll(rejected) =>
           && multiset(rejected) == multiset(PendingIds(st))
           && HaveStatus(after, rejected, Rejected)
           && after.nodes == st.nodes
         case _ => false
  {
    hide AcceptRound, RejectRound, HaveStatus, PendingIds, Agreed;
    if Accepts(AtLeastOne(cfg.n), Agreed(cfg, st)) {
      AcceptSplitsBatch(cfg, st, f);
    } else {
      RejectSplitsBatch(cfg, st, f);
    }
  }

  // ----- When a decision acts at all

  /** A decision acts exactly when enough answers are pending. An earlier accepted
      submission does not stop it, although the documentation says a subject that has one
      is never decided again. */
  lemma DecisionActsIff(cfg: Config, st: State, f: Faults)
    requires ValidConfig(cfg) && NoFaults(f)
    ensures Decide(cfg, st, f).0 != st <==> Gathered(cfg, st)
  {
    hide WithStatus, DecideRound, HaveStatus;
    if Gathered(cfg, st) {
      DecisionSplitsBatch(cfg, st, f);
    }
  }

  /** Deciding again right away, whatever fails then, changes nothing. */
  lemma DecidingTwiceIsDecidingOnce(cfg: Config, st: State, f: Faults, again: Faults)
    requires ValidConfig(cfg) && NoFaults(f)
    ensures
      var after := Decide(cfg, st, f).0;
      Decide(cfg, after, again).0 == after
  {
    if Gathered(cfg, st) {
      DecisionSplitsBatch(cfg, st, f);
    }
  }
}
