/** Which text a decision publishes: over one decision, and over whole runs. */
module QuorumPublished {
  import opened Clique
  import opened Consensus
  import opened Publish
  import opened QuorumRounds
  import opened QuorumRuns
  import opened QuorumState
  import opened Similarity

  /** The pending rows, oldest first. */
  ghost predicate AreThePending(st: State, ids: seq<nat>) {
    && IsListOfRows(st, ids)
    && forall id | 0 <= id < |st.submissions| :: st.submissions[id].status == Candidate <==> id in ids
  }

  function TrustOnRecord(st: State, author: string): real {
    if author in st.standing then st.standing[author].trust else 1.0
  }

  /** What a decision reads: the text, author and embedding of every pending row in order,
      and each author's trust on record, full for a newcomer. */
  lemma RoundIsThePending(cfg: Config, st: State, i: nat)
    requires i < |PendingIds(st)|
    ensures AreThePending(st, PendingIds(st))
    ensures
      var (answers, vectors, _) := Round(cfg, st);
      var row := st.submissions[PendingIds(st)[i]];
      && answers[i] == Answer(row.text, row.author) && vectors[i] == cfg.embed(row.text)
      && TrustOf(TrustTable(st.standing, answers), row.author) == TrustOnRecord(st, row.author)
  {
    hide WithStatus, Similarities;
    var answers := Round(cfg, st).0;
    assert answers[i].author in TrustTable(st.standing, answers);
  }

  /** And the similarity of every two of them. */
  lemma RoundComparesThePending(cfg: Config, st: State, i: nat, j: nat)
    requires ValidConfig(cfg) && i < |PendingIds(st)| && j < |PendingIds(st)|
    ensures
      var (_, vectors, sims) := Round(cfg, st);
      sims[i][j] == Cosine(cfg.sqrt, vectors[i], vectors[j])
  {
    hide Cosine, PendingIds, AnswersOf;
  }

  /** The agreeing set is the best one there is; a fan-out of one agrees with its oldest
      answer. */
  lemma AgreedIsTheBest(cfg: Config, st: State)
    requires Gathered(cfg, st)
    ensures if cfg.n <= 1 then Agreed(cfg, st) == [0]
            else IsBestClique(Round(cfg, st).2, cfg.threshold, Agreed(cfg, st))
  {
    hide Similarities, PendingIds, IsBestClique, Sweep;
    SweepFindsBestClique(Round(cfg, st).2, cfg.threshold);
  }

  /** Row `w` of the pending rows is the earliest member of the agreeing set that no other
      member outscores, and `node` carries its text and its author. */
  ghost predicate IsBest(cfg: Config, st: State, w: nat, node: Node)
    requires ValidConfig(cfg) && Gathered(cfg, st)
  {
    AgreedIsARound(cfg, st);
    var (answers, vectors, _) := Round(cfg, st);
    && w < |PendingIds(st)|
    && IsPublished(cfg.sqrt, cfg.strategy, Agreed(cfg, st), answers, vectors, TrustTable(st.standing, answers), w)
    && node == Node(st.submissions[PendingIds(st)[w]].text, st.submissions[PendingIds(st)[w]].author)
  }

  ghost predicate HasQuorum(cfg: Config, st: State) {
    Gathered(cfg, st) && Accepts(AtLeastOne(cfg.n), Agreed(cfg, st))
  }

  /** The best answer of the round at hand. */
  ghost predicate IsChosen(cfg: Config, st: State, node: Node)
    requires ValidConfig(cfg)
  {
    HasQuorum(cfg, st) && exists w: nat :: IsBest(cfg, st, w, node)
  }

  ghost predicate CanPublish(f: Faults) {
    !f.embedFails && !f.trustFails && !f.publishFails
  }

  /** There is one best answer. */
  lemma ChosenIsUnique(cfg: Config, st: State, a: Node, b: Node)
    requires ValidConfig(cfg) && IsChosen(cfg, st, a) && IsChosen(cfg, st, b)
    ensures a == b
  {
    hide IsPublished, Agreed, Round, TrustTable, PendingIds;
    AgreedIsARound(cfg, st);
    var (answers, vectors, _) := Round(cfg, st);
    var v: nat :| IsBest(cfg, st, v, a);
    var w: nat :| IsBest(cfg, st, w, b);
    PublishedIsUnique(cfg.sqrt, cfg.strategy, Agreed(cfg, st), answers, vectors,
                      TrustTable(st.standing, answers), v, w);
  }

  // ----- One decision

  lemma WinnerIsBest(cfg: Config, st: State)
    requires ValidConfig(cfg) && HasQuorum(cfg, st)
    ensures
      var row := st.submissions[PendingIds(st)[Winner(cfg, st)]];
      IsChosen(cfg, st, Node(row.text, row.author))
  {
    hide Agreed, Round, TrustTable, PendingIds, IsPublished, Chosen;
    AgreedIsARound(cfg, st);
    PendingIsAListOfRows(st);
    var (answers, vectors, _) := Round(cfg, st);
    ChosenIsPublished(cfg.sqrt, cfg.strategy, Agreed(cfg, st), answers, vectors, TrustTable(st.standing, answers));
    var row := st.submissions[PendingIds(st)[Winner(cfg, st)]];
    assert IsBest(cfg, st, Winner(cfg, st), Node(row.text, row.author));
  }

  /** With a quorum, and unless reading the trust or publishing fails, a decision publishes
      the best answer under its author's name, whatever happens to the rows. */
  lemma DecisionPublishesTheBest(cfg: Config, st: State, f: Faults) returns (node: Node)
    requires ValidConfig(cfg) && HasQuorum(cfg, st) && CanPublish(f)
    ensures IsChosen(cfg, st, node)
    ensures
      var (after, d) := Decide(cfg, st, f);
      after.nodes == st.nodes + [node] && d.AcceptedAs? && d.text == node.text
  {
    hide Agreed, Winner, PendingIds, MarkRows, IsChosen;
    PendingIsAListOfRows(st);
    WinnerIsBest(cfg, st);
    var ids := PendingIds(st);
    var row := st.submissions[ids[Winner(cfg, st)]];
    node := Node(row.text, row.author);
    MarkRowsKeeps(st.(nodes := st.nodes + [node]), ids, Agreed(cfg, st), f.row, |ids|, ids[0]);
  }

  /** And only then anything is published. */
  lemma DecisionPublishesIff(cfg: Config, st: State, f: Faults)
    requires ValidConfig(cfg)
    ensures Decide(cfg, st, f).0.nodes != st.nodes <==> HasQuorum(cfg, st) && CanPublish(f)
  {
    hide Agreed, Winner, PendingIds, MarkRows, Reassign;
    if HasQuorum(cfg, st) && CanPublish(f) {
      var node := DecisionPublishesTheBest(cfg, st, f);
    } else if Gathered(cfg, st) {
      QuietBranches(cfg, st, f);
    }
  }

  lemma QuietBranches(cfg: Config, st: State, f: Faults)
    requires ValidConfig(cfg) && Gathered(cfg, st) && !(HasQuorum(cfg, st) && CanPublish(f))
    ensures Decide(cfg, st, f).0.nodes == st.nodes
  {
    hide Agreed, Winner, PendingIds, MarkRows, Reassign;
    MarkedRoundFrame(cfg, st, f);
    PendingIsAListOfRows(st);
    if !f.embedFails && !HasQuorum(cfg, st) {
      var m := MarkRows(st, PendingIds(st), [], f.row, |PendingIds(st)|);
      ReassignKeepsRows(cfg, m.st, m.divergers, AtLeastOne(cfg.n), f);
    }
  }

  lemma OldestIsFirst(st: State, id: nat)
    requires id < |st.submissions| && st.submissions[id].status == Candidate
    requires forall k | 0 <= k < id :: st.submissions[k].status != Candidate
    ensures PendingIds(st) != [] && PendingIds(st)[0] == id
  {
    var ids := PendingIds(st);
    assert id in ids;
    assert ids[0] in ids;
    assert forall p | 0 <= p < |ids| :: ids[0] <= ids[p];
  }

  lemma EnoughForOne(cfg: Config, st: State)
    requires cfg.n <= 1 && PendingIds(st) != []
    ensures Gathered(cfg, st)
  {
  }

  /** A fan-out of one: the oldest answer is the best one. */
  lemma SoleAnswerIsChosen(cfg: Config, st: State, id: nat)
    requires ValidConfig(cfg) && cfg.n <= 1
    requires id < |st.submissions| && st.submissions[id].status == Candidate
    requires forall k | 0 <= k < id :: st.submissions[k].status != Candidate
    ensures IsChosen(cfg, st, Node(st.submissions[id].text, st.submissions[id].author))
  {
    hide Round, Agreed, TrustTable, Score, PendingIds;
    OldestIsFirst(st, id);
    EnoughForOne(cfg, st);
    AgreedIsTheBest(cfg, st);
    AgreedIsARound(cfg, st);
    var w: nat := 0;
    assert IsBest(cfg, st, w, Node(st.submissions[id].text, st.submissions[id].author));
  }

  // ----- What becomes of the rows

  /** Every row of the agreeing set is accepted and every other one rejected, and the decision
      reports exactly the rows both of whose calls worked. */
  lemma DecisionSettlesTheRows(cfg: Config, st: State, f: Faults, p: nat)
    requires ValidConfig(cfg) && Gathered(cfg, st) && p < |PendingIds(st)|
    requires if HasQuorum(cfg, st) then CanPublish(f) else !f.embedFails
    ensures
      var (after, d) := Decide(cfg, st, f);
      var id := PendingIds(st)[p];
      var accept := HasQuorum(cfg, st) && p in Agreed(cfg, st);
      && id < |after.submissions| && after.submissions[id] == Settled(st.submissions[id], accept, f.row(id))
      && (d.AcceptedAs? || d.RejectedAll?)
      && (id in d.rejected <==> f.row(id) == Works && !accept)
      && (d.AcceptedAs? <==> HasQuorum(cfg, st))
      && (d.AcceptedAs? ==> (id in d.accepted <==> f.row(id) == Works && accept))
  {
    hide Agreed, Winner, PendingIds, MarkRows, Reassign;
    PendingIsAListOfRows(st);
    var ids := PendingIds(st);
    if HasQuorum(cfg, st) {
      var row := st.submissions[ids[Winner(cfg, st)]];
      var published := st.(nodes := st.nodes + [Node(row.text, row.author)]);
      MarkRowsSettles(published, ids, Agreed(cfg, st), f.row, |ids|, p);
      RowIsReportedIff(published, ids, Agreed(cfg, st), f.row, |ids|, p);
    } else {
      MarkRowsSettles(st, ids, [], f.row, |ids|, p);
      RowIsReportedIff(st, ids, [], f.row, |ids|, p);
      var m := MarkRows(st, ids, [], f.row, |ids|);
      ReassignKeepsRows(cfg, m.st, m.divergers, AtLeastOne(cfg.n), f);
    }
  }

  lemma {:induction false} RowIsReportedIff(st: State, ids: seq<nat>, agreeing: seq<nat>, row: nat -> RowFault,
                                            k: nat, p: nat)
    requires p < k <= |ids| && IsListOfRows(st, ids)
    ensures
      var m := MarkRows(st, ids, agreeing, row, k);
      && (ids[p] in m.accepted <==> row(ids[p]) == Works && p in agreeing)
      && (ids[p] in m.rejected <==> row(ids[p]) == Works && p !in agreeing)
  {
    hide MarkRow, PushNew;
    MarkRowsReportsTruly(st, ids, agreeing, row, k - 1, ids[p]);
    if p < k - 1 {
      RowIsReportedIff(st, ids, agreeing, row, k - 1, p);
    }
  }

  /** With nothing pending a decision changes nothing; it reports the oldest accepted text. */
  lemma IdleDecisionReports(cfg: Config, st: State, f: Faults, id: nat)
    requires ValidConfig(cfg) && PendingIds(st) == [] && id < |st.submissions|
    requires forall k | 0 <= k < id :: st.submissions[k].status != Accepted
    ensures Decide(cfg, st, f).0 == st
    ensures st.submissions[id].status == Accepted
            ==> Decide(cfg, st, f).1 == AcceptedAs(st.submissions[id].text, [id], [])
  {
    if st.submissions[id].status == Accepted {
      var accepted := WithStatus(st.submissions, Accepted, |st.submissions|);
      assert id in accepted && accepted[0] in accepted;
      assert forall p | 0 <= p < |accepted| :: accepted[0] <= accepted[p];
    }
  }

  // ----- Whole runs

  /** Every revision published over a run was the best answer of the round that a decision of
      the run found, with the trust that was then on record; one decision each, in order. */
  lemma {:induction false} EveryRevisionWasChosen(cfg: Config, evs: seq<Event>, i: nat) returns (k: nat)
    requires ValidConfig(cfg) && i < |Run(cfg, EMPTY, evs).nodes|
    ensures k < |evs| && evs[k].DecideNow? && |Run(cfg, EMPTY, evs[..k]).nodes| == i
    ensures IsChosen(cfg, Run(cfg, EMPTY, evs[..k]), Run(cfg, EMPTY, evs).nodes[i])
  {
    hide Step, IsChosen;
    if evs != [] {
      var front, last := evs[..|evs| - 1], evs[|evs| - 1];
      var before := Run(cfg, EMPTY, front);
      StepExtends(cfg, before, last);
      if i < |before.nodes| {
        k := EveryRevisionWasChosen(cfg, front, i);
        assert front[..k] == evs[..k];
      } else {
        k := |evs| - 1;
        StepPublishes(cfg, before, last);
      }
    }
  }

  lemma StepPublishes(cfg: Config, st: State, ev: Event)
    requires ValidConfig(cfg) && Step(cfg, st, ev).nodes != st.nodes
    ensures ev.DecideNow? && |Step(cfg, st, ev).nodes| == |st.nodes| + 1
    ensures IsChosen(cfg, st, Step(cfg, st, ev).nodes[|st.nodes|])
  {
    hide Decide, HasQuorum, IsChosen, MaxGroup, AnyLive, Exclusions, Touched;
    if ev.DecideNow? {
      DecisionPublishesIff(cfg, st, ev.faults);
      var node := DecisionPublishesTheBest(cfg, st, ev.faults);
    }
  }
}
