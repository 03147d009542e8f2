/** The quorum engine as it runs: storage calls that change rows in place and the decision
    that drives them. Every method is tied to a function of `QuorumState`. */
module QuorumEngine {
  import opened Clique
  import opened Consensus
  import opened Publish
  import opened QuorumState

  class SubjectStore {
    var submissions: seq<Submission>
    var standing: map<string, Standing>
    var slots: seq<Slot>
    var excluded: set<(nat, string)>
    var nodes: seq<Node>
    ghost var handed: multiset<Answer>
    ghost var rounds: nat
    ghost var misreads: nat

    ghost function Snapshot(): State
      reads this
    {
      State(submissions, handed, standing, slots, excluded, nodes, rounds, misreads)
    }

    constructor ()
      ensures Snapshot() == State([], multiset{}, map[], [], {}, [], 0, 0)
    {
      submissions, standing, slots, excluded, nodes := [], map[], [], {}, [];
      handed, rounds, misreads := multiset{}, 0, 0;
    }

    method InsertSubmission(text: string, author: string) returns (id: nat)
      modifies this`submissions
      ensures id == |old(submissions)|
      ensures submissions == old(submissions) + [Submission(text, author, Candidate)]
    {
      id := |submissions|;
      submissions := submissions + [Submission(text, author, Candidate)];
    }

    method UpdateStatus(id: nat, status: Status)
      requires id < |submissions|
      modifies this`submissions
      ensures submissions == SetStatus(old(submissions), id, status)
    {
      submissions := submissions[id := submissions[id].(status := status)];
    }

    method SeedTrust(author: string)
      modifies this`standing
      ensures standing == old(standing)[author := StandingOf(old(standing), author)]
    {
      if author !in standing {
        standing := standing[author := Standing(0, 1.0)];
      }
    }

    /** `record_strike`: seed the row, then count the strike and decay the trust. */
    method RecordStrike(author: string)
      modifies this`standing
      ensures standing == old(standing)[author := Strike(StandingOf(old(standing), author))]
    {
      SeedTrust(author);
      var row := standing[author];
      var decayed := row.trust - 0.2;
      standing := standing[author := Standing(row.strikes + 1, if decayed < 0.0 then 0.0 else decayed)];
    }

    /** `bump_trust_on_accept`: seed the row, then lift the trust and forgive a strike. */
    method BumpTrustOnAccept(author: string)
      modifies this`standing
      ensures standing == old(standing)[author := Forgive(StandingOf(old(standing), author))]
    {
      SeedTrust(author);
      var row := standing[author];
      var lifted := row.trust + 0.1;
      standing := standing[author := Standing(if row.strikes == 0 then 0 else row.strikes - 1,
                                              if lifted > 1.0 then 1.0 else lifted)];
    }

    /** The blocking closure of one row: the second call is made only if the first worked. */
    method DecideRow(id: nat, accept: bool, fault: RowFault) returns (ok: bool)
      requires id < |submissions|
      modifies this`submissions, this`standing
      ensures Snapshot() == MarkRow(old(Snapshot()), id, accept, fault)
      ensures ok <==> fault == Works
    {
      var author := submissions[id].author;
      if fault == FirstCallFails {
        return false;
      }
      UpdateStatus(id, if accept then Accepted else Rejected);
      if fault == SecondCallFails {
        return false;
      }
      if fault == OnlySeeds {
        SeedTrust(author);
        return false;
      }
      if accept {
        BumpTrustOnAccept(author);
      } else {
        RecordStrike(author);
      }
      return fault == Works;
    }

    /** Returns the generation of the group that now owns the work, and whether the subject
        had no job before. */
    method EnqueueRlmJob(n: nat, exclude: seq<string>, otherGroups: nat) returns (generation: nat, brandNew: bool)
      modifies this`slots, this`excluded
      ensures Snapshot() == Enqueue(old(Snapshot()), n, exclude, otherGroups)
      ensures slots != [] && generation == slots[0].generation
      ensures brandNew <==> old(slots) == []
    {
      hide MaxGroup, Exclusions;
      var own := MaxGroup(slots);
      var newGroup := (if own < otherGroups then otherGroups else own) + 1;
      var count := if n == 0 then 1 else n;
      if |slots| > 0 {
        if exists i | 0 <= i < |slots| :: slots[i].Live() {
          return slots[0].generation, false;
        }
        generation := slots[0].generation + 1;
        var group := if |exclude| == 0 then slots[0].group else newGroup;
        excluded := excluded + Exclusions(group, exclude);
        slots := FreshSlots(count, generation, group);
        return generation, false;
      }
      generation := if |exclude| == 0 then 0 else MaxGeneration(slots) + 1;
      excluded := excluded + Exclusions(newGroup, exclude);
      slots := FreshSlots(count, generation, newGroup);
      brandNew := true;
    }

    method ReassignOnDivergence(cfg: Config, divergers: seq<string>, n: nat, f: Faults)
      modifies this
      ensures Snapshot() == Reassign(cfg, old(Snapshot()), divergers, n, f)
    {
      var generation, known, available := 0, 0, {};
      if !f.rosterFails {
        generation := MaxGeneration(slots);
        known := |standing|;
        available := Available(standing, cfg.strikesLimit, divergers);
      }
      if generation >= cfg.strikesLimit {
        return;
      }
      if |divergers| > 0 && known >= n && |available| == 0 && !f.rosterFails {
        return;
      }
      if f.enqueueFails {
        return;
      }
      ghost var created := !AnyLive(slots);
      var newGeneration, brandNew := EnqueueRlmJob(n, divergers, f.otherGroups);
      if created {
        rounds := rounds + 1;
        misreads := misreads + if f.rosterFails then 1 else 0;
      }
    }

    method RejectEveryone(ids: seq<nat>, row: nat -> RowFault) returns (rejected: seq<nat>, divergers: seq<string>)
      requires forall i | 0 <= i < |ids| :: ids[i] < |submissions|
      modifies this`submissions, this`standing
      ensures
        var m := MarkRows(old(Snapshot()), ids, [], row, |ids|);
        Snapshot() == m.st && rejected == m.rejected && divergers == m.divergers
    {
      rejected, divergers := [], [];
      ghost var before := Snapshot();
      for k := 0 to |ids|
        invariant |submissions| == |before.submissions|
        invariant forall i | 0 <= i < |submissions| :: submissions[i].author == before.submissions[i].author
        invariant
          var m := MarkRows(before, ids, [], row, k);
          Snapshot() == m.st && rejected == m.rejected && divergers == m.divergers
      {
        var id := ids[k];
        var author := submissions[id].author;
        var ok := DecideRow(id, false, row(id));
        if ok {
          rejected := rejected + [id];
          if author !in divergers {
            divergers := divergers + [author];
          }
        }
      }
    }

    method MarkRound(ids: seq<nat>, agreeing: seq<nat>, row: nat -> RowFault)
      returns (accepted: seq<nat>, rejected: seq<nat>)
      requires forall i | 0 <= i < |ids| :: ids[i] < |submissions|
      modifies this`submissions, this`standing
      ensures
        var m := MarkRows(old(Snapshot()), ids, agreeing, row, |ids|);
        Snapshot() == m.st && accepted == m.accepted && rejected == m.rejected
    {
      accepted, rejected := [], [];
      ghost var before := Snapshot();
      for k := 0 to |ids|
        invariant |submissions| == |before.submissions|
        invariant
          var m := MarkRows(before, ids, agreeing, row, k);
          Snapshot() == m.st && accepted == m.accepted && rejected == m.rejected
      {
        var id := ids[k];
        if k in agreeing {
          var ok := DecideRow(id, true, row(id));
          if ok {
            accepted := accepted + [id];
          }
        } else {
          var ok := DecideRow(id, false, row(id));
          if ok {
            rejected := rejected + [id];
          }
        }
      }
    }

    /** Embed the pending answers and search for the agreeing set. */
    method FindAgreeing(cfg: Config, ids: seq<nat>) returns (agreeing: seq<nat>)
      requires ids == PendingIds(Snapshot()) && AtLeastOne(cfg.n) <= |ids| <= 31
      ensures agreeing == Agreed(cfg, Snapshot())
    {
      var answers := AnswersOf(submissions, ids);
      var vectors := Embedded(cfg, answers);
      var sims := Similarities(cfg.sqrt, vectors);
      if cfg.n <= 1 {
        agreeing := [0];
      } else {
        agreeing := BestAgreeingClique(sims, cfg.threshold);
      }
    }

    /** The branch without a quorum: reject every row, then re-fan out. */
    method RejectAndReassign(cfg: Config, ids: seq<nat>, f: Faults) returns (d: Decision)
      requires ids == PendingIds(Snapshot())
      modifies this
      ensures (Snapshot(), d) == RejectRound(cfg, old(Snapshot()), f)
    {
      var rejected, divergers := RejectEveryone(ids, f.row);
      ReassignOnDivergence(cfg, divergers, if cfg.n == 0 then 1 else cfg.n, f);
      d := RejectedAll(rejected);
    }

    /** Score the agreeing answers and pick the one to publish. */
    method ChooseWinner(cfg: Config, ids: seq<nat>, agreeing: seq<nat>) returns (published: nat)
      requires ValidConfig(cfg) && ids == PendingIds(Snapshot()) && |ids| >= AtLeastOne(cfg.n)
      requires agreeing == Agreed(cfg, Snapshot()) && Accepts(AtLeastOne(cfg.n), agreeing)
      ensures published == Winner(cfg, Snapshot())
    {
      hide WithStatus, AgreedSet, Similarities, ScoreAgainst;
      AgreedIsARound(cfg, Snapshot());
      var answers := AnswersOf(submissions, ids);
      var vectors := Embedded(cfg, answers);
      var trust := TrustTable(standing, answers);
      published := ChoosePublished(cfg.sqrt, cfg.strategy, agreeing, answers, vectors, trust);
    }

    /** The branch with a quorum: publish the winner, then mark every row. */
    method PublishAndMark(cfg: Config, ids: seq<nat>, agreeing: seq<nat>, f: Faults) returns (d: Decision)
      requires ValidConfig(cfg) && ids == PendingIds(Snapshot()) && |ids| >= AtLeastOne(cfg.n)
      requires agreeing == Agreed(cfg, Snapshot()) && Accepts(AtLeastOne(cfg.n), agreeing)
      modifies this
      ensures (Snapshot(), d) == AcceptRound(cfg, old(Snapshot()), f)
    {
      if f.trustFails {
        return StorageError;
      }
      var published := ChooseWinner(cfg, ids, agreeing);
      var text, author := submissions[ids[published]].text, submissions[ids[published]].author;
      if f.publishFails {
        return StorageError;
      }
      nodes := nodes + [Node(text, author)];
      var accepted, rejected := MarkRound(ids, agreeing, f.row);
      d := AcceptedAs(text, accepted, rejected);
    }

    /** The decision once enough answers are gathered and embedded. */
    method DecideGathered(cfg: Config, ids: seq<nat>, f: Faults) returns (d: Decision)
      requires ValidConfig(cfg) && ids == PendingIds(Snapshot()) && AtLeastOne(cfg.n) <= |ids| <= 31
      modifies this
      ensures (Snapshot(), d) == DecideRound(cfg, old(Snapshot()), f)
    {
      var n := if cfg.n == 0 then 1 else cfg.n;
      var agreeing := FindAgreeing(cfg, ids);
      var faulty := (n - 1) / 3;
      var minClique := 2 * faulty + 1;
      var quorum := |agreeing| > 0 && |agreeing| >= minClique;
      assert quorum == Accepts(AtLeastOne(cfg.n), agreeing);
      if !quorum {
        d := RejectAndReassign(cfg, ids, f);
      } else {
        d := PublishAndMark(cfg, ids, agreeing, f);
      }
    }

    /** `decide_rlm_quorum`, for rounds of at most 31 pending candidates. */
    method DecideRlmQuorum(cfg: Config, f: Faults) returns (d: Decision)
      requires ValidConfig(cfg) && |PendingIds(Snapshot())| <= 31
      modifies this
      ensures (Snapshot(), d) == Decide(cfg, old(Snapshot()), f)
    {
      var ids := WithStatus(submissions, Candidate, |submissions|);
      if |ids| == 0 {
        var accepted := WithStatus(submissions, Accepted, |submissions|);
        if |accepted| > 0 {
          return AcceptedAs(submissions[accepted[0]].text, [accepted[0]], []);
        }
        return RejectedAll([]);
      }
      if |ids| < (if cfg.n == 0 then 1 else cfg.n) || f.embedFails {
        return Undecided;
      }
      d := DecideGathered(cfg, ids, f);
    }
  }
}
