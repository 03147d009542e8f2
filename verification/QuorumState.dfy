/** The stored state of one RLM subject (its submissions, job slots, exclusions and
    published nodes) and of the volunteers' standing, which all subjects share; what each
    storage call does to it, and the quorum decision as a function of it. */
module QuorumState {
  import opened Clique
  import opened Consensus
  import opened Publish
  import opened Similarity
  import opened Wrappers

  // ----- Rows

  datatype Status = Candidate | Accepted | Rejected

  /** A row of `submissions`; its id is its position, rows are in creation order. */
  datatype Submission = Submission(text: string, author: string, status: Status)

  /** A row of `volunteer_trust`. */
  datatype Standing = Standing(strikes: nat, trust: real)

  datatype SlotStatus = Pending | Claimed | Done | Failed

  /** A row of `rlm_jobs` of the subject. */
  datatype Slot = Slot(generation: nat, group: nat, status: SlotStatus, claimedBy: Option<string>) {
    predicate Live() {
      status == Pending || status == Claimed
    }
  }

  /** A published revision of the subject's node; the last one is live. */
  datatype Node = Node(text: string, author: string)

  /** `handed` are the answers whose slot is done and whose row is not yet inserted: these
      are two calls. `rounds` counts the effective re-fan-outs, `misreads` the re-fan-outs
      decided without the roster and generation, because reading them failed. */
  datatype State = State(
    submissions: seq<Submission>,
    handed: multiset<Answer>,
    standing: map<string, Standing>,
    slots: seq<Slot>,
    excluded: set<(nat, string)>,
    nodes: seq<Node>,
    rounds: nat,
    misreads: nat)

  const NEWCOMER := Standing(0, 1.0)

  function StandingOf(standing: map<string, Standing>, author: string): Standing {
    if author in standing then standing[author] else NEWCOMER
  }

  // ----- Storage calls

  function Strike(s: Standing): Standing {
    Standing(s.strikes + 1, if s.trust - 0.2 < 0.0 then 0.0 else s.trust - 0.2)
  }

  /** An accepted candidate lifts trust and forgives one strike. */
  function Forgive(s: Standing): Standing {
    Standing(if s.strikes == 0 then 0 else s.strikes - 1, if s.trust + 0.1 > 1.0 then 1.0 else s.trust + 0.1)
  }

  /** How the two storage calls behind one row of a decision may go. The second one seeds the
      author's standing before it changes it, and may report a failure when it has. */
  datatype RowFault = Works | FirstCallFails | SecondCallFails | OnlySeeds | FailsWhenDone

  function SetStatus(subs: seq<Submission>, id: nat, status: Status): seq<Submission>
    requires id < |subs|
  {
    subs[id := subs[id].(status := status)]
  }

  /** Accept or reject one row: its status first, then its author's standing. */
  function MarkRow(st: State, id: nat, accept: bool, fault: RowFault): State
    requires id < |st.submissions|
  {
    var author := st.submissions[id].author;
    var before := StandingOf(st.standing, author);
    var after := if accept then Forgive(before) else Strike(before);
    var decided := SetStatus(st.submissions, id, if accept then Accepted else Rejected);
    match fault
    case FirstCallFails => st
    case SecondCallFails => st.(submissions := decided)
    case OnlySeeds => st.(submissions := decided, standing := st.standing[author := before])
    case _ => st.(submissions := decided, standing := st.standing[author := after])
  }

  function MaxGroup(slots: seq<Slot>): nat {
    if slots == [] then 0
    else
      var rest, group := MaxGroup(slots[..|slots| - 1]), slots[|slots| - 1].group;
      if rest < group then group else rest
  }

  function MaxGeneration(slots: seq<Slot>): nat {
    if slots == [] then 0
    else
      var rest, generation := MaxGeneration(slots[..|slots| - 1]), slots[|slots| - 1].generation;
      if rest < generation then generation else rest
  }

  predicate AnyLive(slots: seq<Slot>) {
    exists i | 0 <= i < |slots| :: slots[i].Live()
  }

  function FreshSlots(n: nat, generation: nat, group: nat): seq<Slot> {
    seq(n, _ => Slot(generation, group, Pending, None))
  }

  function Exclusions(group: nat, names: seq<string>): set<(nat, string)> {
    set v | v in names && v != "" :: (group, v)
  }

  function AtLeastOne(n: nat): nat {
    if n == 0 then 1 else n
  }

  /** `enqueue_rlm_job`. `otherGroups` is the largest group id of other subjects. */
  function Enqueue(st: State, n: nat, exclude: seq<string>, otherGroups: nat): State {
    var own := MaxGroup(st.slots);
    var newGroup := (if own < otherGroups then otherGroups else own) + 1;
    if st.slots == [] then
      st.(slots := FreshSlots(AtLeastOne(n), if exclude == [] then 0 else 1, newGroup),
          excluded := st.excluded + Exclusions(newGroup, exclude))
    else if AnyLive(st.slots) then st
    else
      var group := if exclude == [] then st.slots[0].group else newGroup;
      st.(slots := FreshSlots(AtLeastOne(n), st.slots[0].generation + 1, group),
          excluded := st.excluded + Exclusions(group, exclude))
  }

  // ----- The decision

  /** What a decision reads besides the store: the configuration and the embedder. */
  datatype Config = Config(
    n: nat,
    threshold: real,
    strategy: FusionStrategy,
    strikesLimit: nat,
    embed: string -> Vector,
    sqrt: real -> real)

  ghost predicate ValidConfig(cfg: Config) {
    && IsRoot(cfg.sqrt)
    && forall s, t :: |cfg.embed(s)| == |cfg.embed(t)|
  }

  /** Which of the calls outside the process fail during one decision. */
  datatype Faults = Faults(
    embedFails: bool,
    trustFails: bool,
    publishFails: bool,
    row: nat -> RowFault,
    rosterFails: bool,
    enqueueFails: bool,
    otherGroups: nat)

  datatype Decision =
    | Undecided
    | AcceptedAs(text: string, accepted: seq<nat>, rejected: seq<nat>)
    | RejectedAll(rejected: seq<nat>)
    | StorageError

  /** Ids of the rows below `k` with the given status, oldest first. */
  function WithStatus(subs: seq<Submission>, status: Status, k: nat): (ids: seq<nat>)
    requires k <= |subs|
    ensures IndexList(ids, k)
    ensures forall id: nat :: id in ids <==> id < k && subs[id].status == status
  {
    if k == 0 then []
    else WithStatus(subs, status, k - 1) + if subs[k - 1].status == status then [k - 1] else []
  }

  function PendingIds(st: State): seq<nat> {
    WithStatus(st.submissions, Candidate, |st.submissions|)
  }

  function AnswersOf(subs: seq<Submission>, ids: seq<nat>): seq<Answer>
    requires forall i | 0 <= i < |ids| :: ids[i] < |subs|
  {
    seq(|ids|, i requires 0 <= i < |ids| => Answer(subs[ids[i]].text, subs[ids[i]].author))
  }

  function Embedded(cfg: Config, answers: seq<Answer>): (vectors: seq<Vector>)
    ensures |vectors| == |answers|
  {
    seq(|answers|, i requires 0 <= i < |answers| => cfg.embed(answers[i].text))
  }

  function TrustTable(standing: map<string, Standing>, answers: seq<Answer>): map<string, real> {
    map i | 0 <= i < |answers| :: answers[i].author := StandingOf(standing, answers[i].author).trust
  }

  /** What a pass over the pending rows leaves behind. */
  datatype Marked = Marked(st: State, accepted: seq<nat>, rejected: seq<nat>, divergers: seq<string>)

  function PushNew(names: seq<string>, name: string): seq<string> {
    if name in names then names else names + [name]
  }

  /** Mark the first `k` of the rows `ids`: position `i` is accepted if it is in `agreeing`.
      A row counts as decided only if both of its calls worked. */
  function MarkRows(st: State, ids: seq<nat>, agreeing: seq<nat>, row: nat -> RowFault, k: nat): (m: Marked)
    requires k <= |ids| && forall i | 0 <= i < |ids| :: ids[i] < |st.submissions|
    ensures |m.st.submissions| == |st.submissions|
  {
    if k == 0 then Marked(st, [], [], [])
    else
      var m, id, accept := MarkRows(st, ids, agreeing, row, k - 1), ids[k - 1], k - 1 in agreeing;
      var next := MarkRow(m.st, id, accept, row(id));
      if row(id) != Works then m.(st := next)
      else if accept then m.(st := next, accepted := m.accepted + [id])
      else m.(st := next, rejected := m.rejected + [id],
              divergers := PushNew(m.divergers, st.submissions[id].author))
  }

  /** Volunteers neither banned nor among those that just diverged. */
  function Available(standing: map<string, Standing>, limit: nat, divergers: seq<string>): set<string> {
    set v | v in standing && standing[v].strikes < limit && v !in divergers
  }

  /** `reassign_rlm_on_divergence`: both caps, then the enqueue. When the generation and the
      roster cannot be read they count as 0 and empty. */
  function Reassign(cfg: Config, st: State, divergers: seq<string>, n: nat, f: Faults): State {
    var generation := if f.rosterFails then 0 else MaxGeneration(st.slots);
    var known := if f.rosterFails then 0 else |st.standing|;
    if generation >= cfg.strikesLimit then st
    else if !f.rosterFails && divergers != [] && known >= n
            && Available(st.standing, cfg.strikesLimit, divergers) == {} then st
    else if f.enqueueFails then st
    else
      var next := Enqueue(st, n, divergers, f.otherGroups);
      if st.slots != [] && AnyLive(st.slots) then st
      else next.(rounds := st.rounds + 1, misreads := st.misreads + if f.rosterFails then 1 else 0)
  }

  ghost function Round(cfg: Config, st: State): (round: (seq<Answer>, seq<Vector>, Matrix))
    ensures |round.0| == |round.1| == |round.2| == |PendingIds(st)|
    ensures Square(round.2)
  {
    var answers := AnswersOf(st.submissions, PendingIds(st));
    var vectors := Embedded(cfg, answers);
    (answers, vectors, Similarities(cfg.sqrt, vectors))
  }

  /** The agreeing set among the pending rows, as positions in the list of pending rows. */
  ghost function Agreed(cfg: Config, st: State): seq<nat> {
    AgreedSet(Round(cfg, st).2, cfg.threshold, AtLeastOne(cfg.n))
  }

  lemma AgreedIsARound(cfg: Config, st: State)
    requires ValidConfig(cfg) && |PendingIds(st)| >= AtLeastOne(cfg.n)
    ensures ValidRound(Agreed(cfg, st), Round(cfg, st).0, Round(cfg, st).1)
  {
    AgreedSetIsASet(Round(cfg, st).2, cfg.threshold, AtLeastOne(cfg.n));
  }

  /** Position, in the list of pending rows, of the one whose text is published. */
  ghost function Winner(cfg: Config, st: State): (w: nat)
    requires ValidConfig(cfg) && |PendingIds(st)| >= AtLeastOne(cfg.n)
    requires Accepts(AtLeastOne(cfg.n), Agreed(cfg, st))
    ensures w in Agreed(cfg, st) && w < |PendingIds(st)|
  {
    AgreedIsARound(cfg, st);
    var (answers, vectors, _) := Round(cfg, st);
    var trust := TrustTable(st.standing, answers);
    ChosenIsPublished(cfg.sqrt, cfg.strategy, Agreed(cfg, st), answers, vectors, trust);
    Chosen(cfg.sqrt, cfg.strategy, Agreed(cfg, st), answers, vectors, trust)
  }

  ghost function AcceptRound(cfg: Config, st: State, f: Faults): (State, Decision)
    requires ValidConfig(cfg) && |PendingIds(st)| >= AtLeastOne(cfg.n)
    requires Accepts(AtLeastOne(cfg.n), Agreed(cfg, st))
  {
    var ids := PendingIds(st);
    var winner := st.submissions[ids[Winner(cfg, st)]];
    if f.trustFails || f.publishFails then (st, StorageError)
    else
      var published := st.(nodes := st.nodes + [Node(winner.text, winner.author)]);
      var m := MarkRows(published, ids, Agreed(cfg, st), f.row, |ids|);
      (m.st, AcceptedAs(winner.text, m.accepted, m.rejected))
  }

  ghost function RejectRound(cfg: Config, st: State, f: Faults): (State, Decision) {
    var ids := PendingIds(st);
    var m := MarkRows(st, ids, [], f.row, |ids|);
    (Reassign(cfg, m.st, m.divergers, AtLeastOne(cfg.n), f), RejectedAll(m.rejected))
  }

  ghost function DecideRound(cfg: Config, st: State, f: Faults): (State, Decision)
    requires ValidConfig(cfg) && |PendingIds(st)| >= AtLeastOne(cfg.n)
  {
    if Accepts(AtLeastOne(cfg.n), Agreed(cfg, st)) then AcceptRound(cfg, st, f)
    else RejectRound(cfg, st, f)
  }

  /** `decide_rlm_quorum`. */
  ghost function Decide(cfg: Config, st: State, f: Faults): (State, Decision)
    requires ValidConfig(cfg)
  {
    var ids := PendingIds(st);
    if ids == [] then
      var accepted := WithStatus(st.submissions, Accepted, |st.submissions|);
      (st, if accepted == [] then RejectedAll([])
           else AcceptedAs(st.submissions[accepted[0]].text, [accepted[0]], []))
    else if |ids| < AtLeastOne(cfg.n) || f.embedFails then (st, Undecided)
    else DecideRound(cfg, st, f)
  }
}
