/** Vector spaces over whole runs: rows stored with their vectors, purged and deleted,
    reconcile passes and rebuilds, in any order and with any failures. */
module DerivedRuns {
  import opened Bootstrap
  import opened Lists
  import opened Reconcile
  import opened Wrappers

  datatype Derived<V> = Derived(rows: Rows, vectors: map<nat, V>)

  /** `Store` stands for every path that stores a row and then its vector: `arrives` says
      whether the vector went in, `marked` whether the row was marked pending instead.
      Indexing tries to mark when it fails; publishing a quorum never does. `Pass` may settle
      the rows of one owner. `Rebuild` derived the vectors of the ids `placed`, left the ids
      `kept` as they were and dropped the rest; given up early it may have done nothing, or
      nothing but clearing. */
  datatype Event =
    | Store(id: nat, owner: nat, text: string, arrives: bool, marked: bool)
    | PurgeText(id: nat)
    | Delete(id: nat)
    | Pass(owner: nat)
    | Rebuild(inputs: seq<Input>, placed: set<nat>, kept: set<nat>)

  ghost predicate Stored<V>(a: Derived<V>, ev: Event, b: Derived<V>, derive: (nat, string) -> V)
    requires ev.Store?
  {
    && b.rows == a.rows[ev.id := Row(ev.owner, !ev.arrives && ev.marked, Some(ev.text))]
    && AgreeOutside(a.vectors, b.vectors, {ev.id})
    && (ev.arrives ==> ev.id in b.vectors && b.vectors[ev.id] == derive(ev.owner, ev.text))
  }

  ghost predicate Step<V>(a: Derived<V>, ev: Event, b: Derived<V>, derive: (nat, string) -> V) {
    match ev
    case Store(_, _, _, _, _) => Stored(a, ev, b, derive)
    case PurgeText(id) =>
      && b.vectors == a.vectors
      && b.rows == if id in a.rows then a.rows[id := a.rows[id].(text := None)] else a.rows
    case Delete(id) => b.rows == a.rows - {id} && AgreeOutside(a.vectors, b.vectors, {id})
    case Pass(owner) => Progress(a.rows, b.rows, a.vectors, b.vectors, derive, PendingOf(a.rows, owner))
    case Rebuild(inputs, placed, kept) =>
      && b.rows == a.rows && AreAllInputs(a.rows, inputs)
      && RebuiltAs(a.vectors, b.vectors, inputs, placed, kept, derive)
  }

  ghost predicate IsRun<V>(states: seq<Derived<V>>, evs: seq<Event>, derive: (nat, string) -> V) {
    |states| == |evs| + 1 && forall i | 0 <= i < |evs| :: Step(states[i], evs[i], states[i + 1], derive)
  }

  ghost predicate InStep<V>(s: Derived<V>, derive: (nat, string) -> V) {
    Synced(s.rows, s.vectors, derive)
  }

  /** The event loses no vector of an unmarked row: what is stored arrives or is marked, and a
      rebuild passes over no unmarked row whose old vector it has dropped. */
  ghost predicate Careful<V>(a: Derived<V>, ev: Event) {
    match ev
    case Store(_, _, _, arrives, marked) => arrives || marked
    case Rebuild(inputs, placed, kept) =>
      forall i | 0 <= i < |inputs| && inputs[i].id in a.rows && !a.rows[inputs[i].id].pending ::
        inputs[i].id in placed + kept
    case _ => true
  }

  /** From a state in step, a rebuild ends in step exactly if it is careful. */
  lemma RebuildStaysInStepIff<V>(a: Derived<V>, ev: Event, b: Derived<V>, derive: (nat, string) -> V)
    requires InStep(a, derive) && ev.Rebuild? && Step(a, ev, b, derive)
    ensures InStep(b, derive) <==> Careful(a, ev)
  {
    var inputs := ev.inputs;
    RebuiltIsSyncedIff(a.rows, inputs, a.vectors, b.vectors, ev.placed, ev.kept, derive);
    hide RebuiltAs;
    forall i | 0 <= i < |inputs| && !a.rows[inputs[i].id].pending
      ensures InPlace(a.vectors, inputs[i], ev.placed, ev.kept, derive) <==> inputs[i].id in ev.placed + ev.kept
    {
      assert HasVector(a.rows[inputs[i].id], inputs[i].id, a.vectors, derive);
    }
  }

  lemma StepKeepsInStep<V>(a: Derived<V>, ev: Event, b: Derived<V>, derive: (nat, string) -> V)
    requires InStep(a, derive) && Step(a, ev, b, derive) && Careful(a, ev)
    ensures InStep(b, derive)
  {
    match ev
    case Pass(owner) =>
      ProgressKeepsSynced(a.rows, b.rows, a.vectors, b.vectors, derive, PendingOf(a.rows, owner));
    case Rebuild(inputs, placed, kept) =>
      RebuildStaysInStepIff(a, ev, b, derive);
    case _ =>
      forall id | id in b.rows && !b.rows[id].pending
        ensures HasVector(b.rows[id], id, b.vectors, derive)
      {
        if id in a.rows && b.rows[id] == a.rows[id] && id != ev.id {
          assert HasVector(a.rows[id], id, a.vectors, derive);
        }
      }
  }

  /** Over every run of careful events, with any failures, each unmarked row has the vector
      of its canonical text. */
  lemma {:induction false} CarefulRunsStayInStep<V>(states: seq<Derived<V>>, evs: seq<Event>,
                                                    derive: (nat, string) -> V)
    requires IsRun(states, evs, derive) && InStep(states[0], derive)
    requires forall i | 0 <= i < |evs| :: Careful(states[i], evs[i])
    ensures InStep(states[|evs|], derive)
  {
    if evs != [] {
      var n := |evs| - 1;
      assert IsRun(states[..n + 1], evs[..n], derive);
      CarefulRunsStayInStep(states[..n + 1], evs[..n], derive);
      StepKeepsInStep(states[n], evs[n], states[n + 1], derive);
    }
  }

  /** Storing keeps rows and vectors in step exactly if the vector arrives, the row is marked,
      or the vector left under the id happens to be right. Publishing a quorum marks nothing,
      so there it takes the vector. */
  lemma StoringStaysInStepIff<V>(a: Derived<V>, ev: Event, b: Derived<V>, derive: (nat, string) -> V)
    requires InStep(a, derive) && ev.Store? && Step(a, ev, b, derive)
    ensures InStep(b, derive) <==>
            ev.arrives || ev.marked || (ev.id in b.vectors && b.vectors[ev.id] == derive(ev.owner, ev.text))
  {
    forall id | id in b.rows && !b.rows[id].pending && id != ev.id
      ensures HasVector(b.rows[id], id, b.vectors, derive)
    {
      assert HasVector(a.rows[id], id, a.vectors, derive);
    }
    assert ev.id in b.rows && b.rows[ev.id].text == Some(ev.text);
  }

  /** An unmarked row without its vector. */
  ghost predicate Gap<V>(s: Derived<V>, id: nat, derive: (nat, string) -> V) {
    id in s.rows && !s.rows[id].pending && !HasVector(s.rows[id], id, s.vectors, derive)
  }

  /** Only an event on the row itself, or a rebuild, can close a gap. */
  predicate Touches(ev: Event, id: nat) {
    ev.Rebuild? || ((ev.Store? || ev.PurgeText? || ev.Delete?) && ev.id == id)
  }

  lemma {:induction false} GapsLast<V>(states: seq<Derived<V>>, evs: seq<Event>, derive: (nat, string) -> V, id: nat)
    requires IsRun(states, evs, derive) && Gap(states[0], id, derive)
    requires forall i | 0 <= i < |evs| :: !Touches(evs[i], id)
    ensures Gap(states[|evs|], id, derive)
  {
    if evs != [] {
      var n := |evs| - 1;
      assert IsRun(states[..n + 1], evs[..n], derive);
      GapsLast(states[..n + 1], evs[..n], derive, id);
      var a, b, ev := states[n], states[n + 1], evs[n];
      assert Step(a, ev, b, derive);
      if ev.Pass? {
        UnmarkedGapStays(a.rows, b.rows, a.vectors, b.vectors, derive, PendingOf(a.rows, ev.owner), id);
      }
    }
  }

  /** A rebuild that gets through closes them all, whatever the state before. */
  lemma CompleteRebuildClosesGaps<V>(a: Derived<V>, inputs: seq<Input>, b: Derived<V>, derive: (nat, string) -> V)
    requires Step(a, Rebuild(inputs, SetOf(IdsOf(inputs)), {}), b, derive)
    ensures InStep(b, derive) && IsExact(b.rows, b.vectors, derive)
  {
    var ids := SetOf(IdsOf(inputs));
    assert forall i | 0 <= i < |inputs| :: IdsOf(inputs)[i] in ids;
    RebuiltIsSyncedIff(a.rows, inputs, a.vectors, b.vectors, ids, {}, derive);
    RebuiltIsExactIff(a.rows, inputs, a.vectors, b.vectors, ids, {}, derive);
  }

  // ----- Runs from the empty store

  function Nothing<V>(): Derived<V> {
    Derived(map[], map[])
  }

  /** One row stored whose vector does not arrive, and not marked: a gap. */
  lemma StoringCanLeaveAGap<V>(derive: (nat, string) -> V)
    ensures
      var row := Row(0, false, Some("x"));
      var states: seq<Derived<V>> := [Nothing(), Derived(map[1 := row], map[])];
      IsRun(states, [Store(1, 0, "x", false, false)], derive) && Gap(states[1], 1, derive)
  {
  }

  /** A row stored and deleted while its vector stays behind, another one stored without its
      vector: the space has the right size, so the start-up check passes it, and is not exact. */
  lemma RightSizeCanBeWrong<V>(derive: (nat, string) -> V)
    ensures
      var row := Row(0, false, Some("x"));
      var stale := map[1 := derive(0, "x")];
      var states: seq<Derived<V>> :=
        [Nothing(), Derived(map[1 := row], stale), Derived(map[], stale), Derived(map[2 := row], stale)];
      var evs := [Store(1, 0, "x", true, false), Delete(1), Store(2, 0, "x", false, false)];
      && IsRun(states, evs, derive)
      && |states[3].vectors| == |WithText(states[3].rows)|
      && !IsExact(states[3].rows, states[3].vectors, derive) && Gap(states[3], 2, derive)
  {
    var row := Row(0, false, Some("x"));
    var stale := map[1 := derive(0, "x")];
    assert map[1 := row] - {1} == map[];
    assert WithText(map[2 := row]) == {2};
    assert stale.Keys == {1};
  }
}
