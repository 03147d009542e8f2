/** The reconcile worker: vectors derived again from the canonical text of rows whose vector
    is still missing. Reads, embeddings, inserts and updates may each fail at any time. One
    model covers the four spaces: `derive` says what a space stores for a row, the vector of
    the row's text, and for chunks the buffer beside it. */
module Reconcile {
  import opened Lists
  import opened Wrappers

  /** A row: its project or buffer, its marker, and its canonical text unless purged. */
  datatype Row = Row(owner: nat, pending: bool, text: Option<string>)

  type Rows = map<nat, Row>

  datatype Input = Input(id: nat, owner: nat, text: string)

  function IdsOf(inputs: seq<Input>): (ids: seq<nat>)
    ensures |ids| == |inputs| && forall i | 0 <= i < |ids| :: ids[i] == inputs[i].id
  {
    seq(|inputs|, i requires 0 <= i < |inputs| => inputs[i].id)
  }

  // ----- Rows and vectors that agree

  ghost predicate AgreeOutside<V>(a: map<nat, V>, b: map<nat, V>, ids: set<nat>) {
    forall id | id !in ids :: (id in a <==> id in b) && (id in a ==> a[id] == b[id])
  }

  ghost predicate HasVector<V>(row: Row, id: nat, vectors: map<nat, V>, derive: (nat, string) -> V) {
    row.text.Some? ==> id in vectors && vectors[id] == derive(row.owner, row.text.value)
  }

  /** Every row that is not pending has the vector of its canonical text. */
  ghost predicate Synced<V>(rows: Rows, vectors: map<nat, V>, derive: (nat, string) -> V) {
    forall id | id in rows && !rows[id].pending :: HasVector(rows[id], id, vectors, derive)
  }

  /** The row differs at most in a marker taken off, with its vector in place. */
  ghost predicate Settled<V>(id: nat, was: Row, row: Row, vectors: map<nat, V>, derive: (nat, string) -> V) {
    || row == was
    || (was.pending && was.text.Some? && row == was.(pending := false) && HasVector(row, id, vectors, derive))
  }

  /** What a pass may do: nothing outside `ids`, and there it only settles rows. */
  ghost predicate Progress<V>(was: Rows, rows: Rows, wasVectors: map<nat, V>, vectors: map<nat, V>,
                              derive: (nat, string) -> V, ids: set<nat>) {
    && rows.Keys == was.Keys
    && (forall id | id in rows :: Settled(id, was[id], rows[id], vectors, derive))
    && AgreeOutside(was, rows, ids)
    && AgreeOutside(wasVectors, vectors, ids)
  }

  ghost predicate AllPending(rows: Rows, ids: set<nat>) {
    forall id | id in ids :: id in rows && rows[id].pending
  }

  /** Progress on pending rows keeps rows and vectors in step. */
  lemma ProgressKeepsSynced<V>(was: Rows, rows: Rows, wasVectors: map<nat, V>, vectors: map<nat, V>,
                               derive: (nat, string) -> V, ids: set<nat>)
    requires Synced(was, wasVectors, derive) && AllPending(was, ids)
    requires Progress(was, rows, wasVectors, vectors, derive, ids)
    ensures Synced(rows, vectors, derive)
  {
    forall id | id in rows && !rows[id].pending
      ensures HasVector(rows[id], id, vectors, derive)
    {
      assert Settled(id, was[id], rows[id], vectors, derive);
      if rows[id] == was[id] {
        assert id !in ids;
        assert HasVector(was[id], id, wasVectors, derive);
      }
    }
  }

  /** A pass never repairs a row that lacks its vector without being marked. */
  lemma UnmarkedGapStays<V>(was: Rows, rows: Rows, wasVectors: map<nat, V>, vectors: map<nat, V>,
                            derive: (nat, string) -> V, ids: set<nat>, id: nat)
    requires AllPending(was, ids) && Progress(was, rows, wasVectors, vectors, derive, ids)
    requires id in was && !was[id].pending && !HasVector(was[id], id, wasVectors, derive)
    ensures id in rows && !rows[id].pending && !HasVector(rows[id], id, vectors, derive)
  {
  }

  /** So a pass neither loses nor finds the step of rows and vectors. */
  lemma ProgressSyncedIff<V>(was: Rows, rows: Rows, wasVectors: map<nat, V>, vectors: map<nat, V>,
                             derive: (nat, string) -> V, ids: set<nat>)
    requires AllPending(was, ids) && Progress(was, rows, wasVectors, vectors, derive, ids)
    ensures Synced(was, wasVectors, derive) <==> Synced(rows, vectors, derive)
  {
    if Synced(was, wasVectors, derive) {
      ProgressKeepsSynced(was, rows, wasVectors, vectors, derive, ids);
    } else {
      var id: nat :| id in was && !was[id].pending && !HasVector(was[id], id, wasVectors, derive);
      UnmarkedGapStays(was, rows, wasVectors, vectors, derive, ids, id);
    }
  }

  /** Progress on disjoint rows adds up. */
  lemma ProgressAddsUp<V>(r0: Rows, r1: Rows, r2: Rows, v0: map<nat, V>, v1: map<nat, V>, v2: map<nat, V>,
                          derive: (nat, string) -> V, a: set<nat>, b: set<nat>)
    requires Progress(r0, r1, v0, v1, derive, a) && Progress(r1, r2, v1, v2, derive, b)
    requires a !! b
    ensures Progress(r0, r2, v0, v2, derive, a + b)
  {
    forall id | id in r2
      ensures Settled(id, r0[id], r2[id], v2, derive)
    {
      assert Settled(id, r0[id], r1[id], v1, derive) && Settled(id, r1[id], r2[id], v2, derive);
      if id !in b {
        assert r2[id] == r1[id];
        assert id in v1 ==> id in v2 && v2[id] == v1[id];
      } else {
        assert r1[id] == r0[id];
      }
    }
  }

  /** The ids among `ids` that are pending. */
  ghost function PendingAmong(rows: Rows, ids: set<nat>): set<nat> {
    set id | id in ids && id in rows && rows[id].pending
  }

  ghost function PendingOf(rows: Rows, owner: nat): set<nat> {
    set id | id in rows && rows[id].pending && rows[id].owner == owner
  }

  /** The rows with the markers of `ids` taken off. */
  ghost function Unmarked(rows: Rows, ids: set<nat>): Rows {
    map id | id in rows :: if id in ids then rows[id].(pending := false) else rows[id]
  }

  // ----- The stores

  /** A query's result, in some order. */
  method Listed(ids: set<nat>) returns (out: seq<nat>)
    ensures NoDuplicates(out) && SetOf(out) == ids
  {
    out := [];
    var todo := ids;
    while todo != {}
      invariant NoDuplicates(out) && SetOf(out) == ids - todo && todo <= ids
      decreases |todo|
    {
      var id :| id in todo;
      todo := todo - {id};
      assert SetOf(out + [id]) == SetOf(out) + {id};
      out := out + [id];
    }
  }

  /** The canonical rows in SQLite. `reliable` says that no query and no update fails. */
  class Table {
    const reliable: bool
    var rows: Rows

    constructor (rows: Rows, reliable: bool)
      ensures this.rows == rows && this.reliable == reliable
    {
      this.rows := rows;
      this.reliable := reliable;
    }

    /** `*_pending_vector`. */
    method PendingIds(owner: nat) returns (ids: Option<seq<nat>>, ghost fault: bool)
      ensures (fault <==> ids.None?) && (reliable ==> !fault)
      ensures ids.Some? ==> NoDuplicates(ids.value) && SetOf(ids.value) == PendingOf(rows, owner)
    {
      var fails: bool := *;
      if fails && !reliable {
        return None, true;
      }
      var out := Listed(set id | id in rows && rows[id].pending && rows[id].owner == owner);
      return Some(out), false;
    }

    /** `get_*_embed_inputs`: the rows asked for that have text, in any order. */
    method EmbedInputs(ids: seq<nat>) returns (inputs: Option<seq<Input>>, ghost fault: bool)
      requires NoDuplicates(ids)
      ensures (fault <==> inputs.None?) && (reliable ==> !fault)
      ensures inputs.Some? ==> AreInputs(rows, ids, inputs.value)
    {
      var fails: bool := *;
      if fails && !reliable {
        return None, true;
      }
      var out: seq<Input> := [];
      for i := 0 to |ids|
        invariant AreInputs(rows, ids[..i], out)
      {
        assert ids[..i + 1] == ids[..i] + [ids[i]];
        if ids[i] in rows && rows[ids[i]].text.Some? {
          var input := Input(ids[i], rows[ids[i]].owner, rows[ids[i]].text.value);
          assert IdsOf(out + [input]) == IdsOf(out) + [ids[i]];
          out := out + [input];
        }
      }
      assert ids[..|ids|] == ids;
      return Some(out), false;
    }

    /** `clear_*_pending_vector`. */
    method ClearPending(ids: seq<nat>) returns (fault: bool)
      modifies this
      ensures rows == if fault then old(rows) else Unmarked(old(rows), SetOf(ids))
      ensures reliable ==> !fault
    {
      var fails: bool := *;
      if fails && !reliable {
        return true;
      }
      rows := map id | id in rows :: if id in ids then rows[id].(pending := false) else rows[id];
      return false;
    }
  }

  ghost predicate AreInputs(rows: Rows, ids: seq<nat>, inputs: seq<Input>) {
    && NoDuplicates(IdsOf(inputs))
    && (forall i | 0 <= i < |inputs| ::
          && inputs[i].id in ids && inputs[i].id in rows
          && rows[inputs[i].id].owner == inputs[i].owner
          && rows[inputs[i].id].text == Some(inputs[i].text))
    && forall id | id in ids && id in rows && rows[id].text.Some? :: id in IdsOf(inputs)
  }

  /** A vector store. `reliable` says that neither it nor the model behind it fails. */
  class Space<V> {
    const reliable: bool
    var vectors: map<nat, V>

    constructor (vectors: map<nat, V>, reliable: bool)
      ensures this.vectors == vectors && this.reliable == reliable
    {
      this.vectors := vectors;
      this.reliable := reliable;
    }

    /** `insert`: when it fails, the vector may be the old one, gone, or in but not saved. */
    method Insert(id: nat, v: V) returns (fault: bool)
      modifies this
      ensures AgreeOutside(old(vectors), vectors, {id})
      ensures !fault ==> vectors == old(vectors)[id := v]
      ensures fault ==> vectors in {old(vectors), old(vectors) - {id}, old(vectors)[id := v]}
      ensures reliable ==> !fault
    {
      var fails: bool := *;
      if fails && !reliable {
        return true;
      }
      vectors := vectors - {id};
      fails := *;
      if fails && !reliable {
        return true;
      }
      vectors := vectors[id := v];
      assert vectors == old(vectors)[id := v];
      fails := *;
      fault := fails && !reliable;
    }
  }

  // ----- One batch

  /** `embed_batch` on the inputs, zipped with them. */
  method Embed<V>(inputs: seq<Input>, derive: (nat, string) -> V, reliable: bool)
    returns (derived: Option<seq<V>>, ghost fault: bool)
    ensures (fault <==> derived.None?) && (reliable ==> !fault)
    ensures derived.Some? ==> |derived.value| == |inputs|
    ensures derived.Some? ==>
      forall i | 0 <= i < |inputs| :: derived.value[i] == derive(inputs[i].owner, inputs[i].text)
  {
    var fails: bool := *;
    if fails && !reliable {
      return None, true;
    }
    return Some(seq(|inputs|, i requires 0 <= i < |inputs| => derive(inputs[i].owner, inputs[i].text))), false;
  }

  /** The ids seen are split into two lists. */
  ghost predicate Splits(cleared: seq<nat>, failed: seq<nat>, seen: set<nat>) {
    && NoDuplicates(cleared) && NoDuplicates(failed) && SetOf(cleared) !! SetOf(failed)
    && SetOf(cleared) + SetOf(failed) == seen
  }

  lemma SplitsOneMore(cleared: seq<nat>, failed: seq<nat>, seen: set<nat>, id: nat)
    requires Splits(cleared, failed, seen) && id !in seen
    ensures Splits(cleared + [id], failed, seen + {id})
    ensures Splits(cleared, failed + [id], seen + {id})
  {
    SetOfAppend(cleared, id);
    SetOfAppend(failed, id);
    StillNoDuplicates(cleared, id);
    StillNoDuplicates(failed, id);
    hide NoDuplicates, SetOf;
  }

  lemma StillNoDuplicates(ids: seq<nat>, id: nat)
    requires NoDuplicates(ids) && id !in SetOf(ids)
    ensures NoDuplicates(ids + [id])
  {
  }

  /** The ids cleared among the first `n` inputs have their vectors, and vectors of other ids
      are as they were. */
  ghost predicate Holds<V>(was: map<nat, V>, vectors: map<nat, V>, inputs: seq<Input>, n: nat, cleared: set<nat>,
                           derive: (nat, string) -> V)
    requires n <= |inputs|
  {
    && (forall j | 0 <= j < n && inputs[j].id in cleared ::
          inputs[j].id in vectors && vectors[inputs[j].id] == derive(inputs[j].owner, inputs[j].text))
    && AgreeOutside(was, vectors, SetOf(IdsOf(inputs)[..n]))
  }

  lemma NotYetSeen(inputs: seq<Input>, n: nat)
    requires NoDuplicates(IdsOf(inputs)) && n < |inputs|
    ensures inputs[n].id !in SetOf(IdsOf(inputs)[..n])
    ensures SetOf(IdsOf(inputs)[..n + 1]) == SetOf(IdsOf(inputs)[..n]) + {inputs[n].id}
  {
    assert IdsOf(inputs)[..n + 1] == IdsOf(inputs)[..n] + [inputs[n].id];
    SetOfAppend(IdsOf(inputs)[..n], inputs[n].id);
  }

  lemma HoldsOneMore<V>(was: map<nat, V>, before: map<nat, V>, vectors: map<nat, V>, inputs: seq<Input>, n: nat,
                        cleared: set<nat>, now: set<nat>, derive: (nat, string) -> V)
    requires NoDuplicates(IdsOf(inputs)) && n < |inputs|
    requires Holds(was, before, inputs, n, cleared, derive) && AgreeOutside(before, vectors, {inputs[n].id})
    requires now <= cleared + {inputs[n].id}
    requires inputs[n].id in now ==> vectors == before[inputs[n].id := derive(inputs[n].owner, inputs[n].text)]
    ensures Holds(was, vectors, inputs, n + 1, now, derive)
  {
    NotYetSeen(inputs, n);
    AgreeOutsideBoth(was, before, vectors, SetOf(IdsOf(inputs)[..n]), {inputs[n].id});
    forall j | 0 <= j < n + 1 && inputs[j].id in now
      ensures inputs[j].id in vectors && vectors[inputs[j].id] == derive(inputs[j].owner, inputs[j].text)
    {
      if j < n {
        assert IdsOf(inputs)[j] != IdsOf(inputs)[n];
      }
    }
    hide NoDuplicates, SetOf, IdsOf, AgreeOutside;
  }

  lemma AgreeOutsideBoth<V>(a: map<nat, V>, b: map<nat, V>, c: map<nat, V>, s: set<nat>, t: set<nat>)
    requires AgreeOutside(a, b, s) && AgreeOutside(b, c, t)
    ensures AgreeOutside(a, c, s + t)
  {
  }

  /** The first `n` inputs are handled: cleared with their vectors in place, or failed. */
  ghost predicate Handled<V>(was: map<nat, V>, vectors: map<nat, V>, inputs: seq<Input>, n: nat,
                             cleared: seq<nat>, failed: seq<nat>, derive: (nat, string) -> V)
    requires n <= |inputs|
  {
    && Splits(cleared, failed, SetOf(IdsOf(inputs)[..n]))
    && Holds(was, vectors, inputs, n, SetOf(cleared), derive)
  }

  lemma OneMoreHandled<V>(was: map<nat, V>, before: map<nat, V>, vectors: map<nat, V>, inputs: seq<Input>, n: nat,
                          cleared: seq<nat>, failed: seq<nat>, ok: bool, derive: (nat, string) -> V)
    requires NoDuplicates(IdsOf(inputs)) && n < |inputs|
    requires Handled(was, before, inputs, n, cleared, failed, derive) && AgreeOutside(before, vectors, {inputs[n].id})
    requires ok ==> vectors == before[inputs[n].id := derive(inputs[n].owner, inputs[n].text)]
    ensures ok ==> Handled(was, vectors, inputs, n + 1, cleared + [inputs[n].id], failed, derive)
    ensures !ok ==> Handled(was, vectors, inputs, n + 1, cleared, failed + [inputs[n].id], derive)
  {
    var id := inputs[n].id;
    NotYetSeen(inputs, n);
    assert SetOf(cleared) <= SetOf(IdsOf(inputs)[..n]);
    hide NoDuplicates, SetOf, Splits, Holds, AgreeOutside;
    SplitsOneMore(cleared, failed, SetOf(IdsOf(inputs)[..n]), id);
    SetOfAppend(cleared, id);
    var now := if ok then SetOf(cleared) + {id} else SetOf(cleared);
    HoldsOneMore(was, before, vectors, inputs, n, SetOf(cleared), now, derive);
  }

  /** `embed_and_insert` and `embed_and_insert_chunks`. */
  method EmbedAndInsert<V>(space: Space<V>, inputs: seq<Input>, derive: (nat, string) -> V)
    returns (cleared: seq<nat>, failed: seq<nat>, ghost fault: bool)
    requires NoDuplicates(IdsOf(inputs))
    modifies space
    ensures NoDuplicates(cleared) && NoDuplicates(failed) && SetOf(cleared) !! SetOf(failed)
    ensures SetOf(cleared) + SetOf(failed) == SetOf(IdsOf(inputs))
    ensures forall i | 0 <= i < |inputs| && inputs[i].id in cleared ::
              inputs[i].id in space.vectors && space.vectors[inputs[i].id] == derive(inputs[i].owner, inputs[i].text)
    ensures AgreeOutside(old(space.vectors), space.vectors, SetOf(IdsOf(inputs)))
    ensures (!fault ==> failed == []) && (space.reliable ==> !fault)
  {
    cleared, failed, fault := [], [], false;
    if inputs == [] {
      return;
    }
    var derived, embedFault := Embed(inputs, derive, space.reliable);
    if derived.None? {
      return [], IdsOf(inputs), true;
    }
    for i := 0 to |inputs|
      invariant Handled(old(space.vectors), space.vectors, inputs, i, cleared, failed, derive)
      invariant (!fault ==> failed == []) && (space.reliable ==> !fault)
    {
      ghost var before := space.vectors;
      var insertFault := space.Insert(inputs[i].id, derived.value[i]);
      OneMoreHandled(old(space.vectors), before, space.vectors, inputs, i, cleared, failed, !insertFault, derive);
      if insertFault {
        failed, fault := failed + [inputs[i].id], true;
      } else {
        cleared := cleared + [inputs[i].id];
      }
    }
    assert IdsOf(inputs)[..|inputs|] == IdsOf(inputs);
  }

  /** Ids of a batch whose text is gone. */
  method Missing(ids: seq<nat>, got: seq<nat>) returns (missing: seq<nat>)
    requires NoDuplicates(ids)
    ensures NoDuplicates(missing) && SetOf(missing) == SetOf(ids) - SetOf(got)
  {
    missing := [];
    for i := 0 to |ids|
      invariant NoDuplicates(missing) && SetOf(missing) == SetOf(ids[..i]) - SetOf(got)
    {
      assert ids[..i + 1] == ids[..i] + [ids[i]];
      assert SetOf(ids[..i] + [ids[i]]) == SetOf(ids[..i]) + {ids[i]};
      if ids[i] !in got {
        assert SetOf(missing + [ids[i]]) == SetOf(missing) + {ids[i]};
        missing := missing + [ids[i]];
      }
    }
    assert ids[..|ids|] == ids;
  }

  /** `SpaceReconcile`, with what it does not report: rows whose text could not be read, and
      rows whose vector went in but whose marker could not be taken off. */
  datatype Counts = Counts(processed: nat, remaining: nat, unread: nat, uncleared: nat)

  function Plus(a: Counts, b: Counts): Counts {
    Counts(a.processed + b.processed, a.remaining + b.remaining, a.unread + b.unread, a.uncleared + b.uncleared)
  }

  /** Every row is counted once, and those not cleared are still pending. */
  ghost predicate Balanced(counts: Counts, rows: Rows, ids: set<nat>) {
    && |ids| == counts.processed + counts.remaining + counts.unread
    && |PendingAmong(rows, ids)| == counts.remaining + counts.unread + counts.uncleared
    && counts.uncleared <= counts.processed
  }

  /** Without a failure everything is read and every marker comes off, so `processed` counts
      exactly the rows that are no longer pending. */
  predicate Clean(counts: Counts) {
    counts.unread == 0 && counts.uncleared == 0
  }

  /** Nothing but a purged text keeps these rows pending. */
  ghost predicate Finished(rows: Rows, ids: set<nat>) {
    forall id | id in ids && id in rows && rows[id].pending :: rows[id].text.None?
  }

  lemma ClearingSettles<V>(rows: Rows, ids: seq<nat>, inputs: seq<Input>, cleared: set<nat>,
                           wasVectors: map<nat, V>, vectors: map<nat, V>, derive: (nat, string) -> V)
    requires AllPending(rows, SetOf(ids)) && AreInputs(rows, ids, inputs) && cleared <= SetOf(IdsOf(inputs))
    requires AgreeOutside(wasVectors, vectors, SetOf(IdsOf(inputs)))
    requires forall i | 0 <= i < |inputs| && inputs[i].id in cleared ::
               inputs[i].id in vectors && vectors[inputs[i].id] == derive(inputs[i].owner, inputs[i].text)
    ensures Progress(rows, Unmarked(rows, cleared), wasVectors, vectors, derive, SetOf(ids))
    ensures PendingAmong(Unmarked(rows, cleared), SetOf(ids)) == SetOf(ids) - cleared
    ensures cleared == SetOf(IdsOf(inputs)) ==> Finished(Unmarked(rows, cleared), SetOf(ids))
  {
    var now := Unmarked(rows, cleared);
    forall id | id in now
      ensures Settled(id, rows[id], now[id], vectors, derive)
    {
      if id in cleared {
        var i :| 0 <= i < |inputs| && IdsOf(inputs)[i] == id;
        assert inputs[i].id == id && id in SetOf(ids);
      }
    }
    assert SetOf(IdsOf(inputs)) <= SetOf(ids);
  }

  lemma NothingCleared(rows: Rows, ids: set<nat>)
    requires AllPending(rows, ids)
    ensures Unmarked(rows, {}) == rows && PendingAmong(rows, ids) == ids
  {
  }

  /** One batch of a pass. A batch whose inputs cannot be read is not counted at all. */
  method ReconcileBatch<V>(table: Table, space: Space<V>, ids: seq<nat>, derive: (nat, string) -> V)
    returns (counts: Counts, ghost read: bool, ghost fault: bool)
    requires NoDuplicates(ids) && AllPending(table.rows, SetOf(ids))
    modifies table, space
    ensures Progress(old(table.rows), table.rows, old(space.vectors), space.vectors, derive, SetOf(ids))
    ensures Balanced(counts, table.rows, SetOf(ids))
    ensures if read then counts.unread == 0 else fault && counts == Counts(0, 0, |ids|, 0)
    ensures !fault ==> Finished(table.rows, SetOf(ids)) && Clean(counts)
    ensures table.reliable && space.reliable ==> !fault
  {
    hide AllPending, Unmarked, PendingAmong, Finished, AreInputs, Progress, AgreeOutside, IdsOf, Balanced;
    ghost var was, wasVectors, all := table.rows, space.vectors, SetOf(ids);
    SetOfSize(ids);
    NothingCleared(was, all);
    assert all - {} == all;
    var inputs, readFault := table.EmbedInputs(ids);
    if inputs.None? {
      NothingCleared(was, {});
      NoProgress(was, wasVectors, derive, all);
      BatchBalances(was, all, {}, Counts(0, 0, |ids|, 0));
      return Counts(0, 0, |ids|, 0), false, true;
    }
    InputsAreAmong(was, ids, inputs.value);
    var cleared, failed, insertFault := EmbedAndInsert(space, inputs.value, derive);
    fault := insertFault;
    var missing := Missing(ids, IdsOf(inputs.value));
    SplitSizes(ids, SetOf(IdsOf(inputs.value)), cleared, failed, missing);
    hide SetOf, NoDuplicates;
    var uncleared := 0;
    ghost var off := SetOf(cleared);
    if cleared != [] {
      var clearFault := table.ClearPending(cleared);
      if clearFault {
        uncleared, fault, off := |cleared|, true, {};
      }
    }
    assert table.rows == Unmarked(was, off);
    ClearingSettles(was, ids, inputs.value, off, wasVectors, space.vectors, derive);
    counts, read := Counts(|cleared|, |failed| + |missing|, 0, uncleared), true;
    BatchBalances(table.rows, all, off, counts);
  }

  lemma BatchBalances(rows: Rows, all: set<nat>, off: set<nat>, counts: Counts)
    requires PendingAmong(rows, all) == all - off
    requires |all| == counts.processed + counts.remaining + counts.unread
    requires |all - off| == counts.remaining + counts.unread + counts.uncleared
    requires counts.uncleared <= counts.processed
    ensures Balanced(counts, rows, all)
  {
  }

  lemma SplitSizes(ids: seq<nat>, got: set<nat>, cleared: seq<nat>, failed: seq<nat>, missing: seq<nat>)
    requires NoDuplicates(ids) && NoDuplicates(cleared) && NoDuplicates(failed) && NoDuplicates(missing)
    requires got <= SetOf(ids) && SetOf(cleared) + SetOf(failed) == got && SetOf(cleared) !! SetOf(failed)
    requires SetOf(missing) == SetOf(ids) - got
    ensures |SetOf(ids)| == |ids| == |cleared| + |failed| + |missing|
    ensures |SetOf(ids) - SetOf(cleared)| == |failed| + |missing| && SetOf(ids) - {} == SetOf(ids)
    ensures failed == [] ==> SetOf(cleared) == got
    ensures cleared == [] ==> SetOf(cleared) == {}
  {
    SetOfSize(ids);
    SetOfSize(cleared);
    SetOfSize(failed);
    SetOfSize(missing);
    hide NoDuplicates;
    PartSizes(SetOf(ids), SetOf(cleared), SetOf(failed), SetOf(missing));
  }

  lemma PartSizes(all: set<nat>, a: set<nat>, b: set<nat>, c: set<nat>)
    requires a !! b && (a + b) !! c && a + b + c == all
    ensures |all| == |a| + |b| + |c|
    ensures |all - a| == |b| + |c|
  {
    assert all - a == b + c;
    assert all == a + (all - a);
  }

  lemma InputsAreAmong(rows: Rows, ids: seq<nat>, inputs: seq<Input>)
    requires AreInputs(rows, ids, inputs)
    ensures NoDuplicates(IdsOf(inputs)) && SetOf(IdsOf(inputs)) <= SetOf(ids)
  {
  }

  lemma NoProgress<V>(rows: Rows, vectors: map<nat, V>, derive: (nat, string) -> V, ids: set<nat>)
    ensures Progress(rows, rows, vectors, vectors, derive, ids)
  {
  }

  /** Passes over disjoint rows add up. */
  lemma PassesAddUp<V>(r0: Rows, r1: Rows, r2: Rows, v0: map<nat, V>, v1: map<nat, V>, v2: map<nat, V>,
                       derive: (nat, string) -> V, a: set<nat>, b: set<nat>, done: Counts, more: Counts)
    requires Progress(r0, r1, v0, v1, derive, a) && Balanced(done, r1, a)
    requires Progress(r1, r2, v1, v2, derive, b) && Balanced(more, r2, b)
    requires a !! b
    ensures Progress(r0, r2, v0, v2, derive, a + b) && Balanced(Plus(done, more), r2, a + b)
    ensures Finished(r1, a) && Finished(r2, b) ==> Finished(r2, a + b)
  {
    ProgressAddsUp(r0, r1, r2, v0, v1, v2, derive, a, b);
    assert forall id | id in a :: (id in r1 <==> id in r2) && (id in r1 ==> r1[id] == r2[id]);
    assert PendingAmong(r2, a) == PendingAmong(r1, a);
    assert PendingAmong(r2, a + b) == PendingAmong(r2, a) + PendingAmong(r2, b);
    assert PendingAmong(r2, a) !! PendingAmong(r2, b);
  }

  const RECONCILE_BATCH: nat := 512

  /** One pass over the pending rows of one project or buffer. */
  method ReconcileOwner<V>(table: Table, space: Space<V>, owner: nat, derive: (nat, string) -> V)
    returns (pendingBefore: nat, counts: Counts, ghost fault: bool)
    modifies table, space
    ensures Synced(old(table.rows), old(space.vectors), derive) <==> Synced(table.rows, space.vectors, derive)
    ensures Progress(old(table.rows), table.rows, old(space.vectors), space.vectors, derive,
                     PendingOf(old(table.rows), owner))
    ensures !fault ==> Finished(table.rows, PendingOf(table.rows, owner)) && Clean(counts)
    ensures table.reliable && space.reliable ==> !fault
    ensures
      || (fault && pendingBefore == 0 && counts == Counts(0, 0, 0, 0) && table.rows == old(table.rows))
      || (pendingBefore == |PendingOf(old(table.rows), owner)|
          && Balanced(counts, table.rows, PendingOf(old(table.rows), owner)))
  {
    hide Progress, Balanced, Finished, Synced, NoDuplicates;
    ghost var was, wasVectors, todo := table.rows, space.vectors, PendingOf(table.rows, owner);
    pendingBefore, counts, fault := 0, Counts(0, 0, 0, 0), false;
    NoProgress(was, wasVectors, derive, todo);
    var pending, readFault := table.PendingIds(owner);
    if pending.None? {
      fault := true;
      return;
    }
    var ids := pending.value;
    SetOfSize(ids);
    pendingBefore := |ids|;
    var k := 0;
    NothingYet(was, wasVectors, derive);
    while k < |ids|
      invariant 0 <= k <= |ids|
      invariant Progress(was, table.rows, wasVectors, space.vectors, derive, SetOf(ids[..k]))
      invariant Balanced(counts, table.rows, SetOf(ids[..k]))
      invariant !fault ==> Finished(table.rows, SetOf(ids[..k])) && Clean(counts)
      invariant table.reliable && space.reliable ==> !fault
    {
      var next := if k + RECONCILE_BATCH <= |ids| then k + RECONCILE_BATCH else |ids|;
      ghost var done, batch := SetOf(ids[..k]), SetOf(ids[k..next]);
      ghost var rows1, vectors1 := table.rows, space.vectors;
      BatchIsApart(ids, k, next);
      StillPending(was, rows1, wasVectors, vectors1, derive, done, batch);
      var more, read, batchFault := ReconcileBatch(table, space, ids[k..next], derive);
      PassesAddUp(was, rows1, table.rows, wasVectors, vectors1, space.vectors, derive, done, batch, counts, more);
      counts := Plus(counts, more);
      if batchFault {
        fault := true;
      }
      k := next;
    }
    assert ids[..|ids|] == ids;
    ProgressSyncedIff(was, table.rows, wasVectors, space.vectors, derive, todo);
    PendingShrinks(was, table.rows, wasVectors, space.vectors, derive, owner);
  }

  lemma NothingYet<V>(rows: Rows, vectors: map<nat, V>, derive: (nat, string) -> V)
    ensures SetOf([]) == {} && Progress(rows, rows, vectors, vectors, derive, {})
    ensures Balanced(Counts(0, 0, 0, 0), rows, {}) && Finished(rows, {})
  {
    assert PendingAmong(rows, {}) == {};
  }

  lemma BatchIsApart(ids: seq<nat>, k: nat, next: nat)
    requires NoDuplicates(ids) && k <= next <= |ids|
    ensures SetOf(ids[..k]) !! SetOf(ids[k..next])
    ensures SetOf(ids[..next]) == SetOf(ids[..k]) + SetOf(ids[k..next]) && SetOf(ids[k..next]) <= SetOf(ids)
    ensures NoDuplicates(ids[k..next])
  {
    assert ids[..next] == ids[..k] + ids[k..next];
  }

  lemma StillPending<V>(was: Rows, rows: Rows, wasVectors: map<nat, V>, vectors: map<nat, V>,
                        derive: (nat, string) -> V, done: set<nat>, batch: set<nat>)
    requires Progress(was, rows, wasVectors, vectors, derive, done) && done !! batch && AllPending(was, batch)
    ensures AllPending(rows, batch)
  {
  }

  lemma PendingShrinks<V>(was: Rows, rows: Rows, wasVectors: map<nat, V>, vectors: map<nat, V>,
                          derive: (nat, string) -> V, owner: nat)
    requires Progress(was, rows, wasVectors, vectors, derive, PendingOf(was, owner))
    ensures PendingOf(rows, owner) == PendingAmong(rows, PendingOf(was, owner))
    ensures Finished(rows, PendingOf(was, owner)) ==> Finished(rows, PendingOf(rows, owner))
  {
    forall id | id in PendingOf(rows, owner)
      ensures id in PendingOf(was, owner)
    {
      assert Settled(id, was[id], rows[id], vectors, derive);
    }
    forall id | id in PendingAmong(rows, PendingOf(was, owner))
      ensures id in PendingOf(rows, owner)
    {
      assert Settled(id, was[id], rows[id], vectors, derive);
    }
  }

  /** What is finished stays finished, whatever another pass does. */
  lemma FinishedStays<V>(was: Rows, rows: Rows, wasVectors: map<nat, V>, vectors: map<nat, V>,
                         derive: (nat, string) -> V, ids: set<nat>, owner: nat)
    requires Progress(was, rows, wasVectors, vectors, derive, ids) && Finished(was, PendingOf(was, owner))
    ensures Finished(rows, PendingOf(rows, owner))
  {
    forall id | id in PendingOf(rows, owner)
      ensures rows[id].text.None?
    {
      assert Settled(id, was[id], rows[id], vectors, derive);
    }
  }

  /** `reconcile_pending_vectors` on one space: every project or buffer in turn. */
  method ReconcilePendingVectors<V>(table: Table, space: Space<V>, owners: seq<nat>, derive: (nat, string) -> V)
    returns (pendingBefore: nat, counts: Counts, ghost fault: bool)
    modifies table, space
    ensures Synced(old(table.rows), old(space.vectors), derive) <==> Synced(table.rows, space.vectors, derive)
    ensures pendingBefore == counts.processed + counts.remaining + counts.unread
    ensures !fault ==>
      Clean(counts) && forall owner | owner in owners :: Finished(table.rows, PendingOf(table.rows, owner))
    ensures !fault ==>
      forall id | id in table.rows && table.rows[id].pending && table.rows[id].owner in owners ::
        table.rows[id].text.None?
    ensures table.reliable && space.reliable ==> !fault
  {
    hide Synced, Finished, Progress;
    pendingBefore, counts, fault := 0, Counts(0, 0, 0, 0), false;
    for i := 0 to |owners|
      invariant Synced(old(table.rows), old(space.vectors), derive) <==> Synced(table.rows, space.vectors, derive)
      invariant pendingBefore == counts.processed + counts.remaining + counts.unread
      invariant table.reliable && space.reliable ==> !fault
      invariant !fault ==>
        Clean(counts) && forall j | 0 <= j < i :: Finished(table.rows, PendingOf(table.rows, owners[j]))
    {
      ghost var rows1, vectors1 := table.rows, space.vectors;
      var before, more, ownerFault := ReconcileOwner(table, space, owners[i], derive);
      pendingBefore, counts := pendingBefore + before, Plus(counts, more);
      if ownerFault {
        fault := true;
      } else if !fault {
        forall j | 0 <= j < i
          ensures Finished(table.rows, PendingOf(table.rows, owners[j]))
        {
          FinishedStays(rows1, table.rows, vectors1, space.vectors, derive, PendingOf(rows1, owners[i]), owners[j]);
        }
      }
    }
    if !fault {
      forall id | id in table.rows && table.rows[id].pending && table.rows[id].owner in owners
        ensures table.rows[id].text.None?
      {
        FinishedMeans(table.rows, table.rows[id].owner, id);
      }
    }
  }

  lemma FinishedMeans(rows: Rows, owner: nat, id: nat)
    requires Finished(rows, PendingOf(rows, owner))
    requires id in rows && rows[id].pending && rows[id].owner == owner
    ensures rows[id].text.None?
  {
  }
}
