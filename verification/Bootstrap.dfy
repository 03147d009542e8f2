/** The start-up check of the vector spaces: a space whose size differs from the number of
    canonical texts is cleared and rebuilt, chunk by chunk of the input. */
module Bootstrap {
  import opened Lists
  import opened Reconcile
  import opened Wrappers

  const BOOTSTRAP_BATCH: nat := 512

  datatype Entry<V> = Entry(id: nat, v: V)

  // ----- What a rebuild should give

  /** Every row that has text, once, in some order (`all_*_embed_inputs`). */
  ghost predicate AreAllInputs(rows: Rows, inputs: seq<Input>) {
    && NoDuplicates(IdsOf(inputs))
    && (forall i | 0 <= i < |inputs| ::
          && inputs[i].id in rows
          && rows[inputs[i].id].owner == inputs[i].owner
          && rows[inputs[i].id].text == Some(inputs[i].text))
    && forall id | id in rows && rows[id].text.Some? :: id in IdsOf(inputs)
  }

  /** Each row with text has its vector, and there is nothing else. */
  ghost predicate IsExact<V>(rows: Rows, vectors: map<nat, V>, derive: (nat, string) -> V) {
    forall id ::
      && (id in vectors <==> id in rows && rows[id].text.Some?)
      && (id in vectors ==> vectors[id] == derive(rows[id].owner, rows[id].text.value))
  }

  ghost function WithText(rows: Rows): set<nat> {
    set id | id in rows && rows[id].text.Some?
  }

  ghost function PutAll<V>(vectors: map<nat, V>, entries: seq<Entry<V>>, n: nat): map<nat, V>
    requires n <= |entries|
  {
    if n == 0 then vectors else PutAll(vectors, entries, n - 1)[entries[n - 1].id := entries[n - 1].v]
  }

  /** The entries stand for inputs, in order. */
  ghost predicate Stand<V>(inputs: seq<Input>, entries: seq<Entry<V>>, derive: (nat, string) -> V) {
    && |entries| <= |inputs|
    && forall i | 0 <= i < |entries| :: entries[i] == Entry(inputs[i].id, derive(inputs[i].owner, inputs[i].text))
  }

  /** Exactly the first `n` inputs have their vectors. */
  ghost predicate HoldsFirst<V>(vectors: map<nat, V>, inputs: seq<Input>, n: nat, derive: (nat, string) -> V)
    requires n <= |inputs|
  {
    && vectors.Keys == SetOf(IdsOf(inputs)[..n])
    && forall i | 0 <= i < n ::
         inputs[i].id in vectors && vectors[inputs[i].id] == derive(inputs[i].owner, inputs[i].text)
  }

  lemma HoldsNext<V>(vectors: map<nat, V>, inputs: seq<Input>, n: nat, derive: (nat, string) -> V)
    requires NoDuplicates(IdsOf(inputs)) && n < |inputs| && HoldsFirst(vectors, inputs, n, derive)
    ensures HoldsFirst(vectors[inputs[n].id := derive(inputs[n].owner, inputs[n].text)], inputs, n + 1, derive)
  {
    var ids := IdsOf(inputs);
    assert ids[..n + 1] == ids[..n] + [ids[n]];
    assert SetOf(ids[..n + 1]) == SetOf(ids[..n]) + {ids[n]};
    assert forall i | 0 <= i < n :: ids[i] != ids[n];
  }

  lemma {:induction false} PutAllHoldsFirst<V>(inputs: seq<Input>, entries: seq<Entry<V>>, n: nat,
                                               derive: (nat, string) -> V)
    requires NoDuplicates(IdsOf(inputs)) && Stand(inputs, entries, derive) && n <= |entries|
    ensures HoldsFirst(PutAll(map[], entries, n), inputs, n, derive)
  {
    if n > 0 {
      PutAllHoldsFirst(inputs, entries, n - 1, derive);
      HoldsNext(PutAll(map[], entries, n - 1), inputs, n - 1, derive);
    }
  }

  // ----- Rebuilds with holes

  /** What a rebuild leaves of a space: the ids `placed` have the vectors of their inputs,
      the ids `kept` the vector they had, and there is nothing else. */
  ghost predicate RebuiltAs<V>(was: map<nat, V>, vectors: map<nat, V>, inputs: seq<Input>, placed: set<nat>,
                               kept: set<nat>, derive: (nat, string) -> V) {
    && vectors.Keys == placed + kept
    && placed <= SetOf(IdsOf(inputs)) && kept <= was.Keys
    && (forall i | 0 <= i < |inputs| && inputs[i].id in placed ::
          inputs[i].id in vectors && vectors[inputs[i].id] == derive(inputs[i].owner, inputs[i].text))
    && forall id | id in kept :: id in was && id in vectors && vectors[id] == was[id]
  }

  /** The input's vector is in place after such a rebuild: newly derived, or kept and right. */
  ghost predicate InPlace<V>(was: map<nat, V>, input: Input, placed: set<nat>, kept: set<nat>,
                             derive: (nat, string) -> V) {
    input.id in placed || (input.id in kept && input.id in was && was[input.id] == derive(input.owner, input.text))
  }

  lemma InPlaceIff<V>(was: map<nat, V>, vectors: map<nat, V>, inputs: seq<Input>, placed: set<nat>, kept: set<nat>,
                      derive: (nat, string) -> V, i: nat)
    requires RebuiltAs(was, vectors, inputs, placed, kept, derive) && i < |inputs|
    ensures InPlace(was, inputs[i], placed, kept, derive) <==>
            inputs[i].id in vectors && vectors[inputs[i].id] == derive(inputs[i].owner, inputs[i].text)
  {
  }

  lemma RowIsAnInput(rows: Rows, inputs: seq<Input>, id: nat) returns (i: nat)
    requires AreAllInputs(rows, inputs) && id in rows && rows[id].text.Some?
    ensures i < |inputs| && inputs[i] == Input(id, rows[id].owner, rows[id].text.value)
  {
    var ids := IdsOf(inputs);
    assert id in ids;
    i :| 0 <= i < |ids| && ids[i] == id;
    assert inputs[i].id == id;
  }

  /** Rows and vectors are in step after a rebuild, however it went, if and only if the vector
      of every unmarked row is in place. */
  lemma RebuiltIsSyncedIff<V>(rows: Rows, inputs: seq<Input>, was: map<nat, V>, vectors: map<nat, V>,
                              placed: set<nat>, kept: set<nat>, derive: (nat, string) -> V)
    requires AreAllInputs(rows, inputs) && RebuiltAs(was, vectors, inputs, placed, kept, derive)
    ensures Synced(rows, vectors, derive) <==>
            forall i | 0 <= i < |inputs| && !rows[inputs[i].id].pending :: InPlace(was, inputs[i], placed, kept, derive)
  {
    hide RebuiltAs, InPlace;
    forall i | 0 <= i < |inputs|
      ensures InPlace(was, inputs[i], placed, kept, derive) <==>
              HasVector(rows[inputs[i].id], inputs[i].id, vectors, derive)
    {
      InPlaceIff(was, vectors, inputs, placed, kept, derive, i);
    }
    if forall i | 0 <= i < |inputs| && !rows[inputs[i].id].pending :: InPlace(was, inputs[i], placed, kept, derive) {
      forall id | id in rows && !rows[id].pending
        ensures HasVector(rows[id], id, vectors, derive)
      {
        if rows[id].text.Some? {
          var i := RowIsAnInput(rows, inputs, id);
        }
      }
    }
  }

  /** It is exact if and only if the vector of every row is in place and nothing else is. */
  lemma RebuiltIsExactIff<V>(rows: Rows, inputs: seq<Input>, was: map<nat, V>, vectors: map<nat, V>,
                             placed: set<nat>, kept: set<nat>, derive: (nat, string) -> V)
    requires AreAllInputs(rows, inputs) && RebuiltAs(was, vectors, inputs, placed, kept, derive)
    ensures IsExact(rows, vectors, derive) <==>
            && kept <= SetOf(IdsOf(inputs))
            && forall i | 0 <= i < |inputs| :: InPlace(was, inputs[i], placed, kept, derive)
  {
    var ids := IdsOf(inputs);
    forall i | 0 <= i < |inputs|
      ensures ids[i] in SetOf(ids)
      ensures InPlace(was, inputs[i], placed, kept, derive) <==>
              inputs[i].id in vectors && vectors[inputs[i].id] == derive(inputs[i].owner, inputs[i].text)
    {
      InPlaceIff(was, vectors, inputs, placed, kept, derive, i);
    }
    forall id: nat | id in rows && rows[id].text.Some?
      ensures id in SetOf(ids)
      ensures (forall i | 0 <= i < |inputs| :: InPlace(was, inputs[i], placed, kept, derive)) ==>
                id in vectors && vectors[id] == derive(rows[id].owner, rows[id].text.value)
    {
      var i := RowIsAnInput(rows, inputs, id);
    }
    forall id: nat | id in SetOf(ids)
      ensures id in rows && rows[id].text.Some?
    {
      var i :| 0 <= i < |ids| && ids[i] == id;
      assert inputs[i].id == id;
    }
    if IsExact(rows, vectors, derive) {
      assert forall i | 0 <= i < |inputs| :: inputs[i].id in vectors;
    }
  }

  // ----- Rebuilds that stop

  lemma AmongFirstIff(inputs: seq<Input>, n: nat, i: nat)
    requires NoDuplicates(IdsOf(inputs)) && n <= |inputs| && i < |inputs|
    ensures inputs[i].id in SetOf(IdsOf(inputs)[..n]) <==> i < n
  {
    var ids := IdsOf(inputs);
    if i < n {
      assert ids[..n][i] == ids[i];
    }
  }

  lemma FirstIsRebuilt<V>(was: map<nat, V>, vectors: map<nat, V>, inputs: seq<Input>, n: nat,
                          derive: (nat, string) -> V)
    requires NoDuplicates(IdsOf(inputs)) && n <= |inputs| && HoldsFirst(vectors, inputs, n, derive)
    ensures RebuiltAs(was, vectors, inputs, SetOf(IdsOf(inputs)[..n]), {}, derive)
    ensures forall i | 0 <= i < |inputs| :: InPlace(was, inputs[i], SetOf(IdsOf(inputs)[..n]), {}, derive) <==> i < n
  {
    forall i | 0 <= i < |inputs|
      ensures inputs[i].id in SetOf(IdsOf(inputs)[..n]) <==> i < n
    {
      AmongFirstIff(inputs, n, i);
    }
    hide NoDuplicates;
  }

  /** A rebuild that got through the first `n` inputs is exact if and only if it got through
      them all. */
  lemma RebuildIsExactIff<V>(rows: Rows, inputs: seq<Input>, vectors: map<nat, V>, n: nat, derive: (nat, string) -> V)
    requires AreAllInputs(rows, inputs) && n <= |inputs| && HoldsFirst(vectors, inputs, n, derive)
    ensures IsExact(rows, vectors, derive) <==> n == |inputs|
  {
    FirstIsRebuilt(vectors, vectors, inputs, n, derive);
    RebuiltIsExactIff(rows, inputs, vectors, vectors, SetOf(IdsOf(inputs)[..n]), {}, derive);
    if n < |inputs| {
      assert !InPlace(vectors, inputs[n], SetOf(IdsOf(inputs)[..n]), {}, derive);
    }
  }

  /** It leaves rows and vectors in step if and only if every row it did not get to is
      marked pending. */
  lemma RebuildIsSyncedIff<V>(rows: Rows, inputs: seq<Input>, vectors: map<nat, V>, n: nat, derive: (nat, string) -> V)
    requires AreAllInputs(rows, inputs) && n <= |inputs| && HoldsFirst(vectors, inputs, n, derive)
    ensures Synced(rows, vectors, derive) <==> forall i | n <= i < |inputs| :: rows[inputs[i].id].pending
  {
    FirstIsRebuilt(vectors, vectors, inputs, n, derive);
    RebuiltIsSyncedIff(rows, inputs, vectors, vectors, SetOf(IdsOf(inputs)[..n]), {}, derive);
  }

  /** A rebuild given up before anything was inserted. */
  lemma NothingRebuilt<V>(was: map<nat, V>, inputs: seq<Input>, derive: (nat, string) -> V)
    ensures RebuiltAs(was, was, inputs, {}, was.Keys, derive)
    ensures RebuiltAs(was, map[], inputs, {}, {}, derive)
  {
  }

  /** One insert, which may fail in any of its ways. */
  lemma InsertRebuilds<V>(was: map<nat, V>, before: map<nat, V>, vectors: map<nat, V>, inputs: seq<Input>, i: nat,
                          placed: set<nat>, kept: set<nat>, derive: (nat, string) -> V)
    returns (nowPlaced: set<nat>, nowKept: set<nat>)
    requires NoDuplicates(IdsOf(inputs)) && i < |inputs| && RebuiltAs(was, before, inputs, placed, kept, derive)
    requires
      var put := before[inputs[i].id := derive(inputs[i].owner, inputs[i].text)];
      vectors in {before, before - {inputs[i].id}, put}
    ensures RebuiltAs(was, vectors, inputs, nowPlaced, nowKept, derive)
    ensures vectors == before[inputs[i].id := derive(inputs[i].owner, inputs[i].text)] ==>
              nowPlaced == placed + {inputs[i].id} && nowKept == kept - {inputs[i].id}
  {
    var ids, id := IdsOf(inputs), inputs[i].id;
    assert ids[i] in SetOf(ids);
    forall j | 0 <= j < |inputs| && j != i
      ensures inputs[j].id != id
    {
      assert ids[j] != ids[i];
    }
    if vectors == before[id := derive(inputs[i].owner, inputs[i].text)] {
      nowPlaced, nowKept := placed + {id}, kept - {id};
    } else if vectors == before {
      nowPlaced, nowKept := placed, kept;
    } else {
      nowPlaced, nowKept := placed - {id}, kept - {id};
    }
  }

  lemma InputsAreTheTexts(rows: Rows, inputs: seq<Input>)
    requires AreAllInputs(rows, inputs)
    ensures |inputs| == |WithText(rows)|
  {
    var ids := IdsOf(inputs);
    SetOfSize(ids);
    forall id | id in SetOf(ids)
      ensures id in WithText(rows)
    {
      var i :| 0 <= i < |ids| && ids[i] == id;
      assert inputs[i].id == id;
    }
    assert SetOf(ids) == WithText(rows);
  }

  lemma ExactSize<V>(rows: Rows, vectors: map<nat, V>, derive: (nat, string) -> V)
    ensures IsExact(rows, vectors, derive) ==> |vectors| == |WithText(rows)|
  {
    if IsExact(rows, vectors, derive) {
      assert vectors.Keys == WithText(rows);
    }
  }

  // ----- The stores

  method AllEmbedInputs(table: Table) returns (inputs: Option<seq<Input>>, ghost fault: bool)
    ensures (fault <==> inputs.None?) && (table.reliable ==> !fault)
    ensures inputs.Some? ==> AreAllInputs(table.rows, inputs.value)
  {
    var fails: bool := *;
    if fails && !table.reliable {
      return None, true;
    }
    var rows := table.rows;
    var ids := Listed(set id | id in rows && rows[id].text.Some?);
    assert forall i | 0 <= i < |ids| :: ids[i] in SetOf(ids);
    var out := seq(|ids|, i requires 0 <= i < |ids| && ids[i] in rows && rows[ids[i]].text.Some? =>
                     Input(ids[i], rows[ids[i]].owner, rows[ids[i]].text.value));
    assert IdsOf(out) == ids;
    forall id | id in rows && rows[id].text.Some?
      ensures id in IdsOf(out)
    {
      assert id in SetOf(ids);
    }
    return Some(out), false;
  }

  /** `clear`: when it fails, the store may be as it was, or empty but not saved. */
  method Clear<V>(space: Space<V>) returns (fault: bool)
    modifies space
    ensures space.vectors == map[] || (fault && space.vectors == old(space.vectors))
    ensures space.reliable ==> !fault
  {
    var fails: bool := *;
    if fails && !space.reliable {
      return true;
    }
    space.vectors := map[];
    fails := *;
    fault := fails && !space.reliable;
  }

  /** `insert_vectors`: stops at the first failure. */
  method InsertVectors<V>(space: Space<V>, entries: seq<Entry<V>>) returns (fault: bool, ghost n: nat)
    modifies space
    ensures n <= |entries| && (!fault ==> n == |entries|) && (space.reliable ==> !fault)
    ensures
      || space.vectors == PutAll(old(space.vectors), entries, n)
      || (n < |entries| && space.vectors == PutAll(old(space.vectors), entries, n) - {entries[n].id})
  {
    for i := 0 to |entries|
      invariant space.vectors == PutAll(old(space.vectors), entries, i)
    {
      n := i;
      var fails: bool := *;
      if fails && !space.reliable {
        return true, n;
      }
      space.vectors := space.vectors - {entries[i].id};
      fails := *;
      if fails && !space.reliable {
        return true, n;
      }
      space.vectors := space.vectors[entries[i].id := entries[i].v];
    }
    var unsaved: bool := *;
    fault, n := unsaved && !space.reliable, |entries|;
  }

  // ----- The rebuilds

  /** Embeds batch by batch until the inputs run out or a batch fails. */
  method EmbedUntilFailure<V>(inputs: seq<Input>, derive: (nat, string) -> V, reliable: bool)
    returns (entries: seq<Entry<V>>, ghost fault: bool)
    ensures Stand(inputs, entries, derive)
    ensures (!fault ==> |entries| == |inputs|) && (reliable ==> !fault)
  {
    entries, fault := [], false;
    var k := 0;
    while k < |inputs|
      invariant 0 <= k <= |inputs| && |entries| == k && Stand(inputs, entries, derive)
    {
      var next := if k + BOOTSTRAP_BATCH <= |inputs| then k + BOOTSTRAP_BATCH else |inputs|;
      var batch := inputs[k..next];
      var derived, embedFault := Embed(batch, derive, reliable);
      if derived.None? {
        return entries, true;
      }
      for j := 0 to |batch|
        invariant |entries| == k + j && Stand(inputs, entries, derive)
      {
        entries := entries + [Entry(batch[j].id, derived.value[j])];
      }
      k := next;
    }
  }

  datatype Report = Skipped | InSync | Rebuilt

  /** `bootstrap_chunks`. A rebuilt store holds the vectors of a prefix of the inputs, of all
      of them when nothing failed. */
  method BootstrapChunks<V>(table: Table, space: Space<V>, derive: (nat, string) -> V)
    returns (report: Report, ghost inputs: seq<Input>, ghost n: nat, ghost fault: bool)
    modifies space
    ensures report.Skipped? ==> fault && (space.vectors == old(space.vectors) || space.vectors == map[])
    ensures IsExact(table.rows, old(space.vectors), derive) ==> !report.Rebuilt?
    ensures report.InSync? ==> |old(space.vectors)| == |WithText(table.rows)| && space.vectors == old(space.vectors)
    ensures report.Rebuilt? ==>
      && AreAllInputs(table.rows, inputs) && n <= |inputs|
      && HoldsFirst(space.vectors, inputs, n, derive) && (!fault ==> n == |inputs|)
    ensures !fault ==>
      (IsExact(table.rows, space.vectors, derive) <==>
       IsExact(table.rows, old(space.vectors), derive) || |old(space.vectors)| != |WithText(table.rows)|)
    ensures table.reliable && space.reliable ==> !fault
  {
    inputs, n, fault := [], 0, false;
    var read, readFault := AllEmbedInputs(table);
    if read.None? {
      return Skipped, [], 0, true;
    }
    inputs := read.value;
    InputsAreTheTexts(table.rows, inputs);
    if |read.value| == |space.vectors| {
      return InSync, inputs, 0, false;
    }
    ExactSize(table.rows, space.vectors, derive);
    var clearFault := Clear(space);
    if clearFault {
      return Skipped, inputs, 0, true;
    }
    var entries, embedFault := EmbedUntilFailure(read.value, derive, space.reliable);
    var insertFault, inserted := InsertVectors(space, entries);
    n, fault := inserted, embedFault || insertFault;
    PutAllHoldsFirst(inputs, entries, n, derive);
    if n < |entries| {
      assert IdsOf(inputs)[n] !in IdsOf(inputs)[..n];
      assert PutAll(map[], entries, n) - {entries[n].id} == PutAll(map[], entries, n);
    }
    RebuildIsExactIff(table.rows, inputs, space.vectors, n, derive);
    report := Rebuilt;
  }

  /** `rebuild_simple_space`: goes on when clearing or an insert fails, and so may leave holes
      and old vectors. */
  method RebuildSimpleSpace<V>(space: Space<V>, inputs: seq<Input>, derive: (nat, string) -> V)
    returns (ghost placed: set<nat>, ghost kept: set<nat>, ghost fault: bool)
    requires NoDuplicates(IdsOf(inputs))
    modifies space
    ensures RebuiltAs(old(space.vectors), space.vectors, inputs, placed, kept, derive)
    ensures (!fault ==> placed == SetOf(IdsOf(inputs)) && kept == {}) && (space.reliable ==> !fault)
  {
    hide RebuiltAs, NoDuplicates, SetOf;
    NothingRebuilt(space.vectors, inputs, derive);
    placed, kept, fault := {}, space.vectors.Keys, false;
    var clearFault := Clear(space);
    if clearFault {
      fault := true;
    }
    if space.vectors == map[] {
      kept := {};
    }
    NoneSeen(inputs);
    var k := 0;
    while k < |inputs|
      invariant 0 <= k <= |inputs|
      invariant RebuiltAs(old(space.vectors), space.vectors, inputs, placed, kept, derive)
      invariant (!fault ==> placed == SetOf(IdsOf(inputs)[..k]) && kept == {}) && (space.reliable ==> !fault)
    {
      var next := if k + BOOTSTRAP_BATCH <= |inputs| then k + BOOTSTRAP_BATCH else |inputs|;
      var batch := inputs[k..next];
      var derived, embedFault := Embed(batch, derive, space.reliable);
      if derived.None? {
        return placed, kept, true;
      }
      for j := 0 to |batch|
        invariant RebuiltAs(old(space.vectors), space.vectors, inputs, placed, kept, derive)
        invariant (!fault ==> placed == SetOf(IdsOf(inputs)[..k + j]) && kept == {}) && (space.reliable ==> !fault)
      {
        var i := k + j;
        OneMoreSeen(inputs, i);
        ghost var before := space.vectors;
        var insertFault := space.Insert(inputs[i].id, derived.value[j]);
        placed, kept := InsertRebuilds(old(space.vectors), before, space.vectors, inputs, i, placed, kept, derive);
        if insertFault {
          fault := true;
        }
      }
      k := next;
    }
    assert IdsOf(inputs)[..k] == IdsOf(inputs);
  }

  lemma NoneSeen(inputs: seq<Input>)
    ensures SetOf(IdsOf(inputs)[..0]) == {}
  {
  }

  lemma OneMoreSeen(inputs: seq<Input>, i: nat)
    requires i < |inputs|
    ensures SetOf(IdsOf(inputs)[..i + 1]) == SetOf(IdsOf(inputs)[..i]) + {inputs[i].id}
  {
    assert IdsOf(inputs)[..i + 1] == IdsOf(inputs)[..i] + [inputs[i].id];
  }

  /** `bootstrap_qa`, `bootstrap_rlm` and `bootstrap_explorations`. Without a failure the
      store ends up exact, unless it was wrong while its size was right. */
  method BootstrapSimple<V>(table: Table, space: Space<V>, derive: (nat, string) -> V)
    returns (report: Report, ghost inputs: seq<Input>, ghost placed: set<nat>, ghost kept: set<nat>, ghost fault: bool)
    modifies space
    ensures report.Skipped? ==> fault
    ensures !report.Rebuilt? ==> space.vectors == old(space.vectors)
    ensures report.Rebuilt? ==>
      AreAllInputs(table.rows, inputs) && RebuiltAs(old(space.vectors), space.vectors, inputs, placed, kept, derive)
    ensures IsExact(table.rows, old(space.vectors), derive) ==> !report.Rebuilt?
    ensures !fault ==>
      (IsExact(table.rows, space.vectors, derive) <==>
       IsExact(table.rows, old(space.vectors), derive) || |old(space.vectors)| != |WithText(table.rows)|)
    ensures table.reliable && space.reliable ==> !fault
  {
    inputs, placed, kept, fault := [], {}, {}, false;
    var read, readFault := AllEmbedInputs(table);
    if read.None? {
      return Skipped, [], {}, {}, true;
    }
    inputs := read.value;
    InputsAreTheTexts(table.rows, inputs);
    if |read.value| == |space.vectors| {
      return InSync, inputs, {}, {}, false;
    }
    ExactSize(table.rows, space.vectors, derive);
    ghost var was := space.vectors;
    placed, kept, fault := RebuildSimpleSpace(space, read.value, derive);
    RebuiltIsExactIff(table.rows, inputs, was, space.vectors, placed, kept, derive);
    assert !fault ==> forall i | 0 <= i < |inputs| :: IdsOf(inputs)[i] in placed;
    report := Rebuilt;
  }
}
