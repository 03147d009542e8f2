/** The embedding cache and the batch embedders in front of it. Queries, writes and model
    calls may fail at any time; the hash is taken to be injective. */
module EmbedCache {
  import opened Segments
  import opened Utf8
  import opened Wrappers

  datatype Error = DimensionMismatch(expected: nat, actual: nat) | Storage | Model | NotFilled

  type Fallible<T> = Result<T, Error>

  /** An `f32`, by its bits. */
  type Float = bits: int | 0 <= bits < 0x1_0000_0000

  type Embedding = seq<Float>

  // ----- Blobs

  /** `f32::to_le_bytes`. */
  function ToLe(w: Float): Bytes {
    [(w % 0x100) as Byte, (w / 0x100 % 0x100) as Byte, (w / 0x1_0000 % 0x100) as Byte, (w / 0x100_0000) as Byte]
  }

  /** `f32::from_le_bytes`. */
  function FromLe(b: Bytes): Float
    requires |b| == 4
  {
    b[0] as int + b[1] as int * 0x100 + b[2] as int * 0x1_0000 + b[3] as int * 0x100_0000
  }

  function Blob(e: Embedding): (b: Bytes)
    ensures |b| == 4 * |e|
  {
    if e == [] then [] else Blob(e[..|e| - 1]) + ToLe(e[|e| - 1])
  }

  function Floats(b: Bytes): (e: Embedding)
    requires |b| % 4 == 0
    ensures |b| == 4 * |e|
  {
    if b == [] then [] else Floats(b[..|b| - 4]) + [FromLe(b[|b| - 4..])]
  }

  /** `embedding_to_bytes`. */
  method EmbeddingToBytes(e: Embedding) returns (bytes: Bytes)
    ensures bytes == Blob(e)
  {
    bytes := [];
    for k := 0 to |e|
      invariant bytes == Blob(e[..k])
    {
      assert e[..k + 1][..k] == e[..k];
      bytes := bytes + ToLe(e[k]);
    }
    assert e[..|e|] == e;
  }

  function Decoded(b: Bytes, dims: nat): Fallible<Embedding> {
    if |b| != dims * 4 then Err(DimensionMismatch(dims, |b| / 4)) else Ok(Floats(b))
  }

  /** `bytes_to_embedding`. */
  method BytesToEmbedding(b: Bytes, expectedDims: nat) returns (r: Fallible<Embedding>)
    ensures r == Decoded(b, expectedDims)
  {
    if |b| != expectedDims * 4 {
      return Err(DimensionMismatch(expectedDims, |b| / 4));
    }
    var e: Embedding := [];
    for k := 0 to expectedDims
      invariant e == Floats(b[..4 * k])
    {
      var next := b[..4 * (k + 1)];
      assert next[..|next| - 4] == b[..4 * k];
      assert next[|next| - 4..] == b[4 * k..4 * k + 4];
      e := e + [FromLe(b[4 * k..4 * k + 4])];
    }
    assert b[..|b|] == b;
    return Ok(e);
  }

  lemma FloatRoundTrip(w: Float)
    ensures FromLe(ToLe(w)) == w
  {
    assert w / 0x100 / 0x100 == w / 0x1_0000;
    assert w / 0x1_0000 / 0x100 == w / 0x100_0000;
  }

  lemma BytesRoundTrip(b: Bytes)
    requires |b| == 4
    ensures ToLe(FromLe(b)) == b
  {
    var w: int := FromLe(b);
    var x: int := b[1] as int + b[2] as int * 0x100 + b[3] as int * 0x1_0000;
    var y: int := b[2] as int + b[3] as int * 0x100;
    assert w == b[0] as int + x * 0x100 && x == b[1] as int + y * 0x100;
    assert w / 0x100 == x && w / 0x1_0000 == y && w / 0x100_0000 == b[3] as int;
  }

  /** A stored embedding comes back unchanged. */
  lemma {:induction false} BlobRoundTrip(e: Embedding)
    ensures Floats(Blob(e)) == e
  {
    if e != [] {
      var b := Blob(e);
      assert b[..|b| - 4] == Blob(e[..|e| - 1]) && b[|b| - 4..] == ToLe(e[|e| - 1]);
      BlobRoundTrip(e[..|e| - 1]);
      FloatRoundTrip(e[|e| - 1]);
    }
  }

  /** And no other blob reads as the same embedding. */
  lemma {:induction false} FloatsRoundTrip(b: Bytes)
    requires |b| % 4 == 0
    ensures Blob(Floats(b)) == b
  {
    if b != [] {
      var e := Floats(b);
      assert e[..|e| - 1] == Floats(b[..|b| - 4]);
      FloatsRoundTrip(b[..|b| - 4]);
      BytesRoundTrip(b[|b| - 4..]);
    }
  }

  /** The blob is little-endian: each float takes four bytes, the low one first. */
  lemma {:induction false} BlobIsLittleEndian(e: Embedding, i: nat)
    requires i < |e|
    ensures
      var b := Blob(e);
      e[i] == b[4 * i] as int + b[4 * i + 1] as int * 0x100 + b[4 * i + 2] as int * 0x1_0000
              + b[4 * i + 3] as int * 0x100_0000
  {
    var last := |e| - 1;
    if i < last {
      BlobIsLittleEndian(e[..last], i);
    } else {
      FloatRoundTrip(e[last]);
      assert forall k | 0 <= k < 4 :: Blob(e)[4 * last + k] == ToLe(e[last])[k];
    }
  }

  // ----- The cache

  type Table = map<string, Bytes>

  /** What `get` answers when the query succeeds. */
  function Lookup(table: Table, dims: nat, key: string): Fallible<Option<Embedding>> {
    if key !in table then Ok(None)
    else
      match Decoded(table[key], dims)
      case Ok(e) => Ok(Some(e))
      case Err(error) => Err(error)
  }

  /** An answer is none, or what the model computes. */
  predicate Truthful(answer: Fallible<Option<Embedding>>, e: Embedding) {
    answer.Ok? && answer.value.Some? ==> answer.value.value == e
  }

  ghost predicate Injective(hash: string -> string) {
    forall s, t {:trigger hash(s), hash(t)} :: hash(s) == hash(t) ==> s == t
  }

  /** Whatever the table answers is what the model computes. */
  ghost predicate TableCoherent(table: Table, dims: nat, hash: string -> string, model: string -> Embedding) {
    forall t {:trigger hash(t)} {:trigger model(t)} :: Truthful(Lookup(table, dims, hash(t)), model(t))
  }

  /** `reliable` says that no query and no write of this cache ever fails. */
  class EmbeddingCache {
    const hash: string -> string
    const dims: nat
    const reliable: bool
    var table: Table

    constructor (hash: string -> string, dims: nat, reliable: bool)
      ensures this.hash == hash && this.dims == dims && this.reliable == reliable && table == map[]
    {
      this.hash := hash;
      this.dims := dims;
      this.reliable := reliable;
      table := map[];
    }

    function Answer(text: string): Fallible<Option<Embedding>>
      reads this
    {
      Lookup(table, dims, hash(text))
    }

    ghost predicate Coherent(model: string -> Embedding)
      reads this
    {
      TableCoherent(table, dims, hash, model)
    }

    /** `get`. */
    method Get(text: string) returns (r: Fallible<Option<Embedding>>)
      ensures r == Err(Storage) || r == Answer(text)
      ensures reliable ==> r == Answer(text)
    {
      var fails: bool := *;
      if fails && !reliable {
        return Err(Storage);
      }
      var key := hash(text);
      if key !in table {
        return Ok(None);
      }
      var e := BytesToEmbedding(table[key], dims);
      r := match e case Ok(v) => Ok(Some(v)) case Err(error) => Err(error);
    }

    /** `put`. */
    method Put(text: string, e: Embedding) returns (r: Fallible<()>)
      modifies this
      ensures r.Ok? ==> |e| == dims && table == old(table)[hash(text) := Blob(e)]
      ensures r.Err? ==> table == old(table) && (r.error == Storage || r.error == DimensionMismatch(dims, |e|))
      ensures reliable && |e| == dims ==> r.Ok?
    {
      if |e| != dims {
        return Err(DimensionMismatch(dims, |e|));
      }
      var blob := EmbeddingToBytes(e);
      var fails: bool := *;
      if fails && !reliable {
        return Err(Storage);
      }
      table := table[hash(text) := blob];
      return Ok(());
    }
  }

  /** After a write the text is answered by what was written, every other text as before. */
  lemma WriteAnswers(hash: string -> string, table: Table, dims: nat, text: string, e: Embedding, other: string)
    requires Injective(hash)
    requires |e| == dims
    ensures
      Lookup(table[hash(text) := Blob(e)], dims, hash(other)) ==
      if other == text then Ok(Some(e)) else Lookup(table, dims, hash(other))
  {
    hide Blob, Floats, Injective;
    BlobRoundTrip(e);
    if other != text {
      InjectiveApart(hash, text, other);
    }
  }

  lemma InjectiveApart(hash: string -> string, s: string, t: string)
    requires Injective(hash) && s != t
    ensures hash(s) != hash(t)
  {
  }

  /** Writing what the model computes keeps the cache coherent. */
  lemma WriteKeepsCoherence(table: Table, dims: nat, hash: string -> string, model: string -> Embedding, text: string)
    requires Injective(hash) && TableCoherent(table, dims, hash, model)
    ensures |model(text)| == dims ==> TableCoherent(table[hash(text) := Blob(model(text))], dims, hash, model)
  {
    if |model(text)| == dims {
      forall t
        ensures Truthful(Lookup(table[hash(text) := Blob(model(text))], dims, hash(t)), model(t))
      {
        WriteAnswers(hash, table, dims, text, model(text), t);
      }
    }
  }

  /** Without injectivity it would not be: the other text would be answered wrongly. */
  lemma CollisionsBreakCoherence(table: Table, dims: nat, hash: string -> string, model: string -> Embedding,
                                 text: string, other: string)
    requires hash(text) == hash(other) && model(text) != model(other) && |model(text)| == dims
    ensures !TableCoherent(table[hash(text) := Blob(model(text))], dims, hash, model)
  {
    BlobRoundTrip(model(text));
    var written := table[hash(text) := Blob(model(text))];
    assert !Truthful(Lookup(written, dims, hash(other)), model(other));
  }

  // ----- The model behind it

  /** `reliable` says that it never fails. */
  class Embedder {
    const model: string -> Embedding
    const reliable: bool
    /** Every text the model has been asked for. */
    ghost var asked: seq<string>

    constructor (model: string -> Embedding, reliable: bool)
      ensures this.model == model && this.reliable == reliable && asked == []
    {
      this.model := model;
      this.reliable := reliable;
      asked := [];
    }

    /** `embed_batch`: one embedding a text, or a failure. */
    method EmbedBatch(texts: seq<string>) returns (r: Fallible<seq<Embedding>>)
      modifies this
      ensures asked == old(asked) + texts
      ensures r == Err(Model) || r == Ok(Embeddings(model, texts))
      ensures reliable ==> r.Ok?
    {
      asked := asked + texts;
      var fails: bool := *;
      if fails && !reliable {
        return Err(Model);
      }
      var out: seq<Embedding> := [];
      for k := 0 to |texts|
        invariant out == Embeddings(model, texts[..k])
      {
        out := out + [model(texts[k])];
      }
      assert texts[..|texts|] == texts;
      return Ok(out);
    }
  }

  /** The model's embedding of each text, in order. */
  function Embeddings(model: string -> Embedding, texts: seq<string>): seq<Embedding> {
    seq(|texts|, k requires 0 <= k < |texts| => model(texts[k]))
  }

  lemma EmbeddingsConcat(model: string -> Embedding, a: seq<string>, b: seq<string>)
    ensures Embeddings(model, a + b) == Embeddings(model, a) + Embeddings(model, b)
  {
  }

  /** The texts without a readable answer in the table, in order. */
  ghost function Unanswered(table: Table, dims: nat, hash: string -> string, texts: seq<string>): seq<string> {
    if texts == [] then []
    else
      var last := texts[|texts| - 1];
      var answer := Lookup(table, dims, hash(last));
      Unanswered(table, dims, hash, texts[..|texts| - 1]) + if answer.Ok? && answer.value.Some? then [] else [last]
  }

  /** A result for each text so far: the model's embedding, unless it is listed as missing. */
  ghost predicate Answered(model: string -> Embedding, texts: seq<string>, out: seq<Embedding>, missIdx: seq<nat>) {
    && |out| <= |texts|
    && (forall j | 0 <= j < |missIdx| :: missIdx[j] < |out|)
    && forall k | 0 <= k < |out| :: k in missIdx || out[k] == model(texts[k])
  }

  lemma AnswerAdded(model: string -> Embedding, texts: seq<string>, out: seq<Embedding>, missIdx: seq<nat>,
                    e: Embedding)
    requires Answered(model, texts, out, missIdx) && |out| < |texts|
    ensures e == model(texts[|out|]) ==> Answered(model, texts, out + [e], missIdx)
    ensures Answered(model, texts, out + [e], missIdx + [|out|])
  {
    assert |out| in missIdx + [|out|];
  }

  function Picked(texts: seq<string>, indices: seq<nat>): seq<string>
    requires forall j | 0 <= j < |indices| :: indices[j] < |texts|
  {
    seq(|indices|, j requires 0 <= j < |indices| => texts[indices[j]])
  }

  lemma HitIsTruthful(cache: EmbeddingCache, model: string -> Embedding, text: string, e: Embedding)
    requires cache.Coherent(model) && cache.Answer(text) == Ok(Some(e))
    ensures e == model(text)
  {
    hide Lookup;
  }

  lemma OneMoreUnanswered(table: Table, dims: nat, hash: string -> string, texts: seq<string>, i: nat,
                          indices: seq<nat>)
    requires i < |texts| && forall j | 0 <= j < |indices| :: indices[j] < |texts|
    ensures Picked(texts, indices + [i]) == Picked(texts, indices) + [texts[i]]
    ensures
      var answer := Lookup(table, dims, hash(texts[i]));
      Unanswered(table, dims, hash, texts[..i + 1]) ==
      Unanswered(table, dims, hash, texts[..i]) + if answer.Ok? && answer.value.Some? then [] else [texts[i]]
  {
    hide Lookup;
    assert texts[..i + 1][..i] == texts[..i];
  }

  // ----- `CachedEmbedder`

  class CachedEmbedder {
    const inner: Embedder
    const cache: EmbeddingCache

    constructor (inner: Embedder, cache: EmbeddingCache)
      ensures this.inner == inner && this.cache == cache
    {
      this.inner := inner;
      this.cache := cache;
    }

    /** `embed`. Only a failure of the model is passed on, and the model is asked only for what
        the cache does not answer. */
    method Embed(text: string) returns (r: Fallible<Embedding>)
      requires Injective(cache.hash) && cache.Coherent(inner.model)
      modifies inner, cache
      ensures cache.Coherent(inner.model)
      ensures (r == Err(Model) && !inner.reliable) || r == Ok(inner.model(text))
      ensures cache.reliable ==>
        inner.asked == old(inner.asked) + old(Unanswered(cache.table, cache.dims, cache.hash, [text]))
      ensures cache.reliable && r.Ok? && |r.value| == cache.dims ==> cache.Answer(text) == Ok(Some(r.value))
    {
      assert [text][..0] == [] && [text][0] == text;
      var cached := cache.Get(text);
      if cached.Ok? && cached.value.Some? {
        return Ok(cached.value.value);
      }
      var computed := inner.EmbedBatch([text]);
      if computed.Err? {
        return Err(computed.error);
      }
      var e := computed.value[0];
      WriteKeepsCoherence(cache.table, cache.dims, cache.hash, inner.model, text);
      if |e| == cache.dims {
        WriteAnswers(cache.hash, cache.table, cache.dims, text, e, text);
      }
      var ignored := cache.Put(text, e);
      return Ok(e);
    }

    /** The first loop of `embed_batch`: what the cache answers, and what it does not. */
    method AskCache(texts: seq<string>) returns (out: seq<Embedding>, missIdx: seq<nat>)
      requires cache.Coherent(inner.model)
      ensures |out| == |texts| && Answered(inner.model, texts, out, missIdx)
      ensures cache.reliable ==>
        Picked(texts, missIdx) == Unanswered(cache.table, cache.dims, cache.hash, texts)
    {
      out, missIdx := [], [];
      assert Unanswered(cache.table, cache.dims, cache.hash, texts[..0]) == [];
      assert Answered(inner.model, texts, out, missIdx);
      hide Unanswered, Lookup, Picked, TableCoherent, Answered;
      for i := 0 to |texts|
        invariant |out| == i && Answered(inner.model, texts, out, missIdx)
        invariant forall j | 0 <= j < |missIdx| :: missIdx[j] < i
        invariant cache.reliable ==>
          Picked(texts, missIdx) == Unanswered(cache.table, cache.dims, cache.hash, texts[..i])
      {
        OneMoreUnanswered(cache.table, cache.dims, cache.hash, texts, i, missIdx);
        var cached := cache.Get(texts[i]);
        if cached.Ok? && cached.value.Some? {
          HitIsTruthful(cache, inner.model, texts[i], cached.value.value);
          AnswerAdded(inner.model, texts, out, missIdx, cached.value.value);
          out := out + [cached.value.value];
        } else {
          AnswerAdded(inner.model, texts, out, missIdx, []);
          out := out + [[]];
          missIdx := missIdx + [i];
        }
      }
      assert texts[..|texts|] == texts;
    }

    /** Its second loop: what the model computed goes into the results and into the cache. */
    method StoreComputed(texts: seq<string>, out0: seq<Embedding>, missIdx: seq<nat>, computed: seq<Embedding>)
      returns (out: seq<Embedding>)
      requires Injective(cache.hash) && cache.Coherent(inner.model)
      requires |out0| == |texts| && Answered(inner.model, texts, out0, missIdx)
      requires computed == Embeddings(inner.model, Picked(texts, missIdx))
      modifies cache
      ensures cache.Coherent(inner.model) && out == Embeddings(inner.model, texts)
    {
      out := out0;
      for j := 0 to |computed|
        invariant |out| == |texts|
        invariant cache.Coherent(inner.model)
        invariant forall k | 0 <= k < |texts| :: k in missIdx[j..] || out[k] == inner.model(texts[k])
      {
        var i := missIdx[j];
        WriteKeepsCoherence(cache.table, cache.dims, cache.hash, inner.model, texts[i]);
        var ignored := cache.Put(texts[i], computed[j]);
        out := out[i := computed[j]];
      }
    }

    /** `embed_batch`. Only a failure of the model is passed on, and the model is asked only
        for what the cache does not answer. */
    method EmbedBatch(texts: seq<string>) returns (r: Fallible<seq<Embedding>>)
      requires Injective(cache.hash) && cache.Coherent(inner.model)
      modifies inner, cache
      ensures cache.Coherent(inner.model)
      ensures (r == Err(Model) && !inner.reliable) || r == Ok(Embeddings(inner.model, texts))
      ensures cache.reliable ==>
        inner.asked == old(inner.asked) + old(Unanswered(cache.table, cache.dims, cache.hash, texts))
    {
      var out, missIdx := AskCache(texts);
      if missIdx != [] {
        var computed := inner.EmbedBatch(Picked(texts, missIdx));
        if computed.Err? {
          return Err(computed.error);
        }
        out := StoreComputed(texts, out, missIdx, computed.value);
      }
      assert missIdx == [] ==> out == Embeddings(inner.model, texts);
      return Ok(out);
    }
  }

  // ----- `BatchEmbedder` and the pipeline's own copy of it

  /** Every text not answered by the table, in order. */
  ghost function Misses(table: Table, dims: nat, hash: string -> string, texts: seq<string>): seq<string> {
    if texts == [] then []
    else
      var last := texts[|texts| - 1];
      Misses(table, dims, hash, texts[..|texts| - 1])
      + if Lookup(table, dims, hash(last)) == Ok(None) then [last] else []
  }

  /** The results so far: an embedding, or an empty slot that is listed as a miss. */
  ghost predicate SlotsOk(model: string -> Embedding, texts: seq<string>, slots: seq<Option<Embedding>>,
                          open: seq<nat>) {
    && |slots| <= |texts|
    && forall k | 0 <= k < |slots| :: if slots[k].Some? then slots[k].value == model(texts[k]) else k in open
  }

  ghost predicate Listed(texts: seq<string>, indices: seq<nat>, picked: seq<string>) {
    && |indices| == |picked|
    && forall j | 0 <= j < |indices| :: indices[j] < |texts| && picked[j] == texts[indices[j]]
  }

  lemma SlotAdded(model: string -> Embedding, texts: seq<string>, slots: seq<Option<Embedding>>, open: seq<nat>,
                  picked: seq<string>, slot: Option<Embedding>)
    requires SlotsOk(model, texts, slots, open) && Listed(texts, open, picked) && |slots| < |texts|
    requires slot.Some? ==> slot.value == model(texts[|slots|])
    ensures slot.Some? ==> SlotsOk(model, texts, slots + [slot], open)
    ensures slot.None? ==> SlotsOk(model, texts, slots + [slot], open + [|slots|])
    ensures slot.None? ==> Listed(texts, open + [|slots|], picked + [texts[|slots|]])
  {
    assert |slots| in open + [|slots|];
  }

  /** The cache, if there is one, hashes injectively and is coherent. */
  ghost predicate Ready(cache: EmbeddingCache?, model: string -> Embedding)
    reads cache
  {
    cache != null ==> Injective(cache.hash) && cache.Coherent(model)
  }

  ghost function Uncached(cache: EmbeddingCache?, texts: seq<string>): seq<string>
    reads cache
  {
    if cache == null then texts else Misses(cache.table, cache.dims, cache.hash, texts)
  }

  /** The cache has the model's embedding of the text. */
  ghost predicate Holds(cache: EmbeddingCache, model: string -> Embedding, text: string)
    reads cache
  {
    cache.Answer(text) == Ok(Some(model(text)))
  }

  lemma UncachedStep(cache: EmbeddingCache?, texts: seq<string>, i: nat)
    requires i < |texts|
    ensures Uncached(cache, texts[..i + 1]) ==
            Uncached(cache, texts[..i]) + if cache == null || cache.Answer(texts[i]) == Ok(None) then [texts[i]] else []
  {
    assert texts[..i + 1][..i] == texts[..i];
  }

  /** No cache, or one that answers for each of the texts. */
  ghost predicate Readable(cache: EmbeddingCache?, texts: seq<string>)
    reads cache
  {
    cache != null ==> cache.reliable && forall k | 0 <= k < |texts| :: cache.Answer(texts[k]).Ok?
  }

  /** No cache, or one that can store the embeddings of the texts. */
  ghost predicate Writable(cache: EmbeddingCache?, model: string -> Embedding, texts: seq<string>)
    reads cache
  {
    cache != null ==> cache.reliable && forall k | 0 <= k < |texts| :: |model(texts[k])| == cache.dims
  }

  lemma CannotBeRead(cache: EmbeddingCache, texts: seq<string>, i: nat)
    requires i < |texts| && (cache.Answer(texts[i]).Err? || !cache.reliable)
    ensures !Readable(cache, texts)
  {
  }

  /** The first phase: ask the cache. */
  method CheckCache(cache: EmbeddingCache?, ghost model: string -> Embedding, texts: seq<string>)
    returns (r: Fallible<(seq<Option<Embedding>>, seq<nat>, seq<string>)>)
    requires Ready(cache, model)
    ensures r.Err? ==> r.error != NotFilled
    ensures Readable(cache, texts) ==> r.Ok?
    ensures r.Ok? ==>
      && |r.value.0| == |texts|
      && SlotsOk(model, texts, r.value.0, r.value.1)
      && Listed(texts, r.value.1, r.value.2)
      && r.value.2 == Uncached(cache, texts)
      && forall k | 0 <= k < |texts| :: r.value.0[k].Some? ==> cache != null && Holds(cache, model, texts[k])
  {
    var slots: seq<Option<Embedding>> := [];
    var indices: seq<nat>, uncached: seq<string> := [], [];
    assert Uncached(cache, texts[..0]) == [];
    assert SlotsOk(model, texts, slots, indices) && Listed(texts, indices, uncached);
    hide Uncached, Lookup, Readable, TableCoherent, SlotsOk, Listed;
    for i := 0 to |texts|
      invariant |slots| == i && SlotsOk(model, texts, slots, indices)
      invariant Listed(texts, indices, uncached)
      invariant uncached == Uncached(cache, texts[..i])
      invariant forall k | 0 <= k < i :: slots[k].Some? ==> cache != null && Holds(cache, model, texts[k])
    {
      UncachedStep(cache, texts, i);
      var cached: Option<Embedding> := None;
      if cache != null {
        var got := cache.Get(texts[i]);
        if got.Err? {
          CannotBeRead(cache, texts, i);
          return Err(got.error);
        }
        cached := got.value;
      }
      if cached.Some? {
        HitIsTruthful(cache, model, texts[i], cached.value);
      }
      SlotAdded(model, texts, slots, indices, uncached, cached);
      if cached.Some? {
        slots := slots + [cached];
      } else {
        slots := slots + [None];
        indices := indices + [i];
        uncached := uncached + [texts[i]];
      }
    }
    assert texts[..|texts|] == texts;
    return Ok((slots, indices, uncached));
  }

  /** The second phase: ask the model, `batchSize` texts at a time. */
  method EmbedInBatches(inner: Embedder, texts: seq<string>, batchSize: nat) returns (r: Fallible<seq<Embedding>>)
    requires batchSize >= 1
    modifies inner
    ensures (r == Err(Model) && !inner.reliable) || r == Ok(Embeddings(inner.model, texts))
    ensures r.Ok? ==> inner.asked == old(inner.asked) + texts
  {
    var all: seq<Embedding> := [];
    var done := 0;
    assert Embeddings(inner.model, texts[..0]) == [];
    hide Embeddings;
    while done < |texts|
      invariant 0 <= done <= |texts|
      invariant all == Embeddings(inner.model, texts[..done])
      invariant inner.asked == old(inner.asked) + texts[..done]
    {
      var next := if done + batchSize <= |texts| then done + batchSize else |texts|;
      var computed := inner.EmbedBatch(texts[done..next]);
      if computed.Err? {
        return Err(computed.error);
      }
      assert texts[..next] == texts[..done] + texts[done..next];
      EmbeddingsConcat(inner.model, texts[..done], texts[done..next]);
      Associate(old(inner.asked), texts[..done], texts[done..next]);
      all := all + computed.value;
      done := next;
    }
    assert texts[..|texts|] == texts;
    return Ok(all);
  }

  /** The third phase: fill the slots and store what was computed. */
  method FillAndStore(cache: EmbeddingCache?, ghost model: string -> Embedding, texts: seq<string>,
                      slots0: seq<Option<Embedding>>, indices: seq<nat>, computed: seq<Embedding>)
    returns (r: Fallible<seq<Option<Embedding>>>)
    requires Ready(cache, model)
    requires |slots0| == |texts| && SlotsOk(model, texts, slots0, indices)
    requires |indices| == |computed|
    requires forall j | 0 <= j < |indices| :: indices[j] < |texts| && computed[j] == model(texts[indices[j]])
    modifies cache
    ensures Ready(cache, model)
    ensures r.Err? ==> r.error != NotFilled
    ensures Writable(cache, model, texts) ==> r.Ok?
    ensures r.Ok? ==> |r.value| == |texts| && forall k | 0 <= k < |texts| :: r.value[k] == Some(model(texts[k]))
    ensures r.Ok? && cache != null ==> forall t :: old(Holds(cache, model, t)) ==> Holds(cache, model, t)
    ensures r.Ok? && cache != null ==> forall j | 0 <= j < |indices| :: Holds(cache, model, texts[indices[j]])
  {
    var slots := slots0;
    for j := 0 to |indices|
      invariant |slots| == |texts| && SlotsOk(model, texts, slots, indices[j..])
      invariant Ready(cache, model)
      invariant cache != null ==> forall t :: old(Holds(cache, model, t)) ==> Holds(cache, model, t)
      invariant cache != null ==> forall i | 0 <= i < j :: Holds(cache, model, texts[indices[i]])
    {
      var at := indices[j];
      slots := slots[at := Some(computed[j])];
      if cache != null {
        ghost var before := cache.table;
        WriteKeepsCoherence(before, cache.dims, cache.hash, model, texts[at]);
        var stored := cache.Put(texts[at], computed[j]);
        if stored.Err? {
          return Err(stored.error);
        }
        forall t
          ensures cache.Answer(t)
                  == if t == texts[at] then Ok(Some(model(t))) else Lookup(before, cache.dims, cache.hash(t))
        {
          WriteAnswers(cache.hash, before, cache.dims, texts[at], computed[j], t);
        }
      }
    }
    return Ok(slots);
  }

  method Collect(slots: seq<Option<Embedding>>) returns (r: Fallible<seq<Embedding>>)
    ensures
      if exists k | 0 <= k < |slots| :: slots[k].None? then r == Err(NotFilled)
      else r.Ok? && |r.value| == |slots| && forall k | 0 <= k < |slots| :: slots[k] == Some(r.value[k])
  {
    var out: seq<Embedding> := [];
    for k := 0 to |slots|
      invariant |out| == k && forall j | 0 <= j < k :: slots[j] == Some(out[j])
    {
      if slots[k].None? {
        return Err(NotFilled);
      }
      out := out + [slots[k].value];
    }
    return Ok(out);
  }

  /** `BatchEmbedder::embed_with_cache`. On success every embedding is the model's, the
      model was asked exactly for the texts the cache did not have, and the cache now has
      them all. */
  method EmbedWithCache(inner: Embedder, cache: EmbeddingCache?, batchSize: nat, texts: seq<string>)
    returns (r: Fallible<seq<Embedding>>)
    requires batchSize >= 1 && Ready(cache, inner.model)
    modifies inner, cache
    ensures Ready(cache, inner.model)
    ensures if r.Ok? then r.value == Embeddings(inner.model, texts) else r.error != NotFilled
    ensures inner.reliable && old(Readable(cache, texts)) && Writable(cache, inner.model, texts) ==> r.Ok?
    ensures r.Ok? ==> inner.asked == old(inner.asked) + old(Uncached(cache, texts))
    ensures r.Ok? && cache != null ==> forall k | 0 <= k < |texts| :: Holds(cache, inner.model, texts[k])
  {
    var checked := CheckCache(cache, inner.model, texts);
    if checked.Err? {
      return Err(checked.error);
    }
    var (slots, indices, uncached) := checked.value;
    if uncached != [] {
      var computed := EmbedInBatches(inner, uncached, batchSize);
      if computed.Err? {
        return Err(computed.error);
      }
      var filled := FillAndStore(cache, inner.model, texts, slots, indices, computed.value);
      if filled.Err? {
        return Err(filled.error);
      }
      slots := filled.value;
    }
    r := Collect(slots);
  }

  /** `embed_batch_cached` of the ingest pipeline: the same promise, kept without the slots
      when there is no cache. */
  method EmbedBatchCached(inner: Embedder, cache: EmbeddingCache?, batchSize: nat, texts: seq<string>)
    returns (r: Fallible<seq<Embedding>>)
    requires batchSize >= 1 && Ready(cache, inner.model)
    modifies inner, cache
    ensures Ready(cache, inner.model)
    ensures if r.Ok? then r.value == Embeddings(inner.model, texts) else r.error != NotFilled
    ensures inner.reliable && old(Readable(cache, texts)) && Writable(cache, inner.model, texts) ==> r.Ok?
    ensures r.Ok? ==> inner.asked == old(inner.asked) + old(Uncached(cache, texts))
    ensures r.Ok? && cache != null ==> forall k | 0 <= k < |texts| :: Holds(cache, inner.model, texts[k])
  {
    if cache == null {
      r := EmbedInBatches(inner, texts, batchSize);
      return;
    }
    var checked := CheckCache(cache, inner.model, texts);
    if checked.Err? {
      return Err(checked.error);
    }
    var (slots, indices, uncached) := checked.value;
    if uncached != [] {
      var computed := EmbedInBatches(inner, uncached, batchSize);
      if computed.Err? {
        return Err(computed.error);
      }
      var filled := FillAndStore(cache, inner.model, texts, slots, indices, computed.value);
      if filled.Err? {
        return Err(filled.error);
      }
      slots := filled.value;
    }
    r := Collect(slots);
  }
}
