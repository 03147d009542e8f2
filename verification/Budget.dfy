/** The token budget of assembled context. Tokens are estimated from words at 1.3 a word,
    rounded up; the factors are exact here, as double arithmetic makes them for every count
    that fits in 32 bits. */
module Budget {
  import opened WhiteSpace

  // ----- Words

  predicate IsWord(w: string) {
    w != [] && forall k | 0 <= k < |w| :: !White(w[k])
  }

  function RunLength(t: string): (n: nat)
    ensures n <= |t| && (t != [] && !White(t[0]) ==> n > 0)
    ensures forall k | 0 <= k < n :: !White(t[k])
  {
    if t == [] || White(t[0]) then 0 else 1 + RunLength(t[1..])
  }

  /** `split_whitespace`. */
  function Words(t: string): (ws: seq<string>)
    ensures forall i | 0 <= i < |ws| :: IsWord(ws[i])
    decreases |t|
  {
    if t == [] then []
    else if White(t[0]) then Words(t[1..])
    else [t[..RunLength(t)]] + Words(t[RunLength(t)..])
  }

  /** `join(" ")`. */
  function Join(ws: seq<string>): string {
    if ws == [] then [] else if |ws| == 1 then ws[0] else ws[0] + " " + Join(ws[1..])
  }

  lemma {:induction false} RunOfWord(w: string, rest: string)
    requires IsWord(w) && (rest == [] || White(rest[0]))
    ensures RunLength(w + rest) == |w|
  {
    assert (w + rest)[1..] == w[1..] + rest;
    if |w| == 1 {
      assert w[1..] + rest == rest;
    } else {
      RunOfWord(w[1..], rest);
    }
  }

  /** Joined words fall apart into the same words. */
  lemma {:induction false} WordsOfJoin(ws: seq<string>)
    requires forall i | 0 <= i < |ws| :: IsWord(ws[i])
    ensures Words(Join(ws)) == ws
  {
    if ws != [] {
      var w := ws[0];
      var rest := if |ws| == 1 then [] else " " + Join(ws[1..]);
      assert Join(ws) == w + rest;
      RunOfWord(w, rest);
      assert (w + rest)[..|w|] == w && (w + rest)[|w|..] == rest;
      if |ws| > 1 {
        assert rest[1..] == Join(ws[1..]);
        WordsOfJoin(ws[1..]);
      }
    }
  }

  lemma {:induction false} WordsSplitAt(a: string, c: char, b: string)
    requires White(c)
    ensures Words(a + [c] + b) == Words(a) + Words(b)
    decreases |a|
  {
    var t := a + [c] + b;
    if a == [] {
      assert t[1..] == b;
    } else if White(a[0]) {
      assert t[1..] == a[1..] + [c] + b;
      WordsSplitAt(a[1..], c, b);
    } else {
      var n := RunLength(a);
      RunEndsBy(a, [c] + b);
      assert a + ([c] + b) == t;
      assert t[..n] == a[..n] && t[n..] == a[n..] + [c] + b;
      WordsSplitAt(a[n..], c, b);
    }
  }

  lemma {:induction false} RunEndsBy(a: string, rest: string)
    requires rest != [] && White(rest[0])
    ensures RunLength(a + rest) == RunLength(a)
  {
    if a == [] {
      assert a + rest == rest;
    } else if !White(a[0]) {
      assert (a + rest)[1..] == a[1..] + rest;
      RunEndsBy(a[1..], rest);
    }
  }

  /** Words are what white space leaves: a text falls apart at every white character, and a
      stretch without one is a single word. */
  lemma WordsAreSeparated(a: string, c: char, b: string, w: string)
    requires White(c) && IsWord(w)
    ensures Words(a + [c] + b) == Words(a) + Words(b)
    ensures Words("") == [] && Words(w) == [w]
  {
    WordsSplitAt(a, c, b);
    RunOfWord(w, []);
    assert w + [] == w && w[|w|..] == [] && w[..|w|] == w;
  }

  // ----- Estimates

  /** Thirteen tenths, rounded up. */
  function TokensFor(words: nat): nat {
    (13 * words + 9) / 10
  }

  function EstimateTokens(text: string): nat {
    if text == [] then 0 else TokensFor(|Words(text)|)
  }

  /** `tokens` is 1.3 for each of the words, rounded up. */
  ghost predicate IsEstimate(text: string, tokens: nat) {
    10 * tokens - 10 < 13 * |Words(text)| <= 10 * tokens
  }

  lemma EstimateIsRoundedUp(text: string, tokens: nat)
    ensures EstimateTokens(text) == tokens <==> IsEstimate(text, tokens)
  {
  }

  function MaxWords(tokens: nat): nat {
    10 * tokens / 13
  }

  function TruncateToTokens(text: string, maxTokens: nat): string {
    var words := Words(text);
    if |words| <= MaxWords(maxTokens) then text else Join(words[..MaxWords(maxTokens)])
  }

  /** Rounding fits: as many words are allowed as have an estimate within the budget. */
  lemma WordsFitIff(words: nat, tokens: nat)
    ensures words <= MaxWords(tokens) <==> TokensFor(words) <= tokens
  {
  }

  /** Truncated text is within its budget, whatever it was. */
  lemma TruncationFits(text: string, tokens: nat)
    ensures EstimateTokens(TruncateToTokens(text, tokens)) <= tokens
    ensures EstimateTokens(text) > tokens ==> |Words(TruncateToTokens(text, tokens))| == MaxWords(tokens)
  {
    var words := Words(text);
    WordsFitIff(|words|, tokens);
    if |words| > MaxWords(tokens) {
      WordsOfJoin(words[..MaxWords(tokens)]);
      WordsFitIff(MaxWords(tokens), tokens);
    }
  }

  // ----- The selection

  datatype Chunk = Chunk(id: int, content: string)

  /** The first chunk with that id. */
  function Find(chunks: seq<Chunk>, id: int): seq<Chunk> {
    if chunks == [] then [] else if chunks[0].id == id then [chunks[0]] else Find(chunks[1..], id)
  }

  /** The chunks of the results, best first; results without one are skipped. */
  function Found(results: seq<int>, chunks: seq<Chunk>): seq<Chunk> {
    if results == [] then [] else Find(chunks, results[0]) + Found(results[1..], chunks)
  }

  function Cost(chunks: seq<Chunk>): nat {
    if chunks == [] then 0 else Cost(chunks[..|chunks| - 1]) + EstimateTokens(chunks[|chunks| - 1].content)
  }

  /** Below that many tokens a truncated chunk is not worth having. */
  const WORTHWHILE: nat := 100

  method FindChunk(chunks: seq<Chunk>, id: int) returns (chunk: seq<Chunk>)
    ensures chunk == Find(chunks, id) && |chunk| <= 1
  {
    for i := 0 to |chunks|
      invariant Find(chunks[i..], id) == Find(chunks, id)
    {
      if chunks[i].id == id {
        return [chunks[i]];
      }
    }
    return [];
  }

  /** The first `n` found chunks fit, and the next does not. */
  ghost predicate FitsExactly(found: seq<Chunk>, n: nat, maxTokens: nat) {
    && n <= |found|
    && Cost(found[..n]) <= maxTokens
    && (n < |found| ==> Cost(found[..n + 1]) > maxTokens)
  }

  /** The selection: the found chunks that fit, then the next one cut down to what is left,
      if that is worthwhile. */
  ghost predicate IsSelection(found: seq<Chunk>, maxTokens: nat, n: nat, selected: seq<Chunk>) {
    && FitsExactly(found, n, maxTokens)
    && var left := maxTokens - Cost(found[..n]);
       selected == found[..n] +
         if n < |found| && left > WORTHWHILE
         then [found[n].(content := TruncateToTokens(found[n].content, left))]
         else []
  }

  lemma CostOfNext(found: seq<Chunk>, n: nat)
    requires n < |found|
    ensures Cost(found[..n + 1]) == Cost(found[..n]) + EstimateTokens(found[n].content)
  {
    assert found[..n + 1][..n] == found[..n];
  }

  lemma NextFound(results: seq<int>, i: nat, chunks: seq<Chunk>)
    requires i < |results|
    ensures Found(results[i..], chunks) == Find(chunks, results[i]) + Found(results[i + 1..], chunks)
  {
    assert results[i..][1..] == results[i + 1..];
  }

  lemma SuffixStep(found: seq<Chunk>, n: nat, chunk: Chunk, rest: seq<Chunk>)
    requires n <= |found| && found[n..] == [chunk] + rest
    ensures n < |found| && found[n] == chunk && found[n + 1..] == rest && found[..n + 1] == found[..n] + [chunk]
  {
    assert found[n..][0] == chunk && found[n..][1..] == rest;
  }

  /** `apply_token_budget`. */
  method ApplyTokenBudget(results: seq<int>, chunks: seq<Chunk>, maxTokens: nat)
    returns (selected: seq<Chunk>)
    ensures exists n :: IsSelection(Found(results, chunks), maxTokens, n, selected)
  {
    ghost var found := Found(results, chunks);
    ghost var n := 0;
    var usedTokens := 0;
    selected := [];
    assert results[0..] == results && Cost(found[..0]) == 0;
    hide EstimateTokens, TruncateToTokens, Cost, Found, Find;
    for i := 0 to |results|
      invariant n <= |found| && selected == found[..n] && found[n..] == Found(results[i..], chunks)
      invariant usedTokens == Cost(found[..n]) <= maxTokens
    {
      NextFound(results, i, chunks);
      var chunk := FindChunk(chunks, results[i]);
      if chunk != [] {
        assert chunk == [chunk[0]];
        SuffixStep(found, n, chunk[0], Found(results[i + 1..], chunks));
        CostOfNext(found, n);
        var chunkTokens := EstimateTokens(chunk[0].content);
        if usedTokens + chunkTokens <= maxTokens {
          usedTokens := usedTokens + chunkTokens;
          selected := selected + [chunk[0]];
          n := n + 1;
        } else {
          var remaining := maxTokens - usedTokens;
          if remaining > WORTHWHILE {
            var truncated := TruncateToTokens(chunk[0].content, remaining);
            selected := selected + [chunk[0].(content := truncated)];
          }
          assert IsSelection(found, maxTokens, n, selected);
          return;
        }
      }
    }
    assert results[|results|..] == [];
    NothingFound(chunks);
    assert IsSelection(found, maxTokens, n, selected);
  }

  lemma NothingFound(chunks: seq<Chunk>)
    ensures Found([], chunks) == []
  {
  }

  /** Whatever is selected costs no more than the budget. */
  lemma BudgetIsKept(found: seq<Chunk>, maxTokens: nat, n: nat, selected: seq<Chunk>)
    requires IsSelection(found, maxTokens, n, selected)
    ensures Cost(selected) <= maxTokens
  {
    hide EstimateTokens, TruncateToTokens;
    var left := maxTokens - Cost(found[..n]);
    if n < |found| && left > WORTHWHILE {
      TruncationFits(found[n].content, left);
      assert selected[..n] == found[..n];
    } else {
      assert selected == found[..n];
    }
  }

  ghost function Sum(costs: seq<nat>): nat {
    if costs == [] then 0 else Sum(costs[..|costs| - 1]) + costs[|costs| - 1]
  }

  lemma {:induction false} CostIsSum(chunks: seq<Chunk>, costs: seq<nat>)
    requires |chunks| == |costs| && forall i | 0 <= i < |chunks| :: IsEstimate(chunks[i].content, costs[i])
    ensures Cost(chunks) == Sum(costs)
  {
    if chunks != [] {
      CostIsSum(chunks[..|chunks| - 1], costs[..|costs| - 1]);
      EstimateIsRoundedUp(chunks[|chunks| - 1].content, costs[|costs| - 1]);
    }
  }

  /** The budget in plain numbers: 1.3 tokens a word, rounded up for each selected chunk, add
      up to no more than the budget. */
  lemma SelectedWordsFit(found: seq<Chunk>, maxTokens: nat, n: nat, selected: seq<Chunk>, costs: seq<nat>)
    requires IsSelection(found, maxTokens, n, selected)
    requires |selected| == |costs| && forall i | 0 <= i < |selected| :: IsEstimate(selected[i].content, costs[i])
    ensures Sum(costs) <= maxTokens
  {
    BudgetIsKept(found, maxTokens, n, selected);
    CostIsSum(selected, costs);
  }

  /** And the next chunk would not have fitted: with the whole chunks it adds up to more. */
  lemma NextChunkDoesNotFit(found: seq<Chunk>, maxTokens: nat, n: nat, selected: seq<Chunk>, costs: seq<nat>)
    requires IsSelection(found, maxTokens, n, selected) && n < |found|
    requires |costs| == n + 1 && forall i | 0 <= i <= n :: IsEstimate(found[i].content, costs[i])
    ensures found[..n] <= selected && Sum(costs) > maxTokens
    ensures |selected| == n + 1 <==> maxTokens - Sum(costs[..n]) > 100
  {
    CostIsSum(found[..n + 1], costs);
    CostIsSum(found[..n], costs[..n]);
  }

  lemma {:induction false} CostGrows(found: seq<Chunk>, n: nat, m: nat)
    requires n <= m <= |found|
    ensures Cost(found[..n]) <= Cost(found[..m])
    decreases m - n
  {
    if n < m {
      CostGrows(found, n, m - 1);
      assert found[..m][..m - 1] == found[..m - 1];
    }
  }

  /** The number of whole chunks is determined: all that fit from the front, and no more. */
  lemma SelectionIsGreedy(found: seq<Chunk>, maxTokens: nat, n: nat, m: nat)
    requires FitsExactly(found, n, maxTokens) && m <= |found|
    ensures Cost(found[..m]) <= maxTokens <==> m <= n
  {
    if m <= n {
      CostGrows(found, m, n);
    } else {
      CostGrows(found, n + 1, m);
    }
  }

  /** A chunk that did not fit is really cut: it loses words and keeps as many as the rest of
      the budget allows. */
  lemma LastChunkIsCut(found: seq<Chunk>, maxTokens: nat, n: nat, selected: seq<Chunk>)
    requires IsSelection(found, maxTokens, n, selected) && |selected| > n
    ensures
      var left, words := maxTokens - Cost(found[..n]), Words(found[n].content);
      MaxWords(left) < |words| && Words(selected[n].content) == words[..MaxWords(left)]
  {
    var left, words := maxTokens - Cost(found[..n]), Words(found[n].content);
    assert found[..n + 1][..n] == found[..n];
    WordsFitIff(|words|, left);
    WordsOfJoin(words[..MaxWords(left)]);
  }

  /** A result stands for the first chunk with its id, and for none if there is no such chunk;
      the results are looked up one after the other. */
  lemma FoundMeaning(results: seq<int>, id: int, chunks: seq<Chunk>, i: nat)
    requires i <= |chunks| && forall j | 0 <= j < i :: chunks[j].id != id
    requires i < |chunks| ==> chunks[i].id == id
    ensures Found(results + [id], chunks) == Found(results, chunks) + chunks[i..if i < |chunks| then i + 1 else i]
  {
    FoundAppend(results, id, chunks);
    FirstWithId(chunks, id, i);
  }

  lemma {:induction false} FoundAppend(results: seq<int>, id: int, chunks: seq<Chunk>)
    ensures Found(results + [id], chunks) == Found(results, chunks) + Find(chunks, id)
  {
    if results == [] {
      assert ([] + [id])[1..] == [];
      NothingFound(chunks);
    } else {
      assert (results + [id])[0] == results[0] && (results + [id])[1..] == results[1..] + [id];
      FoundAppend(results[1..], id, chunks);
    }
  }

  lemma {:induction false} FirstWithId(chunks: seq<Chunk>, id: int, i: nat)
    requires i <= |chunks| && forall j | 0 <= j < i :: chunks[j].id != id
    requires i < |chunks| ==> chunks[i].id == id
    ensures Find(chunks, id) == chunks[i..if i < |chunks| then i + 1 else i]
  {
    if i > 0 {
      FirstWithId(chunks[1..], id, i - 1);
    }
  }
}
