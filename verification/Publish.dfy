/** Which member of the agreeing set becomes the published node. */
module Publish {
  import opened Clique
  import opened Similarity
  import opened Utf8Text

  datatype FusionStrategy = Consensus | Average | Longest

  datatype Answer = Answer(text: string, author: string)

  /** Length of a string in UTF-8 bytes. */
  function ByteLength(text: string): nat {
    if text == [] then 0
    else
      var c := text[|text| - 1] as int;
      ByteLength(text[..|text| - 1]) +
      if c < 0x80 then 1 else if c < 0x800 then 2 else if c < 0x10000 then 3 else 4
  }

  /** It is what the UTF-8 code of the text takes. */
  lemma {:induction false} ByteLengthIsEncoded(text: string)
    ensures ByteLength(text) == |Encode(text)|
  {
    hide EncodeChar;
    if text != [] {
      var front, last := text[..|text| - 1], [text[|text| - 1]];
      ByteLengthIsEncoded(front);
      EncodeConcat(front, last);
      assert text == front + last;
      CharWidth(last[0]);
      assert last[1..] == [];
      assert Encode(last) == EncodeChar(last[0]);
    }
  }

  lemma CharWidth(c: char)
    ensures |EncodeChar(c)| == ByteLength([c])
  {
    assert [c][..0] == [];
  }

  function TrustOf(trust: map<string, real>, author: string): real {
    if author in trust then trust[author] else 1.0
  }

  /** What a candidate is worth before its author's trust is weighed in. */
  function Base(sqrt: real -> real, strategy: FusionStrategy, center: Vector, vector: Vector, text: string): real {
    match strategy
    case Longest => ByteLength(text) as real
    case Consensus | Average => Cosine(sqrt, center, vector)
  }

  function Weigh(base: real, trust: real): real {
    base * (0.5 + 0.5 * if trust > 0.0 then trust else 0.0)
  }

  /** What a weight does to a base: an author without a record or with trust 1 keeps it, trust 0
      or less halves it, and in between it grows evenly. */
  lemma WeightOfTrust(base: real, trust: map<string, real>, author: string)
    ensures author !in trust ==> Weigh(base, TrustOf(trust, author)) == base
    ensures Weigh(base, 1.0) == base
    ensures TrustOf(trust, author) <= 0.0 ==> 2.0 * Weigh(base, TrustOf(trust, author)) == base
    ensures author in trust && 0.0 <= trust[author] ==>
            2.0 * Weigh(base, TrustOf(trust, author)) == base + base * trust[author]
  {
  }

  /** The round being decided: one vector per pending answer, and a set of indices. */
  ghost predicate ValidRound(agreeing: seq<nat>, pending: seq<Answer>, vectors: seq<Vector>) {
    && |pending| == |vectors|
    && SameDims(vectors)
    && IndexList(agreeing, |pending|)
  }

  /** The trust-weighted score of candidate `i` against a given centre. */
  function ScoreAgainst(sqrt: real -> real, strategy: FusionStrategy, center: Vector, pending: seq<Answer>,
                        vectors: seq<Vector>, trust: map<string, real>, i: nat): real
    requires |pending| == |vectors| && i < |pending|
  {
    Weigh(Base(sqrt, strategy, center, vectors[i], pending[i].text), TrustOf(trust, pending[i].author))
  }

  function Score(sqrt: real -> real, strategy: FusionStrategy, agreeing: seq<nat>, pending: seq<Answer>,
                 vectors: seq<Vector>, trust: map<string, real>, i: nat): real
    requires |pending| == |vectors| && SameDims(vectors) && i < |pending|
    requires forall k | 0 <= k < |agreeing| :: agreeing[k] < |pending|
  {
    ScoreAgainst(sqrt, strategy, CentroidOf(agreeing, vectors), pending, vectors, trust, i)
  }

  /** Index 0 for an empty set; else the earliest member no other member outscores. */
  ghost predicate IsPublished(sqrt: real -> real, strategy: FusionStrategy, agreeing: seq<nat>,
                              pending: seq<Answer>, vectors: seq<Vector>, trust: map<string, real>, best: nat)
    requires ValidRound(agreeing, pending, vectors)
  {
    if agreeing == [] then best == 0 else
    && best in agreeing
    && (forall i | i in agreeing ::
          Score(sqrt, strategy, agreeing, pending, vectors, trust, i)
          <= Score(sqrt, strategy, agreeing, pending, vectors, trust, best))
    && (forall i | i in agreeing && i < best ::
          Score(sqrt, strategy, agreeing, pending, vectors, trust, i)
          < Score(sqrt, strategy, agreeing, pending, vectors, trust, best))
  }

  /** The first position of a greatest score among the first `k`. */
  ghost function FirstMax(scores: seq<real>, k: nat): (p: nat)
    requires 1 <= k <= |scores|
    ensures p < k
    ensures forall j | 0 <= j < k :: scores[j] <= scores[p]
    ensures forall j | 0 <= j < p :: scores[j] < scores[p]
  {
    if k == 1 then 0
    else
      var p := FirstMax(scores, k - 1);
      if scores[p] < scores[k - 1] then k - 1 else p
  }

  /** The scores of the positions of `agreeing`, against a given centre. */
  ghost function ScoresAgainst(sqrt: real -> real, strategy: FusionStrategy, center: Vector, agreeing: seq<nat>,
                               pending: seq<Answer>, vectors: seq<Vector>, trust: map<string, real>): seq<real>
    requires |pending| == |vectors| && forall k | 0 <= k < |agreeing| :: agreeing[k] < |pending|
  {
    seq(|agreeing|, k requires 0 <= k < |agreeing| =>
      ScoreAgainst(sqrt, strategy, center, pending, vectors, trust, agreeing[k]))
  }

  ghost function Scores(sqrt: real -> real, strategy: FusionStrategy, agreeing: seq<nat>, pending: seq<Answer>,
                        vectors: seq<Vector>, trust: map<string, real>): seq<real>
    requires ValidRound(agreeing, pending, vectors)
  {
    ScoresAgainst(sqrt, strategy, CentroidOf(agreeing, vectors), agreeing, pending, vectors, trust)
  }

  /** The choice as a function of the round. */
  ghost function Chosen(sqrt: real -> real, strategy: FusionStrategy, agreeing: seq<nat>, pending: seq<Answer>,
                        vectors: seq<Vector>, trust: map<string, real>): nat
    requires ValidRound(agreeing, pending, vectors)
  {
    if agreeing == [] then 0
    else agreeing[FirstMax(Scores(sqrt, strategy, agreeing, pending, vectors, trust), |agreeing|)]
  }

  lemma PublishedByPosition(sqrt: real -> real, strategy: FusionStrategy, agreeing: seq<nat>,
                            pending: seq<Answer>, vectors: seq<Vector>, trust: map<string, real>, p: nat)
    requires ValidRound(agreeing, pending, vectors) && p < |agreeing|
    requires
      var scores := Scores(sqrt, strategy, agreeing, pending, vectors, trust);
      && (forall j | 0 <= j < |agreeing| :: scores[j] <= scores[p])
      && (forall j | 0 <= j < p :: scores[j] < scores[p])
    ensures IsPublished(sqrt, strategy, agreeing, pending, vectors, trust, agreeing[p])
  {
    var scores := Scores(sqrt, strategy, agreeing, pending, vectors, trust);
    forall i | i in agreeing
      ensures Score(sqrt, strategy, agreeing, pending, vectors, trust, i) <= scores[p]
      ensures i < agreeing[p] ==> Score(sqrt, strategy, agreeing, pending, vectors, trust, i) < scores[p]
    {
      var j :| 0 <= j < |agreeing| && agreeing[j] == i;
      assert scores[j] <= scores[p];
    }
  }

  lemma ChosenIsPublished(sqrt: real -> real, strategy: FusionStrategy, agreeing: seq<nat>,
                          pending: seq<Answer>, vectors: seq<Vector>, trust: map<string, real>)
    requires ValidRound(agreeing, pending, vectors)
    ensures IsPublished(sqrt, strategy, agreeing, pending, vectors, trust,
              Chosen(sqrt, strategy, agreeing, pending, vectors, trust))
  {
    if agreeing != [] {
      var p := FirstMax(Scores(sqrt, strategy, agreeing, pending, vectors, trust), |agreeing|);
      PublishedByPosition(sqrt, strategy, agreeing, pending, vectors, trust, p);
    }
  }

  /** `choose_published`. */
  method ChoosePublished(sqrt: real -> real, strategy: FusionStrategy, agreeing: seq<nat>,
                         pending: seq<Answer>, vectors: seq<Vector>, trust: map<string, real>)
    returns (best: nat)
    requires ValidRound(agreeing, pending, vectors)
    ensures best == Chosen(sqrt, strategy, agreeing, pending, vectors, trust)
    ensures IsPublished(sqrt, strategy, agreeing, pending, vectors, trust, best)
  {
    if |agreeing| == 0 {
      return 0;
    }
    var center := Centroid(agreeing, vectors);
    best := HighestScoring(sqrt, strategy, center, agreeing, pending, vectors, trust);
    ChosenIsPublished(sqrt, strategy, agreeing, pending, vectors, trust);
  }

  /** The loop of `choose_published`. */
  method HighestScoring(sqrt: real -> real, strategy: FusionStrategy, center: Vector, agreeing: seq<nat>,
                        pending: seq<Answer>, vectors: seq<Vector>, trust: map<string, real>)
    returns (best: nat)
    requires |pending| == |vectors| && agreeing != []
    requires forall k | 0 <= k < |agreeing| :: agreeing[k] < |pending|
    ensures
      var scores := ScoresAgainst(sqrt, strategy, center, agreeing, pending, vectors, trust);
      best == agreeing[FirstMax(scores, |agreeing|)]
  {
    hide ScoreAgainst;
    best := agreeing[0];
    var bestScore := NegInf;
    ghost var scores := ScoresAgainst(sqrt, strategy, center, agreeing, pending, vectors, trust);
    for k := 0 to |agreeing|
      invariant k == 0 ==> bestScore == NegInf
      invariant k > 0 ==> best == agreeing[FirstMax(scores, k)] && bestScore == Num(scores[FirstMax(scores, k)])
    {
      var score := ScoreAgainst(sqrt, strategy, center, pending, vectors, trust, agreeing[k]);
      assert score == scores[k];
      if bestScore.Below(Num(score)) {
        bestScore := Num(score);
        best := agreeing[k];
      }
    }
  }

  /** The published candidate is determined by the round. */
  lemma PublishedIsUnique(sqrt: real -> real, strategy: FusionStrategy, agreeing: seq<nat>,
                          pending: seq<Answer>, vectors: seq<Vector>, trust: map<string, real>, i: nat, j: nat)
    requires ValidRound(agreeing, pending, vectors)
    requires IsPublished(sqrt, strategy, agreeing, pending, vectors, trust, i)
    requires IsPublished(sqrt, strategy, agreeing, pending, vectors, trust, j)
    ensures i == j
  {
    assert agreeing == [] ==> i == j;
  }

  /** More trust means a higher score for the same base exactly when the base is positive. */
  lemma TrustHelpsIffBasePositive(base: real, high: real, low: real)
    requires high > low >= 0.0
    ensures Weigh(base, high) > Weigh(base, low) <==> base > 0.0
  {
    assert Weigh(base, high) - Weigh(base, low) == base * (0.5 * (high - low));
    assert 0.5 * (high - low) > 0.0;
  }

  /** With a positive threshold every member of an agreeing set has a positive base under
      the two centroid strategies, so trust never inverts the ranking: of two members
      equally close to the centroid the more trusted one scores higher, and nobody who is
      as close as the published author is trusted more. */
  lemma TrustNeverInverts(sqrt: real -> real, threshold: real, strategy: FusionStrategy, agreeing: seq<nat>,
                          pending: seq<Answer>, vectors: seq<Vector>, trust: map<string, real>, best: nat, i: nat)
    requires IsRoot(sqrt) && threshold > 0.0 && strategy != Longest
    requires ValidRound(agreeing, pending, vectors) && |agreeing| >= 2
    requires forall a, b | 0 <= a < b < |agreeing| ::
      Cosine(sqrt, vectors[agreeing[a]], vectors[agreeing[b]]) >= threshold
    requires IsPublished(sqrt, strategy, agreeing, pending, vectors, trust, best)
    requires i in agreeing
    ensures Cosine(sqrt, CentroidOf(agreeing, vectors), vectors[i]) > 0.0
    ensures Cosine(sqrt, CentroidOf(agreeing, vectors), vectors[i])
            == Cosine(sqrt, CentroidOf(agreeing, vectors), vectors[best])
            && TrustOf(trust, pending[best].author) >= 0.0
            ==> TrustOf(trust, pending[i].author) <= TrustOf(trust, pending[best].author)
  {
    var k :| 0 <= k < |agreeing| && agreeing[k] == i;
    CentroidPointsAtMembers(sqrt, agreeing, vectors, k);
    var ti, tb := TrustOf(trust, pending[i].author), TrustOf(trust, pending[best].author);
    if ti > tb >= 0.0 {
      TrustHelpsIffBasePositive(Cosine(sqrt, CentroidOf(agreeing, vectors), vectors[i]), ti, tb);
    }
  }
}
