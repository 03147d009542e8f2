/** How far trust decides which member of the agreeing set is published. The comment at the
    call site says that it comes first and closeness only breaks ties. */
module TrustOrder {
  import opened Clique
  import opened Publish
  import opened Similarity

  /** Trust as the score counts it: never below zero. */
  function Clamped(trust: map<string, real>, author: string): real {
    if TrustOf(trust, author) > 0.0 then TrustOf(trust, author) else 0.0
  }

  /** No member of the agreeing set is trusted more than `best`. */
  ghost predicate MostTrusted(agreeing: seq<nat>, pending: seq<Answer>, trust: map<string, real>, best: nat)
    requires forall i | i in agreeing :: i < |pending|
  {
    best in agreeing &&
    forall i | i in agreeing :: Clamped(trust, pending[i].author) <= Clamped(trust, pending[best].author)
  }

  // ----- Two members

  lemma QuotientOrder(x: real, y: real, d: real)
    requires d > 0.0
    ensures x > y / d <==> x * d > y
  {
    assert y / d * d == y;
    if x > y / d {
      ProductOrder(x, y / d, d);
    } else {
      ProductOrder(y / d, x, d);
    }
  }

  lemma ProductOrder(x: real, y: real, d: real)
    requires d > 0.0 && x >= y
    ensures x * d >= y * d && (x > y ==> x * d > y * d)
  {
    assert x * d - y * d == (x - y) * d;
  }

  lemma QuotientEquals(x: real, y: real, d: real)
    requires d > 0.0
    ensures x == y / d <==> x * d == y
  {
    assert y / d * d == y && x * d / d == x;
  }

  lemma WeighDoubled(base: real, trust: real)
    requires trust >= 0.0
    ensures 2.0 * Weigh(base, trust) == base * (1.0 + trust)
  {
    assert Weigh(base, trust) == base * (0.5 + 0.5 * trust);
    assert 0.5 + 0.5 * trust == 0.5 * (1.0 + trust);
  }

  /** A base at trust `low` that is worth as much as base `other` at trust `high`. */
  function Worth(other: real, high: real, low: real): real
    requires low >= 0.0
  {
    other * (1.0 + high) / (1.0 + low)
  }

  /** The less trusted of two members outscores the other one exactly if its base is greater
      by more than the ratio of the weights. */
  lemma LessTrustedWinsIff(base: real, low: real, other: real, high: real)
    requires low >= 0.0 && high >= 0.0
    ensures Weigh(base, low) > Weigh(other, high) <==> base > Worth(other, high, low)
    ensures Weigh(base, low) == Weigh(other, high) <==> base == Worth(other, high, low)
  {
    WeighDoubled(base, low);
    WeighDoubled(other, high);
    hide Weigh;
    QuotientOrder(base, other * (1.0 + high), 1.0 + low);
    QuotientEquals(base, other * (1.0 + high), 1.0 + low);
  }

  // ----- One round

  ghost function BaseOf(sqrt: real -> real, strategy: FusionStrategy, agreeing: seq<nat>, pending: seq<Answer>,
                        vectors: seq<Vector>, i: nat): real
    requires ValidRound(agreeing, pending, vectors) && i < |pending|
  {
    Base(sqrt, strategy, CentroidOf(agreeing, vectors), vectors[i], pending[i].text)
  }

  /** What the base of `i` may not exceed if `m` is to outscore it. */
  ghost function Allowance(sqrt: real -> real, strategy: FusionStrategy, agreeing: seq<nat>, pending: seq<Answer>,
                           vectors: seq<Vector>, trust: map<string, real>, m: nat, i: nat): real
    requires ValidRound(agreeing, pending, vectors) && m < |pending| && i < |pending|
  {
    Worth(BaseOf(sqrt, strategy, agreeing, pending, vectors, m),
      Clamped(trust, pending[m].author), Clamped(trust, pending[i].author))
  }

  /** Neither the score nor, at equal scores, the order lets `i` be chosen over `m`. */
  ghost predicate Withstands(sqrt: real -> real, strategy: FusionStrategy, agreeing: seq<nat>, pending: seq<Answer>,
                             vectors: seq<Vector>, trust: map<string, real>, m: nat, i: nat)
    requires ValidRound(agreeing, pending, vectors) && m < |pending| && i < |pending|
  {
    var base, most := BaseOf(sqrt, strategy, agreeing, pending, vectors, i),
                      Allowance(sqrt, strategy, agreeing, pending, vectors, trust, m, i);
    base < most || (base == most && m < i)
  }

  lemma AllowanceMeaning(sqrt: real -> real, strategy: FusionStrategy, agreeing: seq<nat>, pending: seq<Answer>,
                         vectors: seq<Vector>, trust: map<string, real>, m: nat, i: nat)
    requires ValidRound(agreeing, pending, vectors) && m < |pending| && i < |pending|
    ensures
      var base, most := BaseOf(sqrt, strategy, agreeing, pending, vectors, i),
                        Allowance(sqrt, strategy, agreeing, pending, vectors, trust, m, i);
      var si, sm := Score(sqrt, strategy, agreeing, pending, vectors, trust, i),
                    Score(sqrt, strategy, agreeing, pending, vectors, trust, m);
      (si > sm <==> base > most) && (si == sm <==> base == most)
  {
    ScoreIsWeighed(sqrt, strategy, agreeing, pending, vectors, trust, i);
    ScoreIsWeighed(sqrt, strategy, agreeing, pending, vectors, trust, m);
    hide BaseOf, Score, Weigh, Clamped, ValidRound, Worth;
    ClampedIsNotNegative(trust, pending[i].author);
    ClampedIsNotNegative(trust, pending[m].author);
    LessTrustedWinsIff(
      BaseOf(sqrt, strategy, agreeing, pending, vectors, i), Clamped(trust, pending[i].author),
      BaseOf(sqrt, strategy, agreeing, pending, vectors, m), Clamped(trust, pending[m].author));
  }

  lemma ClampedIsNotNegative(trust: map<string, real>, author: string)
    ensures Clamped(trust, author) >= 0.0
  {
  }

  lemma ScoreIsWeighed(sqrt: real -> real, strategy: FusionStrategy, agreeing: seq<nat>, pending: seq<Answer>,
                       vectors: seq<Vector>, trust: map<string, real>, i: nat)
    requires ValidRound(agreeing, pending, vectors) && i < |pending|
    ensures Score(sqrt, strategy, agreeing, pending, vectors, trust, i)
            == Weigh(BaseOf(sqrt, strategy, agreeing, pending, vectors, i), Clamped(trust, pending[i].author))
  {
  }

  /** In a round the published author is a most trusted one if and only if some most trusted
      member withstands every less trusted one. */
  lemma TrustIsFirstIff(sqrt: real -> real, strategy: FusionStrategy, agreeing: seq<nat>, pending: seq<Answer>,
                        vectors: seq<Vector>, trust: map<string, real>, best: nat)
    requires ValidRound(agreeing, pending, vectors) && agreeing != []
    requires IsPublished(sqrt, strategy, agreeing, pending, vectors, trust, best)
    ensures MostTrusted(agreeing, pending, trust, best) <==>
      exists m | m in agreeing ::
        && MostTrusted(agreeing, pending, trust, m)
        && forall i | i in agreeing && Clamped(trust, pending[i].author) < Clamped(trust, pending[m].author) ::
             Withstands(sqrt, strategy, agreeing, pending, vectors, trust, m, i)
  {
    if MostTrusted(agreeing, pending, trust, best) {
      forall i | i in agreeing && i != best
        ensures Withstands(sqrt, strategy, agreeing, pending, vectors, trust, best, i)
      {
        AllowanceMeaning(sqrt, strategy, agreeing, pending, vectors, trust, best, i);
      }
    }
    forall m | m in agreeing && MostTrusted(agreeing, pending, trust, m) && !MostTrusted(agreeing, pending, trust, best)
      ensures !Withstands(sqrt, strategy, agreeing, pending, vectors, trust, m, best)
    {
      AllowanceMeaning(sqrt, strategy, agreeing, pending, vectors, trust, m, best);
    }
  }

  // ----- Every choice of texts

  function AnswersWith(texts: seq<string>, authors: seq<string>): seq<Answer>
    requires |texts| == |authors|
  {
    seq(|texts|, i requires 0 <= i < |texts| => Answer(texts[i], authors[i]))
  }

  ghost predicate NoneEmpty(texts: seq<string>) {
    forall i | 0 <= i < |texts| :: texts[i] != ""
  }

  /** Whatever the texts say, a most trusted author is published. */
  ghost predicate TrustIsFirst(sqrt: real -> real, strategy: FusionStrategy, agreeing: seq<nat>, authors: seq<string>,
                               vectors: seq<Vector>, trust: map<string, real>)
    requires |authors| == |vectors| && SameDims(vectors) && IndexList(agreeing, |authors|)
  {
    forall texts | |texts| == |authors| && NoneEmpty(texts) ::
      MostTrusted(agreeing, AnswersWith(texts, authors), trust,
        Chosen(sqrt, strategy, agreeing, AnswersWith(texts, authors), vectors, trust))
  }

  ghost predicate EquallyTrusted(agreeing: seq<nat>, authors: seq<string>, trust: map<string, real>)
    requires IndexList(agreeing, |authors|)
  {
    forall i, j | i in agreeing && j in agreeing :: Clamped(trust, authors[i]) == Clamped(trust, authors[j])
  }

  function Repeated(c: char, n: nat): string {
    if n == 0 then "" else Repeated(c, n - 1) + [c]
  }

  lemma {:induction false} RepeatedLength(n: nat)
    ensures ByteLength(Repeated('a', n)) == n && (n > 0 ==> Repeated('a', n) != "")
  {
    if n > 0 {
      RepeatedLength(n - 1);
      assert Repeated('a', n)[..|Repeated('a', n)| - 1] == Repeated('a', n - 1);
    }
  }

  /** One author writes at length, all others a single letter. */
  function Verbose(m: nat, i: nat, length: nat): seq<string> {
    seq(m, k => if k == i then Repeated('a', length) else "a")
  }

  /** A text long enough makes up for any lack of trust. */
  lemma VerboseWins(sqrt: real -> real, agreeing: seq<nat>, authors: seq<string>, vectors: seq<Vector>,
                    trust: map<string, real>, i: nat, length: nat, k: nat)
    requires |authors| == |vectors| && SameDims(vectors) && IndexList(agreeing, |authors|)
    requires i in agreeing && k in agreeing && k != i
    requires length as real > 1.0 + Clamped(trust, authors[k])
    ensures
      var pending := AnswersWith(Verbose(|authors|, i, length), authors);
      Score(sqrt, Longest, agreeing, pending, vectors, trust, i)
      > Score(sqrt, Longest, agreeing, pending, vectors, trust, k)
  {
    var pending := AnswersWith(Verbose(|authors|, i, length), authors);
    RepeatedLength(length);
    RepeatedLength(1);
    assert Repeated('a', 0) + ['a'] == "a";
    ScoreIsWeighed(sqrt, Longest, agreeing, pending, vectors, trust, i);
    ScoreIsWeighed(sqrt, Longest, agreeing, pending, vectors, trust, k);
    assert BaseOf(sqrt, Longest, agreeing, pending, vectors, i) == length as real;
    assert BaseOf(sqrt, Longest, agreeing, pending, vectors, k) == 1.0;
    hide Score, BaseOf;
    LongWins(length as real, Clamped(trust, authors[i]), Clamped(trust, authors[k]));
  }

  lemma LongWins(length: real, ti: real, tk: real)
    requires ti >= 0.0 && tk >= 0.0 && length > 1.0 + tk
    ensures Weigh(length, ti) > Weigh(1.0, tk)
  {
    WeighDoubled(length, ti);
    WeighDoubled(1.0, tk);
    ProductOrder(1.0 + ti, 1.0, length);
  }

  ghost function Ceiling(agreeing: seq<nat>, authors: seq<string>, trust: map<string, real>): (c: nat)
    requires forall k | 0 <= k < |agreeing| :: agreeing[k] < |authors|
    ensures forall k | 0 <= k < |agreeing| :: c as real > 1.0 + Clamped(trust, authors[agreeing[k]])
  {
    if agreeing == [] then 1
    else
      var rest := Ceiling(agreeing[..|agreeing| - 1], authors, trust);
      var own := (1.0 + Clamped(trust, authors[agreeing[|agreeing| - 1]])).Floor + 1;
      if rest < own then own else rest
  }

  /** When the longest text is published, trust comes first for all texts if and only if it
      makes no difference: all agreeing authors are trusted equally. */
  lemma LongestTrustIsFirstIff(sqrt: real -> real, agreeing: seq<nat>, authors: seq<string>, vectors: seq<Vector>,
                               trust: map<string, real>)
    requires |authors| == |vectors| && SameDims(vectors) && IndexList(agreeing, |authors|) && agreeing != []
    ensures TrustIsFirst(sqrt, Longest, agreeing, authors, vectors, trust) <==> EquallyTrusted(agreeing, authors, trust)
  {
    if EquallyTrusted(agreeing, authors, trust) {
      forall texts | |texts| == |authors| && NoneEmpty(texts)
        ensures MostTrusted(agreeing, AnswersWith(texts, authors), trust,
                  Chosen(sqrt, Longest, agreeing, AnswersWith(texts, authors), vectors, trust))
      {
        hide Chosen;
        ChosenIsPublished(sqrt, Longest, agreeing, AnswersWith(texts, authors), vectors, trust);
      }
    } else {
      var i, j :| i in agreeing && j in agreeing && Clamped(trust, authors[i]) < Clamped(trust, authors[j]);
      TextAgainstTrust(sqrt, agreeing, authors, vectors, trust, i, j);
    }
  }

  lemma TextAgainstTrust(sqrt: real -> real, agreeing: seq<nat>, authors: seq<string>, vectors: seq<Vector>,
                         trust: map<string, real>, i: nat, j: nat)
    requires |authors| == |vectors| && SameDims(vectors) && IndexList(agreeing, |authors|)
    requires i in agreeing && j in agreeing && Clamped(trust, authors[i]) < Clamped(trust, authors[j])
    ensures !TrustIsFirst(sqrt, Longest, agreeing, authors, vectors, trust)
  {
    hide Chosen;
    var length := Ceiling(agreeing, authors, trust);
    var texts := Verbose(|authors|, i, length);
    LengthBeatsTrust(sqrt, agreeing, authors, vectors, trust, i, length);
    RepeatedLength(length);
    assert NoneEmpty(texts);
    assert !MostTrusted(agreeing, AnswersWith(texts, authors), trust, i);
  }

  lemma LengthBeatsTrust(sqrt: real -> real, agreeing: seq<nat>, authors: seq<string>, vectors: seq<Vector>,
                         trust: map<string, real>, i: nat, length: nat)
    requires |authors| == |vectors| && SameDims(vectors) && IndexList(agreeing, |authors|) && i in agreeing
    requires length == Ceiling(agreeing, authors, trust)
    ensures
      var pending := AnswersWith(Verbose(|authors|, i, length), authors);
      length > 0 && Chosen(sqrt, Longest, agreeing, pending, vectors, trust) == i
  {
    var pending := AnswersWith(Verbose(|authors|, i, length), authors);
    ChosenIsPublished(sqrt, Longest, agreeing, pending, vectors, trust);
    var best := Chosen(sqrt, Longest, agreeing, pending, vectors, trust);
    if best != i {
      VerboseWins(sqrt, agreeing, authors, vectors, trust, i, length, best);
    }
  }

  // ----- A round in which closeness wins

  const LONG_AND_SHORT: seq<Vector> := [[195.0, 0.0], [60.0, 32.0]]

  lemma RootOfSquare(r: real, x: real)
    requires r >= 0.0 && x > 0.0 && r * r == x * x
    ensures r == x
  {
    assert (r - x) * (r + x) == 0.0;
    assert r - x == (r - x) * (r + x) / (r + x);
  }

  lemma UnitRange(d: real, p: real)
    requires p > 0.0 && -p <= d <= p
    ensures -1.0 <= d / p <= 1.0
  {
    QuotientOrder(1.0, d, p);
    QuotientOrder(-1.0, d, p);
    QuotientEquals(1.0, d, p);
  }

  lemma NormOfPair(sqrt: real -> real, a: Vector, na: real)
    requires IsRoot(sqrt) && |a| == 2 && na > 0.0 && a[0] * a[0] + a[1] * a[1] == na * na
    ensures sqrt(Dot(a, a)) == na
  {
    DotOfPairs(a, a);
    assert na * na > 0.0;
    RootOfSquare(sqrt(na * na), na);
  }

  lemma CosineFromNorms(sqrt: real -> real, a: Vector, b: Vector, na: real, nb: real, d: real, p: real)
    requires |a| == |b| > 0 && na > 0.0 && nb > 0.0 && na * nb == p && p > 0.0
    requires sqrt(Dot(a, a)) == na && sqrt(Dot(b, b)) == nb && Dot(a, b) == d && -p <= d <= p
    ensures Cosine(sqrt, a, b) == d / p
  {
    hide Dot;
    UnitRange(d, p);
    assert Dot(a, b) / (sqrt(Dot(a, a)) * sqrt(Dot(b, b))) == d / p;
  }

  lemma CosineOfPairs(sqrt: real -> real, a: Vector, b: Vector, na: real, nb: real, d: real, p: real)
    requires IsRoot(sqrt) && |a| == |b| == 2 && na > 0.0 && nb > 0.0
    requires a[0] * a[0] + a[1] * a[1] == na * na && b[0] * b[0] + b[1] * b[1] == nb * nb
    requires na * nb == p && a[0] * b[0] + a[1] * b[1] == d && p > 0.0 && -p <= d <= p
    ensures Cosine(sqrt, a, b) == d / p
  {
    NormOfPair(sqrt, a, na);
    NormOfPair(sqrt, b, nb);
    DotOfPairs(a, b);
    CosineFromNorms(sqrt, a, b, na, nb, d, p);
  }

  /** Two authors agree, one is trusted fully and one a little less. Under every strategy the
      less trusted one is published, being closer to the centroid and the longer of the two. */
  lemma TrustIsNotTheFirstCriterion(sqrt: real -> real, strategy: FusionStrategy)
    requires IsRoot(sqrt)
    ensures SameDims(LONG_AND_SHORT) && Cosine(sqrt, LONG_AND_SHORT[0], LONG_AND_SHORT[1]) == 15.0 / 17.0
    ensures
      var pending := [Answer("xx", "low"), Answer("y", "high")];
      var trust := map["low" := 0.9, "high" := 1.0];
      IsPublished(sqrt, strategy, [0, 1], pending, LONG_AND_SHORT, trust, 0)
  {
    var pending := [Answer("xx", "low"), Answer("y", "high")];
    var trust := map["low" := 0.9, "high" := 1.0];
    LongAndShortCosines(sqrt);
    ScoresOfTwo(sqrt, strategy);
    hide Score;
    assert Score(sqrt, strategy, [0, 1], pending, LONG_AND_SHORT, trust, 0)
           > Score(sqrt, strategy, [0, 1], pending, LONG_AND_SHORT, trust, 1);
  }

  lemma ScoresOfTwo(sqrt: real -> real, strategy: FusionStrategy)
    requires IsRoot(sqrt)
    ensures SameDims(LONG_AND_SHORT)
    ensures
      var pending := [Answer("xx", "low"), Answer("y", "high")];
      var trust := map["low" := 0.9, "high" := 1.0];
      && Score(sqrt, strategy, [0, 1], pending, LONG_AND_SHORT, trust, 0)
         == (if strategy == Longest then 2.0 else 255.0 / 257.0) * 0.95
      && Score(sqrt, strategy, [0, 1], pending, LONG_AND_SHORT, trust, 1)
         == if strategy == Longest then 1.0 else 4081.0 / 4369.0
  {
    LongAndShortCosines(sqrt);
    CenterOfTwo();
    assert "xx"[..1] == "x" && "x"[..0] == "" && "y"[..0] == "";
    assert ByteLength("x") == 1 && ByteLength("xx") == 2 && ByteLength("y") == 1;
    hide Cosine, CentroidOf, ByteLength;
  }

  lemma LongAndShortCosines(sqrt: real -> real)
    requires IsRoot(sqrt)
    ensures Cosine(sqrt, LONG_AND_SHORT[0], LONG_AND_SHORT[1]) == 15.0 / 17.0
    ensures Cosine(sqrt, [127.5, 16.0], LONG_AND_SHORT[0]) == 255.0 / 257.0
    ensures Cosine(sqrt, [127.5, 16.0], LONG_AND_SHORT[1]) == 4081.0 / 4369.0
  {
    CosineOfPairs(sqrt, LONG_AND_SHORT[0], LONG_AND_SHORT[1], 195.0, 68.0, 11700.0, 13260.0);
    CosineOfPairs(sqrt, [127.5, 16.0], LONG_AND_SHORT[0], 128.5, 195.0, 24862.5, 25057.5);
    CosineOfPairs(sqrt, [127.5, 16.0], LONG_AND_SHORT[1], 128.5, 68.0, 8162.0, 8738.0);
  }

  lemma CenterOfTwo()
    ensures SameDims(LONG_AND_SHORT) && CentroidOf([0, 1], LONG_AND_SHORT) == [127.5, 16.0]
  {
    var agreeing: seq<nat> := [0, 1];
    assert agreeing[..1] == [0] && agreeing[..1][..0] == [];
    assert SumOf([], LONG_AND_SHORT, 2) == [0.0, 0.0];
    assert SumOf(agreeing[..1], LONG_AND_SHORT, 2) == [195.0, 0.0];
    assert SumOf(agreeing, LONG_AND_SHORT, 2) == [255.0, 32.0];
  }
}
