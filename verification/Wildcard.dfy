/** The single-component wildcard matcher of the indexer's ignore patterns, a table filled
    row by row, and the language it decides: `*` stands for any run of characters, every
    other character for itself. */
module Wildcard {
  import opened Segments

  /** `name` can be cut into one segment per pattern character: any segment for a `*`, the
      character itself for any other. */
  ghost predicate Fits(pattern: string, name: string, w: seq<string>) {
    && |w| == |pattern|
    && Flatten(w) == name
    && forall i | 0 <= i < |pattern| :: pattern[i] == '*' || w[i] == [pattern[i]]
  }

  ghost predicate InLanguage(pattern: string, name: string) {
    exists w :: Fits(pattern, name, w)
  }

  /** The recurrence of the table: does the first `i` of `p` match the first `j` of `s`? */
  predicate Cell(p: string, s: string, i: nat, j: nat)
    requires i <= |p| && j <= |s|
    decreases i + j
  {
    if i == 0 then j == 0
    else if p[i - 1] == '*' then Cell(p, s, i - 1, j) || (j > 0 && Cell(p, s, i, j - 1))
    else j > 0 && p[i - 1] == s[j - 1] && Cell(p, s, i - 1, j - 1)
  }

  lemma {:induction false} CellHasCut(p: string, s: string, i: nat, j: nat) returns (w: seq<string>)
    requires i <= |p| && j <= |s| && Cell(p, s, i, j)
    ensures Fits(p[..i], s[..j], w)
    decreases i + j
  {
    if i == 0 {
      w := [];
    } else if p[i - 1] == '*' && !Cell(p, s, i - 1, j) {
      var v := CellHasCut(p, s, i, j - 1);
      w := v[..i - 1] + [v[i - 1] + [s[j - 1]]];
      FlattenSnoc(v);
      FlattenAppend(v[..i - 1], v[i - 1] + [s[j - 1]]);
      assert s[..j] == s[..j - 1] + [s[j - 1]];
    } else {
      var last: string := if p[i - 1] == '*' then [] else [s[j - 1]];
      var v := CellHasCut(p, s, i - 1, j - |last|);
      w := v + [last];
      FlattenAppend(v, last);
      assert s[..j] == s[..j - |last|] + last;
    }
  }

  /** Taking the last pattern character and its segment off a cut. */
  lemma DropLast(p: string, s: string, i: nat, j: nat, w: seq<string>)
    requires 0 < i <= |p| && j <= |s| && Fits(p[..i], s[..j], w)
    ensures |w[i - 1]| <= j && s[..j] == s[..j - |w[i - 1]|] + w[i - 1]
    ensures Fits(p[..i - 1], s[..j - |w[i - 1]|], w[..i - 1])
    ensures p[i - 1] == '*' || w[i - 1] == [p[i - 1]]
  {
    FlattenSnoc(w);
    var front := Flatten(w[..i - 1]);
    assert s[..j] == front + w[i - 1];
    assert s[..|front|] == s[..j][..|front|] == front;
    var q, v := p[..i - 1], w[..i - 1];
    forall k | 0 <= k < |q|
      ensures q[k] == '*' || v[k] == [q[k]]
    {
      assert p[..i][k] == q[k] && w[k] == v[k];
    }
    assert p[..i][i - 1] == p[i - 1];
  }

  /** A `*` may give its last character back. */
  lemma ShortenStar(p: string, s: string, i: nat, j: nat, w: seq<string>) returns (v: seq<string>)
    requires 0 < i <= |p| && j <= |s| && Fits(p[..i], s[..j], w)
    requires p[i - 1] == '*' && w[i - 1] != []
    ensures j > 0 && Fits(p[..i], s[..j - 1], v)
  {
    DropLast(p, s, i, j, w);
    var front, last := w[..i - 1], w[i - 1];
    var shorter := last[..|last| - 1];
    v := front + [shorter];
    FlattenAppend(front, shorter);
    assert s[..j - 1] == s[..j][..j - 1] == s[..j - |last|] + shorter;
    assert p[..i][i - 1] == '*';
  }

  lemma {:induction false} CutFillsCell(p: string, s: string, i: nat, j: nat, w: seq<string>)
    requires i <= |p| && j <= |s| && Fits(p[..i], s[..j], w)
    ensures Cell(p, s, i, j)
    decreases i + j
  {
    if i > 0 {
      DropLast(p, s, i, j, w);
      if p[i - 1] == '*' && w[i - 1] != [] {
        var v := ShortenStar(p, s, i, j, w);
        CutFillsCell(p, s, i, j - 1, v);
      } else {
        CutFillsCell(p, s, i - 1, j - |w[i - 1]|, w[..i - 1]);
        assert p[i - 1] != '*' ==> s[j - 1] == s[..j][j - 1] == p[i - 1];
      }
    }
  }

  /** The last cell of the table decides the language. */
  lemma CellDecides(p: string, s: string)
    ensures Cell(p, s, |p|, |s|) <==> InLanguage(p, s)
  {
    assert p[..|p|] == p && s[..|s|] == s;
    if Cell(p, s, |p|, |s|) {
      var w := CellHasCut(p, s, |p|, |s|);
    }
    if InLanguage(p, s) {
      var w :| Fits(p, s, w);
      CutFillsCell(p, s, |p|, |s|, w);
    }
  }

  /** Both shortcuts of the matcher are sound: a pattern matches itself, and without a `*`
      it matches nothing else. */
  lemma {:induction false} Shortcuts(p: string, s: string)
    ensures InLanguage(p, p)
    ensures '*' !in p && InLanguage(p, s) ==> s == p
  {
    var w := seq(|p|, i requires 0 <= i < |p| => [p[i]]);
    SingletonsFlatten(p, w);
    assert Fits(p, p, w);
    if '*' !in p && InLanguage(p, s) {
      var v :| Fits(p, s, v);
      SingletonsFlatten(p, v);
    }
  }

  lemma {:induction false} SingletonsFlatten(p: string, w: seq<string>)
    requires |w| == |p| && forall i | 0 <= i < |p| :: w[i] == [p[i]]
    ensures Flatten(w) == p
  {
    if p != [] {
      SingletonsFlatten(p[1..], w[1..]);
      assert p == [p[0]] + p[1..];
    }
  }

  /** The matcher as a function: equality, the no-star shortcut, then the table. */
  predicate Wild(pat: string, comp: string) {
    pat == comp || ('*' in pat && Cell(pat, comp, |pat|, |comp|))
  }

  /** The matcher accepts exactly the language of the pattern. */
  lemma WildDecides(pat: string, comp: string)
    ensures Wild(pat, comp) <==> InLanguage(pat, comp)
  {
    Shortcuts(pat, comp);
    CellDecides(pat, comp);
  }

  /** `wildcard_component`. */
  method WildcardComponent(pat: string, comp: string) returns (matched: bool)
    ensures matched == Wild(pat, comp)
    ensures matched <==> InLanguage(pat, comp)
  {
    WildDecides(pat, comp);
    if pat == comp {
      return true;
    }
    if '*' !in pat {
      return false;
    }
    matched := FillTable(pat, comp);
  }

  ghost predicate RowFilled(p: string, s: string, dp: array2<bool>, i: nat)
    reads dp
  {
    && dp.Length0 == |p| + 1 && dp.Length1 == |s| + 1 && i <= |p|
    && forall b | 0 <= b <= |s| :: dp[i, b] == Cell(p, s, i, b)
  }

  method FillTable(p: string, s: string) returns (matched: bool)
    ensures matched <==> Cell(p, s, |p|, |s|)
  {
    var dp := new bool[|p| + 1, |s| + 1]((_, _) => false);
    dp[0, 0] := true;
    for i := 1 to |p| + 1
      invariant RowFilled(p, s, dp, i - 1)
      invariant forall a, b | i <= a <= |p| && 0 <= b <= |s| :: !dp[a, b]
    {
      if p[i - 1] == '*' {
        FillStarRow(p, s, dp, i);
      } else {
        FillCharRow(p, s, dp, i);
      }
    }
    matched := dp[|p|, |s|];
  }

  method FillStarRow(p: string, s: string, dp: array2<bool>, i: nat)
    requires 1 <= i <= |p| && p[i - 1] == '*'
    requires RowFilled(p, s, dp, i - 1)
    modifies dp
    ensures RowFilled(p, s, dp, i)
    ensures forall a, b | 0 <= a <= |p| && a != i && 0 <= b <= |s| :: dp[a, b] == old(dp[a, b])
  {
    for j := 0 to |s| + 1
      invariant forall b | 0 <= b < j :: dp[i, b] == Cell(p, s, i, b)
      invariant forall a, b | 0 <= a <= |p| && a != i && 0 <= b <= |s| :: dp[a, b] == old(dp[a, b])
    {
      dp[i, j] := dp[i - 1, j] || (j > 0 && dp[i, j - 1]);
    }
  }

  method FillCharRow(p: string, s: string, dp: array2<bool>, i: nat)
    requires 1 <= i <= |p| && p[i - 1] != '*'
    requires RowFilled(p, s, dp, i - 1)
    requires forall b | 0 <= b <= |s| :: !dp[i, b]
    modifies dp
    ensures RowFilled(p, s, dp, i)
    ensures forall a, b | 0 <= a <= |p| && a != i && 0 <= b <= |s| :: dp[a, b] == old(dp[a, b])
  {
    for j := 1 to |s| + 1
      invariant forall b | 0 <= b < j :: dp[i, b] == Cell(p, s, i, b)
      invariant forall b | j <= b <= |s| :: !dp[i, b]
      invariant forall a, b | 0 <= a <= |p| && a != i && 0 <= b <= |s| :: dp[a, b] == old(dp[a, b])
    {
      if p[i - 1] == s[j - 1] {
        dp[i, j] := dp[i - 1, j - 1];
      }
    }
  }
}
