/** Ignore and force-include patterns of the indexer, on paths cut into components. */
module PathMatch {
  import opened Segments
  import opened Wildcard

  type Path = seq<string>

  // ----- From strings to components

  /** `split('/')` with the empty pieces dropped. */
  function Components(s: string): Path {
    SplitFrom(s, [])
  }

  function SplitFrom(s: string, piece: string): Path {
    if s == [] then (if piece == [] then [] else [piece])
    else if s[0] == '/' then (if piece == [] then [] else [piece]) + SplitFrom(s[1..], [])
    else SplitFrom(s[1..], piece + [s[0]])
  }

  function Join(path: Path): string {
    if path == [] then [] else if |path| == 1 then path[0] else path[0] + "/" + Join(path[1..])
  }

  /** Names of directory entries. */
  predicate ValidName(name: string) {
    name != [] && '/' !in name
  }

  lemma {:induction false} SplitName(name: string, rest: string, piece: string)
    requires '/' !in name
    ensures SplitFrom(name + rest, piece) == SplitFrom(rest, piece + name)
  {
    if name == [] {
      assert name + rest == rest && piece + name == piece;
    } else {
      assert (name + rest)[0] == name[0] && (name + rest)[1..] == name[1..] + rest;
      SplitName(name[1..], rest, piece + [name[0]]);
      assert piece + [name[0]] + name[1..] == piece + name;
    }
  }

  /** Splitting a joined path gives its components back. */
  lemma {:induction false} ComponentsOfJoin(path: Path)
    requires forall i | 0 <= i < |path| :: ValidName(path[i])
    ensures Components(Join(path)) == path
  {
    if path != [] {
      var rest := if |path| == 1 then "" else "/" + Join(path[1..]);
      assert Join(path) == path[0] + rest;
      SplitName(path[0], rest, []);
      assert [] + path[0] == path[0];
      if |path| > 1 {
        assert rest[1..] == Join(path[1..]);
        ComponentsOfJoin(path[1..]);
      }
    }
  }

  lemma {:induction false} SplitFromConcat(a: string, b: string, piece: string)
    ensures SplitFrom(a + "/" + b, piece) == SplitFrom(a, piece) + SplitFrom(b, [])
  {
    if a == [] {
      assert a + "/" + b == "/" + b && ("/" + b)[1..] == b;
    } else {
      assert (a + "/" + b)[0] == a[0] && (a + "/" + b)[1..] == a[1..] + "/" + b;
      if a[0] == '/' {
        SplitFromConcat(a[1..], b, []);
      } else {
        SplitFromConcat(a[1..], b, piece + [a[0]]);
      }
    }
  }

  lemma {:induction false} PiecesAreNames(s: string, piece: string, i: nat)
    requires '/' !in piece && i < |SplitFrom(s, piece)|
    ensures ValidName(SplitFrom(s, piece)[i])
  {
    if s != [] {
      if s[0] != '/' {
        PiecesAreNames(s[1..], piece + [s[0]], i);
      } else if piece == [] {
        PiecesAreNames(s[1..], [], i);
      } else if i > 0 {
        PiecesAreNames(s[1..], [], i - 1);
      }
    }
  }

  /** A path is cut at every slash, whatever stands on either side, and into names only: empty
      pieces are dropped. */
  lemma ComponentsOfConcat(a: string, b: string)
    ensures Components(a + "/" + b) == Components(a) + Components(b)
    ensures Components("") == []
    ensures forall i | 0 <= i < |Components(a)| :: ValidName(Components(a)[i])
  {
    SplitFromConcat(a, b, []);
    forall i: nat | i < |Components(a)|
      ensures ValidName(Components(a)[i])
    {
      PiecesAreNames(a, [], i);
    }
  }

  // ----- Matching components

  /** `component_match`. */
  predicate ComponentMatch(pat: Path, rel: Path)
    decreases |pat|
  {
    if pat == [] then rel == []
    else if pat[0] == "**" then
      |pat| == 1 || exists start | 0 <= start <= |rel| :: ComponentMatch(pat[1..], rel[start..])
    else rel != [] && Wild(pat[0], rel[0]) && ComponentMatch(pat[1..], rel[1..])
  }

  /** `rel` can be cut into one run of components per pattern component: any run for `**`,
      one component in its language for any other. */
  ghost predicate Aligned(pat: Path, rel: Path, w: seq<Path>) {
    && |w| == |pat|
    && Flatten(w) == rel
    && forall i | 0 <= i < |pat| :: pat[i] == "**" || (|w[i]| == 1 && InLanguage(pat[i], w[i][0]))
  }

  lemma {:induction false} MatchHasAlignment(pat: Path, rel: Path) returns (w: seq<Path>)
    requires ComponentMatch(pat, rel)
    ensures Aligned(pat, rel, w)
  {
    if pat == [] {
      w := [];
    } else if pat[0] == "**" && |pat| == 1 {
      w := [rel];
      assert w[1..] == [];
    } else {
      var start := 1;
      if pat[0] == "**" {
        start :| 0 <= start <= |rel| && ComponentMatch(pat[1..], rel[start..]);
      } else {
        WildDecides(pat[0], rel[0]);
      }
      var v := MatchHasAlignment(pat[1..], rel[start..]);
      w := [rel[..start]] + v;
      FlattenCons(rel[..start], v);
      assert rel == rel[..start] + rel[start..];
    }
  }

  lemma {:induction false} AlignmentMatches(pat: Path, rel: Path, w: seq<Path>)
    requires Aligned(pat, rel, w)
    ensures ComponentMatch(pat, rel)
  {
    if pat != [] {
      var start := |w[0]|;
      assert rel == w[0] + Flatten(w[1..]);
      assert rel[start..] == Flatten(w[1..]);
      assert Aligned(pat[1..], rel[start..], w[1..]);
      AlignmentMatches(pat[1..], rel[start..], w[1..]);
      if pat[0] != "**" {
        assert rel[0] == w[0][0];
        WildDecides(pat[0], rel[0]);
      }
    }
  }

  /** The recursive matcher accepts exactly the paths that can be aligned. */
  lemma ComponentMatchMeaning(pat: Path, rel: Path)
    ensures ComponentMatch(pat, rel) <==> exists w :: Aligned(pat, rel, w)
  {
    if ComponentMatch(pat, rel) {
      var w := MatchHasAlignment(pat, rel);
    }
    if w :| Aligned(pat, rel, w) {
      AlignmentMatches(pat, rel, w);
    }
  }

  // ----- Whole paths

  /** `path_matches`: the path or one of its proper ancestors matches. */
  predicate PathMatches(pattern: string, rel: Path) {
    var pat := Components(pattern);
    && pat != []
    && (ComponentMatch(pat, rel) || exists i | 1 <= i < |rel| :: ComponentMatch(pat, rel[..i]))
  }

  /** `path_force_matches`. */
  predicate ForceMatches(patterns: seq<string>, rel: Path) {
    exists k | 0 <= k < |patterns| :: PathMatches(patterns[k], rel)
  }

  predicate PrefixMatches(pat: Path, rel: Path) {
    |pat| <= |rel| && forall i | 0 <= i < |pat| :: Wild(pat[i], rel[i])
  }

  predicate IgnoredBy(pattern: string, rel: Path) {
    var pat := Components(pattern);
    if pat == [] then false
    else if |pat| == 1 then exists i | 0 <= i < |rel| :: Wild(pat[0], rel[i])
    else PrefixMatches(pat, rel)
  }

  /** `path_is_ignored`. */
  predicate PathIsIgnored(patterns: seq<string>, rel: Path) {
    exists k | 0 <= k < |patterns| :: IgnoredBy(patterns[k], rel)
  }

  /** What an ignore pattern of these components names: a single one names every path that has
      a component in its language, at whatever depth; several name the paths that start with
      one component in the language of each. */
  ghost predicate Names(pat: Path, rel: Path) {
    if |pat| == 1 then exists i | 0 <= i < |rel| :: InLanguage(pat[0], rel[i])
    else 2 <= |pat| <= |rel| && forall i | 0 <= i < |pat| :: InLanguage(pat[i], rel[i])
  }

  lemma IgnoredByMeaning(pattern: string, rel: Path)
    ensures IgnoredBy(pattern, rel) <==> Names(Components(pattern), rel)
  {
    hide Components, Wild, InLanguage;
    var pat := Components(pattern);
    forall i, j | 0 <= i < |pat| && 0 <= j < |rel|
      ensures Wild(pat[i], rel[j]) <==> InLanguage(pat[i], rel[j])
    {
      WildDecides(pat[i], rel[j]);
    }
  }

  /** A path is ignored exactly if one of the patterns names it. */
  lemma IgnoringMeaning(patterns: seq<string>, rel: Path)
    ensures PathIsIgnored(patterns, rel) <==>
            exists k | 0 <= k < |patterns| :: Names(Components(patterns[k]), rel)
  {
    hide IgnoredBy, Names, Components;
    forall k | 0 <= k < |patterns|
      ensures IgnoredBy(patterns[k], rel) <==> Names(Components(patterns[k]), rel)
    {
      IgnoredByMeaning(patterns[k], rel);
    }
  }

  /** One component: the path is ignored if and only if its front or its rest is. */
  lemma SingleIgnoresAnywhere(pattern: string, a: Path, b: Path)
    requires |Components(pattern)| == 1
    ensures IgnoredBy(pattern, a + b) <==> IgnoredBy(pattern, a) || IgnoredBy(pattern, b)
  {
    var pat := Components(pattern);
    hide Components, Wild;
    if IgnoredBy(pattern, b) {
      var i :| 0 <= i < |b| && Wild(pat[0], b[i]);
      assert (a + b)[|a| + i] == b[i];
    }
    if IgnoredBy(pattern, a) {
      var i :| 0 <= i < |a| && Wild(pat[0], a[i]);
      assert (a + b)[i] == a[i];
    }
  }

  /** Several: only as many components at the front as the pattern has count. */
  lemma SeveralIgnoreByTheFront(pattern: string, rel: Path)
    requires |Components(pattern)| > 1
    ensures
      var n := |Components(pattern)|;
      IgnoredBy(pattern, rel) <==> n <= |rel| && IgnoredBy(pattern, rel[..n])
  {
    hide Components, Wild;
  }

  /** A path is forced exactly if it, or one of its ancestors, can be aligned with one of the
      patterns that have a component at all. */
  lemma ForcingMeaning(patterns: seq<string>, rel: Path)
    ensures ForceMatches(patterns, rel) <==>
            exists k, n, w | 0 <= k < |patterns| && 0 <= n <= |rel| && (n == 0 ==> rel == []) ::
              Components(patterns[k]) != [] && Aligned(Components(patterns[k]), rel[..n], w)
  {
    hide Components, ComponentMatch, Aligned;
    assert rel[..|rel|] == rel;
    forall pat: Path, n | 0 <= n <= |rel|
      ensures ComponentMatch(pat, rel[..n]) <==> exists w :: Aligned(pat, rel[..n], w)
    {
      ComponentMatchMeaning(pat, rel[..n]);
    }
    if ForceMatches(patterns, rel) {
      var k :| 0 <= k < |patterns| && PathMatches(patterns[k], rel);
      var pat, n := Components(patterns[k]), |rel|;
      if !ComponentMatch(pat, rel) {
        n :| 1 <= n < |rel| && ComponentMatch(pat, rel[..n]);
      }
      assert ComponentMatch(pat, rel[..n]);
      var w :| Aligned(pat, rel[..n], w);
    }
    if k, n, w :| (0 <= k < |patterns| && 0 <= n <= |rel| && (n == 0 ==> rel == [])
                   && Components(patterns[k]) != [] && Aligned(Components(patterns[k]), rel[..n], w)) {
      assert ComponentMatch(Components(patterns[k]), rel[..n]);
      assert PathMatches(patterns[k], rel);
    }
  }

  /** Everything below an ignored directory is ignored. */
  lemma IgnoringIsHereditary(patterns: seq<string>, rel: Path, below: Path)
    requires PathIsIgnored(patterns, rel) && rel <= below
    ensures PathIsIgnored(patterns, below)
  {
    var k :| 0 <= k < |patterns| && IgnoredBy(patterns[k], rel);
    var pat := Components(patterns[k]);
    if |pat| == 1 {
      var i :| 0 <= i < |rel| && Wild(pat[0], rel[i]);
      assert below[i] == rel[i];
    } else {
      assert forall i | 0 <= i < |pat| :: below[i] == rel[i];
    }
    assert IgnoredBy(patterns[k], below);
  }

  /** Everything below a forced directory is forced. */
  lemma ForcingIsHereditary(patterns: seq<string>, rel: Path, below: Path)
    requires ForceMatches(patterns, rel) && rel <= below && rel != []
    ensures ForceMatches(patterns, below)
  {
    var k :| 0 <= k < |patterns| && PathMatches(patterns[k], rel);
    var pat := Components(patterns[k]);
    var n := |rel|;
    if !ComponentMatch(pat, rel) {
      n :| 1 <= n < |rel| && ComponentMatch(pat, rel[..n]);
    }
    assert below[..n] == rel[..n] && rel[..|rel|] == rel;
    assert n == |below| ==> below[..n] == below;
    assert PathMatches(patterns[k], below);
  }
}
