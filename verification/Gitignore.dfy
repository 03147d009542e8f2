/** The `.gitignore` matcher of the command-line client: a backtracking glob, the candidate
    strings a rule is tried on, and the verdict of a list of rules. */
module Gitignore {
  import opened Segments
  import opened Wrappers

  // ----- The glob

  /** The pattern behind a leading `**` and the `/` that may follow it. */
  function AfterStars(pat: string): string
    requires |pat| >= 2
  {
    if |pat| >= 3 && pat[2] == '/' then pat[3..] else pat[2..]
  }

  /** The text a `**` hands on when it stops at position `start`. */
  function SuffixAt(text: string, start: nat): string
    requires start < |text|
  {
    if text[start] == '/' then text[start + 1..] else text[start..]
  }

  predicate SlashFree(text: string) {
    forall k | 0 <= k < |text| :: text[k] != '/'
  }

  /** `glob_impl`. */
  predicate Glob(pat: string, text: string)
    decreases |pat|
  {
    if pat == [] then text == []
    else if pat[0] == '*' then
      if |pat| >= 2 && pat[1] == '*' then
        || Glob(AfterStars(pat), [])
        || exists start | 0 <= start < |text| ::
             (text[start] == '/' || start == 0) && Glob(AfterStars(pat), SuffixAt(text, start))
      else
        exists skip | 0 <= skip <= |text| :: SlashFree(text[..skip]) && Glob(pat[1..], text[skip..])
    else if pat[0] == '?' then text != [] && text[0] != '/' && Glob(pat[1..], text[1..])
    else text != [] && text[0] == pat[0] && Glob(pat[1..], text[1..])
  }

  /** `glob_impl` with its early-return loops. */
  method GlobImpl(pat: string, text: string) returns (matched: bool)
    ensures matched == Glob(pat, text)
    decreases |pat|
  {
    if |pat| == 0 {
      return |text| == 0;
    }
    if pat[0] == '*' {
      if |pat| >= 2 && pat[1] == '*' {
        var rest := pat[2..];
        if |rest| > 0 && rest[0] == '/' {
          rest := rest[1..];
        }
        assert rest == AfterStars(pat);
        matched := GlobImpl(rest, []);
        if matched {
          return true;
        }
        for start := 0 to |text|
          invariant forall k | 0 <= k < start :: !((text[k] == '/' || k == 0) && Glob(rest, SuffixAt(text, k)))
        {
          if text[start] == '/' || start == 0 {
            var suffix := if text[start] == '/' then text[start + 1..] else text[start..];
            matched := GlobImpl(rest, suffix);
            if matched {
              return true;
            }
          }
        }
        return false;
      }
      var skip := 0;
      while skip <= |text|
        invariant 0 <= skip <= |text| + 1
        invariant skip <= |text| ==> SlashFree(text[..skip])
        invariant forall k | 0 <= k < skip && k <= |text| :: !(SlashFree(text[..k]) && Glob(pat[1..], text[k..]))
        decreases |text| + 1 - skip
      {
        matched := GlobImpl(pat[1..], text[skip..]);
        if matched {
          return true;
        }
        if skip < |text| && text[skip] == '/' {
          assert forall k | skip < k <= |text| :: text[..k][skip] == '/';
          return false;
        }
        assert skip < |text| ==> text[..skip + 1] == text[..skip] + [text[skip]];
        skip := skip + 1;
      }
      return false;
    }
    if |text| == 0 {
      return false;
    }
    if pat[0] == '?' {
      if text[0] == '/' {
        return false;
      }
      matched := GlobImpl(pat[1..], text[1..]);
    } else {
      if text[0] != pat[0] {
        return false;
      }
      matched := GlobImpl(pat[1..], text[1..]);
    }
  }

  // ----- What a pattern means

  datatype Token = Stars | Star | One | Lit(c: char)

  ghost function Tokens(pat: string): seq<Token>
    decreases |pat|
  {
    if pat == [] then []
    else if pat[0] == '*' then
      if |pat| >= 2 && pat[1] == '*' then [Stars] + Tokens(AfterStars(pat)) else [Star] + Tokens(pat[1..])
    else [if pat[0] == '?' then One else Lit(pat[0])] + Tokens(pat[1..])
  }

  /** How a pattern reads from the left: every pattern is one of these. */
  lemma TokensOfPattern(rest: string, c: char)
    ensures Tokens("") == []
    ensures Tokens("**/" + rest) == [Stars] + Tokens(rest)
    ensures rest == "" || rest[0] != '/' ==> Tokens("**" + rest) == [Stars] + Tokens(rest)
    ensures rest == "" || rest[0] != '*' ==> Tokens("*" + rest) == [Star] + Tokens(rest)
    ensures Tokens("?" + rest) == [One] + Tokens(rest)
    ensures c != '*' && c != '?' ==> Tokens([c] + rest) == [Lit(c)] + Tokens(rest)
  {
    assert ("**/" + rest)[3..] == rest && ("**" + rest)[2..] == rest;
    assert ("*" + rest)[1..] == rest && ("?" + rest)[1..] == rest && ([c] + rest)[1..] == rest;
  }

  /** The runs of text a token may stand for, given what follows the run: `*` any run
      without a slash, `?` one character but a slash, `**` a run that ends at the start of
      a path segment, or all that is left. */
  ghost predicate Admits(t: Token, run: string, after: string) {
    match t
    case Lit(c) => run == [c]
    case One => |run| == 1 && run[0] != '/'
    case Star => SlashFree(run)
    case Stars => after == [] || (if run == [] then after[0] != '/' else run[|run| - 1] == '/')
  }

  /** `w` cuts the text into one admissible run per token. */
  ghost predicate Derives(tokens: seq<Token>, text: string, w: seq<string>)
    decreases |tokens|
  {
    if tokens == [] then text == [] && w == []
    else
      && |w| == |tokens|
      && w[0] <= text
      && Admits(tokens[0], w[0], text[|w[0]|..])
      && Derives(tokens[1..], text[|w[0]|..], w[1..])
  }

  /** The nested form of `Derives` says what the flat one does: the runs make up the text
      and each is admissible before the runs that follow it. */
  lemma {:induction false} DerivesMeaning(tokens: seq<Token>, text: string, w: seq<string>)
    ensures Derives(tokens, text, w) <==>
      && |w| == |tokens|
      && Flatten(w) == text
      && forall i | 0 <= i < |w| :: Admits(tokens[i], w[i], Flatten(w[i + 1..]))
    decreases |tokens|
  {
    if tokens != [] && |w| == |tokens| {
      var after := Flatten(w[1..]);
      if w[0] <= text {
        DerivesMeaning(tokens[1..], text[|w[0]|..], w[1..]);
        assert text == w[0] + text[|w[0]|..];
      }
      if Flatten(w) == text {
        assert text[|w[0]|..] == after;
      }
      if Derives(tokens, text, w) {
        forall i | 0 <= i < |w|
          ensures Admits(tokens[i], w[i], Flatten(w[i + 1..]))
        {
          if i > 0 {
            assert w[1..][i - 1] == w[i] && tokens[1..][i - 1] == tokens[i];
            assert w[1..][i..] == w[i + 1..];
          }
        }
      } else if Flatten(w) == text && forall i | 0 <= i < |w| :: Admits(tokens[i], w[i], Flatten(w[i + 1..])) {
        forall i | 0 <= i < |w[1..]|
          ensures Admits(tokens[1..][i], w[1..][i], Flatten(w[1..][i + 1..]))
        {
          assert w[1..][i + 1..] == w[i + 2..];
          assert Admits(tokens[i + 1], w[i + 1], Flatten(w[i + 1 + 1..]));
        }
      }
    }
  }

  /** The rest of a pattern behind its first token. */
  function BehindFirst(pat: string): string
    requires pat != []
  {
    if pat[0] == '*' && |pat| >= 2 && pat[1] == '*' then AfterStars(pat) else pat[1..]
  }

  lemma StarsRun(rest: string, text: string) returns (n: nat)
    requires
      || Glob(rest, [])
      || exists start | 0 <= start < |text| :: (text[start] == '/' || start == 0) && Glob(rest, SuffixAt(text, start))
    ensures n <= |text| && Admits(Stars, text[..n], text[n..]) && Glob(rest, text[n..])
  {
    hide Glob;
    n := |text|;
    assert text[n..] == [];
    if !Glob(rest, []) {
      var start :| 0 <= start < |text| && (text[start] == '/' || start == 0) && Glob(rest, SuffixAt(text, start));
      n := StopsAt(text, start);
    }
  }

  /** Where a `**` that hands on the suffix at `start` stops. */
  lemma StopsAt(text: string, start: nat) returns (n: nat)
    requires start < |text| && (text[start] == '/' || start == 0)
    ensures n <= |text| && Admits(Stars, text[..n], text[n..]) && text[n..] == SuffixAt(text, start)
  {
    if text[start] == '/' {
      n := start + 1;
      assert text[..n][start] == '/';
    } else {
      n := 0;
      assert text[n..][0] != '/';
    }
  }

  lemma StarRun(rest: string, text: string) returns (n: nat)
    requires exists skip | 0 <= skip <= |text| :: SlashFree(text[..skip]) && Glob(rest, text[skip..])
    ensures n <= |text| && Admits(Star, text[..n], text[n..]) && Glob(rest, text[n..])
  {
    hide Glob;
    n :| 0 <= n <= |text| && SlashFree(text[..n]) && Glob(rest, text[n..]);
  }

  /** How much text the first token of a matching pattern stands for. */
  lemma FirstRun(pat: string, text: string) returns (n: nat)
    requires pat != [] && Glob(pat, text)
    ensures n <= |text| && Admits(Tokens(pat)[0], text[..n], text[n..])
    ensures Glob(BehindFirst(pat), text[n..])
  {
    n := 1;
    if pat[0] == '*' {
      if |pat| >= 2 && pat[1] == '*' {
        n := StarsRun(AfterStars(pat), text);
      } else {
        n := StarRun(pat[1..], text);
      }
    }
  }

  lemma {:induction false} GlobDerives(pat: string, text: string) returns (w: seq<string>)
    requires Glob(pat, text)
    ensures Derives(Tokens(pat), text, w)
    decreases |pat|
  {
    if pat == [] {
      return [];
    }
    var n := FirstRun(pat, text);
    var v := GlobDerives(BehindFirst(pat), text[n..]);
    w := [text[..n]] + v;
    assert w[1..] == v;
    assert Tokens(pat)[1..] == Tokens(BehindFirst(pat));
    assert text[|w[0]|..] == text[n..];
  }

  lemma {:induction false} DerivesGlob(pat: string, text: string, w: seq<string>)
    requires Derives(Tokens(pat), text, w)
    ensures Glob(pat, text)
    decreases |pat|
  {
    if pat != [] {
      var stars := pat[0] == '*' && |pat| >= 2 && pat[1] == '*';
      var rest := if stars then AfterStars(pat) else pat[1..];
      assert Tokens(pat)[1..] == Tokens(rest);
      var n := |w[0]|;
      assert text[..n] == w[0];
      DerivesGlob(rest, text[n..], w[1..]);
      if stars && text[n..] != [] {
        var start := if n == 0 then 0 else n - 1;
        assert n > 0 ==> text[start] == w[0][n - 1];
        assert n == 0 ==> text[n..][0] == text[0];
        assert SuffixAt(text, start) == text[n..];
      } else if stars {
        assert text[n..] == [];
      }
    }
  }

  /** `w` is a reading of the text under the pattern. */
  ghost predicate Reading(pat: string, text: string, w: seq<string>) {
    Derives(Tokens(pat), text, w)
  }

  /** The backtracking matcher decides the meaning of the pattern. */
  lemma GlobMeaning(pat: string, text: string)
    ensures Glob(pat, text) <==> exists w :: Reading(pat, text, w)
  {
    if Glob(pat, text) {
      var w := GlobDerives(pat, text);
      assert Reading(pat, text, w);
    }
    if w :| Reading(pat, text, w) {
      DerivesGlob(pat, text, w);
    }
  }

  // ----- Rules

  datatype Rule = Rule(pattern: string, base: string, dirOnly: bool, anchored: bool, negated: bool)

  /** `relative_to`. */
  function RelativeTo(base: string, rel: string): Option<string> {
    if base == "." || base == "" then Some(rel)
    else if base + "/" <= rel then Some(rel[|base| + 1..])
    else None
  }

  /** An end of the path or of one of its ancestors. */
  predicate EndsSegment(rel: string, k: nat) {
    k == |rel| || (k < |rel| && rel[k] == '/')
  }

  /** A start of a segment of the path. */
  predicate StartsSegment(rel: string, k: nat) {
    k == 0 || (k <= |rel| && rel[k - 1] == '/')
  }

  /** What a rule means for a path as seen from the rule's directory: an anchored rule
      names the path or one of its ancestors, any other rule names a suffix of it that
      starts at a segment. */
  predicate RuleCovers(rule: Rule, rel: string) {
    if rule.anchored then exists k | 0 <= k <= |rel| :: EndsSegment(rel, k) && Glob(rule.pattern, rel[..k])
    else exists k | 0 <= k <= |rel| :: StartsSegment(rel, k) && Glob(rule.pattern, rel[k..])
  }

  predicate RuleMatches(rule: Rule, rel: string, isDir: bool) {
    && !(rule.dirOnly && !isDir)
    && var r := RelativeTo(rule.base, rel);
       r.Some? && RuleCovers(rule, r.value)
  }

  /** A path lies in the directory of a rule exactly if it is the directory, a slash and what the
      rule sees; the directories "." and "" hold every path. */
  lemma RelativeToMeaning(base: string, rel: string, seen: string)
    ensures RelativeTo(base, rel) == Some(seen) <==>
            if base == "." || base == "" then rel == seen else rel == base + "/" + seen
  {
    assert (base + "/" + seen)[|base| + 1..] == seen;
  }

  /** The path itself, one of its ancestors, or one of its rests behind a slash. */
  ghost predicate Candidate(anchored: bool, seen: string, c: string) {
    c == seen || if anchored then c + "/" <= seen else exists front :: seen == front + "/" + c
  }

  lemma RuleCoversMeaning(rule: Rule, seen: string)
    ensures RuleCovers(rule, seen) <==> exists c :: Candidate(rule.anchored, seen, c) && Glob(rule.pattern, c)
  {
    hide Glob;
    if RuleCovers(rule, seen) {
      if rule.anchored {
        var k :| 0 <= k <= |seen| && EndsSegment(seen, k) && Glob(rule.pattern, seen[..k]);
        assert k < |seen| ==> seen[..k] + "/" == seen[..k + 1];
        assert Candidate(true, seen, seen[..k]);
      } else {
        var k :| 0 <= k <= |seen| && StartsSegment(seen, k) && Glob(rule.pattern, seen[k..]);
        assert k > 0 ==> seen == seen[..k - 1] + "/" + seen[k..];
        assert Candidate(false, seen, seen[k..]);
      }
    }
    if c :| Candidate(rule.anchored, seen, c) && Glob(rule.pattern, c) {
      CandidateIsTried(rule, seen, c);
    }
  }

  lemma CandidateIsTried(rule: Rule, seen: string, c: string)
    requires Candidate(rule.anchored, seen, c) && Glob(rule.pattern, c)
    ensures RuleCovers(rule, seen)
  {
    hide Glob;
    if rule.anchored {
      assert seen[..|c|] == c;
      assert c != seen ==> seen[|c|] == (c + "/")[|c|];
      assert EndsSegment(seen, |c|);
    } else {
      assert seen[0..] == seen;
      if c != seen {
        var front :| seen == front + "/" + c;
        assert seen[|front| + 1..] == c && seen[|front|] == '/';
        assert StartsSegment(seen, |front| + 1);
      }
    }
  }

  /** A rule matches exactly the paths in its directory, directories only if it asks for them,
      one of whose candidates has a reading under the pattern. */
  lemma RuleMatchesMeaning(rule: Rule, rel: string, isDir: bool)
    ensures RuleMatches(rule, rel, isDir) <==>
            && (rule.dirOnly ==> isDir)
            && exists seen, c, w ::
                 && RelativeTo(rule.base, rel) == Some(seen)
                 && Candidate(rule.anchored, seen, c) && Reading(rule.pattern, c, w)
  {
    hide Glob, Candidate, RuleCovers, RelativeTo, Reading;
    forall c
      ensures Glob(rule.pattern, c) <==> exists w :: Reading(rule.pattern, c, w)
    {
      GlobMeaning(rule.pattern, c);
    }
    var r := RelativeTo(rule.base, rel);
    if r.Some? {
      RuleCoversMeaning(rule, r.value);
    }
    if RuleMatches(rule, rel, isDir) {
      var c :| Candidate(rule.anchored, r.value, c) && Glob(rule.pattern, c);
      var w :| Reading(rule.pattern, c, w);
    }
  }

  /** What an anchored rule covers, it covers with everything beneath; what any other rule
      covers, it covers at any depth. */
  lemma CoverageIsInherited(rule: Rule, seen: string, more: string)
    requires RuleCovers(rule, seen)
    ensures RuleCovers(rule, if rule.anchored then seen + "/" + more else more + "/" + seen)
  {
    hide Glob, RuleCovers;
    RuleCoversMeaning(rule, seen);
    var c :| Candidate(rule.anchored, seen, c) && Glob(rule.pattern, c);
    if rule.anchored {
      assert c + "/" <= seen + "/" + more;
      CandidateIsTried(rule, seen + "/" + more, c);
    } else {
      if c != seen {
        var front :| seen == front + "/" + c;
        assert more + "/" + seen == (more + "/" + front) + "/" + c;
      }
      CandidateIsTried(rule, more + "/" + seen, c);
    }
  }

  /** `str::find('/')` from `idx` on; `|s|` when there is none. */
  function FindSlash(s: string, idx: nat): (k: nat)
    requires idx <= |s|
    ensures idx <= k <= |s|
    ensures k < |s| ==> s[k] == '/'
    ensures forall j | idx <= j < k :: s[j] != '/'
    decreases |s| - idx
  {
    if idx == |s| || s[idx] == '/' then idx else FindSlash(s, idx + 1)
  }

  /** The path and its ancestors, as the loop of `matches` collects them. */
  method AncestorCandidates(rel: string) returns (candidates: seq<string>)
    ensures forall c :: c in candidates <==> exists k | 0 <= k <= |rel| :: EndsSegment(rel, k) && c == rel[..k]
  {
    candidates := [rel];
    assert rel[..|rel|] == rel;
    var idx := 0;
    while FindSlash(rel, idx) < |rel|
      invariant 0 <= idx <= |rel|
      invariant forall c | c in candidates :: exists k | 0 <= k <= |rel| :: EndsSegment(rel, k) && c == rel[..k]
      invariant rel in candidates
      invariant forall k | 0 <= k < idx && rel[k] == '/' :: rel[..k] in candidates
      decreases |rel| - idx
    {
      var pos := FindSlash(rel, idx);
      ghost var before := candidates;
      candidates := candidates + [rel[..pos]];
      assert EndsSegment(rel, pos);
      assert forall c | c in candidates :: c in before || c == rel[..pos];
      idx := pos + 1;
    }
  }

  /** `all_suffix_segments`. */
  method AllSuffixSegments(rel: string) returns (candidates: seq<string>)
    ensures forall c :: c in candidates <==> exists k | 0 <= k <= |rel| :: StartsSegment(rel, k) && c == rel[k..]
  {
    candidates := [rel];
    assert rel[0..] == rel;
    var idx := 0;
    while FindSlash(rel, idx) < |rel|
      invariant 0 <= idx <= |rel|
      invariant forall c | c in candidates :: exists k | 0 <= k <= |rel| :: StartsSegment(rel, k) && c == rel[k..]
      invariant rel in candidates
      invariant forall k | 0 < k <= idx && rel[k - 1] == '/' :: rel[k..] in candidates
      decreases |rel| - idx
    {
      var at := FindSlash(rel, idx) + 1;
      ghost var before := candidates;
      candidates := candidates + [rel[at..]];
      assert StartsSegment(rel, at);
      assert forall c | c in candidates :: c in before || c == rel[at..];
      idx := at;
    }
  }

  /** `IgnoreRule::matches`. */
  method Matches(rule: Rule, rel: string, isDir: bool) returns (matched: bool)
    ensures matched == RuleMatches(rule, rel, isDir)
  {
    if rule.dirOnly && !isDir {
      return false;
    }
    var r := RelativeTo(rule.base, rel);
    if r.None? {
      return false;
    }
    var candidates;
    if rule.anchored {
      candidates := AncestorCandidates(r.value);
    } else {
      candidates := AllSuffixSegments(r.value);
    }
    for i := 0 to |candidates|
      invariant forall k | 0 <= k < i :: !Glob(rule.pattern, candidates[k])
    {
      var hit := GlobImpl(rule.pattern, candidates[i]);
      if hit {
        assert candidates[i] in candidates;
        return true;
      }
    }
    assert forall c | c in candidates :: !Glob(rule.pattern, c);
    return false;
  }

  // ----- The verdict of a list of rules

  /** The last matching rule decides; without one the path is not ignored. */
  ghost predicate Verdict(rules: seq<Rule>, rel: string, isDir: bool) {
    exists k | 0 <= k < |rules| ::
      && RuleMatches(rules[k], rel, isDir) && !rules[k].negated
      && forall j | k < j < |rules| :: !RuleMatches(rules[j], rel, isDir)
  }

  /** `gitignore_decides`. */
  method GitignoreDecides(rules: seq<Rule>, rel: string, isDir: bool) returns (decision: bool)
    ensures decision == Verdict(rules, rel, isDir)
  {
    decision := false;
    for i := 0 to |rules|
      invariant decision == Verdict(rules[..i], rel, isDir)
    {
      var m := Matches(rules[i], rel, isDir);
      VerdictAppend(rules[..i], rules[i], rel, isDir);
      assert rules[..i + 1] == rules[..i] + [rules[i]];
      if m {
        decision := !rules[i].negated;
      }
    }
    assert rules[..|rules|] == rules;
  }

  /** A rule that matches overrides every rule before it; one that does not has no say. */
  lemma VerdictAppend(rules: seq<Rule>, rule: Rule, rel: string, isDir: bool)
    ensures Verdict(rules + [rule], rel, isDir)
            <==> if RuleMatches(rule, rel, isDir) then !rule.negated else Verdict(rules, rel, isDir)
  {
    var all := rules + [rule];
    assert all[|rules|] == rule;
    if RuleMatches(rule, rel, isDir) {
      assert RuleMatches(all[|rules|], rel, isDir);
    } else {
      if Verdict(rules, rel, isDir) {
        var k :| 0 <= k < |rules| && RuleMatches(rules[k], rel, isDir) && !rules[k].negated
          && forall j | k < j < |rules| :: !RuleMatches(rules[j], rel, isDir);
        assert all[k] == rules[k];
      }
      if Verdict(all, rel, isDir) {
        var k :| 0 <= k < |all| && RuleMatches(all[k], rel, isDir) && !all[k].negated
          && forall j | k < j < |all| :: !RuleMatches(all[j], rel, isDir);
        assert k < |rules| && all[k] == rules[k];
        assert forall j | k < j < |rules| :: all[j] == rules[j];
      }
    }
  }

  /** The rules whose directory contains the path. */
  ghost function Governing(rules: seq<Rule>, rel: string): seq<Rule> {
    if rules == [] then []
    else
      var front, last := rules[..|rules| - 1], rules[|rules| - 1];
      Governing(front, rel) + if RelativeTo(last.base, rel).Some? then [last] else []
  }

  /** Deleting every rule from a directory that does not contain the path never changes the
      verdict. */
  lemma {:induction false} ForeignRulesAreIrrelevant(rules: seq<Rule>, rel: string, isDir: bool)
    ensures Verdict(Governing(rules, rel), rel, isDir) == Verdict(rules, rel, isDir)
  {
    if rules != [] {
      var front, last := rules[..|rules| - 1], rules[|rules| - 1];
      assert rules == front + [last];
      ForeignRulesAreIrrelevant(front, rel, isDir);
      VerdictAppend(front, last, rel, isDir);
      VerdictAppend(Governing(front, rel), last, rel, isDir);
      assert Governing(front, rel) + [] == Governing(front, rel);
    }
  }
}
