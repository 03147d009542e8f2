/** The indexer's directory walk. It prunes ignored directories; what it returns is still a
    plain filter of all files. */
module Walk {
  import opened PathMatch
  import opened Wildcard
  import opened Wrappers

  /** A finite directory tree. `Other` is a leaf that is not a regular file. */
  datatype Node = File | Other | Dir(entries: seq<Named>)
  datatype Named = Named(name: string, node: Node)

  datatype Rules = Rules(defaults: seq<string>, extra: seq<string>, force: seq<string>)

  const TEXT_EXTENSIONS: set<string> :=
    {"rs", "py", "js", "jsx", "ts", "tsx", "go", "java", "cpp", "cc", "cxx", "c", "h", "rb",
     "php", "md", "markdown", "txt", "log", "json", "yaml", "yml", "toml", "xml", "html", "css",
     "scss", "sql", "sh", "bash", "zsh", "fish", "vim", "el", "lisp", "r", "R", "jl", "swift",
     "kt", "scala", "ex", "exs", "erl", "hs", "ml", "clj", "lua", "pl", "pm", "env", "ini",
     "cfg", "conf", "envrc"}

  /** What follows the last dot of a name, unless nothing precedes that dot. */
  function Extension(name: string, k: nat): Option<string>
    requires k <= |name|
  {
    if k <= 1 then None else if name[k - 1] == '.' then Some(name[k..]) else Extension(name, k - 1)
  }

  predicate IsTextFile(name: string) {
    name != ".." && match Extension(name, |name|) case None => false case Some(ext) => ext in TEXT_EXTENSIONS
  }

  lemma {:induction false} LastDot(name: string, k: nat, d: nat)
    requires d < k <= |name| && d > 0 && name[d] == '.' && forall i | d < i < k :: name[i] != '.'
    ensures Extension(name, k) == Some(name[d + 1..])
  {
    if d < k - 1 {
      LastDot(name, k - 1, d);
    }
  }

  lemma {:induction false} ExtensionFollowsADot(name: string, k: nat) returns (d: nat)
    requires k <= |name| && Extension(name, k).Some?
    ensures 0 < d < k && name[d] == '.' && Extension(name, k) == Some(name[d + 1..])
    ensures forall i | d < i < k :: name[i] != '.'
  {
    d := k - 1;
    if name[k - 1] != '.' {
      d := ExtensionFollowsADot(name, k - 1);
    }
  }

  /** A text file is named by a stem, a dot and one of the extensions. */
  lemma IsTextFileMeaning(name: string)
    ensures IsTextFile(name) <==> name != ".." && exists stem, ext ::
      name == stem + "." + ext && stem != "" && '.' !in ext && ext in TEXT_EXTENSIONS
  {
    hide TEXT_EXTENSIONS;
    if IsTextFile(name) {
      var d := ExtensionFollowsADot(name, |name|);
      var stem, ext := name[..d], name[d + 1..];
      assert name == stem + "." + ext;
    }
    if stem, ext :| name == stem + "." + ext && stem != "" && '.' !in ext && ext in TEXT_EXTENSIONS {
      assert name[|stem|] == '.' && name[|stem| + 1..] == ext;
      assert forall i | |stem| < i < |name| :: name[i] == ext[i - |stem| - 1];
      LastDot(name, |name|, |stem|);
    }
  }

  predicate Forced(rules: Rules, path: Path) {
    rules.force != [] && ForceMatches(rules.force, path)
  }

  predicate Ignored(rules: Rules, path: Path) {
    PathIsIgnored(rules.defaults, path) || PathIsIgnored(rules.extra, path)
  }

  // ----- The walk as a function

  function WalkEntries(rules: Rules, prefix: Path, entries: seq<Named>): seq<Path>
    decreases entries
  {
    if entries == [] then []
    else WalkNode(rules, prefix + [entries[0].name], entries[0].node) + WalkEntries(rules, prefix, entries[1..])
  }

  function WalkNode(rules: Rules, path: Path, node: Node): seq<Path>
    requires path != []
    decreases node
  {
    if Forced(rules, path) then
      if node.Dir? then WalkEntries(rules, path, node.entries) else [path]
    else if Ignored(rules, path) then []
    else if node.Dir? then WalkEntries(rules, path, node.entries)
    else if node.File? && IsTextFile(path[|path| - 1]) then [path]
    else []
  }

  /** `discover_files_recursive`, pushing onto one list. */
  class Discovery {
    const rules: Rules
    var files: seq<Path>

    constructor (rules: Rules)
      ensures this.rules == rules && files == []
    {
      this.rules := rules;
      files := [];
    }

    method Visit(prefix: Path, entries: seq<Named>)
      modifies this
      ensures files == old(files) + WalkEntries(rules, prefix, entries)
      decreases entries
    {
      var i := 0;
      while i < |entries|
        invariant 0 <= i <= |entries|
        invariant files + WalkEntries(rules, prefix, entries[i..]) == old(files) + WalkEntries(rules, prefix, entries)
      {
        var path := prefix + [entries[i].name];
        var node := entries[i].node;
        assert entries[i..][0] == entries[i] && entries[i..][1..] == entries[i + 1..];
        ghost var before := files;
        if Forced(rules, path) {
          if node.Dir? {
            Visit(path, node.entries);
          } else {
            files := files + [path];
          }
        } else if Ignored(rules, path) {
        } else if node.Dir? {
          Visit(path, node.entries);
        } else if node.File? && IsTextFile(path[|path| - 1]) {
          files := files + [path];
        }
        assert files == before + WalkNode(rules, path, node);
        i := i + 1;
      }
    }
  }

  // ----- Every file, and the filter

  datatype Leaf = Leaf(path: Path, regular: bool)

  /** All files of the tree, in the order of the walk. */
  ghost function LeavesOf(prefix: Path, entries: seq<Named>): seq<Leaf>
    decreases entries
  {
    if entries == [] then []
    else LeavesAt(prefix + [entries[0].name], entries[0].node) + LeavesOf(prefix, entries[1..])
  }

  ghost function LeavesAt(path: Path, node: Node): seq<Leaf>
    decreases node
  {
    if node.Dir? then LeavesOf(path, node.entries) else [Leaf(path, node.File?)]
  }

  ghost predicate Passes(rules: Rules, path: Path) {
    Forced(rules, path) || !Ignored(rules, path)
  }

  /** The leaf itself is wanted and no directory on its path below depth `from` is pruned. */
  ghost predicate Kept(rules: Rules, from: nat, leaf: Leaf) {
    && leaf.path != []
    && (forall i | from < i < |leaf.path| :: Passes(rules, leaf.path[..i]))
    && (Forced(rules, leaf.path) ||
        (!Ignored(rules, leaf.path) && leaf.regular && IsTextFile(leaf.path[|leaf.path| - 1])))
  }

  ghost function Filter(rules: Rules, from: nat, leaves: seq<Leaf>): seq<Path> {
    if leaves == [] then []
    else (if Kept(rules, from, leaves[0]) then [leaves[0].path] else []) + Filter(rules, from, leaves[1..])
  }

  lemma {:induction false} FilterConcat(rules: Rules, from: nat, a: seq<Leaf>, b: seq<Leaf>)
    ensures Filter(rules, from, a + b) == Filter(rules, from, a) + Filter(rules, from, b)
  {
    if a == [] {
      assert a + b == b;
    } else {
      assert (a + b)[0] == a[0] && (a + b)[1..] == a[1..] + b;
      FilterConcat(rules, from, a[1..], b);
    }
  }

  ghost predicate AllBelow(prefix: Path, leaves: seq<Leaf>) {
    forall k | 0 <= k < |leaves| :: prefix < leaves[k].path
  }

  lemma {:induction false} LeavesAreBelow(prefix: Path, entries: seq<Named>)
    ensures AllBelow(prefix, LeavesOf(prefix, entries))
    decreases entries
  {
    if entries != [] {
      var path := prefix + [entries[0].name];
      if entries[0].node.Dir? {
        LeavesAreBelow(path, entries[0].node.entries);
      }
      LeavesAreBelow(prefix, entries[1..]);
    }
  }

  /** Below a directory that passes, starting one level deeper makes no difference; below
      one that does not, nothing is kept. */
  lemma {:induction false} FilterBelow(rules: Rules, path: Path, leaves: seq<Leaf>)
    requires path != [] && AllBelow(path, leaves)
    ensures Filter(rules, |path| - 1, leaves)
            == if Passes(rules, path) then Filter(rules, |path|, leaves) else []
  {
    hide Passes, Kept;
    if leaves != [] {
      FilterBelow(rules, path, leaves[1..]);
      KeptOneDeeper(rules, path, leaves[0]);
    }
  }

  lemma KeptOneDeeper(rules: Rules, path: Path, leaf: Leaf)
    requires path != [] && path < leaf.path
    ensures Kept(rules, |path| - 1, leaf) <==> Passes(rules, path) && Kept(rules, |path|, leaf)
  {
    hide Passes, Forced, Ignored, IsTextFile;
    assert leaf.path[..|path|] == path;
  }

  lemma {:induction false} WalkIsFilter(rules: Rules, prefix: Path, entries: seq<Named>)
    ensures WalkEntries(rules, prefix, entries) == Filter(rules, |prefix|, LeavesOf(prefix, entries))
    decreases entries
  {
    hide Forced, Ignored, IsTextFile;
    if entries != [] {
      var path, node := prefix + [entries[0].name], entries[0].node;
      FilterConcat(rules, |prefix|, LeavesAt(path, node), LeavesOf(prefix, entries[1..]));
      WalkIsFilter(rules, prefix, entries[1..]);
      if node.Dir? {
        WalkIsFilter(rules, path, node.entries);
        LeavesAreBelow(path, node.entries);
        FilterBelow(rules, path, LeavesOf(path, node.entries));
      } else {
        assert LeavesAt(path, node)[1..] == [];
      }
    }
  }

  // ----- What the filter means

  /** The depth of the shallowest ancestor-or-self that is forced, if any. */
  ghost function ForcedDepth(rules: Rules, path: Path, k: nat): (d: nat)
    requires k <= |path|
    ensures d <= k + 1
    ensures d <= k ==> 1 <= d && Forced(rules, path[..d])
    ensures forall i | 1 <= i < d && i <= k :: !Forced(rules, path[..i])
  {
    if k == 0 then 1
    else
      var d := ForcedDepth(rules, path, k - 1);
      if d <= k - 1 then d else if Forced(rules, path[..k]) then k else k + 1
  }

  /** The flat rule. A forced file is returned unless the directory just above its
      shallowest forced ancestor-or-self is ignored; any other file is returned if it is a
      regular text file that is not ignored. */
  ghost predicate Selected(rules: Rules, leaf: Leaf)
    requires leaf.path != []
  {
    var n := |leaf.path|;
    var d := ForcedDepth(rules, leaf.path, n);
    if d <= n then !Ignored(rules, leaf.path[..d - 1])
    else !Ignored(rules, leaf.path) && leaf.regular && IsTextFile(leaf.path[n - 1])
  }

  lemma NothingIgnoresTheRoot(rules: Rules)
    ensures !Ignored(rules, [])
  {
  }

  lemma IgnoredBelow(rules: Rules, path: Path, i: nat, j: nat)
    requires i <= j <= |path| && Ignored(rules, path[..i])
    ensures Ignored(rules, path[..j])
  {
    assert path[..i] <= path[..j];
    if PathIsIgnored(rules.defaults, path[..i]) {
      IgnoringIsHereditary(rules.defaults, path[..i], path[..j]);
    } else {
      IgnoringIsHereditary(rules.extra, path[..i], path[..j]);
    }
  }

  lemma ForcedBelow(rules: Rules, path: Path, i: nat, j: nat)
    requires 1 <= i <= j <= |path| && Forced(rules, path[..i])
    ensures Forced(rules, path[..j])
  {
    assert path[..i] <= path[..j];
    ForcingIsHereditary(rules.force, path[..i], path[..j]);
  }

  /** Pruning decides every file as the flat rule does, because both kinds of patterns are
      hereditary down the tree. */
  lemma KeptIffSelected(rules: Rules, leaf: Leaf)
    requires leaf.path != []
    ensures Kept(rules, 0, leaf) <==> Selected(rules, leaf)
  {
    var path, n := leaf.path, |leaf.path|;
    var d := ForcedDepth(rules, path, n);
    assert path[..n] == path;
    NothingIgnoresTheRoot(rules);
    if d <= n {
      forall i | d <= i <= n
        ensures Forced(rules, path[..i])
      {
        ForcedBelow(rules, path, d, i);
      }
      if Ignored(rules, path[..d - 1]) {
        assert !Passes(rules, path[..d - 1]);
      } else {
        forall i | 0 < i < d
          ensures Passes(rules, path[..i])
        {
          if Ignored(rules, path[..i]) {
            IgnoredBelow(rules, path, i, d - 1);
          }
        }
      }
    } else if !Ignored(rules, path) {
      forall i | 0 < i < n
        ensures Passes(rules, path[..i])
      {
        if Ignored(rules, path[..i]) {
          IgnoredBelow(rules, path, i, n);
        }
      }
    }
  }

  /** All selected files of a list of leaves, in order. */
  ghost function SelectedPaths(rules: Rules, leaves: seq<Leaf>): seq<Path>
    requires forall k | 0 <= k < |leaves| :: leaves[k].path != []
  {
    if leaves == [] then []
    else (if Selected(rules, leaves[0]) then [leaves[0].path] else []) + SelectedPaths(rules, leaves[1..])
  }

  lemma {:induction false} FilterIsSelection(rules: Rules, leaves: seq<Leaf>)
    requires forall k | 0 <= k < |leaves| :: leaves[k].path != []
    ensures Filter(rules, 0, leaves) == SelectedPaths(rules, leaves)
  {
    if leaves != [] {
      KeptIffSelected(rules, leaves[0]);
      FilterIsSelection(rules, leaves[1..]);
    }
  }

  /** The pruning walk returns exactly the selected files of the whole tree, in order. */
  lemma WalkReturnsTheSelected(rules: Rules, entries: seq<Named>)
    ensures forall k | 0 <= k < |LeavesOf([], entries)| :: LeavesOf([], entries)[k].path != []
    ensures WalkEntries(rules, [], entries) == SelectedPaths(rules, LeavesOf([], entries))
  {
    LeavesAreBelow([], entries);
    WalkIsFilter(rules, [], entries);
    FilterIsSelection(rules, LeavesOf([], entries));
  }

  // ----- The tree, looked up instead of walked

  /** Following the names of `rel` from these entries leads to `node`. */
  ghost predicate Reaches(entries: seq<Named>, rel: Path, node: Node)
    decreases |rel|, 0
  {
    rel != [] && exists i | 0 <= i < |entries| :: entries[i].name == rel[0] && LeadsTo(entries[i].node, rel[1..], node)
  }

  ghost predicate LeadsTo(start: Node, rel: Path, node: Node)
    decreases |rel|, 1
  {
    if rel == [] then start == node else start.Dir? && Reaches(start.entries, rel, node)
  }

  /** A leaf of that kind is found under these names. */
  ghost predicate IsFileAt(entries: seq<Named>, rel: Path, regular: bool) {
    exists node: Node :: !node.Dir? && node.File? == regular && Reaches(entries, rel, node)
  }

  ghost predicate LeadsToFile(start: Node, rel: Path, regular: bool) {
    exists node: Node :: !node.Dir? && node.File? == regular && LeadsTo(start, rel, node)
  }

  lemma FileAmongEntries(entries: seq<Named>, rel: Path, regular: bool)
    requires entries != []
    ensures IsFileAt(entries, rel, regular) <==>
            || (rel != [] && rel[0] == entries[0].name && LeadsToFile(entries[0].node, rel[1..], regular))
            || IsFileAt(entries[1..], rel, regular)
  {
    hide LeadsTo;
    forall node
      ensures Reaches(entries, rel, node) <==>
              || (rel != [] && rel[0] == entries[0].name && LeadsTo(entries[0].node, rel[1..], node))
              || Reaches(entries[1..], rel, node)
    {
      if rel != [] {
        assert forall i | 0 <= i < |entries[1..]| :: entries[1..][i] == entries[i + 1];
        if Reaches(entries[1..], rel, node) {
          var i :| 0 <= i < |entries[1..]| && entries[1..][i].name == rel[0]
            && LeadsTo(entries[1..][i].node, rel[1..], node);
          assert entries[i + 1].name == rel[0];
        }
      }
    }
  }

  lemma FileInside(start: Node, rel: Path, regular: bool)
    ensures LeadsToFile(start, rel, regular) <==>
            if start.Dir? then rel != [] && IsFileAt(start.entries, rel, regular)
            else rel == [] && start.File? == regular
  {
    hide Reaches;
    if start.Dir? && rel != [] && IsFileAt(start.entries, rel, regular) {
      var node: Node :| !node.Dir? && node.File? == regular && Reaches(start.entries, rel, node);
      assert LeadsTo(start, rel, node);
    }
    if !start.Dir? && rel == [] {
      assert LeadsTo(start, rel, start);
    }
  }

  /** The leaves of a tree are the files that can be looked up in it, and no others. */
  lemma {:induction false} LeavesAreTheFiles(prefix: Path, entries: seq<Named>, rel: Path, regular: bool)
    ensures Leaf(prefix + rel, regular) in LeavesOf(prefix, entries) <==> IsFileAt(entries, rel, regular)
    decreases entries
  {
    hide IsFileAt, LeadsToFile;
    if entries == [] {
      NoFileThere(rel, regular);
    } else {
      var path, node, leaf := prefix + [entries[0].name], entries[0].node, Leaf(prefix + rel, regular);
      FileAmongEntries(entries, rel, regular);
      LeavesAreTheFiles(prefix, entries[1..], rel, regular);
      if rel != [] && rel[0] == entries[0].name {
        assert path + rel[1..] == prefix + rel;
        FileInside(node, rel[1..], regular);
        if node.Dir? {
          LeavesAreTheFiles(path, node.entries, rel[1..], regular);
          LeavesAreBelow(path, node.entries);
          assert leaf in LeavesAt(path, node) ==> path < leaf.path;
        } else {
          assert leaf.path == path <==> rel[1..] == [];
        }
      } else {
        NotUnder(prefix, entries[0].name, node, rel, regular);
      }
    }
  }

  lemma NoFileThere(rel: Path, regular: bool)
    ensures !IsFileAt([], rel, regular)
  {
  }

  lemma NotUnder(prefix: Path, name: string, node: Node, rel: Path, regular: bool)
    requires rel == [] || rel[0] != name
    ensures Leaf(prefix + rel, regular) !in LeavesAt(prefix + [name], node)
  {
    var path := prefix + [name];
    if node.Dir? {
      LeavesAreBelow(path, node.entries);
    }
    assert path[|prefix|] == name;
    assert rel != [] ==> (prefix + rel)[|prefix|] == rel[0];
  }

  lemma {:induction false} SelectedAreLeaves(rules: Rules, leaves: seq<Leaf>, path: Path)
    requires forall k | 0 <= k < |leaves| :: leaves[k].path != []
    ensures path in SelectedPaths(rules, leaves) <==>
            exists regular :: Leaf(path, regular) in leaves && path != [] && Selected(rules, Leaf(path, regular))
  {
    hide Selected;
    if leaves != [] {
      SelectedAreLeaves(rules, leaves[1..], path);
      assert leaves == [leaves[0]] + leaves[1..];
      assert leaves[0] == Leaf(leaves[0].path, leaves[0].regular);
    }
  }

  /** A path is returned exactly if a file is found under it and the flat rule selects it. */
  lemma ReturnedIff(rules: Rules, entries: seq<Named>, path: Path)
    ensures path in WalkEntries(rules, [], entries) <==>
            exists regular :: IsFileAt(entries, path, regular) && path != [] && Selected(rules, Leaf(path, regular))
  {
    hide Selected, IsFileAt, WalkEntries, LeavesOf;
    WalkReturnsTheSelected(rules, entries);
    SelectedAreLeaves(rules, LeavesOf([], entries), path);
    assert [] + path == path;
    LeavesAreTheFiles([], entries, path, true);
    LeavesAreTheFiles([], entries, path, false);
  }

  // ----- Each file once

  ghost predicate DistinctNames(entries: seq<Named>)
    decreases entries
  {
    && (forall i, j | 0 <= i < j < |entries| :: entries[i].name != entries[j].name)
    && (forall i | 0 <= i < |entries| && entries[i].node.Dir? :: DistinctNames(entries[i].node.entries))
  }

  ghost predicate NoRepeats<T>(s: seq<T>) {
    forall i, j | 0 <= i < j < |s| :: s[i] != s[j]
  }

  /** Every result lies below the prefix, under the name of one of the entries. */
  lemma {:induction false} ResultsAreBelow(rules: Rules, prefix: Path, entries: seq<Named>)
    ensures forall k | 0 <= k < |WalkEntries(rules, prefix, entries)| ::
      var path := WalkEntries(rules, prefix, entries)[k];
      prefix < path && exists i | 0 <= i < |entries| :: path[|prefix|] == entries[i].name
    decreases entries
  {
    if entries != [] {
      var path, node := prefix + [entries[0].name], entries[0].node;
      ResultsAreBelow(rules, prefix, entries[1..]);
      if node.Dir? {
        ResultsAreBelow(rules, path, node.entries);
      }
      var head, tail := WalkNode(rules, path, node), WalkEntries(rules, prefix, entries[1..]);
      forall k | 0 <= k < |head + tail|
        ensures prefix < (head + tail)[k]
                && exists i | 0 <= i < |entries| :: (head + tail)[k][|prefix|] == entries[i].name
      {
        if k < |head| {
          if node.Dir? {
            assert head == WalkEntries(rules, path, node.entries);
          }
          assert path <= head[k];
          assert head[k][|prefix|] == entries[0].name;
        } else {
          var i :| 0 <= i < |entries[1..]| && tail[k - |head|][|prefix|] == entries[1..][i].name;
          assert entries[i + 1] == entries[1..][i];
        }
      }
    }
  }

  /** No file is returned twice. */
  lemma {:induction false} WalkHasNoRepeats(rules: Rules, prefix: Path, entries: seq<Named>)
    requires DistinctNames(entries)
    ensures NoRepeats(WalkEntries(rules, prefix, entries))
    decreases entries
  {
    if entries != [] {
      var path, node := prefix + [entries[0].name], entries[0].node;
      assert DistinctNames(entries[1..]);
      WalkHasNoRepeats(rules, prefix, entries[1..]);
      ResultsAreBelow(rules, prefix, entries[1..]);
      if node.Dir? {
        WalkHasNoRepeats(rules, path, node.entries);
        ResultsAreBelow(rules, path, node.entries);
      }
      var head, tail := WalkNode(rules, path, node), WalkEntries(rules, prefix, entries[1..]);
      forall i, j | 0 <= i < |head| && 0 <= j < |tail|
        ensures head[i] != tail[j]
      {
        assert path <= head[i] && head[i][|prefix|] == entries[0].name;
        var k :| 0 <= k < |entries[1..]| && tail[j][|prefix|] == entries[1..][k].name;
        assert entries[1..][k] == entries[k + 1];
      }
    }
  }

  // ----- Force-include does not always win

  const WORKFLOWS := Rules([".github"], [], [".github/ci"])
  const CI_FILE: Path := [".github", "ci", "a.yml"]

  lemma WorkflowPatterns()
    ensures Components(".github") == [".github"]
    ensures Components(".github/ci") == [".github", "ci"]
  {
    ComponentsOfJoin([".github"]);
    ComponentsOfJoin([".github", "ci"]);
    assert Join([".github"]) == ".github";
    assert Join(["ci"]) == "ci";
    assert [".github", "ci"][1..] == ["ci"];
    assert ".github" + "/" + "ci" == ".github/ci";
  }

  lemma CiFileIsForced()
    ensures Forced(WORKFLOWS, CI_FILE)
  {
    WorkflowPatterns();
    var pat: Path := [".github", "ci"];
    assert CI_FILE[..2] == pat;
    assert pat[1..] == ["ci"] && pat[1..][1..] == [];
    assert ComponentMatch(pat[1..], pat[1..]);
    assert ComponentMatch(pat, pat);
    assert PathMatches(WORKFLOWS.force[0], CI_FILE);
  }

  lemma CiFolderIsPruned()
    ensures Ignored(WORKFLOWS, [".github"]) && !Forced(WORKFLOWS, [".github"])
  {
    WorkflowPatterns();
    var top: Path := [".github"];
    assert Wild(".github", top[0]);
    assert IgnoredBy(WORKFLOWS.defaults[0], top);
    assert top[1..] == [];
    assert !ComponentMatch([".github", "ci"][1..], top[1..]);
    assert !PathMatches(WORKFLOWS.force[0], top);
  }

  /** The documentation promises that a force-included file is always indexed. Here the
      file matches a force pattern, but the directory above the pattern's own path is
      ignored and pruned before the pattern can match. */
  lemma ForcedFileCanBePruned()
    ensures Forced(WORKFLOWS, CI_FILE)
    ensures WalkEntries(WORKFLOWS, [], [Named(".github", Dir([Named("ci", Dir([Named("a.yml", File)]))]))]) == []
  {
    CiFileIsForced();
    CiFolderIsPruned();
    assert [] + [".github"] == [".github"];
  }
}
