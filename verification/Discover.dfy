/** The client's file discovery: a walk driven by an explicit stack. It visits directories
    in another order than a recursive walk, but finds the same files. */
module Discover {
  import opened PathMatch
  import opened Walk

  /** The three tests of a path, as the client makes them. */
  datatype Tests = Tests(hidden: Path -> bool, forced: Path -> bool, ignored: (Path, bool) -> bool)

  /** Forcing wins over everything; otherwise neither hidden nor ignored. */
  predicate Wanted(t: Tests, path: Path, isDir: bool) {
    t.forced(path) || (!t.hidden(path) && !t.ignored(path, isDir))
  }

  // ----- The recursive walk

  function Collect(t: Tests, prefix: Path, entries: seq<Named>): seq<Path>
    decreases entries
  {
    if entries == [] then []
    else CollectNode(t, prefix + [entries[0].name], entries[0].node) + Collect(t, prefix, entries[1..])
  }

  function CollectNode(t: Tests, path: Path, node: Node): seq<Path>
    decreases node
  {
    if !Wanted(t, path, node.Dir?) then []
    else if node.Dir? then Collect(t, path, node.entries)
    else [path]
  }

  /** Wanted as a file, in directories that are all wanted below depth `from`. */
  ghost predicate WantedLeaf(t: Tests, from: nat, path: Path) {
    Wanted(t, path, false) && forall i | from < i < |path| :: Wanted(t, path[..i], true)
  }

  ghost function WantedLeaves(t: Tests, from: nat, leaves: seq<Leaf>): seq<Path> {
    if leaves == [] then []
    else (if WantedLeaf(t, from, leaves[0].path) then [leaves[0].path] else []) + WantedLeaves(t, from, leaves[1..])
  }

  lemma {:induction false} WantedConcat(t: Tests, from: nat, a: seq<Leaf>, b: seq<Leaf>)
    ensures WantedLeaves(t, from, a + b) == WantedLeaves(t, from, a) + WantedLeaves(t, from, b)
  {
    if a == [] {
      assert a + b == b;
    } else {
      assert (a + b)[0] == a[0] && (a + b)[1..] == a[1..] + b;
      WantedConcat(t, from, a[1..], b);
    }
  }

  lemma {:induction false} WantedBelow(t: Tests, path: Path, leaves: seq<Leaf>)
    requires path != [] && AllBelow(path, leaves)
    ensures WantedLeaves(t, |path| - 1, leaves)
            == if Wanted(t, path, true) then WantedLeaves(t, |path|, leaves) else []
  {
    hide WantedLeaf, Wanted;
    if leaves != [] {
      WantedBelow(t, path, leaves[1..]);
      WantedOneDeeper(t, path, leaves[0].path);
    }
  }

  lemma WantedOneDeeper(t: Tests, path: Path, below: Path)
    requires path != [] && path < below
    ensures WantedLeaf(t, |path| - 1, below) <==> Wanted(t, path, true) && WantedLeaf(t, |path|, below)
  {
    hide Wanted;
    assert below[..|path|] == path;
  }

  /** The walk finds the files that are wanted and whose directories all are. */
  lemma {:induction false} CollectFindsWanted(t: Tests, prefix: Path, entries: seq<Named>)
    ensures Collect(t, prefix, entries) == WantedLeaves(t, |prefix|, LeavesOf(prefix, entries))
    decreases entries
  {
    if entries != [] {
      var path, node := prefix + [entries[0].name], entries[0].node;
      WantedConcat(t, |prefix|, LeavesAt(path, node), LeavesOf(prefix, entries[1..]));
      CollectFindsWanted(t, prefix, entries[1..]);
      if node.Dir? {
        CollectFindsWanted(t, path, node.entries);
        LeavesAreBelow(path, node.entries);
        WantedBelow(t, path, LeavesOf(path, node.entries));
      } else {
        assert LeavesAt(path, node)[1..] == [];
      }
    }
  }

  /** Forced, or neither hidden nor ignored. */
  ghost predicate Allowed(t: Tests, path: Path, isDir: bool) {
    t.forced(path) || !(t.hidden(path) || t.ignored(path, isDir))
  }

  lemma {:induction false} WantedAreLeaves(t: Tests, leaves: seq<Leaf>, path: Path)
    ensures path in WantedLeaves(t, 0, leaves) <==>
            (exists regular :: Leaf(path, regular) in leaves) && WantedLeaf(t, 0, path)
  {
    hide WantedLeaf;
    if leaves != [] {
      WantedAreLeaves(t, leaves[1..], path);
      assert leaves == [leaves[0]] + leaves[1..];
      assert leaves[0] == Leaf(leaves[0].path, leaves[0].regular);
    }
  }

  /** A path is found exactly if there is a file under it, and it and every directory on the way
      to it is forced, or neither hidden nor ignored. */
  lemma FoundIff(t: Tests, root: seq<Named>, path: Path)
    ensures path in Collect(t, [], root) <==>
            && (exists regular :: IsFileAt(root, path, regular))
            && Allowed(t, path, false)
            && forall i | 0 < i < |path| :: Allowed(t, path[..i], true)
  {
    hide IsFileAt, Collect, LeavesOf;
    CollectFindsWanted(t, [], root);
    WantedAreLeaves(t, LeavesOf([], root), path);
    assert [] + path == path;
    LeavesAreTheFiles([], root, path, true);
    LeavesAreTheFiles([], root, path, false);
  }

  // ----- The stack

  datatype Open = Open(prefix: Path, entries: seq<Named>)

  ghost function Size(entries: seq<Named>): nat
    decreases entries
  {
    if entries == [] then 1
    else (if entries[0].node.Dir? then Size(entries[0].node.entries) else 1) + Size(entries[1..])
  }

  ghost function StackSize(stack: seq<Open>): nat {
    if stack == [] then 0 else StackSize(stack[..|stack| - 1]) + Size(stack[|stack| - 1].entries)
  }

  /** What the directories on the stack still have to yield. */
  ghost function StackYield(t: Tests, stack: seq<Open>): multiset<Path> {
    if stack == [] then multiset{}
    else
      var top := stack[|stack| - 1];
      StackYield(t, stack[..|stack| - 1]) + multiset(Collect(t, top.prefix, top.entries))
  }

  lemma PushYields(t: Tests, stack: seq<Open>, dir: Open)
    ensures StackYield(t, stack + [dir]) == StackYield(t, stack) + multiset(Collect(t, dir.prefix, dir.entries))
    ensures StackSize(stack + [dir]) == StackSize(stack) + Size(dir.entries)
  {
    assert (stack + [dir])[..|stack|] == stack;
  }

  /** `discover_files`: finds exactly the files of the recursive walk, each as often. */
  method DiscoverFiles(t: Tests, root: seq<Named>) returns (out: seq<Path>)
    ensures multiset(out) == multiset(Collect(t, [], root))
  {
    var stack := [Open([], root)];
    out := [];
    PushYields(t, [], Open([], root));
    assert [] + [Open([], root)] == stack;
    while |stack| > 0
      invariant multiset(out) + StackYield(t, stack) == multiset(Collect(t, [], root))
      decreases StackSize(stack)
    {
      var dir := stack[|stack| - 1];
      stack := stack[..|stack| - 1];
      stack, out := ReadDir(t, dir, stack, out);
    }
  }

  /** The loop over the entries of one directory. */
  method ReadDir(t: Tests, dir: Open, stack0: seq<Open>, out0: seq<Path>) returns (stack: seq<Open>, out: seq<Path>)
    ensures multiset(out) + StackYield(t, stack)
            == multiset(out0) + StackYield(t, stack0) + multiset(Collect(t, dir.prefix, dir.entries))
    ensures StackSize(stack) < StackSize(stack0) + Size(dir.entries)
  {
    stack, out := stack0, out0;
    ghost var left := dir.entries;
    for i := 0 to |dir.entries|
      invariant left == dir.entries[i..]
      invariant multiset(out) + StackYield(t, stack) + multiset(Collect(t, dir.prefix, left))
                == multiset(out0) + StackYield(t, stack0) + multiset(Collect(t, dir.prefix, dir.entries))
      invariant StackSize(stack) + Size(left) <= StackSize(stack0) + Size(dir.entries)
    {
      var path, node := dir.prefix + [dir.entries[i].name], dir.entries[i].node;
      assert left[0] == dir.entries[i];
      left := left[1..];
      if t.hidden(path) && !t.forced(path) {
        continue;
      }
      var forced := t.forced(path);
      var ignored := t.ignored(path, node.Dir?);
      if node.Dir? {
        if forced || !ignored {
          PushYields(t, stack, Open(path, node.entries));
          stack := stack + [Open(path, node.entries)];
        }
        continue;
      }
      if forced || !ignored {
        out := out + [path];
      }
    }
  }
}
