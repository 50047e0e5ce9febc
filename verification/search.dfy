/** The counting side of `list`, `rList`, `search` and `rSearch` (CVFS.java):
    how many files a walk reports and the sum of their `getSize()` values. The
    lines they print are not modelled, only the final "Total files" and
    "Total size" figures. */
module Search {
  import opened Nodes
  import opened Criteria

  datatype Totals = Totals(count: int, size: int)

  function Plus(a: Totals, b: Totals): Totals
  {
    Totals(a.count + b.count, a.size + b.size)
  }

  /** What one visited file adds to the totals when `hit`. */
  function Tally(h: Heap, f: NodeId, hit: bool): Totals
    requires Valid(h) && f in h.nodes
  {
    if hit then Totals(1, Size(h, f)) else Totals(0, 0)
  }

  /** `search`: the files among `files` (the children of `owner`) that `c`
      matches, in order. */
  function MatchAmong(h: Heap, c: Criterion, owner: NodeId, files: seq<NodeId>): (t: Totals)
    requires Valid(h) && owner in h.nodes && ChildrenAbove(h, owner, files) && WellFormed(c)
    ensures 0 <= t.count <= |files|
    ensures 0 <= t.size <= SizeOfAll(h, owner, files)
    decreases |files|
  {
    if files == [] then Totals(0, 0)
    else
      var f := files[|files| - 1];
      Plus(MatchAmong(h, c, owner, files[..|files| - 1]), Tally(h, f, Eval(c, h, f)))
  }

  /** One more file visited by the loop of `search`. */
  lemma MatchAmongStep(h: Heap, c: Criterion, owner: NodeId, files: seq<NodeId>, i: nat)
    requires Valid(h) && owner in h.nodes && ChildrenAbove(h, owner, files) && WellFormed(c) && i < |files|
    ensures ChildrenAbove(h, owner, files[..i]) && ChildrenAbove(h, owner, files[..i + 1])
    ensures MatchAmong(h, c, owner, files[..i + 1])
         == Plus(MatchAmong(h, c, owner, files[..i]), Tally(h, files[i], Eval(c, h, files[i])))
  {
    assert files[..i + 1][..i] == files[..i];
  }

  /** `rSearch`: every file below `dir` that `c` matches; a matching directory
      is counted, and every directory is entered whether it matches or not.
      It reports a part of what `rList` reports. */
  function SubtreeMatch(h: Heap, c: Criterion, dir: NodeId): (t: Totals)
    requires Valid(h) && IsDir(h, dir) && WellFormed(c)
    ensures 0 <= t.count <= SubtreeAll(h, dir).count
    ensures 0 <= t.size <= SubtreeAll(h, dir).size
    decreases h.next - dir, 1
  {
    SubtreeMatchAll(h, c, dir, h.nodes[dir].files)
  }

  function SubtreeMatchAll(h: Heap, c: Criterion, owner: NodeId, files: seq<NodeId>): (t: Totals)
    requires Valid(h) && owner in h.nodes && ChildrenAbove(h, owner, files) && WellFormed(c)
    ensures 0 <= t.count <= SubtreeAllOf(h, owner, files).count
    ensures 0 <= t.size <= SubtreeAllOf(h, owner, files).size
    decreases h.next - owner, 0, |files|
  {
    if files == [] then Totals(0, 0)
    else
      var f := files[|files| - 1];
      var before := SubtreeMatchAll(h, c, owner, files[..|files| - 1]);
      var here := Tally(h, f, Eval(c, h, f));
      Plus(Plus(before, here), if IsDir(h, f) then SubtreeMatch(h, c, f) else Totals(0, 0))
  }

  /** One more child visited by the loop of `recursiveSearch`. */
  lemma SubtreeMatchStep(h: Heap, c: Criterion, owner: NodeId, files: seq<NodeId>, i: nat)
    requires Valid(h) && owner in h.nodes && ChildrenAbove(h, owner, files) && WellFormed(c) && i < |files|
    ensures ChildrenAbove(h, owner, files[..i]) && ChildrenAbove(h, owner, files[..i + 1])
    ensures SubtreeMatchAll(h, c, owner, files[..i + 1])
         == Plus(Plus(SubtreeMatchAll(h, c, owner, files[..i]), Tally(h, files[i], Eval(c, h, files[i]))),
                 if IsDir(h, files[i]) then SubtreeMatch(h, c, files[i]) else Totals(0, 0))
  {
    assert files[..i + 1][..i] == files[..i];
  }

  /** The running totals of `recursiveSearch` after one more child, when
      they held `start` plus the walk of the first `i` children before it. */
  lemma SubtreeMatchAdvance(h: Heap, c: Criterion, owner: NodeId, files: seq<NodeId>, i: nat, start: Totals, before: Totals, after: Totals)
    requires Valid(h) && owner in h.nodes && ChildrenAbove(h, owner, files) && WellFormed(c) && i < |files|
    requires ChildrenAbove(h, owner, files[..i]) && before == Plus(start, SubtreeMatchAll(h, c, owner, files[..i]))
    requires after == Plus(Plus(before, Tally(h, files[i], Eval(c, h, files[i]))),
                           if IsDir(h, files[i]) then SubtreeMatch(h, c, files[i]) else Totals(0, 0))
    ensures ChildrenAbove(h, owner, files[..i + 1])
    ensures after == Plus(start, SubtreeMatchAll(h, c, owner, files[..i + 1]))
  {
    SubtreeMatchStep(h, c, owner, files, i);
  }

  /** `rList`: every file below `dir`, each counted with its own size (so a
      document deep in the tree also contributes, through every enclosing
      directory's size, to the total several times). It reports at least the
      children `list` reports, and at least 40 bytes per file. */
  function SubtreeAll(h: Heap, dir: NodeId): (t: Totals)
    requires Valid(h) && IsDir(h, dir)
    ensures t.count >= |h.nodes[dir].files|
    ensures t.size >= Size(h, dir) - BaseFileSize
    ensures t.size >= BaseFileSize * t.count
    decreases h.next - dir, 1
  {
    SubtreeAllOf(h, dir, h.nodes[dir].files)
  }

  function SubtreeAllOf(h: Heap, owner: NodeId, files: seq<NodeId>): (t: Totals)
    requires Valid(h) && owner in h.nodes && ChildrenAbove(h, owner, files)
    ensures t.count >= |files|
    ensures t.size >= SizeOfAll(h, owner, files)
    ensures t.size >= BaseFileSize * t.count
    decreases h.next - owner, 0, |files|
  {
    if files == [] then Totals(0, 0)
    else
      var f := files[|files| - 1];
      var before := SubtreeAllOf(h, owner, files[..|files| - 1]);
      Plus(Plus(before, Tally(h, f, true)), if IsDir(h, f) then SubtreeAll(h, f) else Totals(0, 0))
  }

  /** One more child visited by the loop of `recursiveList`. */
  lemma SubtreeAllStep(h: Heap, owner: NodeId, files: seq<NodeId>, i: nat)
    requires Valid(h) && owner in h.nodes && ChildrenAbove(h, owner, files) && i < |files|
    ensures ChildrenAbove(h, owner, files[..i]) && ChildrenAbove(h, owner, files[..i + 1])
    ensures SubtreeAllOf(h, owner, files[..i + 1])
         == Plus(Plus(SubtreeAllOf(h, owner, files[..i]), Tally(h, files[i], true)),
                 if IsDir(h, files[i]) then SubtreeAll(h, files[i]) else Totals(0, 0))
  {
    assert files[..i + 1][..i] == files[..i];
  }

  /** A criterion and its negation split the children of a directory: what
      `search c` and `search !c` report adds up to the whole listing. */
  lemma {:induction false} SearchSplits(h: Heap, c: Criterion, owner: NodeId, files: seq<NodeId>)
    requires Valid(h) && owner in h.nodes && ChildrenAbove(h, owner, files) && WellFormed(c)
    ensures MatchAmong(h, c, owner, files).count + MatchAmong(h, Negation(c), owner, files).count == |files|
    ensures MatchAmong(h, c, owner, files).size + MatchAmong(h, Negation(c), owner, files).size
         == SizeOfAll(h, owner, files)
    decreases |files|
  {
    if files != [] {
      var init := files[..|files| - 1];
      assert ChildrenAbove(h, owner, init);
      SearchSplits(h, c, owner, init);
    }
  }

  /** The same split for the recursive walks: `rSearch c` and `rSearch !c`
      add up to what `rList` reports. */
  lemma {:induction false} RecursiveSearchSplits(h: Heap, c: Criterion, dir: NodeId)
    requires Valid(h) && IsDir(h, dir) && WellFormed(c)
    ensures SubtreeMatch(h, c, dir).count + SubtreeMatch(h, Negation(c), dir).count == SubtreeAll(h, dir).count
    ensures SubtreeMatch(h, c, dir).size + SubtreeMatch(h, Negation(c), dir).size == SubtreeAll(h, dir).size
    decreases h.next - dir, 1
  {
    RecursiveSearchSplitsAll(h, c, dir, h.nodes[dir].files);
  }

  lemma {:induction false} RecursiveSearchSplitsAll(h: Heap, c: Criterion, owner: NodeId, files: seq<NodeId>)
    requires Valid(h) && owner in h.nodes && ChildrenAbove(h, owner, files) && WellFormed(c)
    ensures SubtreeMatchAll(h, c, owner, files).count + SubtreeMatchAll(h, Negation(c), owner, files).count
         == SubtreeAllOf(h, owner, files).count
    ensures SubtreeMatchAll(h, c, owner, files).size + SubtreeMatchAll(h, Negation(c), owner, files).size
         == SubtreeAllOf(h, owner, files).size
    decreases h.next - owner, 0, |files|
  {
    if files != [] {
      var init, f := files[..|files| - 1], files[|files| - 1];
      assert ChildrenAbove(h, owner, init);
      RecursiveSearchSplitsAll(h, c, owner, init);
      if IsDir(h, f) {
        RecursiveSearchSplits(h, c, f);
      }
      var none := Totals(0, 0);
      AddsUp(SubtreeMatchAll(h, c, owner, init), SubtreeMatchAll(h, Negation(c), owner, init), SubtreeAllOf(h, owner, init),
             Tally(h, f, Eval(c, h, f)), Tally(h, f, Eval(Negation(c), h, f)), Tally(h, f, true),
             if IsDir(h, f) then SubtreeMatch(h, c, f) else none,
             if IsDir(h, f) then SubtreeMatch(h, Negation(c), f) else none,
             if IsDir(h, f) then SubtreeAll(h, f) else none);
    }
  }

  /** Two walks that split each of three parts of a third walk split their
      sums too. */
  lemma AddsUp(a1: Totals, a2: Totals, a: Totals, t1: Totals, t2: Totals, t: Totals, s1: Totals, s2: Totals, s: Totals)
    requires a1.count + a2.count == a.count && a1.size + a2.size == a.size
    requires t1.count + t2.count == t.count && t1.size + t2.size == t.size
    requires s1.count + s2.count == s.count && s1.size + s2.size == s.size
    ensures Plus(Plus(a1, t1), s1).count + Plus(Plus(a2, t2), s2).count == Plus(Plus(a, t), s).count
    ensures Plus(Plus(a1, t1), s1).size + Plus(Plus(a2, t2), s2).size == Plus(Plus(a, t), s).size
  {
  }
}
