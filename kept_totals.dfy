// The totals of a finalized tree, flattened: the value an account shows on a
// day is the sum of every split of its kept subtree posted on or before that
// day. A split counts towards an account when no account strictly between
// the two is ignored, so a split below an ignored account adds nothing to
// any ancestor (budget.py:50-60).

module KeptTotals {
  import opened Wrappers
  import opened AccountPath
  import opened Series
  import opened TreeSpec
  import opened IngestFacts
  import opened FinalizeFacts

  /** Split `p` reaches the total of the account at `path` on day `i`: it is
      posted on or before `i`, to that account or below it, and none of the
      accounts from just below `path` down to the split's own is ignored. */
  predicate Counts(p: Posting, path: seq<string>, ignored: set<string>, i: nat)
  {
    && p.day <= i
    && OnPath(path, p.path)
    && forall m :: |path| < m <= |p.path| ==> Join(p.path[..m]) !in ignored
  }

  /** The sum of the amounts of the splits in `ps` that count towards `path`
      on day `i`. */
  function KeptSum(ps: seq<Posting>, path: seq<string>, ignored: set<string>, i: nat): int
    decreases |ps|
  {
    if ps == [] then 0
    else
      var last := ps[|ps| - 1];
      KeptSum(ps[..|ps| - 1], path, ignored, i) + if Counts(last, path, ignored, i) then last.amount else 0
  }

  /** The kept sums of the children named by the first `k` of `names`; a
      child whose full name is ignored contributes nothing. */
  function KidsSum(ps: seq<Posting>, path: seq<string>, names: seq<string>, ignored: set<string>, i: nat, k: nat): int
    requires k <= |names|
    decreases k
  {
    if k == 0 then 0
    else
      KidsSum(ps, path, names, ignored, i, k - 1)
        + if Join(path + [names[k - 1]]) in ignored then 0 else KeptSum(ps, path + [names[k - 1]], ignored, i)
  }

  /** What the single split `p` adds to `KidsSum`. */
  function PostingKids(p: Posting, path: seq<string>, names: seq<string>, ignored: set<string>, i: nat, k: nat): int
    requires k <= |names|
    decreases k
  {
    if k == 0 then 0
    else
      PostingKids(p, path, names, ignored, i, k - 1)
        + if Join(path + [names[k - 1]]) in ignored then 0
          else if Counts(p, path + [names[k - 1]], ignored, i) then p.amount else 0
  }

  predicate Distinct(names: seq<string>)
  {
    forall a, b :: 0 <= a < b < |names| ==> names[a] != names[b]
  }

  lemma KeptSumSnoc(ps: seq<Posting>, p: Posting, path: seq<string>, ignored: set<string>, i: nat)
    ensures KeptSum(ps + [p], path, ignored, i) ==
      KeptSum(ps, path, ignored, i) + if Counts(p, path, ignored, i) then p.amount else 0
  {
    assert (ps + [p])[..|ps|] == ps;
  }

  lemma {:induction false} KidsSumSnoc(ps: seq<Posting>, p: Posting, path: seq<string>, names: seq<string>,
                                       ignored: set<string>, i: nat, k: nat)
    requires k <= |names|
    ensures KidsSum(ps + [p], path, names, ignored, i, k) ==
      KidsSum(ps, path, names, ignored, i, k) + PostingKids(p, path, names, ignored, i, k)
    decreases k
  {
    if k > 0 {
      KidsSumSnoc(ps, p, path, names, ignored, i, k - 1);
      KeptSumSnoc(ps, p, path + [names[k - 1]], ignored, i);
    }
  }

  /** A split counting towards a child of `path` lies below `path`, under
      that child. */
  lemma CountsBelow(p: Posting, path: seq<string>, y: string, ignored: set<string>, i: nat)
    requires path != [] && Counts(p, path + [y], ignored, i)
    ensures OnPath(path, p.path) && |p.path| > |path| && p.path[|path|] == y
  {
    assert p.path[..|path|] == (p.path[..|path| + 1])[..|path|];
    assert p.path[|path|] == (p.path[..|path| + 1])[|path|];
  }

  /** A split strictly below `path` counts towards `path` exactly when it
      counts towards the child it lies under and that child is kept. */
  lemma CountsChild(p: Posting, path: seq<string>, ignored: set<string>, i: nat)
    requires OnPath(path, p.path) && |p.path| > |path|
    ensures var child := path + [p.path[|path|]];
      Counts(p, path, ignored, i) <==> Join(child) !in ignored && Counts(p, child, ignored, i)
  {
    var child := path + [p.path[|path|]];
    assert p.path[..|path| + 1] == child;
    assert OnPath(child, p.path);
  }

  /** With distinct names, the single split `p` adds its amount to `KidsSum`
      exactly when it counts towards the one child it lies under, and that
      child is among the first `k` and kept. */
  lemma {:induction false} PostingKidsAt(p: Posting, path: seq<string>, names: seq<string>,
                                         ignored: set<string>, i: nat, k: nat)
    requires path != [] && Distinct(names) && k <= |names|
    ensures PostingKids(p, path, names, ignored, i, k) ==
      if && OnPath(path, p.path) && |p.path| > |path|
         && IndexOf(names, p.path[|path|]) < k
         && Join(path + [p.path[|path|]]) !in ignored
         && Counts(p, path + [p.path[|path|]], ignored, i)
      then p.amount else 0
    decreases k
  {
    if k > 0 {
      PostingKidsAt(p, path, names, ignored, i, k - 1);
      var y := names[k - 1];
      if Counts(p, path + [y], ignored, i) {
        CountsBelow(p, path, y, ignored, i);
        assert IndexOf(names, y) == k - 1;
      } else if OnPath(path, p.path) && |p.path| > |path| && IndexOf(names, p.path[|path|]) == k - 1 {
        assert p.path[|path|] == y;
      }
    }
  }

  /** The kept sum of `path` splits into what was posted to `path` itself
      and the kept sums of its kept children, provided `names` lists every
      child a split lies under, once. */
  lemma {:induction false} KeptSplit(ps: seq<Posting>, path: seq<string>, names: seq<string>, ignored: set<string>, i: nat)
    requires path != [] && Distinct(names)
    requires forall j :: 0 <= j < |ps| && OnPath(path, ps[j].path) && |ps[j].path| > |path| ==>
      ps[j].path[|path|] in names
    ensures KeptSum(ps, path, ignored, i) ==
      SumThrough(History(ps, path), i) + KidsSum(ps, path, names, ignored, i, |names|)
    decreases |ps|
  {
    if ps == [] {
      assert KidsSum(ps, path, names, ignored, i, |names|) == 0 by {
        KidsEmpty(path, names, ignored, i, |names|);
      }
    } else {
      var init := ps[..|ps| - 1];
      var p := ps[|ps| - 1];
      assert ps == init + [p];
      KeptSplit(init, path, names, ignored, i);
      KeptSumSnoc(init, p, path, ignored, i);
      KidsSumSnoc(init, p, path, names, ignored, i, |names|);
      PostingKidsAt(p, path, names, ignored, i, |names|);
      assert History(ps, path) == History(init, path) + if p.path == path then [Entry(p.day, p.amount)] else [];
      if OnPath(path, p.path) && |p.path| == |path| {
        assert p.path == p.path[..|path|];
      }
      if p.path == path {
        SumThroughSnoc(History(init, path), Entry(p.day, p.amount), i);
      } else if OnPath(path, p.path) && |p.path| > |path| {
        var y := p.path[|path|];
        assert p == ps[|ps| - 1] && y in names;
        var w :| 0 <= w < |names| && names[w] == y;
        assert IndexOf(names, y) < |names|;
        CountsChild(p, path, ignored, i);
        assert PostingKids(p, path, names, ignored, i, |names|) == if Counts(p, path, ignored, i) then p.amount else 0;
        assert History(ps, path) == History(init, path);
      } else {
        assert !Counts(p, path, ignored, i);
        assert PostingKids(p, path, names, ignored, i, |names|) == 0;
        assert History(ps, path) == History(init, path);
      }
    }
  }

  lemma {:induction false} KidsEmpty(path: seq<string>, names: seq<string>, ignored: set<string>, i: nat, k: nat)
    requires k <= |names|
    ensures KidsSum([], path, names, ignored, i, k) == 0
    decreases k
  {
    if k > 0 {
      KidsEmpty(path, names, ignored, i, k - 1);
    }
  }

  /** The child at position `x` of the node at `path` is the node at
      `path + [its name]`, finalized under the full name of `path`, and its
      own full name extends that of `path`. */
  lemma ChildAt(root: string, ps: seq<Posting>, n: nat, path: seq<string>, node: Node, x: nat)
    requires Stream(ps, root, n) && path != [] && path[0] == root
    requires GetNode(IngestAll(root, ps, n), path) == Some(node) && x < |node.children|
    ensures var c := node.children[x];
      && Names(node.children)[x] == c.name
      && GetNode(IngestAll(root, ps, n), path + [c.name]) == Some(c)
      && PrefixAt(None, path + [c.name]) == Some(Join(path))
      && ChildName(Join(path), c) == Join(path + [c.name])
  {
    var t := IngestAll(root, ps, n);
    var c := node.children[x];
    IngestAllDistinct(root, ps, n);
    GetNodeDistinct(t, path);
    DistinctIndex(node, x);
    GetNodeSnoc(t, path, c.name);
    PrefixAtSnoc(None, path, c.name);
    QualifiedPath(path);
    JoinSnoc(path, c.name);
  }

  /** Every child name a split lies under is the name of a child of the
      node at `path`, and these names are distinct. */
  lemma ChildrenCover(root: string, ps: seq<Posting>, n: nat, path: seq<string>, node: Node)
    requires Stream(ps, root, n) && path != [] && path[0] == root
    requires GetNode(IngestAll(root, ps, n), path) == Some(node)
    ensures Distinct(Names(node.children))
    ensures forall j :: 0 <= j < |ps| && OnPath(path, ps[j].path) && |ps[j].path| > |path| ==>
      ps[j].path[|path|] in Names(node.children)
  {
    var t := IngestAll(root, ps, n);
    IngestAllDistinct(root, ps, n);
    GetNodeDistinct(t, path);
    forall j | 0 <= j < |ps| && OnPath(path, ps[j].path) && |ps[j].path| > |path|
      ensures ps[j].path[|path|] in Names(node.children)
    {
      ChildCovers(root, ps, n, path, node, j);
    }
  }

  lemma ChildCovers(root: string, ps: seq<Posting>, n: nat, path: seq<string>, node: Node, j: nat)
    requires Stream(ps, root, n) && path != [] && path[0] == root
    requires GetNode(IngestAll(root, ps, n), path) == Some(node)
    requires j < |ps| && OnPath(path, ps[j].path) && |ps[j].path| > |path|
    ensures ps[j].path[|path|] in Names(node.children)
  {
    var y := ps[j].path[|path|];
    assert ps[j].path[..|path| + 1] == path + [y];
    assert Posted(ps, path + [y]) by {
      assert OnPath(path + [y], ps[j].path);
    }
    IngestAllFinds(root, ps, n, path + [y]);
    GetNodeSnoc(IngestAll(root, ps, n), path, y);
    assert Names(node.children)[ChildIndex(node, y)] == y;
  }

  /** Child by child agreement adds up: when each of the first `k` children
      adds as much to the retained total as to the kids' sum, the two
      totals agree. */
  lemma {:induction false} SumsAgree(node: Node, qualified: string, ps: seq<Posting>, path: seq<string>,
                                     ignored: set<string>, i: nat, k: nat)
    requires k <= |node.children|
    requires forall x :: 0 <= x < k ==>
      RetainedTotal(node, qualified, ignored, x + 1, i) - RetainedTotal(node, qualified, ignored, x, i)
        == KidsSum(ps, path, Names(node.children), ignored, i, x + 1) - KidsSum(ps, path, Names(node.children), ignored, i, x)
    ensures RetainedTotal(node, qualified, ignored, k, i) == KidsSum(ps, path, Names(node.children), ignored, i, k)
    decreases k
  {
    if k > 0 {
      SumsAgree(node, qualified, ps, path, ignored, i, k - 1);
    }
  }

  /** What one child adds to the retained total is what it adds to the
      kids' sum. */
  lemma {:induction false} ChildKeptSum(root: string, ps: seq<Posting>, n: nat, ignored: set<string>,
                                        path: seq<string>, i: nat, node: Node, x: nat)
    requires Stream(ps, root, n) && i < n && path != [] && path[0] == root
    requires GetNode(IngestAll(root, ps, n), path) == Some(node) && x < |node.children|
    ensures RetainedTotal(node, Join(path), ignored, x + 1, i) - RetainedTotal(node, Join(path), ignored, x, i)
      == KidsSum(ps, path, Names(node.children), ignored, i, x + 1) - KidsSum(ps, path, Names(node.children), ignored, i, x)
    decreases node, 0, 0
  {
    var c := node.children[x];
    ChildAt(root, ps, n, path, node, x);
    if ChildName(Join(path), c) !in ignored {
      FinalizedKeptSum(root, ps, n, ignored, path + [c.name], i, c);
    }
  }

  /** On every day `i`, the finalized node at `path` holds the kept sum of
      `path`: every split of its subtree posted on or before `i` and not
      hidden by an ignored account (budget.py:30-37, 50-60). */
  lemma {:induction false} FinalizedKeptSum(root: string, ps: seq<Posting>, n: nat, ignored: set<string>,
                                            path: seq<string>, i: nat, node: Node)
    requires Stream(ps, root, n) && i < n && path != [] && path[0] == root
    requires GetNode(IngestAll(root, ps, n), path) == Some(node)
    ensures i < |Finalized(node, PrefixAt(None, path), ignored).buckets|
    ensures Finalized(node, PrefixAt(None, path), ignored).buckets[i] == KeptSum(ps, path, ignored, i)
    decreases node, 1
  {
    var t := IngestAll(root, ps, n);
    UniformAt(t, n, path);
    RunningTotals(root, ps, n, path);
    assert NodeTally(t, path, n) == TallyOf(node);
    FillRunning(TallyOf(node), History(ps, path));
    FinalizedTotals(node, PrefixAt(None, path), ignored, i);
    QualifiedPath(path);
    forall x | 0 <= x < |node.children|
      ensures RetainedTotal(node, Join(path), ignored, x + 1, i) - RetainedTotal(node, Join(path), ignored, x, i)
        == KidsSum(ps, path, Names(node.children), ignored, i, x + 1) - KidsSum(ps, path, Names(node.children), ignored, i, x)
    {
      ChildKeptSum(root, ps, n, ignored, path, i, node, x);
    }
    SumsAgree(node, Join(path), ps, path, ignored, i, |node.children|);
    ChildrenCover(root, ps, n, path, node);
    KeptSplit(ps, path, Names(node.children), ignored, i);
  }

  /** The same, read through the finalized tree: an account reached
      through kept accounts shows, on day `i`, the kept sum of its path. */
  lemma KeptTotalsAt(root: string, ps: seq<Posting>, n: nat, ignored: set<string>, path: seq<string>, i: nat)
    requires Stream(ps, root, n) && i < n
    requires Retained(IngestAll(root, ps, n), None, ignored, path)
    ensures GetNode(Finalized(IngestAll(root, ps, n), None, ignored), path).Some?
    ensures
      var after := GetNode(Finalized(IngestAll(root, ps, n), None, ignored), path).value;
      i < |after.buckets| && after.buckets[i] == KeptSum(ps, path, ignored, i)
  {
    var t := IngestAll(root, ps, n);
    FinalizedAt(t, None, ignored, path);
    FinalizedKeptSum(root, ps, n, ignored, path, i, GetNode(t, path).value);
  }

  /** A split posted below an ignored account strictly under `path` leaves
      every total of `path` as it was without that split. */
  lemma IgnoredSplitAddsNothing(root: string, ps: seq<Posting>, p: Posting, n: nat, ignored: set<string>,
                                path: seq<string>, i: nat, m: nat)
    requires Stream(ps + [p], root, n) && i < n
    requires Retained(IngestAll(root, ps + [p], n), None, ignored, path)
    requires |path| < m <= |p.path| && Join(p.path[..m]) in ignored
    ensures GetNode(Finalized(IngestAll(root, ps + [p], n), None, ignored), path).Some?
    ensures
      var after := GetNode(Finalized(IngestAll(root, ps + [p], n), None, ignored), path).value;
      i < |after.buckets| && after.buckets[i] == KeptSum(ps, path, ignored, i)
  {
    KeptTotalsAt(root, ps + [p], n, ignored, path, i);
    KeptSumSnoc(ps, p, path, ignored, i);
  }
}
