/** What `finalize` makes of a tree: which children it keeps and how it
    orders them, what each day's total becomes, and which names it tests
    against the ignored set. */
module FinalizeFacts {
  import opened Wrappers
  import opened AccountPath
  import opened Series
  import opened TreeSpec
  import opened IngestFacts
  import StableSort

  /** The positions among the first `k` children whose qualified names are
      not ignored, in increasing order. */
  function RetainedIndices(t: Node, qualified: string, ignored: set<string>, k: nat): (r: seq<nat>)
    requires k <= |t.children|
    ensures forall j :: 0 <= j < |r| ==> r[j] < k
    decreases k
  {
    if k == 0 then []
    else
      RetainedIndices(t, qualified, ignored, k - 1)
        + if ChildName(qualified, t.children[k - 1]) in ignored then [] else [k - 1]
  }

  /** What the child at position `j` becomes: left alone when ignored,
      finalized under `qualified` otherwise. */
  function Outcome(t: Node, qualified: string, ignored: set<string>, j: nat): Node
    requires j < |t.children|
  {
    var c := t.children[j];
    if ChildName(qualified, c) in ignored then c else Finalized(c, Some(qualified), ignored)
  }

  /** After `k` passes of the loop at budget.py:54-60, the first `k`
      children are what `Outcome` says, and the retained list holds exactly
      the positions not ignored, in the order they were visited. */
  lemma MergedChildren(t: Node, qualified: string, ignored: set<string>, k: nat)
    requires k <= |t.children|
    ensures Merged(t, qualified, ignored, k).sorted == Some(RetainedIndices(t, qualified, ignored, k))
    ensures forall j :: 0 <= j < k ==> Merged(t, qualified, ignored, k).children[j] == Outcome(t, qualified, ignored, j)
  {
    MergedRetained(t, qualified, ignored, k);
    MergedOutcomes(t, qualified, ignored, k);
  }

  lemma {:induction false} MergedRetained(t: Node, qualified: string, ignored: set<string>, k: nat)
    requires k <= |t.children|
    ensures Merged(t, qualified, ignored, k).sorted == Some(RetainedIndices(t, qualified, ignored, k))
    decreases k
  {
    if k > 0 {
      MergedRetained(t, qualified, ignored, k - 1);
      MergedStep(t, qualified, ignored, k);
      var before := RetainedIndices(t, qualified, ignored, k - 1);
      if ChildName(qualified, t.children[k - 1]) in ignored {
        assert RetainedIndices(t, qualified, ignored, k) == before + [] == before;
      }
    }
  }

  lemma {:induction false} MergedOutcomes(t: Node, qualified: string, ignored: set<string>, k: nat)
    requires k <= |t.children|
    ensures forall j :: 0 <= j < k ==> Merged(t, qualified, ignored, k).children[j] == Outcome(t, qualified, ignored, j)
    decreases k
  {
    if k > 0 {
      MergedOutcomes(t, qualified, ignored, k - 1);
      OutcomeStep(t, qualified, ignored, k);
    }
  }

  /** Pass `k` settles child `k - 1` and leaves the earlier ones alone. */
  lemma OutcomeStep(t: Node, qualified: string, ignored: set<string>, k: nat)
    requires 0 < k <= |t.children|
    ensures forall j :: 0 <= j < k - 1 ==>
      Merged(t, qualified, ignored, k).children[j] == Merged(t, qualified, ignored, k - 1).children[j]
    ensures Merged(t, qualified, ignored, k).children[k - 1] == Outcome(t, qualified, ignored, k - 1)
  {
    MergedStep(t, qualified, ignored, k);
  }

  /** One pass of the loop at budget.py:54-60, written out. */
  lemma MergedStep(t: Node, qualified: string, ignored: set<string>, k: nat)
    requires 0 < k <= |t.children|
    ensures
      var s := Merged(t, qualified, ignored, k - 1);
      var c := t.children[k - 1];
      Merged(t, qualified, ignored, k) ==
        if ChildName(qualified, c) in ignored then s
        else
          var c' := Finalized(c, Some(qualified), ignored);
          s.(buckets := AddSeries(s.buckets, c'.buckets),
             children := s.children[k - 1 := c'],
             sorted := Some(s.sorted.value + [k - 1]))
  {
  }

  /** The retained positions increase strictly, and a position is retained
      exactly when its child's qualified name is not ignored. */
  lemma {:induction false} RetainedIndicesShape(t: Node, qualified: string, ignored: set<string>, k: nat)
    requires k <= |t.children|
    ensures forall a, b :: 0 <= a < b < |RetainedIndices(t, qualified, ignored, k)| ==>
      RetainedIndices(t, qualified, ignored, k)[a] < RetainedIndices(t, qualified, ignored, k)[b]
    ensures forall x :: x in RetainedIndices(t, qualified, ignored, k) <==>
      0 <= x < k && ChildName(qualified, t.children[x]) !in ignored
    decreases k
  {
    if k > 0 {
      RetainedIndicesShape(t, qualified, ignored, k - 1);
    }
  }

  /** `b[i]`, or nothing when the series is too short. */
  function ValueOn(b: seq<int>, i: nat): int
  {
    if i < |b| then b[i] else 0
  }

  /** The sum, on day `i`, of the finalized series of the retained children
      among the first `k`. */
  function RetainedTotal(t: Node, qualified: string, ignored: set<string>, k: nat, i: nat): int
    requires k <= |t.children|
    decreases k
  {
    if k == 0 then 0
    else
      var c := t.children[k - 1];
      RetainedTotal(t, qualified, ignored, k - 1, i)
        + if ChildName(qualified, c) in ignored then 0 else ValueOn(Finalized(c, Some(qualified), ignored).buckets, i)
  }

  lemma {:induction false} MergedTotals(t: Node, qualified: string, ignored: set<string>, k: nat, i: nat)
    requires k <= |t.children| && i < |t.buckets|
    ensures Merged(t, qualified, ignored, k).buckets[i] ==
      Fill(t.buckets, t.latest, |t.buckets| - 1)[i] + RetainedTotal(t, qualified, ignored, k, i)
    decreases k
  {
    if k > 0 {
      MergedTotals(t, qualified, ignored, k - 1, i);
      MergedStep(t, qualified, ignored, k);
      var s := Merged(t, qualified, ignored, k - 1);
      var c := t.children[k - 1];
      if ChildName(qualified, c) !in ignored {
        var c' := Finalized(c, Some(qualified), ignored);
        assert Merged(t, qualified, ignored, k).buckets[i] == s.buckets[i] + ValueOn(c'.buckets, i);
      }
    }
  }

  /** Each day's total after `finalize` is the node's own forward-filled
      value plus the finalized values of the children that are not ignored;
      an ignored child contributes nothing (budget.py:50-60). */
  lemma FinalizedTotals(t: Node, prefix: Option<string>, ignored: set<string>, i: nat)
    requires i < |t.buckets|
    ensures Finalized(t, prefix, ignored).buckets[i] ==
      Fill(t.buckets, t.latest, |t.buckets| - 1)[i]
        + RetainedTotal(t, Qualify(prefix, t.name), ignored, |t.children|, i)
  {
    MergedTotals(t, Qualify(prefix, t.name), ignored, |t.children|, i);
  }

  /** The sorted list holds the same positions as the retained list. */
  lemma SortRetainedElements(m: Node)
    requires m.sorted.Some? && StableSort.InRange(m.sorted.value, |m.children|)
    ensures |SortRetained(m)| == |m.sorted.value|
    ensures forall x :: x in SortRetained(m) <==> x in m.sorted.value
  {
    var kept := m.sorted.value;
    var keys := RetainedKeys(m);
    var order := StableSort.SortOrder(keys);
    StableSort.SortOrderCorrect(keys);
    var s := SortRetained(m);
    forall x
      ensures x in s <==> x in kept
    {
      if x in kept {
        var p :| 0 <= p < |kept| && kept[p] == x;
        assert p < |keys| && p in order;
        var q :| 0 <= q < |order| && order[q] == p;
        assert s[q] == x;
      }
    }
  }

  /** When the retained positions increase, the sorted list holds each of
      them once, the final values along it never increase, and equal final
      values keep the retained (insertion) order. */
  lemma SortRetainedOrder(m: Node)
    requires m.sorted.Some? && StableSort.InRange(m.sorted.value, |m.children|)
    requires forall a, b :: 0 <= a < b < |m.sorted.value| ==> m.sorted.value[a] < m.sorted.value[b]
    ensures forall a, b :: 0 <= a < b < |SortRetained(m)| ==>
      var s := SortRetained(m);
      && s[a] < |m.children| && s[b] < |m.children| && s[a] != s[b]
      && FinalValue(m.children[s[a]].buckets) >= FinalValue(m.children[s[b]].buckets)
      && (FinalValue(m.children[s[a]].buckets) == FinalValue(m.children[s[b]].buckets) ==> s[a] < s[b])
  {
    var kept := m.sorted.value;
    var keys := RetainedKeys(m);
    var order := StableSort.SortOrder(keys);
    StableSort.SortOrderCorrect(keys);
    var s := SortRetained(m);
    forall a, b | 0 <= a < b < |s|
      ensures s[a] < |m.children| && s[b] < |m.children| && s[a] != s[b]
      ensures FinalValue(m.children[s[a]].buckets) >= FinalValue(m.children[s[b]].buckets)
      ensures FinalValue(m.children[s[a]].buckets) == FinalValue(m.children[s[b]].buckets) ==> s[a] < s[b]
    {
      assert s[a] == kept[order[a]] && s[b] == kept[order[b]];
      assert keys[order[a]] == FinalValue(m.children[s[a]].buckets);
      assert keys[order[b]] == FinalValue(m.children[s[b]].buckets);
      if order[a] < order[b] {
        assert kept[order[a]] < kept[order[b]];
      } else {
        assert kept[order[b]] < kept[order[a]];
      }
    }
  }

  /** What `finalize` does to the children: an ignored child is left exactly
      as it was and is not in the sorted list; every other child is
      finalized under this node's qualified name and is in the list once;
      along the list the final values never increase, and children with equal
      final values stay in the order they were first seen (budget.py:53-62). */
  lemma FinalizedChildren(t: Node, prefix: Option<string>, ignored: set<string>)
    ensures
      var r := Finalized(t, prefix, ignored);
      var q := Qualify(prefix, t.name);
      && (forall j :: 0 <= j < |t.children| ==> r.children[j] == Outcome(t, q, ignored, j))
      && (forall x :: x in r.sorted.value <==> 0 <= x < |t.children| && ChildName(q, t.children[x]) !in ignored)
      && (forall a, b :: 0 <= a < b < |r.sorted.value| ==>
            && r.sorted.value[a] < |r.children| && r.sorted.value[b] < |r.children|
            && r.sorted.value[a] != r.sorted.value[b]
            && FinalValue(r.children[r.sorted.value[a]].buckets) >= FinalValue(r.children[r.sorted.value[b]].buckets)
            && (FinalValue(r.children[r.sorted.value[a]].buckets) == FinalValue(r.children[r.sorted.value[b]].buckets)
                ==> r.sorted.value[a] < r.sorted.value[b]))
  {
    var q := Qualify(prefix, t.name);
    var m := Merged(t, q, ignored, |t.children|);
    MergedChildren(t, q, ignored, |t.children|);
    RetainedIndicesShape(t, q, ignored, |t.children|);
    SortRetainedElements(m);
    SortRetainedOrder(m);
    assert Finalized(t, prefix, ignored) == m.(sorted := Some(SortRetained(m)));
  }

  /** The names `finalize` tests are all longer than the node's own
      qualified name: a child's is the parent's name, a separator and the
      child's segment. So adding to the ignored set names no longer than that
      changes nothing (budget.py:55 tests children only). */
  lemma {:induction false} FinalizedShort(t: Node, prefix: Option<string>, ignored: set<string>, extra: set<string>)
    requires forall x :: x in extra ==> |x| <= |Qualify(prefix, t.name)|
    ensures Finalized(t, prefix, ignored + extra) == Finalized(t, prefix, ignored)
    decreases t, 1
  {
    MergedShort(t, Qualify(prefix, t.name), ignored, extra, |t.children|);
  }

  lemma {:induction false} MergedShort(t: Node, qualified: string, ignored: set<string>, extra: set<string>, k: nat)
    requires k <= |t.children|
    requires forall x :: x in extra ==> |x| <= |qualified|
    ensures Merged(t, qualified, ignored + extra, k) == Merged(t, qualified, ignored, k)
    decreases t, 0, k
  {
    if k > 0 {
      MergedShort(t, qualified, ignored, extra, k - 1);
      MergedStep(t, qualified, ignored, k);
      MergedStep(t, qualified, ignored + extra, k);
      var c := t.children[k - 1];
      assert |ChildName(qualified, c)| > |qualified|;
      assert ChildName(qualified, c) in ignored + extra <==> ChildName(qualified, c) in ignored;
      FinalizedShort(c, Some(qualified), ignored, extra);
    }
  }

  /** The root's own name is never checked against the ignored set: listing it
      there, or not, leaves the finalized tree the same (budget.py:121-122
      finalizes every root with no prefix). */
  lemma RootNeverChecked(t: Node, ignored: set<string>)
    ensures Finalized(t, None, ignored + {t.name}) == Finalized(t, None, ignored - {t.name})
  {
    FinalizedShort(t, None, ignored - {t.name}, {t.name});
    FinalizedShort(t, None, ignored - {t.name}, {t.name} * ignored);
    assert ignored - {t.name} + {t.name} == ignored + {t.name};
  }

  /** The prefix `finalize` hands the node at `path`, starting from `prefix`
      at the top. */
  function PrefixAt(prefix: Option<string>, path: seq<string>): (r: Option<string>)
    requires path != []
    ensures |path| > 1 ==> r.Some?
    decreases |path|
  {
    if |path| == 1 then prefix else PrefixAt(Some(Qualify(prefix, path[0])), path[1..])
  }

  /** Below the top, the prefix of the node at `path` joined with its own
      segment is the whole account name: the ignored set holds full account
      names such as `Expenses:Taxes`. */
  lemma {:induction false} PrefixAtJoin(top: seq<string>, path: seq<string>)
    requires top != [] && path != []
    ensures Qualify(PrefixAt(Some(Join(top)), path), path[|path| - 1]) == Join(top + path)
    decreases |path|
  {
    if |path| == 1 {
      JoinSnoc(top, path[0]);
      assert path == [path[0]];
    } else {
      var next := top + [path[0]];
      var rest := path[1..];
      assert PrefixAt(Some(Join(top)), path) == PrefixAt(Some(Join(next)), rest) by {
        JoinSnoc(top, path[0]);
      }
      assert Qualify(PrefixAt(Some(Join(next)), rest), rest[|rest| - 1]) == Join(next + rest) by {
        PrefixAtJoin(next, rest);
      }
      assert rest[|rest| - 1] == path[|path| - 1];
      assert next + rest == top + path;
    }
  }

  /** One segment further down, the prefix is the qualified name of the
      node the path used to end at. */
  lemma {:induction false} PrefixAtSnoc(prefix: Option<string>, path: seq<string>, y: string)
    requires path != []
    ensures PrefixAt(prefix, path + [y]) == Some(Qualify(PrefixAt(prefix, path), path[|path| - 1]))
    decreases |path|
  {
    if |path| == 1 {
      assert (path + [y])[1..] == [y];
    } else {
      assert (path + [y])[1..] == path[1..] + [y];
      PrefixAtSnoc(Some(Qualify(prefix, path[0])), path[1..], y);
    }
  }

  /** From the root, the name checked for the node at `path` is `':'.join(path)`. */
  lemma CheckedName(path: seq<string>)
    requires |path| > 1
    ensures Qualify(PrefixAt(None, path), path[|path| - 1]) == Join(path)
  {
    PrefixAtJoin([path[0]], path[1..]);
    assert [path[0]] + path[1..] == path;
  }

  /** `path` leads from this node through children none of which is
      ignored. */
  ghost predicate Retained(t: Node, prefix: Option<string>, ignored: set<string>, path: seq<string>)
    decreases |path|
  {
    && path != [] && path[0] == t.name
    && (|path| > 1 ==>
          var k := ChildIndex(t, path[1]);
          && k < |t.children|
          && ChildName(Qualify(prefix, t.name), t.children[k]) !in ignored
          && Retained(t.children[k], Some(Qualify(prefix, t.name)), ignored, path[1..]))
  }

  /** A child in the sorted list is a kept child, finalized under this
      node's qualified name. */
  lemma KeptChild(t: Node, prefix: Option<string>, ignored: set<string>, x: nat)
    requires x in Finalized(t, prefix, ignored).sorted.value
    ensures x < |t.children|
    ensures ChildName(Qualify(prefix, t.name), t.children[x]) !in ignored
    ensures Finalized(t, prefix, ignored).children[x] ==
      Finalized(t.children[x], Some(Qualify(prefix, t.name)), ignored)
  {
    FinalizedChildren(t, prefix, ignored);
  }

  /** `finalize` keeps every child's segment name in place, so lookups by
      name find the same positions afterwards. */
  lemma FinalizedNames(t: Node, prefix: Option<string>, ignored: set<string>)
    ensures Names(Finalized(t, prefix, ignored).children) == Names(t.children)
  {
    FinalizedChildren(t, prefix, ignored);
  }

  /** Looking a retained node up in the finalized tree finds that node
      finalized under the prefix of its path: `finalize` reaches every node
      that no ignored ancestor hides. */
  lemma {:induction false} FinalizedAt(t: Node, prefix: Option<string>, ignored: set<string>, path: seq<string>)
    requires Retained(t, prefix, ignored, path)
    ensures GetNode(t, path).Some?
    ensures GetNode(Finalized(t, prefix, ignored), path) ==
      Some(Finalized(GetNode(t, path).value, PrefixAt(prefix, path), ignored))
    decreases |path|
  {
    if |path| > 1 {
      var q := Qualify(prefix, t.name);
      var k := ChildIndex(t, path[1]);
      FinalizedChildren(t, prefix, ignored);
      FinalizedNames(t, prefix, ignored);
      FinalizedAt(t.children[k], Some(q), ignored, path[1..]);
      assert Finalized(t, prefix, ignored).children[k] == Finalized(t.children[k], Some(q), ignored);
    }
  }

  /** `finalize` neither adds nor removes nodes: a path leads somewhere in
      the finalized tree exactly when it did before. */
  lemma {:induction false} FinalizedFinds(t: Node, prefix: Option<string>, ignored: set<string>, path: seq<string>)
    requires path != [] && path[0] == t.name
    ensures GetNode(Finalized(t, prefix, ignored), path).Some? == GetNode(t, path).Some?
    decreases |path|
  {
    if |path| > 1 {
      var q := Qualify(prefix, t.name);
      var k := ChildIndex(t, path[1]);
      FinalizedNames(t, prefix, ignored);
      if k < |t.children| {
        FinalizedChildren(t, prefix, ignored);
        if ChildName(q, t.children[k]) !in ignored {
          FinalizedFinds(t.children[k], Some(q), ignored, path[1..]);
        }
      }
    }
  }

  /** The qualified name `finalize` gives the node at `path`, from a root
      finalized with no prefix, is the full account name `':'.join(path)`. */
  lemma QualifiedPath(path: seq<string>)
    requires path != []
    ensures Qualify(PrefixAt(None, path), path[|path| - 1]) == Join(path)
  {
    if |path| > 1 {
      CheckedName(path);
    }
  }

  /** The totals the user sees, for a tree built by a date-ordered run of
      `ingest_split` and then finalized with no prefix: on every day `i`, a
      node reached through kept accounts holds the sum of the amounts posted
      directly to it on or before day `i`, carried forward past its last
      posting and never reset, plus that day's totals of its children that
      are not ignored (budget.py:30-37, 50-60). */
  lemma FinalizedIngestedTotals(root: string, ps: seq<Posting>, n: nat, ignored: set<string>,
                                path: seq<string>, i: nat)
    requires Stream(ps, root, n) && i < n
    requires Retained(IngestAll(root, ps, n), None, ignored, path)
    ensures GetNode(IngestAll(root, ps, n), path).Some?
    ensures
      var node := GetNode(IngestAll(root, ps, n), path).value;
      var after := GetNode(Finalized(IngestAll(root, ps, n), None, ignored), path);
      && after == Some(Finalized(node, PrefixAt(None, path), ignored))
      && i < |after.value.buckets|
      && after.value.buckets[i] ==
           SumThrough(History(ps, path), i) + RetainedTotal(node, Join(path), ignored, |node.children|, i)
  {
    var t := IngestAll(root, ps, n);
    FinalizedAt(t, None, ignored, path);
    var node := GetNode(t, path).value;
    UniformAt(t, n, path);
    RunningTotals(root, ps, n, path);
    assert NodeTally(t, path, n) == TallyOf(node);
    FillRunning(TallyOf(node), History(ps, path));
    FinalizedTotals(node, PrefixAt(None, path), ignored, i);
    QualifiedPath(path);
  }
}
