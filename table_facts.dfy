/** What `to_dataframe` produces: which columns, under which names, and when
    it refuses. */
module TableFacts {
  import opened Wrappers
  import opened AccountPath
  import opened TreeSpec
  import opened FinalizeFacts
  import IngestFacts

  /** `name` is a column name below the node qualified `q`. */
  predicate Below(q: string, name: string)
  {
    |q| < |name| && name[..|q| + 1] == q + [Separator]
  }

  /** A child's qualified name is below its parent's. */
  lemma ChildBelow(q: string, segment: string)
    ensures Below(q, Qualify(Some(q), segment))
  {
    assert (q + [Separator] + segment)[..|q| + 1] == q + [Separator];
  }

  /** What is below a child is below its parent. */
  lemma BelowBelow(q: string, segment: string, name: string)
    requires Below(Qualify(Some(q), segment), name)
    ensures Below(q, name)
  {
    var c := Qualify(Some(q), segment);
    assert name[..|q| + 1] == name[..|c| + 1][..|q| + 1];
    assert (c + [Separator])[..|q| + 1] == q + [Separator];
  }

  /** Every node reachable through the sorted lists has been finalized. */
  ghost predicate Complete(t: Node)
  {
    && t.sorted.Some?
    && forall j :: 0 <= j < |t.sorted.value| ==>
         t.sorted.value[j] < |t.children| && Complete(t.children[t.sorted.value[j]])
  }

  /** `finalize` leaves every node it keeps finalized (budget.py:53-58). */
  lemma {:induction false} FinalizedComplete(t: Node, prefix: Option<string>, ignored: set<string>)
    ensures Complete(Finalized(t, prefix, ignored))
    decreases t
  {
    var r := Finalized(t, prefix, ignored);
    var q := Qualify(prefix, t.name);
    FinalizedChildren(t, prefix, ignored);
    forall j | 0 <= j < |r.sorted.value|
      ensures r.sorted.value[j] < |r.children| && Complete(r.children[r.sorted.value[j]])
    {
      var x := r.sorted.value[j];
      assert x in r.sorted.value;
      FinalizedComplete(t.children[x], Some(q), ignored);
    }
  }

  /** On a finalized tree the assertion at budget.py:66 never fires, at any
      depth and under any prefix. */
  lemma {:induction false} CompleteTable(t: Node, depth: int, prefix: Option<string>)
    requires Complete(t)
    ensures Table(t, depth, prefix).Ok?
    decreases t, 1
  {
    if depth > 0 {
      CompleteJoined(t, depth - 1, Qualify(prefix, t.name), |t.sorted.value|);
    }
  }

  lemma {:induction false} CompleteJoined(t: Node, childDepth: int, qualified: string, k: nat)
    requires Complete(t) && k <= |t.sorted.value|
    ensures Joined(t, childDepth, qualified, k).Ok?
    decreases t, 0, k
  {
    if k > 0 {
      CompleteJoined(t, childDepth, qualified, k - 1);
      CompleteTable(t.children[t.sorted.value[k - 1]], childDepth, Some(qualified));
    }
  }

  /** A table, when it comes out, starts with the node's own column under
      its qualified name; every further column is named below that name; and
      at depth 0 or less it is that column alone (budget.py:69-79). */
  lemma {:induction false} TableShape(t: Node, depth: int, prefix: Option<string>)
    ensures Table(t, depth, prefix).Ok? ==>
      var cs := Table(t, depth, prefix).value;
      && |cs| >= 1 && cs[0] == Column(Qualify(prefix, t.name), t.buckets)
      && (depth <= 0 ==> |cs| == 1)
      && forall j :: 1 <= j < |cs| ==> Below(Qualify(prefix, t.name), cs[j].name)
    decreases t, 1
  {
    if t.sorted.Some? && depth > 0 {
      JoinedShape(t, depth - 1, Qualify(prefix, t.name), |t.sorted.value|);
    }
  }

  lemma {:induction false} JoinedShape(t: Node, childDepth: int, qualified: string, k: nat)
    requires t.sorted.Some? && k <= |t.sorted.value|
    ensures Joined(t, childDepth, qualified, k).Ok? ==>
      var cs := Joined(t, childDepth, qualified, k).value;
      && |cs| >= 1 && cs[0] == Column(qualified, t.buckets)
      && forall j :: 1 <= j < |cs| ==> Below(qualified, cs[j].name)
    decreases t, 0, k
  {
    if k > 0 {
      JoinedShape(t, childDepth, qualified, k - 1);
      var acc := Joined(t, childDepth, qualified, k - 1);
      var x := t.sorted.value[k - 1];
      if acc.Ok? && x < |t.children| {
        var c := t.children[x];
        var sub := Table(c, childDepth, Some(qualified));
        TableShape(c, childDepth, Some(qualified));
        if sub.Ok? {
          var cs := acc.value + sub.value;
          assert Joined(t, childDepth, qualified, k) == Ok(cs);
          forall j | 1 <= j < |cs|
            ensures Below(qualified, cs[j].name)
          {
            if j >= |acc.value| {
              var i := j - |acc.value|;
              assert cs[j] == sub.value[i];
              if i == 0 {
                ChildBelow(qualified, c.name);
              } else {
                BelowBelow(qualified, c.name, cs[j].name);
              }
            }
          }
        }
      }
    }
  }

  /** The columns of the sorted children at depth 0: one per kept child, in
      sorted order, each under the child's qualified name. */
  function ChildColumns(t: Node, qualified: string, k: nat): (r: seq<Column>)
    requires Complete(t) && k <= |t.sorted.value|
    ensures |r| == k
  {
    seq(k, j requires 0 <= j < k =>
      var c := t.children[t.sorted.value[j]];
      Column(ChildName(qualified, c), c.buckets))
  }

  /** The default `depth=1` of a finalized node: its own column followed by
      one column per kept child, largest final value first (budget.py:65-79
      with `depth - 1 == 0` for every child). */
  lemma DepthOne(t: Node, prefix: Option<string>)
    requires Complete(t)
    ensures Table(t, 1, prefix) ==
      Ok([Column(Qualify(prefix, t.name), t.buckets)]
         + ChildColumns(t, Qualify(prefix, t.name), |t.sorted.value|))
  {
    JoinedDepthZero(t, Qualify(prefix, t.name), |t.sorted.value|);
  }

  lemma {:induction false} JoinedDepthZero(t: Node, qualified: string, k: nat)
    requires Complete(t) && k <= |t.sorted.value|
    ensures Joined(t, 0, qualified, k) == Ok([Column(qualified, t.buckets)] + ChildColumns(t, qualified, k))
    decreases k
  {
    if k == 0 {
      assert ChildColumns(t, qualified, 0) == [];
      assert [Column(qualified, t.buckets)] + [] == [Column(qualified, t.buckets)];
    } else {
      JoinedDepthZero(t, qualified, k - 1);
      var x := t.sorted.value[k - 1];
      assert x < |t.children|;
      var c := t.children[x];
      assert Table(c, 0, Some(qualified)) == Ok([Column(ChildName(qualified, c), c.buckets)]);
      assert Joined(t, 0, qualified, k) ==
        Ok(Joined(t, 0, qualified, k - 1).value + [Column(ChildName(qualified, c), c.buckets)]);
      var before := ChildColumns(t, qualified, k - 1);
      var col := Column(ChildName(qualified, c), c.buckets);
      assert ChildColumns(t, qualified, k) == before + [col];
      assert [Column(qualified, t.buckets)] + before + [col] == [Column(qualified, t.buckets)] + (before + [col]);
    }
  }

  /** Every node reachable through the sorted lists from the node qualified
      `q` has been finalized, and none of them is named in `ignored`. */
  ghost predicate Clean(t: Node, q: string, ignored: set<string>)
  {
    && t.sorted.Some?
    && forall j :: 0 <= j < |t.sorted.value| ==>
         var x := t.sorted.value[j];
         && x < |t.children|
         && ChildName(q, t.children[x]) !in ignored
         && Clean(t.children[x], ChildName(q, t.children[x]), ignored)
  }

  /** `finalize` keeps only children whose names are not ignored, all the
      way down (budget.py:54-59). */
  lemma {:induction false} FinalizedClean(t: Node, prefix: Option<string>, ignored: set<string>)
    ensures Clean(Finalized(t, prefix, ignored), Qualify(prefix, t.name), ignored)
    decreases t
  {
    var r := Finalized(t, prefix, ignored);
    var q := Qualify(prefix, t.name);
    forall j | 0 <= j < |r.sorted.value|
      ensures
        var x := r.sorted.value[j];
        && x < |r.children|
        && ChildName(q, r.children[x]) !in ignored
        && Clean(r.children[x], ChildName(q, r.children[x]), ignored)
    {
      var x := r.sorted.value[j];
      assert x in r.sorted.value;
      KeptChild(t, prefix, ignored, x);
      FinalizedClean(t.children[x], Some(q), ignored);
    }
  }

  /** Projecting a finalized tree under the prefix it was finalized with never
      shows an ignored account: the table walks only the kept children
      (budget.py:55-59 and 77). */
  lemma NoIgnoredColumns(t: Node, prefix: Option<string>, ignored: set<string>, depth: int)
    ensures Table(Finalized(t, prefix, ignored), depth, prefix).Ok? ==>
      var cs := Table(Finalized(t, prefix, ignored), depth, prefix).value;
      forall j :: 1 <= j < |cs| ==> cs[j].name !in ignored
  {
    FinalizedClean(t, prefix, ignored);
    CleanColumns(Finalized(t, prefix, ignored), depth, prefix, ignored);
  }

  lemma {:induction false} CleanColumns(t: Node, depth: int, prefix: Option<string>, ignored: set<string>)
    requires Clean(t, Qualify(prefix, t.name), ignored)
    ensures Table(t, depth, prefix).Ok? ==>
      var cs := Table(t, depth, prefix).value;
      forall j :: 1 <= j < |cs| ==> cs[j].name !in ignored
    decreases t, 1
  {
    if depth > 0 {
      var q := Qualify(prefix, t.name);
      CleanJoined(t, depth - 1, q, ignored, |t.sorted.value|);
      assert Joined(t, depth - 1, q, |t.sorted.value|).Ok? ==>
        var cs := Joined(t, depth - 1, q, |t.sorted.value|).value;
        forall i :: 1 <= i < |cs| ==> cs[i].name !in ignored;
      assert Table(t, depth, prefix) == Joined(t, depth - 1, q, |t.sorted.value|);
    } else {
      assert Table(t, depth, prefix) == Ok([Column(Qualify(prefix, t.name), t.buckets)]);
    }
  }

  lemma {:induction false} CleanJoined(t: Node, childDepth: int, q: string, ignored: set<string>, k: nat)
    requires Clean(t, q, ignored) && k <= |t.sorted.value|
    ensures Joined(t, childDepth, q, k).Ok? ==>
      var cs := Joined(t, childDepth, q, k).value;
      forall i :: 1 <= i < |cs| ==> cs[i].name !in ignored
    decreases t, 0, k
  {
    if k > 0 {
      CleanJoined(t, childDepth, q, ignored, k - 1);
      JoinedShape(t, childDepth, q, k - 1);
      var acc := Joined(t, childDepth, q, k - 1);
      var c := t.children[t.sorted.value[k - 1]];
      var sub := Table(c, childDepth, Some(q));
      if acc.Ok? && sub.Ok? {
        TableShape(c, childDepth, Some(q));
        CleanColumns(c, childDepth, Some(q), ignored);
        assert Joined(t, childDepth, q, k) == Ok(acc.value + sub.value);
        AppendAvoids(acc.value, sub.value, ignored);
      }
    }
  }

  /** Appending a table none of whose columns is named in `names` to one
      whose columns after the first are not named there either. */
  lemma AppendAvoids(a: seq<Column>, b: seq<Column>, names: set<string>)
    requires |a| >= 1 && forall i :: 1 <= i < |a| ==> a[i].name !in names
    requires forall i :: 0 <= i < |b| ==> b[i].name !in names
    ensures forall i :: 1 <= i < |a + b| ==> (a + b)[i].name !in names
  {
  }

  /** `path` reaches, from this node, a node below a child that `finalize`
      skips. */
  ghost predicate Hidden(t: Node, prefix: Option<string>, ignored: set<string>, path: seq<string>)
    decreases |path|
  {
    && path != [] && path[0] == t.name && |path| > 1
    && var q := Qualify(prefix, t.name);
       var k := ChildIndex(t, path[1]);
       && k < |t.children|
       && if ChildName(q, t.children[k]) in ignored then GetNode(t.children[k], path[1..]).Some?
          else Hidden(t.children[k], Some(q), ignored, path[1..])
  }

  /** A node under an ignored child is still there after `finalize`, exactly
      as ingestion left it (budget.py:55-56 skips the whole subtree). */
  lemma {:induction false} HiddenUnchanged(t: Node, prefix: Option<string>, ignored: set<string>, path: seq<string>)
    requires Hidden(t, prefix, ignored, path)
    ensures GetNode(t, path).Some?
    ensures GetNode(Finalized(t, prefix, ignored), path) == GetNode(t, path)
    decreases |path|
  {
    var q := Qualify(prefix, t.name);
    var k := ChildIndex(t, path[1]);
    FinalizedChildren(t, prefix, ignored);
    FinalizedNames(t, prefix, ignored);
    if ChildName(q, t.children[k]) !in ignored {
      HiddenUnchanged(t.children[k], Some(q), ignored, path[1..]);
    }
  }

  /** Every node of an unfinalized tree is unfinalized. */
  lemma {:induction false} UnfinalizedNode(t: Node, path: seq<string>)
    requires path != [] && path[0] == t.name
    requires IngestFacts.Unfinalized(t) && GetNode(t, path).Some?
    ensures GetNode(t, path).value.sorted.None?
    decreases |path|
  {
    if |path| > 1 {
      UnfinalizedNode(t.children[ChildIndex(t, path[1])], path[1..]);
    }
  }

  /** Asking for the table of a node under an ignored account, after the
      ingestion loop and `finalize`, trips the assertion of budget.py:66. */
  lemma HiddenTableFails(t: Node, prefix: Option<string>, ignored: set<string>, path: seq<string>,
                         depth: int, tablePrefix: Option<string>)
    requires Hidden(t, prefix, ignored, path) && IngestFacts.Unfinalized(t)
    ensures GetNode(Finalized(t, prefix, ignored), path).Some?
    ensures Table(GetNode(Finalized(t, prefix, ignored), path).value, depth, tablePrefix) == Err(NotFinalized)
  {
    HiddenUnchanged(t, prefix, ignored, path);
    UnfinalizedNode(t, path);
  }
}
