/** `CumulativeTree` of budget.py as a class: each node owns a bucket array,
    a cursor and its children, and the methods update them in place. The
    ghost field `model` is the node's value as a `TreeSpec.Node`; every
    method is proved to change it exactly as the matching function of
    TreeSpec says, and the properties of the engine are proved about those
    functions (ingest_facts.dfy, finalize_facts.dfy, table_facts.dfy). */
module CumulativeTrees {
  import opened Wrappers
  import opened AccountPath
  import opened Series
  import opened TreeSpec
  import StableSort

  /** The segment names of a list of nodes (names never change). */
  function NamesOf(cs: seq<CumulativeTree>): (r: seq<string>)
    ensures |r| == |cs| && forall k :: 0 <= k < |cs| ==> r[k] == cs[k].name
  {
    seq(|cs|, k requires 0 <= k < |cs| => cs[k].name)
  }

  /** A valid tree none of whose objects changed is still valid, with the
      same footprint and value. */
  twostate lemma StillValid(c: CumulativeTree)
    requires old(c.Valid()) && unchanged(old(c.Repr))
    ensures c.Valid() && c.Repr == old(c.Repr) && c.model == old(c.model)
  {
  }

  /** The forward-fill loop of budget.py:33-34 and 50-51: every day after
      `from`, up to and including `upto`, takes the value held on `from`. */
  method FillForward(b: array<int>, from: nat, upto: int)
    modifies b
    ensures b[..] == Fill(old(b[..]), from, upto)
  {
    if from < b.Length && from < upto {
      var stop := if upto < b.Length then upto else b.Length - 1;
      for i := from + 1 to stop + 1
        invariant b[..] == Fill(old(b[..]), from, i - 1)
      {
        b[i] := b[from];
      }
    } else {
      assert b[..] == Fill(old(b[..]), from, upto);
    }
  }

  /** `np.add(a, b)` on two series of one length, written into `a`. */
  method AddInto(a: array<int>, b: array<int>)
    requires a != b && a.Length == b.Length
    modifies a
    ensures a[..] == AddSeries(old(a[..]), b[..])
  {
    forall i | 0 <= i < a.Length {
      a[i] := a[i] + b[i];
    }
  }

  /** The sort keys of budget.py:62: each node's value on the last day. */
  method SortKeys(cs: seq<CumulativeTree>) returns (keys: seq<int>)
    ensures |keys| == |cs|
    ensures forall q :: 0 <= q < |cs| ==> keys[q] == FinalValue(cs[q].buckets[..])
  {
    keys := [];
    for q := 0 to |cs|
      invariant |keys| == q
      invariant forall p :: 0 <= p < q ==> keys[p] == FinalValue(cs[p].buckets[..])
    {
      var b := cs[q].buckets;
      keys := keys + [if b.Length == 0 then 0 else b[b.Length - 1]];
    }
  }

  class CumulativeTree {
    const name: string
    var buckets: array<int>
    var latest: nat
    var children: seq<CumulativeTree>
    var sortedChildren: Option<seq<CumulativeTree>>

    ghost var model: Node
    ghost var Repr: set<object>

    /** The object invariant: the children are valid trees of their own
        (`ChildrenValid`), and `model` is the value the fields hold. */
    ghost predicate Valid()
      reads this, Repr
      ensures Valid() ==> this in Repr
      decreases Repr, 1
    {
      && this in Repr && buckets in Repr
      && (latest < buckets.Length || (buckets.Length == 0 && latest == 0 && children == []))
      && ChildrenValid()
      && Abstracts()
    }

    /** Each child owns a footprint of its own, inside this node's, apart from
        this node and its array and disjoint from its siblings', and has an
        array of this node's length. It reads nothing of this node but the
        fields that hold the children, so writing the cursor or the buckets
        leaves it intact. */
    ghost predicate ChildrenValid()
      reads this`children, this`buckets, this`Repr, Repr - {this, buckets}
      decreases Repr, 0
    {
      && this in Repr
      && (forall k :: 0 <= k < |children| ==>
            && children[k] in Repr - {this, buckets}
            && children[k].Repr <= Repr - {this, buckets}
            && children[k].Valid()
            && children[k].buckets.Length == buckets.Length)
      && (forall j, k :: 0 <= j < k < |children| ==> children[j].Repr !! children[k].Repr)
    }

    /** `model` holds this node's fields and its children's models. */
    ghost predicate Abstracts()
      reads this, buckets, children
    {
      && Describes()
      && |model.children| == |children|
      && (forall k :: 0 <= k < |children| ==> model.children[k] == children[k].model)
    }

    /** `model` holds this node's own fields, and the retained list refers to
        children by their positions in `model`. */
    ghost predicate Describes()
      reads this, buckets
    {
      && model.name == name && model.buckets == buckets[..] && model.latest == latest
      && (sortedChildren.Some? <==> model.sorted.Some?)
      && (sortedChildren.Some? ==>
            && |sortedChildren.value| == |model.sorted.value|
            && forall q :: 0 <= q < |sortedChildren.value| ==>
                 model.sorted.value[q] < |children| &&
                 sortedChildren.value[q] == children[model.sorted.value[q]])
    }

    lemma ChildValid(k: nat)
      requires Valid() && k < |children|
      ensures children[k] in Repr && children[k].Repr <= Repr - {this, buckets}
      ensures children[k].Valid() && children[k].model == model.children[k]
    {
    }

    /** The child at position `q` of the retained list is valid, owns less
        than this node, and is modelled by the retained child's model. */
    lemma SortedChildValid(q: nat)
      requires Valid() && sortedChildren.Some? && q < |sortedChildren.value|
      ensures sortedChildren.value[q].Valid() && sortedChildren.value[q].Repr < Repr
      ensures model.sorted.value[q] < |model.children|
      ensures sortedChildren.value[q].model == model.children[model.sorted.value[q]]
    {
      ChildValid(model.sorted.value[q]);
    }

    lemma NamesAgree()
      requires Valid()
      ensures NamesOf(children) == Names(model.children)
    {
      forall k | 0 <= k < |children|
        ensures children[k].name == model.children[k].name
      {
        assert children[k].Valid();
      }
    }

    /** `CumulativeTree(name, buckets_count)` (budget.py:19-24). */
    constructor (name: string, count: nat)
      ensures Valid() && fresh(Repr)
      ensures this.name == name && model == Fresh(name, count)
    {
      this.name := name;
      buckets := new int[count](_ => 0);
      latest := 0;
      children := [];
      sortedChildren := None;
      new;
      model := Fresh(name, count);
      Repr := {this, buckets};
    }

    /** `ingest_split` (budget.py:26-42). */
    method IngestSplit(path: seq<string>, bucket: nat, amount: int)
      requires Valid() && Ingestible(model, path, bucket)
      modifies Repr
      ensures Valid() && fresh(Repr - old(Repr)) && buckets == old(buckets)
      ensures model == Ingest(old(model), path, bucket, amount)
      decreases |path|, 1
    {
      if |path| == 1 {
        PostAt(bucket, amount);
      } else {
        NamesAgree();
        var k := IndexOf(NamesOf(children), path[1]);
        if k == |children| {
          AddChild(path[1]);
          assert model.children[k] == Fresh(path[1], buckets.Length);
        }
        IngestChild(k, path[1..], bucket, amount);
        if k == |old(children)| {
          assert model.children == old(model).children + [Ingest(Fresh(path[1], buckets.Length), path[1..], bucket, amount)];
        }
      }
    }

    /** The recursive step of `ingest_split` (budget.py:42): the child at
        position `k` ingests the rest of the path; its siblings and this
        node's own state are untouched. */
    method IngestChild(k: nat, path: seq<string>, bucket: nat, amount: int)
      requires Valid() && k < |children| && Ingestible(model.children[k], path, bucket)
      modifies Repr
      ensures Valid() && fresh(Repr - old(Repr)) && buckets == old(buckets)
      ensures model == old(model).(children := old(model).children[k := Ingest(old(model).children[k], path, bucket, amount)])
      decreases |path|, 2
    {
      var child := children[k];
      label Before:
      child.IngestSplit(path, bucket, amount);
      Repr := Repr + child.Repr;
      model := model.(children := model.children[k := child.model]);
      ChildReplaced@Before(k);
    }

    /** After the child at position `k` changed (its own objects and any it
        allocated), with nothing else touched but this node's fields and the
        contents of its bucket array, the tree is valid again as soon as
        `model` describes the fields. */
    twostate lemma ChildReplaced(k: nat)
      requires old(Valid()) && k < |old(children)|
      requires children == old(children) && buckets == old(buckets) && latest == old(latest)
      requires children[k].Valid() && fresh(children[k].Repr - old(children[k].Repr))
      requires children[k].buckets.Length == buckets.Length
      requires forall o :: o in old(Repr) && o !in old(children[k].Repr) && o != this && o != buckets ==> unchanged(o)
      requires Repr == old(Repr) + children[k].Repr
      requires Describes() && model.children == old(model).children[k := children[k].model]
      ensures Valid()
    {
      forall j | 0 <= j < |children| && j != k
        ensures children[j].Valid() && children[j].Repr == old(children[j].Repr)
        ensures children[j].model == old(children[j].model)
      {
        assert children[j].Repr !! old(children[k].Repr);
        StillValid(children[j]);
      }
    }

    /** A change confined to this node's own fields and the contents of its
        array, with the children left in place, keeps the tree valid as soon
        as `model` describes the fields. */
    twostate lemma LocalChange()
      requires old(Valid())
      requires children == old(children) && buckets == old(buckets) && Repr == old(Repr)
      requires unchanged(old(Repr) - {this, buckets})
      requires latest < buckets.Length || (buckets.Length == 0 && latest == 0 && children == [])
      requires Describes() && model.children == old(model).children
      ensures Valid()
    {
      forall j | 0 <= j < |children|
        ensures children[j].Valid() && children[j].Repr == old(children[j].Repr)
        ensures children[j].model == old(children[j].model)
      {
        StillValid(children[j]);
      }
    }

    /** The base case of `ingest_split` (budget.py:30-37): forward-fill from
        the cursor up to `bucket`, move the cursor, add the amount. */
    method PostAt(bucket: nat, amount: int)
      requires Valid() && latest <= bucket < buckets.Length
      modifies this, buckets
      ensures Valid() && Repr == old(Repr) && buckets == old(buckets) && children == old(children)
      ensures model == old(model).(buckets := Post(TallyOf(old(model)), bucket, amount).buckets, latest := bucket)
    {
      label Before:
      FillForward(buckets, latest, bucket);
      latest := bucket;
      buckets[bucket] := buckets[bucket] + amount;
      model := model.(buckets := buckets[..], latest := latest);
      LocalChange@Before();
    }

    /** `self.children[segment] = CumulativeTree(segment, self.buckets.size)`
        (budget.py:41). */
    method AddChild(segment: string)
      requires Valid() && buckets.Length > 0
      modifies this
      ensures Valid() && fresh(Repr - old(Repr)) && buckets == old(buckets)
      ensures |children| == |old(children)| + 1 && children[..|old(children)|] == old(children)
      ensures children[|old(children)|].name == segment
      ensures model == old(model).(children := old(model).children + [Fresh(segment, buckets.Length)])
    {
      var created := new CumulativeTree(segment, buckets.Length);
      children := children + [created];
      Repr := Repr + created.Repr;
      model := model.(children := model.children + [created.model]);
    }

    /** `finalize(name_prefix)` (budget.py:44-62): forward-fill to the end of
        the range, fold in every child that is not ignored, then sort the
        retained children by descending final value. */
    method Finalize(prefix: Option<string>, ignored: set<string>)
      requires Valid()
      modifies Repr
      ensures Valid() && Repr == old(Repr) && buckets == old(buckets)
      ensures model == Finalized(old(model), prefix, ignored)
      decreases Repr, 2
    {
      label Before:
      var qualified := Qualify(prefix, name);
      FillForward(buckets, latest, buckets.Length - 1);
      sortedChildren := Some([]);
      model := model.(buckets := buckets[..], sorted := Some([]));
      LocalChange@Before();
      for k := 0 to |children|
        invariant Valid() && Repr == old(Repr) && buckets == old(buckets) && children == old(children)
        invariant model == Merged(old(model), qualified, ignored, k)
      {
        MergeChild(old(model), k, qualified, ignored);
      }
      SortChildren();
    }

    /** The body of the loop at budget.py:54-60 for the child at position
        `k`: an ignored child is skipped, any other is merged. */
    method MergeChild(ghost start: Node, k: nat, qualified: string, ignored: set<string>)
      requires Valid() && k < |children| && |start.children| == |children|
      requires model == Merged(start, qualified, ignored, k)
      modifies Repr
      ensures Valid() && Repr == old(Repr) && buckets == old(buckets) && children == old(children)
      ensures model == Merged(start, qualified, ignored, k + 1)
      decreases Repr, 1
    {
      NamesAgree();
      if Qualify(Some(qualified), children[k].name) !in ignored {
        FinalizeChild(k, qualified, ignored);
      }
    }

    /** `self.sorted_children.sort(key=lambda child: -child.buckets[-1])`
        (budget.py:62): Python's sort is stable, so this is the retained list
        permuted by `SortOrder` on the children's final values. */
    method SortChildren()
      requires Valid() && sortedChildren.Some?
      modifies this
      ensures Valid() && Repr == old(Repr) && buckets == old(buckets) && children == old(children)
      ensures model == old(model).(sorted := Some(SortRetained(old(model))))
    {
      label Before:
      var kept := sortedChildren.value;
      var keys := SortKeys(kept);
      RetainedKeysAgree();
      assert keys == RetainedKeys(model);
      var order := StableSort.SortOrder(keys);
      sortedChildren := Some(seq(|order|, q requires 0 <= q < |order| => kept[order[q]]));
      model := model.(sorted := Some(SortRetained(model)));
      forall q | 0 <= q < |order|
        ensures model.sorted.value[q] < |children|
        ensures sortedChildren.value[q] == children[model.sorted.value[q]]
      {
        assert model.sorted.value[q] == old(model).sorted.value[order[q]];
      }
      LocalChange@Before();
    }

    /** The retained children's final values, read from their arrays, are
        the sort keys `RetainedKeys` gives for `model`. */
    lemma RetainedKeysAgree()
      requires Valid() && sortedChildren.Some?
      ensures StableSort.InRange(model.sorted.value, |model.children|)
      ensures |RetainedKeys(model)| == |sortedChildren.value|
      ensures forall q :: 0 <= q < |sortedChildren.value| ==>
        RetainedKeys(model)[q] == FinalValue(sortedChildren.value[q].buckets[..])
    {
      forall q | 0 <= q < |sortedChildren.value|
        ensures RetainedKeys(model)[q] == FinalValue(sortedChildren.value[q].buckets[..])
      {
        assert sortedChildren.value[q].Valid();
      }
    }

    /** One pass of the loop at budget.py:54-60 for a child that is not
        ignored: finalize it, add its series into this node's, and append it
        to the retained list. */
    method FinalizeChild(k: nat, qualified: string, ignored: set<string>)
      requires Valid() && k < |children| && sortedChildren.Some?
      modifies Repr
      ensures Valid() && Repr == old(Repr) && buckets == old(buckets) && children == old(children)
      ensures model == old(model).(
        buckets := AddSeries(old(model).buckets, Finalized(old(model).children[k], Some(qualified), ignored).buckets),
        children := old(model).children[k := Finalized(old(model).children[k], Some(qualified), ignored)],
        sorted := Some(old(model).sorted.value + [k]))
      decreases Repr, 0
    {
      var child := children[k];
      label Before:
      child.Finalize(Some(qualified), ignored);
      AddInto(buckets, child.buckets);
      sortedChildren := Some(sortedChildren.value + [child]);
      model := model.(buckets := buckets[..], children := model.children[k := child.model],
                      sorted := Some(model.sorted.value + [k]));
      ChildReplaced@Before(k);
    }

    /** `get_node(path)` (budget.py:83-91): the node the path names, found
        by following child keys, or `None` once a segment is missing. */
    function GetNode(path: seq<string>): (r: Option<CumulativeTree>)
      requires Valid() && path != [] && path[0] == name
      reads Repr
      ensures r.Some? ==> r.value in Repr && r.value.Repr <= Repr && r.value.Valid()
      ensures r.Some? <==> TreeSpec.GetNode(model, path).Some?
      ensures r.Some? ==> r.value.model == TreeSpec.GetNode(model, path).value
      decreases Repr
    {
      NamesAgree();
      if |path| == 1 then Some(this)
      else
        var k := IndexOf(NamesOf(children), path[1]);
        if k < |children| then
          ChildValid(k);
          children[k].GetNode(path[1..])
        else None
    }

    /** `to_dataframe(depth, name_prefix)` (budget.py:65-81): this node's
        column, then, while `depth > 0`, the columns of each retained child in
        sorted order; the assertion of line 66 is the `NotFinalized` error. */
    method ToDataframe(depth: int, prefix: Option<string>) returns (r: Result<seq<Column>>)
      requires Valid()
      ensures r == Table(model, depth, prefix)
      decreases Repr, 1
    {
      if sortedChildren.None? {
        return Err(NotFinalized);
      }
      var qualified := Qualify(prefix, name);
      var columns := [Column(qualified, buckets[..])];
      if depth > 0 {
        var kept := sortedChildren.value;
        for q := 0 to |kept|
          invariant Joined(model, depth - 1, qualified, q) == Ok(columns)
        {
          var sub := SortedChildTable(q, depth - 1, qualified);
          if sub.Err? {
            JoinedFailed(model, depth - 1, qualified, q + 1, |kept|);
            return sub;
          }
          columns := columns + sub.value;
        }
      }
      r := Ok(columns);
    }

    /** The table of the child at position `q` of the retained list, under
        this node's qualified name (budget.py:76-78). */
    method SortedChildTable(q: nat, depth: int, qualified: string) returns (sub: Result<seq<Column>>)
      requires Valid() && sortedChildren.Some? && q < |sortedChildren.value|
      ensures model.sorted.Some? && q < |model.sorted.value| && model.sorted.value[q] < |model.children|
      ensures sub == Table(model.children[model.sorted.value[q]], depth, Some(qualified))
      decreases Repr, 0
    {
      SortedChildValid(q);
      sub := sortedChildren.value[q].ToDataframe(depth, Some(qualified));
    }
  }
}
