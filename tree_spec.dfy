/** The cumulative tree as a value: what `CumulativeTree` in budget.py holds
    at each node, and what `ingest_split`, `finalize`, `get_node` and
    `to_dataframe` make of it. The class in cumulative_tree.dfy is proved to
    follow these functions step for step. */
module TreeSpec {
  import opened Wrappers
  import opened AccountPath
  import opened Series
  import StableSort

  /** One node: its segment name, one bucket per day of the range, the last
      day written, its children in the order they were first seen (a Python
      dict keeps insertion order), and, once finalized, the retained children
      as positions into `children`, largest final value first. */
  datatype Node = Node(
    name: string,
    buckets: seq<int>,
    latest: nat,
    children: seq<Node>,
    sorted: Option<seq<nat>>)

  /** One named column of a projected table. */
  datatype Column = Column(name: string, values: seq<int>)

  /** `CumulativeTree(name, count)`: all-zero buckets, cursor on day 0, no
      children, not finalized. */
  function Fresh(name: string, count: nat): (r: Node)
    ensures r.name == name && r.children == [] && r.sorted.None?
    ensures Uniform(r, count) && TallyOf(r) == Empty(count)
  {
    Node(name, Zeros(count), 0, [], None)
  }

  function Names(cs: seq<Node>): (r: seq<string>)
    ensures |r| == |cs| && forall k :: 0 <= k < |cs| ==> r[k] == cs[k].name
  {
    seq(|cs|, k requires 0 <= k < |cs| => cs[k].name)
  }

  /** Position of the child keyed `segment`, or `|children|` when absent. */
  function ChildIndex(t: Node, segment: string): nat
  {
    IndexOf(Names(t.children), segment)
  }

  function TallyOf(t: Node): Tally
  {
    Tally(t.buckets, t.latest)
  }

  /** Every node of the tree has `n` buckets and a cursor inside them (a
      zero-length node has no children). */
  ghost predicate Uniform(t: Node, n: nat)
  {
    && |t.buckets| == n
    && (t.latest < n || (n == 0 && t.latest == 0 && t.children == []))
    && forall k :: 0 <= k < |t.children| ==> Uniform(t.children[k], n)
  }

  /** No node of the tree has written a day after `day`. */
  ghost predicate LatestAtMost(t: Node, day: nat)
  {
    && t.latest <= day
    && forall k :: 0 <= k < |t.children| ==> LatestAtMost(t.children[k], day)
  }

  /** The assertions `ingest_split` makes on its way down (budget.py:27-28),
      and the bucket index being inside the array at the target: the path
      starts at this node, and no node it passes through has written a later
      day. Nodes still to be created pass trivially. */
  ghost predicate Ingestible(t: Node, path: seq<string>, bucket: nat)
    decreases |path|
  {
    && path != [] && path[0] == t.name && t.latest <= bucket
    && if |path| == 1 then bucket < |t.buckets|
       else
         var k := ChildIndex(t, path[1]);
         if k < |t.children| then Ingestible(t.children[k], path[1..], bucket)
         else bucket < |t.buckets|
  }

  /** `ingest_split(path, bucket, split)`: at the target node, forward-fill
      from the cursor to `bucket`, move the cursor and add the amount; above
      it, find or create the child keyed `path[1]` and descend. */
  function Ingest(t: Node, path: seq<string>, bucket: nat, amount: int): (r: Node)
    requires Ingestible(t, path, bucket)
    ensures r.name == t.name && |r.buckets| == |t.buckets| && r.sorted == t.sorted
    ensures |r.children| >= |t.children|
    ensures Uniform(t, |t.buckets|) ==> Uniform(r, |t.buckets|)
    ensures LatestAtMost(t, bucket) ==> LatestAtMost(r, bucket)
    decreases |path|
  {
    if |path| == 1 then
      var after := Post(TallyOf(t), bucket, amount);
      t.(buckets := after.buckets, latest := after.latest)
    else
      var k := ChildIndex(t, path[1]);
      if k < |t.children| then
        var c' := Ingest(t.children[k], path[1..], bucket, amount);
        assert Uniform(t, |t.buckets|) ==> Uniform(t.children[k], |t.buckets|);
        t.(children := t.children[k := c'])
      else
        t.(children := t.children + [Ingest(Fresh(path[1], |t.buckets|), path[1..], bucket, amount)])
  }

  /** `get_node(path)`: this node for a one-segment path, otherwise the child
      keyed `path[1]` asked for the rest, and `None` once a segment is
      missing. */
  function GetNode(t: Node, path: seq<string>): (r: Option<Node>)
    requires path != [] && path[0] == t.name
    ensures r.Some? ==> r.value.name == path[|path| - 1]
    decreases |path|
  {
    if |path| == 1 then Some(t)
    else
      var k := ChildIndex(t, path[1]);
      if k < |t.children| then GetNode(t.children[k], path[1..]) else None
  }

  /** The qualified name of a child of the node called `qualified`. */
  function ChildName(qualified: string, child: Node): string
  {
    Qualify(Some(qualified), child.name)
  }

  /** The state of `finalize` for the node qualified `qualified` after its
      forward-fill and its first `k` children: each child not ignored has
      been finalized, added into the buckets and appended to the retained
      list; an ignored one is left as it was (budget.py:50-60). */
  function Merged(t: Node, qualified: string, ignored: set<string>, k: nat): (r: Node)
    requires k <= |t.children|
    ensures r.name == t.name && r.latest == t.latest
    ensures |r.buckets| == |t.buckets| && |r.children| == |t.children|
    ensures r.sorted.Some? && StableSort.InRange(r.sorted.value, k)
    ensures forall j :: k <= j < |t.children| ==> r.children[j] == t.children[j]
    decreases t, 0, k
  {
    if k == 0 then
      t.(buckets := Fill(t.buckets, t.latest, |t.buckets| - 1), sorted := Some([]))
    else
      var s := Merged(t, qualified, ignored, k - 1);
      var c := t.children[k - 1];
      if ChildName(qualified, c) in ignored then s
      else
        var c' := Finalized(c, Some(qualified), ignored);
        s.(buckets := AddSeries(s.buckets, c'.buckets),
           children := s.children[k - 1 := c'],
           sorted := Some(s.sorted.value + [k - 1]))
  }

  /** The final values of the retained children, in retained order: the sort
      keys of budget.py:62. */
  function RetainedKeys(s: Node): seq<int>
    requires s.sorted.Some? && StableSort.InRange(s.sorted.value, |s.children|)
  {
    var kept := s.sorted.value;
    seq(|kept|, p requires 0 <= p < |kept| => FinalValue(s.children[kept[p]].buckets))
  }

  /** The retained positions permuted by a stable sort on their keys. */
  function SortRetained(s: Node): seq<nat>
    requires s.sorted.Some? && StableSort.InRange(s.sorted.value, |s.children|)
  {
    var kept := s.sorted.value;
    var order := StableSort.SortOrder(RetainedKeys(s));
    seq(|order|, q requires 0 <= q < |order| => kept[order[q]])
  }

  /** `finalize(name_prefix)`: merge every child, then stable-sort the
      retained ones by descending final value. */
  function Finalized(t: Node, prefix: Option<string>, ignored: set<string>): (r: Node)
    ensures r.name == t.name && r.latest == t.latest
    ensures |r.buckets| == |t.buckets| && |r.children| == |t.children|
    ensures r.sorted.Some?
    decreases t, 1
  {
    var s := Merged(t, Qualify(prefix, t.name), ignored, |t.children|);
    s.(sorted := Some(SortRetained(s)))
  }

  /** `to_dataframe(depth, name_prefix)`: fails unless finalized (budget.py:66);
      otherwise this node's column, then, when `depth > 0`, the columns of
      each sorted child at `depth - 1`. */
  function Table(t: Node, depth: int, prefix: Option<string>): Result<seq<Column>>
    decreases t, 1
  {
    if t.sorted.None? then Err(NotFinalized)
    else
      var qualified := Qualify(prefix, t.name);
      if depth > 0 then Joined(t, depth - 1, qualified, |t.sorted.value|)
      else Ok([Column(qualified, t.buckets)])
  }

  /** This node's column joined with the tables of its first `k` sorted
      children (budget.py:75-79). */
  function Joined(t: Node, childDepth: int, qualified: string, k: nat): Result<seq<Column>>
    requires t.sorted.Some? && k <= |t.sorted.value|
    decreases t, 0, k
  {
    if k == 0 then Ok([Column(qualified, t.buckets)])
    else
      var acc := Joined(t, childDepth, qualified, k - 1);
      var x := t.sorted.value[k - 1];
      if acc.Err? || x >= |t.children| then acc
      else
        var sub := Table(t.children[x], childDepth, Some(qualified));
        if sub.Err? then sub else Ok(acc.value + sub.value)
  }

  /** Once a child's table fails, the joined table fails with that error,
      however many children follow. */
  lemma {:induction false} JoinedFailed(t: Node, childDepth: int, qualified: string, k: nat, m: nat)
    requires t.sorted.Some? && k <= m <= |t.sorted.value|
    requires Joined(t, childDepth, qualified, k).Err?
    ensures Joined(t, childDepth, qualified, m) == Joined(t, childDepth, qualified, k)
    decreases m
  {
    if m > k {
      JoinedFailed(t, childDepth, qualified, k, m - 1);
    }
  }
}
