/** What ingestion does to the tree, node by node: one posting changes the
    tally of exactly the node it names, so after a date-ordered stream every
    node holds the running totals of the postings made directly to it. */
module IngestFacts {
  import opened Wrappers
  import opened AccountPath
  import opened Series
  import opened TreeSpec

  /** The tally of the node at `p`, or an empty one while there is none. */
  function NodeTally(t: Node, p: seq<string>, n: nat): (r: Tally)
    ensures p == [t.name] ==> r == TallyOf(t)
  {
    if p != [] && p[0] == t.name then
      match GetNode(t, p)
      case Some(x) => TallyOf(x)
      case None => Empty(n)
    else Empty(n)
  }

  /** Appending a key keeps the position of every key already present; an
      absent key is found at the end only if it is the one appended. */
  lemma {:induction false} IndexOfSnoc(names: seq<string>, x: string, y: string)
    ensures IndexOf(names + [y], x) ==
      if IndexOf(names, x) < |names| then IndexOf(names, x)
      else if x == y then |names| else |names| + 1
    decreases |names|
  {
    if names != [] && names[0] != x {
      assert (names + [y])[1..] == names[1..] + [y];
      IndexOfSnoc(names[1..], x, y);
    }
  }

  /** A node whose cursor has caught up with `day` accepts a posting on
      `day` at any path below it: the assertions of budget.py:27-28 pass. */
  lemma {:induction false} CaughtUpIngestible(t: Node, path: seq<string>, day: nat, n: nat)
    requires Uniform(t, n) && LatestAtMost(t, day) && day < n
    requires path != [] && path[0] == t.name
    ensures Ingestible(t, path, day)
    decreases |path|
  {
    if |path| > 1 {
      var k := ChildIndex(t, path[1]);
      if k < |t.children| {
        CaughtUpIngestible(t.children[k], path[1..], day, n);
      }
    }
  }

  /** Writing no later than `day` stays no later than any later day. */
  lemma {:induction false} LatestAtMostLater(t: Node, day: nat, later: nat)
    requires LatestAtMost(t, day) && day <= later
    ensures LatestAtMost(t, later)
    decreases t
  {
    forall k | 0 <= k < |t.children|
      ensures LatestAtMost(t.children[k], later)
    {
      LatestAtMostLater(t.children[k], day, later);
    }
  }

  /** A freshly created node and all its (absent) descendants hold an empty
      tally. */
  lemma FreshTally(name: string, p: seq<string>, n: nat)
    ensures NodeTally(Fresh(name, n), p, n) == Empty(n)
  {
  }

  /** Below the node itself, the tally at `p` is the tally the child keyed
      `p[1]` holds for the rest of the path. */
  lemma NodeTallyBelow(t: Node, p: seq<string>, n: nat)
    requires |p| > 1 && p[0] == t.name
    ensures NodeTally(t, p, n) ==
      var k := ChildIndex(t, p[1]);
      if k < |t.children| then NodeTally(t.children[k], p[1..], n) else Empty(n)
  {
  }

  /** One posting at `q` changes the tally of the node at `q` as `Post`
      says and leaves the tally of every other node as it was; a node the
      walk down creates starts from an empty tally (budget.py:26-42). */
  lemma {:induction false} IngestTally(t: Node, q: seq<string>, day: nat, amount: int, p: seq<string>)
    requires Uniform(t, |t.buckets|) && Ingestible(t, q, day)
    requires p != [] && p[0] == t.name
    ensures NodeTally(Ingest(t, q, day, amount), p, |t.buckets|) ==
      if p == q then Post(NodeTally(t, q, |t.buckets|), day, amount) else NodeTally(t, p, |t.buckets|)
    decreases |q|, 1
  {
    var n := |t.buckets|;
    var r := Ingest(t, q, day, amount);
    if |p| > 1 {
      NodeTallyBelow(t, p, n);
      NodeTallyBelow(r, p, n);
      if |q| == 1 {
        assert Names(r.children) == Names(t.children);
      } else {
        IngestTallyBelow(t, q, day, amount, p);
      }
    }
  }

  /** The case of `IngestTally` where both paths go below the node and the
      posting descends into a child. */
  lemma {:induction false} IngestTallyBelow(t: Node, q: seq<string>, day: nat, amount: int, p: seq<string>)
    requires Uniform(t, |t.buckets|) && Ingestible(t, q, day)
    requires |p| > 1 && p[0] == t.name && |q| > 1
    ensures
      var r := Ingest(t, q, day, amount);
      var n := |t.buckets|;
      var kr := ChildIndex(r, p[1]);
      var kt := ChildIndex(t, p[1]);
      (if kr < |r.children| then NodeTally(r.children[kr], p[1..], n) else Empty(n)) ==
      if p == q then Post(NodeTally(t, q, n), day, amount)
      else if kt < |t.children| then NodeTally(t.children[kt], p[1..], n) else Empty(n)
    decreases |q|, 0
  {
    var n := |t.buckets|;
    var r := Ingest(t, q, day, amount);
    var k := ChildIndex(t, q[1]);
    assert (p == q) == (p[1..] == q[1..]);
    NodeTallyBelow(t, q, n);
    if k < |t.children| {
      assert Names(r.children) == Names(t.children);
      if p[1] == q[1] {
        IngestTally(t.children[k], q[1..], day, amount, p[1..]);
      }
    } else {
      assert Names(r.children) == Names(t.children) + [q[1]];
      IndexOfSnoc(Names(t.children), p[1], q[1]);
      if p[1] == q[1] {
        var f := Fresh(q[1], n);
        assert Ingestible(f, q[1..], day);
        IngestTally(f, q[1..], day, amount, p[1..]);
        FreshTally(q[1], p[1..], n);
        FreshTally(q[1], q[1..], n);
      }
    }
  }

  /** One call `ingest_split(path, day, split)`, with the split reduced to
      its amount. */
  datatype Posting = Posting(path: seq<string>, day: nat, amount: int)

  /** Postings a tree called `root` with `n` buckets accepts one after the
      other: every path starts at the root, every day is inside the range,
      and the days never decrease (the ingester's date-ordered query). */
  ghost predicate Stream(ps: seq<Posting>, root: string, n: nat)
  {
    && (forall j :: 0 <= j < |ps| ==> ps[j].path != [] && ps[j].path[0] == root && ps[j].day < n)
    && (forall i, j :: 0 <= i < j < |ps| ==> ps[i].day <= ps[j].day)
  }

  /** No node of the tree has been finalized. */
  ghost predicate Unfinalized(t: Node)
  {
    && t.sorted.None?
    && forall k :: 0 <= k < |t.children| ==> Unfinalized(t.children[k])
  }

  lemma {:induction false} IngestUnfinalized(t: Node, q: seq<string>, day: nat, amount: int)
    requires Ingestible(t, q, day) && Unfinalized(t)
    ensures Unfinalized(Ingest(t, q, day, amount))
    decreases |q|
  {
    if |q| > 1 {
      var k := ChildIndex(t, q[1]);
      if k < |t.children| {
        IngestUnfinalized(t.children[k], q[1..], day, amount);
      } else {
        IngestUnfinalized(Fresh(q[1], |t.buckets|), q[1..], day, amount);
      }
    }
  }

  /** The tree `CumulativeTree(root, n)` becomes after ingesting `ps` in
      order. */
  function IngestAll(root: string, ps: seq<Posting>, n: nat): (r: Node)
    requires Stream(ps, root, n)
    ensures r.name == root && Uniform(r, n) && Unfinalized(r)
    ensures LatestAtMost(r, if ps == [] then 0 else ps[|ps| - 1].day)
    decreases |ps|
  {
    if ps == [] then Fresh(root, n)
    else
      var init := ps[..|ps| - 1];
      var last := ps[|ps| - 1];
      var t := IngestAll(root, init, n);
      LatestAtMostLater(t, if init == [] then 0 else init[|init| - 1].day, last.day);
      CaughtUpIngestible(t, last.path, last.day, n);
      IngestUnfinalized(t, last.path, last.day, last.amount);
      Ingest(t, last.path, last.day, last.amount)
  }

  /** The postings made directly to the node at `p`, in order. */
  function History(ps: seq<Posting>, p: seq<string>): (h: seq<Entry>)
    ensures |h| <= |ps|
    decreases |ps|
  {
    if ps == [] then []
    else
      var last := ps[|ps| - 1];
      History(ps[..|ps| - 1], p) + if last.path == p then [Entry(last.day, last.amount)] else []
  }

  /** Every node of the ingested tree holds exactly what replaying its own
      postings from zero gives, and a path never posted to holds the empty
      tally. */
  lemma {:induction false} IngestAllReplays(root: string, ps: seq<Posting>, n: nat, p: seq<string>)
    requires Stream(ps, root, n) && p != [] && p[0] == root
    ensures NodeTally(IngestAll(root, ps, n), p, n) == Replay(History(ps, p), n)
    decreases |ps|
  {
    if ps == [] {
      FreshTally(root, p, n);
    } else {
      var init := ps[..|ps| - 1];
      var last := ps[|ps| - 1];
      var t := IngestAllStep(root, ps, n);
      IngestAllReplays(root, init, n, p);
      IngestTally(t, last.path, last.day, last.amount, p);
      var h := History(init, p);
      if last.path == p {
        assert History(ps, p) == h + [Entry(last.day, last.amount)];
        ReplaySnoc(h, Entry(last.day, last.amount), n);
      } else {
        assert History(ps, p) == h + [] == h;
      }
    }
  }

  lemma ReplaySnoc(h: seq<Entry>, e: Entry, n: nat)
    ensures Replay(h + [e], n) == Post(Replay(h, n), e.day, e.amount)
  {
    assert (h + [e])[..|h|] == h;
  }

  /** The last step of `IngestAll`, with the facts that make it legal. */
  lemma IngestAllStep(root: string, ps: seq<Posting>, n: nat) returns (t: Node)
    requires Stream(ps, root, n) && ps != []
    ensures Stream(ps[..|ps| - 1], root, n)
    ensures t == IngestAll(root, ps[..|ps| - 1], n)
    ensures Uniform(t, |t.buckets|) && |t.buckets| == n
    ensures Ingestible(t, ps[|ps| - 1].path, ps[|ps| - 1].day)
    ensures IngestAll(root, ps, n) == Ingest(t, ps[|ps| - 1].path, ps[|ps| - 1].day, ps[|ps| - 1].amount)
  {
    var init := ps[..|ps| - 1];
    var last := ps[|ps| - 1];
    t := IngestAll(root, init, n);
    LatestAtMostLater(t, if init == [] then 0 else init[|init| - 1].day, last.day);
    CaughtUpIngestible(t, last.path, last.day, n);
  }

  /** The history of one node is date-ordered and inside the range. */
  lemma {:induction false} HistoryChronological(ps: seq<Posting>, p: seq<string>, n: nat)
    requires forall j :: 0 <= j < |ps| ==> ps[j].day < n
    requires forall i, j :: 0 <= i < j < |ps| ==> ps[i].day <= ps[j].day
    ensures Chronological(History(ps, p))
    ensures forall k :: 0 <= k < |History(ps, p)| ==> History(ps, p)[k].day < n
    ensures forall k :: 0 <= k < |History(ps, p)| ==> History(ps, p)[k].day <= ps[|ps| - 1].day
    decreases |ps|
  {
    if ps != [] {
      var init := ps[..|ps| - 1];
      HistoryChronological(init, p, n);
      if init != [] {
        assert init[|init| - 1].day <= ps[|ps| - 1].day;
      }
    }
  }

  /** The running-total theorem of ingestion: for every node reached by a
      path posted to, each day up to its cursor holds the sum of the amounts
      posted to that node on or before that day, and nothing was posted to
      it after its cursor (budget.py:30-37). */
  lemma RunningTotals(root: string, ps: seq<Posting>, n: nat, p: seq<string>)
    requires Stream(ps, root, n) && p != [] && p[0] == root
    ensures Running(NodeTally(IngestAll(root, ps, n), p, n), History(ps, p))
    ensures |NodeTally(IngestAll(root, ps, n), p, n).buckets| == n
  {
    IngestAllReplays(root, ps, n, p);
    HistoryChronological(ps, p, n);
    ReplayRunning(History(ps, p), n);
  }

  /** Every node of a tree with `n` buckets everywhere has `n` buckets
      everywhere below it. */
  lemma {:induction false} UniformAt(t: Node, n: nat, p: seq<string>)
    requires Uniform(t, n) && p != [] && p[0] == t.name && GetNode(t, p).Some?
    ensures Uniform(GetNode(t, p).value, n)
    decreases |p|
  {
    if |p| > 1 {
      UniformAt(t.children[ChildIndex(t, p[1])], n, p[1..]);
    }
  }

  /** `p` names a node on the way to the target `q` of a posting: a
      non-empty prefix of it. */
  predicate OnPath(p: seq<string>, q: seq<string>)
  {
    p != [] && |p| <= |q| && q[..|p|] == p
  }

  /** A fresh node has no node below it. */
  lemma FreshFinds(name: string, n: nat, p: seq<string>)
    requires p != [] && p[0] == name
    ensures GetNode(Fresh(name, n), p).Some? <==> p == [name]
  {
    if |p| > 1 {
      assert ChildIndex(Fresh(name, n), p[1]) == 0;
    } else {
      assert p == [name];
    }
  }

  /** `ingest_split` creates exactly the nodes on the way to its target that
      were missing, and removes none (budget.py:39-42). */
  lemma {:induction false} IngestFinds(t: Node, q: seq<string>, day: nat, amount: int, p: seq<string>)
    requires Ingestible(t, q, day) && p != [] && p[0] == t.name
    ensures GetNode(Ingest(t, q, day, amount), p).Some? <==> GetNode(t, p).Some? || OnPath(p, q)
    decreases |q|
  {
    var r := Ingest(t, q, day, amount);
    if |p| == 1 {
      assert OnPath(p, q) by { assert q[..1] == [q[0]] == p; }
    } else if |q| == 1 {
      assert r.children == t.children;
    } else {
      var k := ChildIndex(t, q[1]);
      assert OnPath(p, q) <==> p[1] == q[1] && OnPath(p[1..], q[1..]) by {
        OnPathTail(p, q);
      }
      if k < |t.children| {
        assert Names(r.children) == Names(t.children);
        if p[1] == q[1] {
          IngestFinds(t.children[k], q[1..], day, amount, p[1..]);
        }
      } else {
        var f := Fresh(q[1], |t.buckets|);
        assert r.children == t.children + [Ingest(f, q[1..], day, amount)];
        assert Names(r.children) == Names(t.children) + [q[1]];
        IndexOfSnoc(Names(t.children), p[1], q[1]);
        if p[1] == q[1] {
          assert Ingestible(f, q[1..], day);
          IngestFinds(f, q[1..], day, amount, p[1..]);
          FreshFinds(q[1], |t.buckets|, p[1..]);
          assert p[1..] == [q[1]] ==> OnPath(p[1..], q[1..]) by {
            assert q[1..][..1] == [q[1]];
          }
        }
      }
    }
  }

  /** Below two paths' common first segment, one is on the way to the other
      exactly when their tails are. */
  lemma OnPathTail(p: seq<string>, q: seq<string>)
    requires |p| > 1 && |q| > 1 && p[0] == q[0]
    ensures OnPath(p, q) <==> p[1] == q[1] && OnPath(p[1..], q[1..])
  {
    if OnPath(p[1..], q[1..]) {
      assert q[..|p|] == [q[0]] + q[1..][..|p| - 1];
      assert p == [p[0]] + p[1..];
    }
    if OnPath(p, q) {
      assert q[1..][..|p| - 1] == q[..|p|][1..];
      assert p[1] == q[..|p|][1];
    }
  }

  /** Some posting of `ps` goes to `p` or below it. */
  predicate Posted(ps: seq<Posting>, p: seq<string>)
  {
    exists j :: 0 <= j < |ps| && OnPath(p, ps[j].path)
  }

  lemma PostedSnoc(ps: seq<Posting>, p: seq<string>)
    requires ps != []
    ensures Posted(ps, p) <==> Posted(ps[..|ps| - 1], p) || OnPath(p, ps[|ps| - 1].path)
  {
    var init := ps[..|ps| - 1];
    if Posted(ps, p) {
      var j :| 0 <= j < |ps| && OnPath(p, ps[j].path);
      if j < |init| {
        assert init[j] == ps[j];
      }
    }
    if Posted(init, p) {
      var j :| 0 <= j < |init| && OnPath(p, init[j].path);
      assert ps[j] == init[j];
    }
  }

  /** The ingested tree has a node at `p` exactly when `p` is the root or is
      on the way to the target of some posting: the tree holds the accounts
      that received a split and their ancestors, nothing more. */
  lemma {:induction false} IngestAllFinds(root: string, ps: seq<Posting>, n: nat, p: seq<string>)
    requires Stream(ps, root, n) && p != [] && p[0] == root
    ensures GetNode(IngestAll(root, ps, n), p).Some? <==> p == [root] || Posted(ps, p)
    decreases |ps|
  {
    if ps == [] {
      FreshFinds(root, n, p);
    } else {
      var init := ps[..|ps| - 1];
      var last := ps[|ps| - 1];
      var t := IngestAllStep(root, ps, n);
      IngestAllFinds(root, init, n, p);
      IngestFinds(t, last.path, last.day, last.amount, p);
      PostedSnoc(ps, p);
    }
  }

  /** No two children of any node share a name: the children are a
      dictionary keyed by segment (budget.py:23 and 40-41). */
  ghost predicate DistinctNames(t: Node)
  {
    && (forall a, b :: 0 <= a < b < |t.children| ==> t.children[a].name != t.children[b].name)
    && forall k :: 0 <= k < |t.children| ==> DistinctNames(t.children[k])
  }

  /** `ingest_split` adds a child only under a segment no child has yet, so
      sibling names stay distinct (budget.py:40-41). */
  lemma {:induction false} IngestDistinct(t: Node, q: seq<string>, day: nat, amount: int)
    requires Ingestible(t, q, day) && DistinctNames(t)
    ensures DistinctNames(Ingest(t, q, day, amount))
    decreases |q|
  {
    if |q| > 1 {
      var r := Ingest(t, q, day, amount);
      var k := ChildIndex(t, q[1]);
      if k < |t.children| {
        IngestDistinct(t.children[k], q[1..], day, amount);
        assert forall j :: 0 <= j < |r.children| ==> r.children[j].name == t.children[j].name;
      } else {
        var f := Fresh(q[1], |t.buckets|);
        assert Ingestible(f, q[1..], day);
        IngestDistinct(f, q[1..], day, amount);
        assert r.children == t.children + [Ingest(f, q[1..], day, amount)];
        assert forall j :: 0 <= j < |t.children| ==> Names(t.children)[j] != q[1];
      }
    }
  }

  lemma {:induction false} IngestAllDistinct(root: string, ps: seq<Posting>, n: nat)
    requires Stream(ps, root, n)
    ensures DistinctNames(IngestAll(root, ps, n))
    decreases |ps|
  {
    if ps != [] {
      var last := ps[|ps| - 1];
      var t := IngestAllStep(root, ps, n);
      IngestAllDistinct(root, ps[..|ps| - 1], n);
      IngestDistinct(t, last.path, last.day, last.amount);
    }
  }

  lemma {:induction false} GetNodeDistinct(t: Node, p: seq<string>)
    requires DistinctNames(t) && p != [] && p[0] == t.name && GetNode(t, p).Some?
    ensures DistinctNames(GetNode(t, p).value)
    decreases |p|
  {
    if |p| > 1 {
      GetNodeDistinct(t.children[ChildIndex(t, p[1])], p[1..]);
    }
  }

  /** With distinct names, looking a child up by its own name finds it. */
  lemma DistinctIndex(t: Node, x: nat)
    requires DistinctNames(t) && x < |t.children|
    ensures ChildIndex(t, t.children[x].name) == x
  {
    var k := ChildIndex(t, t.children[x].name);
    assert Names(t.children)[x] == t.children[x].name;
  }

  /** `get_node` one segment further down: the child keyed `y` of the node at
      `p`, if there is one (budget.py:86-91). */
  lemma {:induction false} GetNodeSnoc(t: Node, p: seq<string>, y: string)
    requires p != [] && p[0] == t.name && GetNode(t, p).Some?
    ensures
      var u := GetNode(t, p).value;
      var k := ChildIndex(u, y);
      GetNode(t, p + [y]) == if k < |u.children| then Some(u.children[k]) else None
    decreases |p|
  {
    if |p| == 1 {
      assert (p + [y])[1..] == [y];
      var k := ChildIndex(t, y);
      if k < |t.children| {
        assert t.children[k].name == Names(t.children)[k] == y;
      }
    } else {
      var k := ChildIndex(t, p[1]);
      assert (p + [y])[1..] == p[1..] + [y];
      GetNodeSnoc(t.children[k], p[1..], y);
    }
  }
}
