/** `CumulativeAccountsIngester` as values: the transactions the
    date-window query returns, the postings they make, the forest of trees
    keyed by top-level account, and the lookup `get_dataframe_for_account`
    performs on it. */
module IngesterSpec {
  import opened Wrappers
  import opened AccountPath
  import opened Series
  import opened TreeSpec
  import opened IngestFacts
  import opened FinalizeFacts
  import opened TableFacts
  import opened KeptTotals

  /** One split of a transaction: the full name of its account and its
      value. */
  datatype SplitRecord = SplitRecord(account: string, amount: int)

  /** A transaction, with its post date as a day number. */
  datatype Transaction = Transaction(postDate: int, splits: seq<SplitRecord>)

  /** What the query at budget.py:106-108 returns: transactions dated inside
      the window, ordered by date. */
  predicate Queried(txs: seq<Transaction>, start: int, end: int)
  {
    && (forall i :: 0 <= i < |txs| ==> start <= txs[i].postDate <= end)
    && (forall i, j :: 0 <= i < j < |txs| ==> txs[i].postDate <= txs[j].postDate)
  }

  /** The postings of one transaction, one per split in order: the account
      name split at ':' and the day offset from the start of the window
      (budget.py:111-113). */
  function TxPostings(tx: Transaction, start: int): (r: seq<Posting>)
    requires start <= tx.postDate
    ensures |r| == |tx.splits|
    ensures forall j :: 0 <= j < |r| ==>
      r[j] == Posting(Split(tx.splits[j].account), tx.postDate - start, tx.splits[j].amount)
  {
    seq(|tx.splits|, j requires 0 <= j < |tx.splits| =>
      Posting(Split(tx.splits[j].account), tx.postDate - start, tx.splits[j].amount))
  }

  /** All postings of the transactions, transaction by transaction. */
  function Postings(txs: seq<Transaction>, start: int): seq<Posting>
    requires forall i :: 0 <= i < |txs| ==> start <= txs[i].postDate
    decreases |txs|
  {
    if txs == [] then []
    else Postings(txs[..|txs| - 1], start) + TxPostings(txs[|txs| - 1], start)
  }

  /** Postings every tree accepts in turn: non-empty paths, days inside the
      `n` buckets, days never decreasing. */
  ghost predicate Feed(ps: seq<Posting>, n: int)
  {
    && (forall j :: 0 <= j < |ps| ==> ps[j].path != [] && ps[j].day < n)
    && (forall i, j :: 0 <= i < j < |ps| ==> ps[i].day <= ps[j].day)
  }

  /** The number of buckets of a window, one per day with both ends
      included (budget.py:100). */
  function Days(start: int, end: int): int
  {
    end - start + 1
  }

  /** The query's window and order make the postings a feed: every split
      lands in a bucket of the range (budget.py:100 and 111), in date
      order. */
  lemma {:induction false} QueriedFeed(txs: seq<Transaction>, start: int, end: int)
    requires Queried(txs, start, end)
    ensures Feed(Postings(txs, start), Days(start, end))
    ensures forall j :: 0 <= j < |Postings(txs, start)| ==>
      Postings(txs, start)[j].day <= if txs == [] then 0 else txs[|txs| - 1].postDate - start
    decreases |txs|
  {
    if txs != [] {
      var init := txs[..|txs| - 1];
      var tx := txs[|txs| - 1];
      QueriedFeed(init, start, end);
      var a := Postings(init, start);
      var b := TxPostings(tx, start);
      var ps: seq<Posting> := a + b;
      assert Postings(txs, start) == ps;
      if init != [] {
        assert init[|init| - 1].postDate <= tx.postDate;
      }
      forall j | 0 <= j < |ps|
        ensures ps[j].path != [] && ps[j].day < end - start + 1
        ensures ps[j].day <= tx.postDate - start
      {
        if j >= |a| {
          assert ps[j] == b[j - |a|];
        }
      }
    }
  }

  /** The postings of the first `m` transactions come first among all the
      postings. */
  lemma {:induction false} PostingsPrefix(txs: seq<Transaction>, start: int, m: nat)
    requires forall k :: 0 <= k < |txs| ==> start <= txs[k].postDate
    requires m <= |txs|
    ensures |Postings(txs[..m], start)| <= |Postings(txs, start)|
    ensures Postings(txs, start)[..|Postings(txs[..m], start)|] == Postings(txs[..m], start)
    decreases |txs|
  {
    if m == |txs| {
      assert txs[..m] == txs;
    } else {
      var init := txs[..|txs| - 1];
      PostingsPrefix(init, start, m);
      assert init[..m] == txs[..m];
    }
  }

  /** Transaction `i` adds its splits' postings after those of the
      transactions before it. */
  lemma PostingsNext(txs: seq<Transaction>, start: int, i: nat)
    requires forall k :: 0 <= k < |txs| ==> start <= txs[k].postDate
    requires i < |txs|
    ensures Postings(txs[..i + 1], start) == Postings(txs[..i], start) + TxPostings(txs[i], start)
  {
    assert txs[..i + 1][..i] == txs[..i];
  }

  /** Split `j` of transaction `i` is the posting at its place in the whole
      sequence: after the postings of the earlier transactions and the
      earlier splits. */
  lemma PostingAt(txs: seq<Transaction>, start: int, i: nat, j: nat)
    requires forall k :: 0 <= k < |txs| ==> start <= txs[k].postDate
    requires i < |txs| && j < |txs[i].splits|
    ensures |Postings(txs[..i], start)| + j < |Postings(txs, start)|
    ensures Postings(txs, start)[|Postings(txs[..i], start)| + j] ==
      Posting(Split(txs[i].splits[j].account), txs[i].postDate - start, txs[i].splits[j].amount)
  {
    PostingsNext(txs, start, i);
    PostingsPrefix(txs, start, i + 1);
    var all := Postings(txs, start);
    var next := Postings(txs[..i + 1], start);
    var c := |Postings(txs[..i], start)| + j;
    assert all[c] == all[..|next|][c] == next[c];
  }

  /** The splits of transaction `i` are the postings that follow the `c`
      postings of the transactions before it. */
  lemma TxPostingsAt(txs: seq<Transaction>, start: int, i: nat, ps: seq<Posting>, c: nat)
    requires forall k :: 0 <= k < |txs| ==> start <= txs[k].postDate
    requires i < |txs| && ps == Postings(txs, start) && c == |Postings(txs[..i], start)|
    ensures c + |txs[i].splits| == |Postings(txs[..i + 1], start)| <= |ps|
    ensures forall j :: 0 <= j < |txs[i].splits| ==>
      ps[c + j] == Posting(Split(txs[i].splits[j].account), txs[i].postDate - start, txs[i].splits[j].amount)
  {
    PostingsNext(txs, start, i);
    PostingsPrefix(txs, start, i + 1);
    forall j | 0 <= j < |txs[i].splits|
      ensures ps[c + j] == Posting(Split(txs[i].splits[j].account), txs[i].postDate - start, txs[i].splits[j].amount)
    {
      PostingAt(txs, start, i, j);
    }
  }

  /** Every tree of the forest has `n` buckets everywhere, has written no day
      after `day`, and has not been finalized. */
  ghost predicate Ready(trees: seq<Node>, n: int, day: nat)
  {
    forall k :: 0 <= k < |trees| ==> ReadyTree(trees[k], n, day)
  }

  /** One tree of a ready forest. */
  ghost predicate ReadyTree(t: Node, n: int, day: nat)
  {
    0 <= n && Uniform(t, n) && LatestAtMost(t, day) && Unfinalized(t)
  }

  lemma ReadyLater(trees: seq<Node>, n: int, day: nat, later: nat)
    requires Ready(trees, n, day) && day <= later
    ensures Ready(trees, n, later)
  {
    forall k | 0 <= k < |trees|
      ensures ReadyTree(trees[k], n, later)
    {
      assert ReadyTree(trees[k], n, day);
      LatestAtMostLater(trees[k], day, later);
    }
  }

  /** One posting routed to the tree of its top-level account; that tree is
      created with `n` buckets the first time the account is seen
      (budget.py:114-119). */
  function Route(trees: seq<Node>, p: Posting, n: int): (r: seq<Node>)
    requires p.path != [] && p.day < n && Ready(trees, n, p.day)
    ensures Names(r) == if p.path[0] in Names(trees) then Names(trees) else Names(trees) + [p.path[0]]
  {
    var k := IndexOf(Names(trees), p.path[0]);
    if k < |trees| then
      CaughtUpIngestible(trees[k], p.path, p.day, n);
      IngestUnfinalized(trees[k], p.path, p.day, p.amount);
      var r := trees[k := Ingest(trees[k], p.path, p.day, p.amount)];
      assert Names(r) == Names(trees);
      r
    else
      var f := Fresh(p.path[0], n);
      CaughtUpIngestible(f, p.path, p.day, n);
      IngestUnfinalized(f, p.path, p.day, p.amount);
      var r := trees + [Ingest(f, p.path, p.day, p.amount)];
      assert Names(r) == Names(trees) + [p.path[0]];
      r
  }

  /** `Route` by cases on whether the top-level account already has a
      tree. */
  lemma RouteCases(trees: seq<Node>, p: Posting, n: int)
    requires p.path != [] && p.day < n && Ready(trees, n, p.day)
    ensures
      var k := IndexOf(Names(trees), p.path[0]);
      && (k < |trees| ==>
            && Ingestible(trees[k], p.path, p.day)
            && Route(trees, p, n) == trees[k := Ingest(trees[k], p.path, p.day, p.amount)])
      && (k == |trees| ==>
            && 0 <= n && Ingestible(Fresh(p.path[0], n), p.path, p.day)
            && Route(trees, p, n) ==
                 (trees + [Fresh(p.path[0], n)])[k := Ingest(Fresh(p.path[0], n), p.path, p.day, p.amount)])
  {
    var k := IndexOf(Names(trees), p.path[0]);
    if k < |trees| {
      CaughtUpIngestible(trees[k], p.path, p.day, n);
    } else {
      CaughtUpIngestible(Fresh(p.path[0], n), p.path, p.day, n);
      var f := Fresh(p.path[0], n);
      assert (trees + [f])[k := Ingest(f, p.path, p.day, p.amount)] == trees + [Ingest(f, p.path, p.day, p.amount)];
    }
  }

  /** The routed posting's tree took it and the others are unchanged, so
      the forest is still ready for the same day. */
  lemma RouteReady(trees: seq<Node>, p: Posting, n: int)
    requires p.path != [] && p.day < n && Ready(trees, n, p.day)
    ensures Ready(Route(trees, p, n), n, p.day)
  {
    var k := IndexOf(Names(trees), p.path[0]);
    if k < |trees| {
      CaughtUpIngestible(trees[k], p.path, p.day, n);
      IngestUnfinalized(trees[k], p.path, p.day, p.amount);
    } else {
      CaughtUpIngestible(Fresh(p.path[0], n), p.path, p.day, n);
      IngestUnfinalized(Fresh(p.path[0], n), p.path, p.day, p.amount);
    }
  }

  /** The forest after routing every posting in turn. */
  function RouteAll(ps: seq<Posting>, n: int): (r: seq<Node>)
    requires Feed(ps, n)
    decreases |ps|, 0
  {
    if ps == [] then []
    else
      var init := ps[..|ps| - 1];
      var last := ps[|ps| - 1];
      var trees := RouteAll(init, n);
      RouteAllReady(init, n);
      ReadyLater(trees, n, if init == [] then 0 else init[|init| - 1].day, last.day);
      Route(trees, last, n)
  }

  /** Every tree of the routed forest has `n` buckets everywhere, has
      written no day after the last posting's, and is not finalized. */
  lemma {:induction false} RouteAllReady(ps: seq<Posting>, n: int)
    requires Feed(ps, n)
    ensures Ready(RouteAll(ps, n), n, if ps == [] then 0 else ps[|ps| - 1].day)
    decreases |ps|, 1
  {
    if ps != [] {
      var init := ps[..|ps| - 1];
      var last := ps[|ps| - 1];
      RouteAllReady(init, n);
      ReadyLater(RouteAll(init, n), n, if init == [] then 0 else init[|init| - 1].day, last.day);
      RouteReady(RouteAll(init, n), last, n);
    }
  }

  /** Routing one more posting. */
  lemma RouteAllSnoc(ps: seq<Posting>, p: Posting, n: int)
    requires Feed(ps + [p], n)
    ensures Feed(ps, n) && p.path != [] && p.day < n
    ensures Ready(RouteAll(ps, n), n, p.day)
    ensures RouteAll(ps + [p], n) == Route(RouteAll(ps, n), p, n)
  {
    assert (ps + [p])[..|ps|] == ps;
    assert (ps + [p])[|ps|] == p;
    var pre := if ps == [] then 0 else ps[|ps| - 1].day;
    if ps != [] {
      assert (ps + [p])[|ps| - 1] == ps[|ps| - 1];
    }
    RouteAllReady(ps, n);
    ReadyLater(RouteAll(ps, n), n, pre, p.day);
  }

  /** Routing posting `c` of a feed: the forest of the first `c` postings
      accepts it and becomes the forest of the first `c + 1`. */
  lemma FeedStep(ps: seq<Posting>, c: nat, n: int, trees: seq<Node>, p: Posting)
    requires Feed(ps, n) && c < |ps| && p == ps[c] && trees == RouteAll(ps[..c], n)
    ensures p.path != [] && p.day < n && Ready(trees, n, p.day)
    ensures Feed(ps[..c + 1], n) && RouteAll(ps[..c + 1], n) == Route(trees, p, n)
  {
    var next := ps[..c + 1];
    FeedPrefix(ps, n, c + 1);
    assert next == ps[..c] + [p];
    RouteAllSnoc(ps[..c], p, n);
  }

  /** A prefix of a feed is a feed. */
  lemma FeedPrefix(ps: seq<Posting>, n: int, m: nat)
    requires Feed(ps, n) && m <= |ps|
    ensures Feed(ps[..m], n)
  {
  }

  /** Posting `p` takes the forest `before` to the forest `after`. */
  ghost predicate Step(before: seq<Node>, after: seq<Node>, p: Posting, n: int)
  {
    p.path != [] && p.day < n && Ready(before, n, p.day) && after == Route(before, p, n)
  }

  /** The forests a feed passes through: entry `k` is the forest after its
      first `k` postings. */
  ghost function Forests(ps: seq<Posting>, n: int): (fs: seq<seq<Node>>)
    requires Feed(ps, n)
    ensures |fs| == |ps| + 1
  {
    seq(|ps| + 1, k requires 0 <= k <= |ps| => RouteAll(ps[..k], n))
  }

  /** The forests start empty and end with the whole feed routed. */
  lemma ForestsEnds(ps: seq<Posting>, n: int)
    requires Feed(ps, n)
    ensures Forests(ps, n)[0] == [] && Forests(ps, n)[|ps|] == RouteAll(ps, n)
  {
    assert ps[..|ps|] == ps;
  }

  /** Each posting takes one forest to the next. */
  lemma ForestsSteps(ps: seq<Posting>, n: int)
    requires Feed(ps, n)
    ensures forall k :: 0 <= k < |ps| ==> Step(Forests(ps, n)[k], Forests(ps, n)[k + 1], ps[k], n)
  {
    var fs := Forests(ps, n);
    forall k | 0 <= k < |ps|
      ensures Step(fs[k], fs[k + 1], ps[k], n)
    {
      FeedStep(ps, k, n, fs[k], ps[k]);
    }
  }

  /** The postings whose path starts at `root`, in order. */
  function Only(ps: seq<Posting>, root: string): (r: seq<Posting>)
    requires forall j :: 0 <= j < |ps| ==> ps[j].path != []
    ensures forall j :: 0 <= j < |r| ==> r[j] in ps && r[j].path[0] == root
    decreases |ps|
  {
    if ps == [] then []
    else
      var init := Only(ps[..|ps| - 1], root);
      if ps[|ps| - 1].path[0] == root then init + [ps[|ps| - 1]] else init
  }

  /** The postings of one root, taken from a feed, are a stream that root's
      tree accepts, ordered as they came. */
  lemma {:induction false} OnlyStream(ps: seq<Posting>, root: string, n: nat)
    requires Feed(ps, n)
    ensures Stream(Only(ps, root), root, n)
    ensures forall j :: 0 <= j < |Only(ps, root)| ==>
      Only(ps, root)[j].day <= ps[|ps| - 1].day
    decreases |ps|
  {
    if ps != [] {
      var init := ps[..|ps| - 1];
      OnlyStream(init, root, n);
      var o := Only(init, root);
      forall j | 0 <= j < |o|
        ensures o[j].day <= ps[|ps| - 1].day
      {
        var i :| 0 <= i < |init| && init[i] == o[j];
      }
    }
  }

  /** Trees are created lazily, one per top-level account that has a
      split, in the order those accounts first appear; no two trees share a
      name (budget.py:116-117). */
  lemma {:induction false} RouteAllNames(ps: seq<Posting>, n: int)
    requires Feed(ps, n)
    ensures forall x :: x in Names(RouteAll(ps, n)) <==> Only(ps, x) != []
    ensures forall a, b :: 0 <= a < b < |RouteAll(ps, n)| ==> RouteAll(ps, n)[a].name != RouteAll(ps, n)[b].name
    decreases |ps|
  {
    if ps != [] {
      var init := ps[..|ps| - 1];
      var last := ps[|ps| - 1];
      RouteAllNames(init, n);
      var before := RouteAll(init, n);
      var after := RouteAll(ps, n);
      assert Names(after) == if last.path[0] in Names(before) then Names(before) else Names(before) + [last.path[0]];
      forall x
        ensures x in Names(after) <==> Only(ps, x) != []
      {
        if x == last.path[0] {
          assert Only(ps, x) == Only(init, x) + [last];
        } else {
          assert Only(ps, x) == Only(init, x);
        }
      }
      forall a, b | 0 <= a < b < |after|
        ensures after[a].name != after[b].name
      {
        assert Names(after)[a] == after[a].name && Names(after)[b] == after[b].name;
        if b == |before| {
          assert Names(before)[a] in Names(before);
        } else {
          assert Names(before)[a] == before[a].name && Names(before)[b] == before[b].name;
        }
      }
    }
  }

  /** What one routed posting does to the tree at position `k`: the tree of
      its top-level account takes it, a tree appended for a new account
      starts fresh and takes it, every other tree is left as it was. */
  lemma RouteAt(trees: seq<Node>, p: Posting, n: int, k: nat)
    requires p.path != [] && p.day < n && Ready(trees, n, p.day)
    requires forall a, b :: 0 <= a < b < |trees| ==> trees[a].name != trees[b].name
    requires k < |Route(trees, p, n)|
    ensures k < |trees| && trees[k].name != p.path[0] ==> Route(trees, p, n)[k] == trees[k]
    ensures k < |trees| && trees[k].name == p.path[0] ==>
      && Ingestible(trees[k], p.path, p.day)
      && Route(trees, p, n)[k] == Ingest(trees[k], p.path, p.day, p.amount)
    ensures k == |trees| ==>
      && 0 <= n && p.path[0] !in Names(trees)
      && Ingestible(Fresh(p.path[0], n), p.path, p.day)
      && Route(trees, p, n)[k] == Ingest(Fresh(p.path[0], n), p.path, p.day, p.amount)
  {
    var j := IndexOf(Names(trees), p.path[0]);
    if j < |trees| {
      CaughtUpIngestible(trees[j], p.path, p.day, n);
    } else {
      CaughtUpIngestible(Fresh(p.path[0], n), p.path, p.day, n);
      if k < |trees| {
        assert Names(trees)[k] == trees[k].name;
      }
    }
  }

  /** The postings of a root after one more posting. */
  lemma OnlySnoc(ps: seq<Posting>, root: string)
    requires ps != [] && forall j :: 0 <= j < |ps| ==> ps[j].path != []
    ensures Only(ps, root) ==
      Only(ps[..|ps| - 1], root) + if ps[|ps| - 1].path[0] == root then [ps[|ps| - 1]] else []
  {
  }

  /** One more posting at the end of a root's stream is one more `Ingest`. */
  lemma IngestAllSnoc(root: string, ps: seq<Posting>, p: Posting, n: nat)
    requires Stream(ps + [p], root, n)
    ensures Stream(ps, root, n) && Ingestible(IngestAll(root, ps, n), p.path, p.day)
    ensures IngestAll(root, ps + [p], n) == Ingest(IngestAll(root, ps, n), p.path, p.day, p.amount)
  {
    var t := IngestAllStep(root, ps + [p], n);
    assert (ps + [p])[..|ps|] == ps;
  }

  /** Routing sends each tree exactly the postings of its own top-level
      account: tree `k` is what ingesting those postings, in order, into a
      fresh tree of `n` buckets gives (budget.py:110-119). */
  lemma {:induction false} RouteAllTree(ps: seq<Posting>, n: int, k: nat)
    requires Feed(ps, n) && k < |RouteAll(ps, n)|
    ensures 0 <= n
    ensures Stream(Only(ps, RouteAll(ps, n)[k].name), RouteAll(ps, n)[k].name, n)
    ensures RouteAll(ps, n)[k] == IngestAll(RouteAll(ps, n)[k].name, Only(ps, RouteAll(ps, n)[k].name), n)
    decreases |ps|
  {
    var init := ps[..|ps| - 1];
    var last := ps[|ps| - 1];
    var before := RouteAll(init, n);
    var x := RouteAll(ps, n)[k].name;
    RouteAllNames(init, n);
    RouteAllReady(init, n);
    ReadyLater(before, n, if init == [] then 0 else init[|init| - 1].day, last.day);
    assert RouteAll(ps, n) == Route(before, last, n);
    RouteAt(before, last, n, k);
    OnlyStream(ps, x, n);
    OnlySnoc(ps, x);
    if k < |before| {
      RouteAllTree(init, n, k);
      assert before[k].name == x;
      if x == last.path[0] {
        IngestAllSnoc(x, Only(init, x), last, n);
      }
    } else {
      assert Only(init, x) == [] by {
        assert x !in Names(before);
      }
      IngestAllSnoc(x, [], last, n);
      assert [] + [last] == [last];
    }
  }

  /** `tree.finalize()` on every tree, with no prefix (budget.py:121-122). */
  function FinalizeAll(trees: seq<Node>, ignored: set<string>): (r: seq<Node>)
    ensures Names(r) == Names(trees)
  {
    seq(|trees|, k requires 0 <= k < |trees| => Finalized(trees[k], None, ignored))
  }

  /** The whole of `start()`: route every split of the queried transactions,
      then finalize every tree. */
  function Started(txs: seq<Transaction>, start: int, end: int, ignored: set<string>): seq<Node>
    requires Queried(txs, start, end)
  {
    QueriedFeed(txs, start, end);
    FinalizeAll(RouteAll(Postings(txs, start), Days(start, end)), ignored)
  }

  /** `start` routes the queried postings, then finalizes every tree: the
      feed it routes is well formed. */
  lemma StartedIs(txs: seq<Transaction>, start: int, end: int, ignored: set<string>, ps: seq<Posting>, n: int)
    requires Queried(txs, start, end) && ps == Postings(txs, start) && n == Days(start, end)
    ensures Feed(ps, n)
    ensures Started(txs, start, end, ignored) == FinalizeAll(RouteAll(ps, n), ignored)
  {
    QueriedFeed(txs, start, end);
  }

  /** `get_dataframe_for_account(account, depth)`: `None` when the top-level
      account has no tree or the path leads nowhere, otherwise the node's
      table with no prefix, which fails when the node was never finalized
      (budget.py:124-135). */
  function Lookup(trees: seq<Node>, account: string, depth: int): (r: Result<Option<seq<Column>>>)
    ensures r.Ok? && r.value.Some? ==>
      |r.value.value| >= 1 && r.value.value[0].name == Split(account)[|Split(account)| - 1]
  {
    var path := Split(account);
    var k := IndexOf(Names(trees), path[0]);
    if k == |trees| then Ok(None)
    else
      var node := GetNode(trees[k], path);
      if node.None? then Ok(None)
      else
        var table := Table(node.value, depth, None);
        TableShape(node.value, depth, None);
        if table.Err? then Err(table.fault) else Ok(Some(table.value))
  }

  /** An account whose top-level account has no tree, or whose path leads
      nowhere in it, has no table: `None` (budget.py:127-133). */
  lemma LookupAbsent(trees: seq<Node>, ignored: set<string>, account: string, depth: int)
    requires
      var path := Split(account);
      var k := IndexOf(Names(trees), path[0]);
      k < |trees| ==> GetNode(trees[k], path).None?
    ensures Lookup(FinalizeAll(trees, ignored), account, depth) == Ok(None)
  {
    var path := Split(account);
    var k := IndexOf(Names(trees), path[0]);
    if k < |trees| {
      FinalizedFinds(trees[k], None, ignored, path);
    }
  }

  /** An account reached through kept accounts only gets its table: the
      first column is the node's bare name over its finalized totals, and at
      depth 0 or less it is the only column (budget.py:131-135). */
  lemma LookupRetained(trees: seq<Node>, ignored: set<string>, account: string, depth: int)
    requires
      var path := Split(account);
      var k := IndexOf(Names(trees), path[0]);
      k < |trees| && Retained(trees[k], None, ignored, path)
    ensures
      var path := Split(account);
      var t := trees[IndexOf(Names(trees), path[0])];
      var r := Lookup(FinalizeAll(trees, ignored), account, depth);
      && GetNode(t, path).Some?
      && r.Ok? && r.value.Some? && |r.value.value| >= 1
      && r.value.value[0] ==
           Column(path[|path| - 1], Finalized(GetNode(t, path).value, PrefixAt(None, path), ignored).buckets)
      && (depth <= 0 ==> |r.value.value| == 1)
  {
    var path := Split(account);
    var k := IndexOf(Names(trees), path[0]);
    var t := trees[k];
    FinalizedAt(t, None, ignored, path);
    var node := Finalized(GetNode(t, path).value, PrefixAt(None, path), ignored);
    FinalizedComplete(GetNode(t, path).value, PrefixAt(None, path), ignored);
    CompleteTable(node, depth, None);
    TableShape(node, depth, None);
  }

  /** An account below an ignored account was never finalized, so asking
      for its table trips the assertion of budget.py:66. */
  lemma LookupHidden(trees: seq<Node>, ignored: set<string>, account: string, depth: int)
    requires
      var path := Split(account);
      var k := IndexOf(Names(trees), path[0]);
      && k < |trees| && Hidden(trees[k], None, ignored, path)
      && Unfinalized(trees[k])
    ensures Lookup(FinalizeAll(trees, ignored), account, depth) == Err(NotFinalized)
  {
    var path := Split(account);
    var k := IndexOf(Names(trees), path[0]);
    HiddenTableFails(trees[k], None, ignored, path, depth, None);
  }

  /** After `start()`, every tree is unfinalized until its own `finalize`. */
  lemma RoutedUnfinalized(ps: seq<Posting>, n: int, k: nat)
    requires Feed(ps, n) && k < |RouteAll(ps, n)|
    ensures Unfinalized(RouteAll(ps, n)[k])
  {
    RouteAllReady(ps, n);
  }

  /** A posting whose path starts at `root` is among that root's
      postings. */
  lemma {:induction false} OnlyHas(ps: seq<Posting>, root: string, j: nat)
    requires forall i :: 0 <= i < |ps| ==> ps[i].path != []
    requires j < |ps| && ps[j].path[0] == root
    ensures ps[j] in Only(ps, root)
    decreases |ps|
  {
    if j < |ps| - 1 {
      var init := ps[..|ps| - 1];
      OnlyHas(init, root, j);
      assert init[j] == ps[j];
    }
  }

  /** The postings of one root reach a path below that root exactly when
      the whole feed does. */
  lemma PostedOnly(ps: seq<Posting>, root: string, p: seq<string>)
    requires forall i :: 0 <= i < |ps| ==> ps[i].path != []
    requires p != [] && p[0] == root
    ensures Posted(Only(ps, root), p) <==> Posted(ps, p)
  {
    var o := Only(ps, root);
    if Posted(o, p) {
      var j :| 0 <= j < |o| && OnPath(p, o[j].path);
      var i :| 0 <= i < |ps| && ps[i] == o[j];
    }
    if Posted(ps, p) {
      var j :| 0 <= j < |ps| && OnPath(p, ps[j].path);
      assert ps[j].path[0] == ps[j].path[..|p|][0] == root;
      OnlyHas(ps, root, j);
      var i :| 0 <= i < |o| && o[i] == ps[j];
    }
  }

  /** A node's own postings are the same whether taken from the whole feed
      or from its root's postings. */
  lemma {:induction false} HistoryOnly(ps: seq<Posting>, root: string, p: seq<string>)
    requires forall i :: 0 <= i < |ps| ==> ps[i].path != []
    requires p != [] && p[0] == root
    ensures History(Only(ps, root), p) == History(ps, p)
    decreases |ps|
  {
    if ps != [] {
      var init := ps[..|ps| - 1];
      var last := ps[|ps| - 1];
      HistoryOnly(init, root, p);
      if last.path[0] == root {
        var o := Only(init, root);
        assert Only(ps, root) == o + [last];
        assert (o + [last])[..|o|] == o;
      } else {
        assert last.path != p;
      }
    }
  }

  /** After routing, the tree of an account's top-level account has a node
      for it exactly when some split went to that account or below it: the
      forest holds the accounts that received a split and their ancestors,
      and no other (budget.py:39-42 and 116-117). */
  lemma RouteAllFinds(ps: seq<Posting>, n: int, path: seq<string>)
    requires Feed(ps, n) && path != []
    ensures
      var trees := RouteAll(ps, n);
      var k := IndexOf(Names(trees), path[0]);
      (k < |trees| && GetNode(trees[k], path).Some?) <==> Posted(ps, path)
  {
    var trees := RouteAll(ps, n);
    var x := path[0];
    var k := IndexOf(Names(trees), x);
    RouteAllNames(ps, n);
    PostedOnly(ps, x, path);
    if k < |trees| {
      RouteAllTree(ps, n, k);
      assert trees[k].name == Names(trees)[k] == x;
      IngestAllFinds(x, Only(ps, x), n, path);
      if path == [x] {
        var o := Only(ps, x);
        assert o != [] && OnPath(path, o[0].path) by {
          assert x in Names(trees);
          assert o[0].path[..1] == [o[0].path[0]];
        }
      }
    } else {
      assert x !in Names(trees);
      assert Only(ps, x) == [];
    }
  }

  /** `get_dataframe_for_account` answers `None` exactly for the accounts
      that received no split, themselves or below them, in the window
      (budget.py:124-133). */
  lemma LookupFinds(ps: seq<Posting>, n: int, ignored: set<string>, account: string, depth: int)
    requires Feed(ps, n)
    ensures Lookup(FinalizeAll(RouteAll(ps, n), ignored), account, depth) == Ok(None) <==> !Posted(ps, Split(account))
  {
    var trees := RouteAll(ps, n);
    var path := Split(account);
    var k := IndexOf(Names(trees), path[0]);
    RouteAllFinds(ps, n, path);
    if k < |trees| {
      assert trees[k].name == Names(trees)[k] == path[0];
      FinalizedFinds(trees[k], None, ignored, path);
    }
  }

  /** The numbers in the first column `get_dataframe_for_account` returns for
      an account reached through kept accounts: on day `i`, the sum of the
      splits posted to that account on or before day `i`, carried forward,
      plus that day's totals of its children that are not ignored
      (budget.py:30-37, 50-60 and 131-135). */
  lemma LookupTotals(ps: seq<Posting>, n: int, ignored: set<string>, account: string, depth: int, i: nat)
    requires Feed(ps, n) && i < n
    requires
      var trees := RouteAll(ps, n);
      var path := Split(account);
      var k := IndexOf(Names(trees), path[0]);
      k < |trees| && Retained(trees[k], None, ignored, path)
    ensures
      var trees := RouteAll(ps, n);
      var path := Split(account);
      var t := trees[IndexOf(Names(trees), path[0])];
      var r := Lookup(FinalizeAll(trees, ignored), account, depth);
      && GetNode(t, path).Some?
      && r.Ok? && r.value.Some? && |r.value.value| >= 1 && i < |r.value.value[0].values|
      && var node := GetNode(t, path).value;
         r.value.value[0].values[i] ==
           SumThrough(History(ps, path), i) + RetainedTotal(node, Join(path), ignored, |node.children|, i)
  {
    var trees := RouteAll(ps, n);
    var path := Split(account);
    var k := IndexOf(Names(trees), path[0]);
    var x := path[0];
    LookupRetained(trees, ignored, account, depth);
    RouteAllTree(ps, n, k);
    assert trees[k].name == Names(trees)[k] == x;
    FinalizedIngestedTotals(x, Only(ps, x), n, ignored, path, i);
    HistoryOnly(ps, x, path);
  }

  /** The splits that count towards an account are the same whether taken
      from the whole feed or from its root's postings. */
  lemma {:induction false} KeptSumOnly(ps: seq<Posting>, root: string, path: seq<string>, ignored: set<string>, i: nat)
    requires forall j :: 0 <= j < |ps| ==> ps[j].path != []
    requires path != [] && path[0] == root
    ensures KeptSum(Only(ps, root), path, ignored, i) == KeptSum(ps, path, ignored, i)
    decreases |ps|
  {
    if ps != [] {
      var init := ps[..|ps| - 1];
      var last := ps[|ps| - 1];
      KeptSumOnly(init, root, path, ignored, i);
      KeptSumSnoc(init, last, path, ignored, i);
      assert ps == init + [last];
      if last.path[0] == root {
        KeptSumSnoc(Only(init, root), last, path, ignored, i);
      }
    }
  }

  /** The first column `get_dataframe_for_account` returns for an account
      reached through kept accounts holds, on day `i`, the sum of every split
      of the feed posted on or before day `i` to that account or below it,
      except those under an ignored account (budget.py:30-37, 50-60 and
      131-135). */
  lemma LookupKeptTotals(ps: seq<Posting>, n: int, ignored: set<string>, account: string, depth: int, i: nat)
    requires Feed(ps, n) && i < n
    requires
      var trees := RouteAll(ps, n);
      var path := Split(account);
      var k := IndexOf(Names(trees), path[0]);
      k < |trees| && Retained(trees[k], None, ignored, path)
    ensures
      var r := Lookup(FinalizeAll(RouteAll(ps, n), ignored), account, depth);
      && r.Ok? && r.value.Some? && |r.value.value| >= 1 && i < |r.value.value[0].values|
      && r.value.value[0].values[i] == KeptSum(ps, Split(account), ignored, i)
  {
    var trees := RouteAll(ps, n);
    var path := Split(account);
    var k := IndexOf(Names(trees), path[0]);
    var x := path[0];
    LookupRetained(trees, ignored, account, depth);
    RouteAllTree(ps, n, k);
    assert trees[k].name == Names(trees)[k] == x;
    FinalizedKeptSum(x, Only(ps, x), n, ignored, path, i, GetNode(trees[k], path).value);
    KeptSumOnly(ps, x, path, ignored, i);
  }

  /** The default `depth=1` of `get_dataframe_for_account` for an account
      reached through kept accounts: the account's own column, then one
      column per child whose full name `account:child` is not ignored, each
      under `name:child` relative to the account, largest final value first
      with ties in the order the children were first seen (budget.py:55-79
      and 131-135). */
  lemma LookupDepthOne(trees: seq<Node>, ignored: set<string>, account: string)
    requires
      var path := Split(account);
      var k := IndexOf(Names(trees), path[0]);
      k < |trees| && Retained(trees[k], None, ignored, path)
    ensures
      var path := Split(account);
      var t := trees[IndexOf(Names(trees), path[0])];
      GetNode(t, path).Some? &&
      var name := path[|path| - 1];
      var node := Finalized(GetNode(t, path).value, PrefixAt(None, path), ignored);
      && Complete(node)
      && Lookup(FinalizeAll(trees, ignored), account, 1) ==
           Ok(Some([Column(name, node.buckets)] + ChildColumns(node, name, |node.sorted.value|)))
      && (forall x :: x in node.sorted.value <==>
            0 <= x < |node.children| && Join(path) + [Separator] + node.children[x].name !in ignored)
      && (forall a, b :: 0 <= a < b < |node.sorted.value| ==>
            var ca := node.children[node.sorted.value[a]];
            var cb := node.children[node.sorted.value[b]];
            && FinalValue(ca.buckets) >= FinalValue(cb.buckets)
            && (FinalValue(ca.buckets) == FinalValue(cb.buckets) ==> node.sorted.value[a] < node.sorted.value[b]))
  {
    var path := Split(account);
    var k := IndexOf(Names(trees), path[0]);
    var t := trees[k];
    FinalizedAt(t, None, ignored, path);
    var original := GetNode(t, path).value;
    var node := Finalized(original, PrefixAt(None, path), ignored);
    FinalizedComplete(original, PrefixAt(None, path), ignored);
    DepthOne(node, None);
    KeptUnder(original, path, ignored);
    FinalizedChildren(original, PrefixAt(None, path), ignored);
  }

  /** Which children of the node at `path` are kept, by their full names. */
  lemma KeptUnder(original: Node, path: seq<string>, ignored: set<string>)
    requires path != [] && original.name == path[|path| - 1]
    ensures
      var node := Finalized(original, PrefixAt(None, path), ignored);
      forall x :: x in node.sorted.value <==>
        0 <= x < |node.children| && Join(path) + [Separator] + node.children[x].name !in ignored
  {
    var node := Finalized(original, PrefixAt(None, path), ignored);
    FinalizedChildren(original, PrefixAt(None, path), ignored);
    FinalizedNames(original, PrefixAt(None, path), ignored);
    QualifiedPath(path);
    forall x | 0 <= x < |node.children|
      ensures ChildName(Qualify(PrefixAt(None, path), original.name), original.children[x])
        == Join(path) + [Separator] + node.children[x].name
    {
      assert Names(node.children)[x] == Names(original.children)[x];
    }
  }
}
