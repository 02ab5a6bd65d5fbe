/** `CumulativeAccountsIngester` of budget.py as a class: it holds the date
    window, one `CumulativeTree` per top-level account and the started flag.
    `Start` routes every split of the queried transactions to its tree and
    finalizes the trees; the value of the trees afterwards is proved to be
    `IngesterSpec.Started`, about which ingester_spec.dfy proves the
    routing and lookup properties. */
module Ingesters {
  import opened Wrappers
  import opened AccountPath
  import opened TreeSpec
  import opened IngestFacts
  import opened IngesterSpec
  import opened CumulativeTrees

  /** The values of a list of trees. */
  ghost function ModelsOf(ts: seq<CumulativeTree>): (r: seq<Node>)
    reads ts
    ensures |r| == |ts| && forall k :: 0 <= k < |ts| ==> r[k] == ts[k].model
  {
    seq(|ts|, k requires 0 <= k < |ts| reads ts => ts[k].model)
  }

  class CumulativeAccountsIngester {
    const startDate: int
    const endDate: int
    const totalBuckets: int
    var trees: seq<CumulativeTree>
    var hasStarted: bool

    ghost var Repr: set<object>

    /** One bucket per day of the window; each tree owns its own footprint,
        apart from the ingester and from the other trees'; before `start`
        there are no trees. */
    ghost predicate Valid()
      reads this, Repr
    {
      && this in Repr
      && totalBuckets == Days(startDate, endDate)
      && (!hasStarted ==> trees == [])
      && (forall k :: 0 <= k < |trees| ==>
            && trees[k] in Repr && trees[k].Repr <= Repr - {this}
            && trees[k].Valid())
      && (forall a, b :: 0 <= a < b < |trees| ==> trees[a].Repr !! trees[b].Repr)
    }

    /** The trees as values, in the order their accounts were first seen. */
    ghost function Models(): seq<Node>
      reads this, trees
    {
      ModelsOf(trees)
    }

    lemma NamesAgree()
      requires Valid()
      ensures NamesOf(trees) == Names(Models())
    {
      forall k | 0 <= k < |trees|
        ensures trees[k].name == Models()[k].name
      {
        assert trees[k].Valid();
      }
    }

    /** `CumulativeAccountsIngester(book, start_date, end_date)`
        (budget.py:96-102): one bucket per day of the window, both ends
        included; no trees yet. */
    constructor (startDate: int, endDate: int)
      ensures Valid() && fresh(Repr)
      ensures this.startDate == startDate && this.endDate == endDate
      ensures totalBuckets == Days(startDate, endDate)
      ensures trees == [] && !hasStarted
    {
      this.startDate := startDate;
      this.endDate := endDate;
      totalBuckets := Days(startDate, endDate);
      trees := [];
      hasStarted := false;
      new;
      Repr := {this};
    }

    /** The tree at `k` changed within its own footprint and may have grown
        new objects; every other tree is untouched, so the ingester is
        still valid and only the value of tree `k` changed. */
    twostate lemma TreeReplaced(k: nat)
      requires old(Valid()) && k < |old(trees)|
      requires trees == old(trees) && hasStarted == old(hasStarted)
      requires trees[k].Valid() && fresh(trees[k].Repr - old(trees[k].Repr))
      requires forall o :: o in old(Repr) && o !in old(trees[k].Repr) && o != this ==> unchanged(o)
      requires Repr == old(Repr) + trees[k].Repr
      ensures Valid()
      ensures Models() == old(Models())[k := trees[k].model]
    {
      forall j | 0 <= j < |trees| && j != k
        ensures trees[j].Valid() && trees[j].Repr == old(trees[j].Repr)
        ensures trees[j].model == old(trees[j].model)
      {
        assert trees[j].Repr !! old(trees[k].Repr);
        StillValid(trees[j]);
      }
    }

    /** The body of the inner loop of budget.py:112-119: find the tree of
        the split's top-level account, creating it on first sight, and
        ingest the split into it. */
    method RouteSplit(path: seq<string>, bucket: nat, amount: int)
      requires Valid() && hasStarted && path != [] && bucket < totalBuckets
      requires Ready(Models(), totalBuckets, bucket)
      modifies Repr
      ensures Valid() && fresh(Repr - old(Repr)) && hasStarted
      ensures Models() == Route(old(Models()), Posting(path, bucket, amount), totalBuckets)
    {
      RouteCases(Models(), Posting(path, bucket, amount), totalBuckets);
      NamesAgree();
      var k := IndexOf(NamesOf(trees), path[0]);
      if k == |trees| {
        AddTree(path[0], totalBuckets);
      }
      IngestTree(k, path, bucket, amount);
    }

    /** `self.trees[base_acc] = CumulativeTree(base_acc, self.total_buckets)`
        (budget.py:116-117). */
    method AddTree(root: string, count: nat)
      requires Valid() && hasStarted
      modifies this
      ensures Valid() && fresh(Repr - old(Repr)) && hasStarted
      ensures Models() == old(Models()) + [Fresh(root, count)]
    {
      var created := new CumulativeTree(root, count);
      trees := trees + [created];
      Repr := Repr + created.Repr;
      assert Models() == old(Models()) + [created.model];
    }

    /** `self.trees[base_acc].ingest_split(path, bucket, split)`. */
    method IngestTree(k: nat, path: seq<string>, bucket: nat, amount: int)
      requires Valid() && k < |trees| && Ingestible(trees[k].model, path, bucket)
      modifies Repr
      ensures Valid() && fresh(Repr - old(Repr)) && trees == old(trees) && hasStarted == old(hasStarted)
      ensures Models() == old(Models())[k := Ingest(old(Models())[k], path, bucket, amount)]
    {
      var tree := trees[k];
      label Before:
      tree.IngestSplit(path, bucket, amount);
      Repr := Repr + tree.Repr;
      TreeReplaced@Before(k);
    }

    /** `tree.finalize()` for the tree at `k` (budget.py:121-122). */
    method FinalizeTree(k: nat, ignored: set<string>)
      requires Valid() && k < |trees|
      modifies Repr
      ensures Valid() && Repr == old(Repr) && trees == old(trees) && hasStarted == old(hasStarted)
      ensures Models() == old(Models())[k := Finalized(old(Models())[k], None, ignored)]
    {
      var tree := trees[k];
      label Before:
      tree.Finalize(None, ignored);
      TreeReplaced@Before(k);
    }

    /** `start()` (budget.py:104-122), over the transactions the date-window
        query returns: every split of every transaction, in order, goes to
        the tree of its top-level account at the bucket of the transaction's
        day; then every tree is finalized with the ignored accounts left
        out. */
    method Start(txs: seq<Transaction>, ignored: set<string>)
      requires Valid() && !hasStarted && Queried(txs, startDate, endDate)
      modifies Repr
      ensures Valid() && fresh(Repr - old(Repr)) && hasStarted
      ensures Models() == Started(txs, startDate, endDate, ignored)
    {
      hasStarted := true;
      ghost var ps := Postings(txs, startDate);
      QueriedFeed(txs, startDate, endDate);
      ghost var fs := Forests(ps, totalBuckets);
      ForestsSteps(ps, totalBuckets);
      IngestTransactions(txs, ps, fs);
      ghost var routed := Models();
      assert routed == RouteAll(ps, totalBuckets) by {
        ForestsEnds(ps, totalBuckets);
      }
      FinalizeTrees(ignored);
      StartedIs(txs, startDate, endDate, ignored, ps, totalBuckets);
    }

    /** The loop of budget.py:110-119 over the queried transactions, whose
        postings are `ps` and whose forests are `fs`: the trees go from the
        first forest to the last. */
    method IngestTransactions(txs: seq<Transaction>, ghost ps: seq<Posting>, ghost fs: seq<seq<Node>>)
      requires Valid() && hasStarted && Queried(txs, startDate, endDate)
      requires ps == Postings(txs, startDate) && |fs| == |ps| + 1
      requires forall k :: 0 <= k < |ps| ==> Step(fs[k], fs[k + 1], ps[k], totalBuckets)
      requires Models() == fs[0]
      modifies Repr
      ensures Valid() && fresh(Repr - old(Repr)) && hasStarted
      ensures Models() == fs[|ps|]
    {
      ghost var c := 0;
      for i := 0 to |txs|
        invariant Valid() && fresh(Repr - old(Repr)) && hasStarted
        invariant c == |Postings(txs[..i], startDate)| <= |ps|
        invariant Models() == fs[c]
      {
        ghost var next := |Postings(txs[..i + 1], startDate)|;
        assert c + |txs[i].splits| == next <= |ps| by {
          TxPostingsAt(txs, startDate, i, ps, c);
        }
        IngestTransaction(txs, i, ps, fs, c);
        c := next;
      }
      assert txs[..|txs|] == txs;
    }

    /** One pass of the outer loop of budget.py:110-119, for transaction
        `txs[i]`: its splits are postings `c`, `c + 1`, ... of the feed `ps`
        of `txs`, whose forests are `fs`, and the trees so far are the forest
        before posting `c`. */
    method IngestTransaction(txs: seq<Transaction>, i: nat, ghost ps: seq<Posting>, ghost fs: seq<seq<Node>>, ghost c: nat)
      requires Valid() && hasStarted && Queried(txs, startDate, endDate) && i < |txs|
      requires ps == Postings(txs, startDate) && c == |Postings(txs[..i], startDate)|
      requires |fs| == |ps| + 1 && c + |txs[i].splits| <= |ps|
      requires forall k :: 0 <= k < |ps| ==> Step(fs[k], fs[k + 1], ps[k], totalBuckets)
      requires Models() == fs[c]
      modifies Repr
      ensures Valid() && fresh(Repr - old(Repr)) && hasStarted
      ensures Models() == fs[c + |txs[i].splits|]
    {
      TxPostingsAt(txs, startDate, i, ps, c);
      IngestSplits(txs[i], ps, fs, c);
    }

    /** The inner loop of budget.py:112-119: the splits of `tx`, in order, at
        the bucket of its day, when they are postings `c`, `c + 1`, ... of a
        feed `ps` whose forests are `fs`. */
    method IngestSplits(tx: Transaction, ghost ps: seq<Posting>, ghost fs: seq<seq<Node>>, ghost c: nat)
      requires Valid() && hasStarted && startDate <= tx.postDate
      requires |fs| == |ps| + 1 && c + |tx.splits| <= |ps|
      requires forall k :: 0 <= k < |ps| ==> Step(fs[k], fs[k + 1], ps[k], totalBuckets)
      requires forall j :: 0 <= j < |tx.splits| ==>
        ps[c + j] == Posting(Split(tx.splits[j].account), tx.postDate - startDate, tx.splits[j].amount)
      requires Models() == fs[c]
      modifies Repr
      ensures Valid() && fresh(Repr - old(Repr)) && hasStarted
      ensures Models() == fs[c + |tx.splits|]
    {
      var bucket := tx.postDate - startDate;
      var j := 0;
      ghost var k := c;
      while j < |tx.splits|
        invariant j <= |tx.splits| && k == c + j
        invariant Valid() && fresh(Repr - old(Repr)) && hasStarted
        invariant Models() == fs[k]
      {
        var split := tx.splits[j];
        assert ps[k] == Posting(Split(split.account), bucket, split.amount);
        assert Step(fs[k], fs[k + 1], ps[k], totalBuckets);
        RouteSplit(Split(split.account), bucket, split.amount);
        j := j + 1;
        k := k + 1;
      }
    }

    /** The loop of budget.py:121-122: `finalize()` on every tree in turn,
        with no prefix. */
    method FinalizeTrees(ignored: set<string>)
      requires Valid()
      modifies Repr
      ensures Valid() && Repr == old(Repr) && hasStarted == old(hasStarted)
      ensures Models() == FinalizeAll(old(Models()), ignored)
    {
      for k := 0 to |trees|
        invariant Valid() && Repr == old(Repr) && hasStarted == old(hasStarted) && trees == old(trees)
        invariant |Models()| == |old(Models())|
        invariant forall j :: 0 <= j < k ==> Models()[j] == Finalized(old(Models())[j], None, ignored)
        invariant forall j :: k <= j < |trees| ==> Models()[j] == old(Models())[j]
      {
        FinalizeTree(k, ignored);
      }
    }

    /** `get_dataframe_for_account(account, depth)` (budget.py:124-135):
        `None` for an account whose top-level account has no tree or whose
        path leads nowhere; otherwise the node's table with no prefix, or the
        `NotFinalized` error when the node was never finalized. */
    method GetDataframeForAccount(account: string, depth: int) returns (r: Result<Option<seq<Column>>>)
      requires Valid()
      ensures r == Lookup(Models(), account, depth)
    {
      var path := Split(account);
      NamesAgree();
      var k := IndexOf(NamesOf(trees), path[0]);
      if k == |trees| {
        return Ok(None);
      }
      assert trees[k].Valid();
      var node := trees[k].GetNode(path);
      if node.None? {
        return Ok(None);
      }
      var table := node.value.ToDataframe(depth, None);
      if table.Err? {
        return Err(table.fault);
      }
      return Ok(Some(table.value));
    }
  }
}
