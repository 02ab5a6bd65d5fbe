# Cumulative account trees of simple_gnucash_budget_plots

`budget.py` reads the transactions of a GnuCash book in a date window and
builds, for every top-level account (`Assets`, `Expenses`, ...) that
receives a split in the window, a `CumulativeTree`: one node per account (every prefix of a posted account name), each holding one bucket per
day of the window. `ingest_split` posts the value of a split to the node of
its account on the bucket of its day. A node keeps a cursor
(`latest_bucket`) and forward-fills its running total up to each new day.
`finalize` fills a node to the end of the window and adds to it the totals
of its children, except children whose full account name is in the ignored
set. It visits the kept children recursively and skips the ignored ones, so
the nodes below an ignored account stay as ingestion left them. Last, it
sorts the kept children by their value on the last day, largest first. `to_dataframe` projects a subtree to named columns
down to a depth, and `get_node` follows a path of segments.
`CumulativeAccountsIngester` owns the window and the trees. `start` routes
every split to the tree of its top-level account, creating trees on first
sight, and finalizes every tree. `get_dataframe_for_account` looks an
account up by its colon-separated name.

The model has two layers:

- **Values** (`TreeSpec`, `Series`, `StableSort`, `IngesterSpec`). A tree
  is a `Node` datatype. `Ingest`, `Finalized`, `GetNode` and `Table` are
  functions, and the properties of the engine are lemmas about them
  (`IngestFacts`, `FinalizeFacts`, `KeptTotals`, `TableFacts`). The
  headline fact, `KeptTotals.FinalizedKeptSum`, reads a finalized node's
  value on a day as the sum of every split of its subtree up to that day
  that no ignored account below it hides.
- **Objects** (`CumulativeTrees`, `Ingesters`). `CumulativeTree` and
  `CumulativeAccountsIngester` are classes whose methods update arrays and
  fields in place, as `budget.py` does. Each method is proved to change the
  ghost value of the object exactly as the matching function says.
  `CumulativeAccountsIngester.Start` ends with `Models() == Started(...)`.

Files:

| file | contents |
|---|---|
| `wrappers.dfy` | `Option`, `Result` and the `NotFinalized` fault |
| `account_path.dfy` | `str.split(':')`, `':'.join`, qualified names, dictionary lookup by key |
| `series.dfy` | bucket series, the forward-fill and the running-total reading |
| `stable_sort.dfy` | Python's stable sort by descending key |
| `tree_spec.dfy` | the `Node` value and the functions `Ingest`, `GetNode`, `Merged`, `Finalized`, `Table` |
| `ingest_facts.dfy` | what ingestion does: running totals per node, the assertions it meets |
| `finalize_facts.dfy` | what `finalize` does: totals, kept and ignored children, the sort order, lookups |
| `kept_totals.dfy` | the totals of a finalized tree as one flat sum over the splits of each kept subtree |
| `table_facts.dfy` | what `to_dataframe` returns: the first column, depth, no ignored columns, the assertion |
| `cumulative_tree.dfy` | class `CumulativeTree` over arrays |
| `ingester_spec.dfy` | transactions, postings, routing to trees, `start` and the lookup as values |
| `ingester.dfy` | class `CumulativeAccountsIngester` |

Amounts are integers (for example cents). Dates are integer day numbers, so
`(d - start_date).days` is `d - startDate`. The ignored-account set, which is
a global in `budget.py`, is a parameter of `finalize` and `start`.

## Model

| member | source | states |
|---|---|---|
| `AccountPath.Split` | budget.py:113 | `str.split(':')`: at least one segment, and no segment holds a separator |
| `AccountPath.JoinSplit` | budget.py:113 | joining the segments of a name gives the name back |
| `AccountPath.SplitJoin` | budget.py:55 | splitting the join of plain segments gives them back, so `':'.join` names match split paths one to one |
| `AccountPath.Join` | budget.py:48-55 | `':'.join(segments)`, the full name of an account that `finalize` builds and tests; its partners are `JoinSplit` and `SplitJoin` |
| `AccountPath.Qualify` | budget.py:45-48 | the bare name at the top, `prefix + ':' + name` below it |
| `AccountPath.IndexOf` | budget.py:40 | dictionary membership over keys in insertion order: the first position holding the key, or the length when absent |
| `Series.Fill` | budget.py:50-51 | the forward-fill, also used at budget.py:33-34: the buckets after the cursor up to `upto` take the cursor's value and the length is kept; `FillRunning` and `CumulativeTrees.FillForward` are its partners |
| `Series.Post` | budget.py:30-37 | one split at a node: fill forward to its day, move the cursor there and add the amount; the length is kept; `DepositRunning` is its partner |
| `Series.AddSeries` | budget.py:60 | `np.add`: the element-wise sum, as long as the node's own series; `CumulativeTrees.AddInto` and `FinalizeFacts.FinalizedTotals` are its partners |
| `Series.DepositRunning` | budget.py:30-37 | posting on or after the cursor keeps every bucket up to the cursor equal to the sum posted on or before its day |
| `Series.ReplayRunning` | budget.py:30-37 | a date-ordered history posted from zero gives those running totals, with the cursor on the last posting's day |
| `Series.FillRunning` | budget.py:50-51 | after the final forward-fill every day of the range holds the sum posted up to that day; the value is carried forward, never reset to zero |
| `StableSort.SortOrder` | budget.py:62 | the order of a stable sort by descending key, built by inserting positions one by one; its properties are `SortOrderCorrect` |
| `StableSort.SortOrderCorrect` | budget.py:62 | the sort order is a permutation of the positions; keys never increase along it, and equal keys keep their original order |
| `TreeSpec.Fresh` | budget.py:19-24 | a new node has the given name, no children, is not finalized, and holds zeros with the cursor on day 0 |
| `TreeSpec.Ingest` | budget.py:26-42 | ingestion keeps the name, the bucket count and the sorted state; it never removes a child; it keeps uniform bucket counts and the cursor bound |
| `TreeSpec.GetNode` | budget.py:83-91 | a node that is found is named by the last segment of the path |
| `TreeSpec.Merged` | budget.py:53-60 | after `k` passes of the child loop: same name, cursor and sizes; the children from `k` on are untouched |
| `TreeSpec.Finalized` | budget.py:44-62 | `finalize` keeps the name, the cursor and the sizes, and sets the sorted list |
| `TreeSpec.SortRetained` | budget.py:62 | the retained positions reordered by `SortOrder` on the children's final values; its properties are `FinalizeFacts.SortRetainedElements` and `SortRetainedOrder` |
| `TreeSpec.Table` | budget.py:65-81 | `to_dataframe`: `NotFinalized` without a sorted list, otherwise the node's column, then at positive depth the kept children's tables; its properties are in `TableFacts` and `CumulativeTrees.CumulativeTree.ToDataframe` |
| `TreeSpec.Joined` | budget.py:75-79 | the node's column joined with the tables of the first `k` kept children, failing with the first child's error; `TableFacts.TableShape` and `DepthOne` state what it gives |
| `TreeSpec.JoinedFailed` | budget.py:77-79 | once a child's table fails, the join fails with that error, however many children follow |
| `IngestFacts.CaughtUpIngestible` | budget.py:27-28 | a uniform node whose cursor is at most `day` accepts a posting on `day` at any path below it: both assertions pass |
| `IngestFacts.IngestTally` | budget.py:26-42 | one posting changes the tally of its own node as `Post` says and leaves every other node's tally as it was |
| `IngestFacts.IngestUnfinalized` | budget.py:24 | ingestion into a tree with no finalized node leaves every node, old or new, unfinalized |
| `IngestFacts.FreshTally` | budget.py:19-24 | a new node, and every path below it, holds the empty tally: zeros with the cursor on day 0 |
| `IngestFacts.IngestAll` | budget.py:26-42 | a tree fed a stream keeps its root name, has uniform buckets, is unfinalized, and its cursor is at most the last day |
| `IngestFacts.IngestAllReplays` | budget.py:30-37 | every node of an ingested tree holds what replaying its own postings from zero gives |
| `IngestFacts.HistoryChronological` | budget.py:28 | the postings to one node are in date order and inside the range |
| `IngestFacts.RunningTotals` | budget.py:30-37 | for every node, each day up to its cursor holds the sum of the amounts posted to it on or before that day |
| `IngestFacts.UniformAt` | budget.py:41 | every node found in a tree of `n`-bucket nodes has `n` buckets |
| `IngestFacts.FreshFinds` | budget.py:83-91 | `get_node` on a new node finds it only at its own one-segment path |
| `IngestFacts.OnPathTail` | budget.py:86-89 | one path starts another if and only if their second segments agree and the rest of one starts the rest of the other |
| `IngestFacts.IngestFinds` | budget.py:39-42 | after one split, `get_node` of a path leads to a node if and only if it did before or it starts the split's path |
| `IngestFacts.PostedSnoc` | budget.py:110-119 | a path is reached by a list of postings plus one if and only if it is reached by the list or starts the last posting's path |
| `IngestFacts.IngestAllFinds` | budget.py:39-42 | in an ingested tree `get_node` finds a node at a path if and only if it is the root or it starts the path of some posting: a node for every account that received a split and its ancestors, and no other |
| `IngestFacts.IngestDistinct` | budget.py:40-42 | `ingest_split` keeps the sibling names of every node distinct, because a child is added only under a segment no child has |
| `IngestFacts.IngestAllDistinct` | budget.py:40-42 | in a tree built from a stream, no node has two children with the same name |
| `IngestFacts.GetNodeDistinct` | budget.py:86-89 | the node `get_node` finds in such a tree has distinct child names too |
| `IngestFacts.DistinctIndex` | budget.py:88-89 | with distinct names, looking a child up by its own name finds that child's position |
| `IngestFacts.GetNodeSnoc` | budget.py:86-91 | `get_node` of a path one segment longer is the child of that name of the node found before, or nothing |
| `FinalizeFacts.MergedChildren` | budget.py:53-60 | after `k` passes the first `k` children are finalized or left alone, and the retained list holds the kept positions in visiting order |
| `FinalizeFacts.MergedStep` | budget.py:54-60 | one pass: an ignored child changes nothing; any other is finalized, added into the buckets and appended |
| `FinalizeFacts.RetainedIndicesShape` | budget.py:54-56 | retained positions increase, and a position is retained if and only if its qualified name is not ignored |
| `FinalizeFacts.FinalizedTotals` | budget.py:50-60 | each day's total is the node's forward-filled value plus the finalized values of the kept children; ignored children add nothing |
| `FinalizeFacts.SortRetainedElements` | budget.py:62 | the sorted list holds exactly the retained positions |
| `FinalizeFacts.SortRetainedOrder` | budget.py:62 | along the sorted list each child appears once, final values never increase, and ties keep insertion order |
| `FinalizeFacts.FinalizedChildren` | budget.py:53-62 | an ignored child is left as it was and is not listed; every other child is finalized and listed once, in non-increasing, stable order |
| `FinalizeFacts.FinalizedShort` | budget.py:55 | ignored names no longer than the node's own qualified name change nothing: only children are checked |
| `FinalizeFacts.RootNeverChecked` | budget.py:121-122 | listing a root's own name as ignored, or not, gives the same finalized tree |
| `FinalizeFacts.PrefixAtJoin` | budget.py:45-48 | the prefix handed down, joined with the node's segment, is the whole colon-joined path |
| `FinalizeFacts.CheckedName` | budget.py:55 | from the root, the name checked for the node at `path` is `':'.join(path)` |
| `FinalizeFacts.KeptChild` | budget.py:55-59 | a child in the sorted list was not ignored and is finalized under its parent's qualified name |
| `FinalizeFacts.FinalizedNames` | budget.py:44-62 | `finalize` keeps every child's name at its position |
| `FinalizeFacts.FinalizedAt` | budget.py:58 | a node reached through kept children is found after `finalize`, finalized under the prefix of its path |
| `FinalizeFacts.FinalizedFinds` | budget.py:44-62 | a path leads to a node after `finalize` if and only if it did before |
| `FinalizeFacts.QualifiedPath` | budget.py:45-48 | the qualified name `finalize` builds for the node at a path is `':'.join(path)` |
| `FinalizeFacts.FinalizedIngestedTotals` | budget.py:26-62 | in a tree ingested from a stream and finalized, a node reached through kept children holds on day `i` the sum of the amounts posted to it on or before day `i`, plus the day-`i` totals of its kept children |
| `FinalizeFacts.PrefixAtSnoc` | budget.py:44-48 | one segment further down, the prefix handed to a child is the qualified name of its parent |
| `FinalizeFacts.MergedRetained` | budget.py:53-59 | after `k` passes the retained list holds exactly the kept positions among the first `k`, in visiting order |
| `FinalizeFacts.MergedOutcomes` | budget.py:54-58 | after `k` passes each of the first `k` children is finalized under the parent's name when kept and left as it was when ignored |
| `FinalizeFacts.OutcomeStep` | budget.py:54-58 | pass `k` settles child `k - 1` and leaves the earlier children alone |
| `KeptTotals.CountsBelow` | budget.py:54-58 | a split that counts towards a child of an account lies below that account, under that child |
| `KeptTotals.CountsChild` | budget.py:55-58 | a split strictly below an account counts towards it exactly when the child it lies under is not ignored and the split counts towards that child |
| `KeptTotals.PostingKidsAt` | budget.py:54-60 | with distinct child names, one split adds its amount to the children's kept sums at most once: exactly when it counts towards the one child it lies under |
| `KeptTotals.KeptSplit` | budget.py:50-60 | the kept sum of an account is its own splits' sum plus the kept sums of its kept children, given distinct child names that cover every split below |
| `KeptTotals.ChildAt` | budget.py:54-58 | the child at a position is the node `get_node` finds one segment further, finalized under the parent's full name, and its own full name extends the parent's |
| `KeptTotals.ChildrenCover` | budget.py:39-42 | the children of an ingested node have distinct names, and every split below the node lies under one of them |
| `KeptTotals.ChildCovers` | budget.py:39-42 | a split below an ingested node lies under a child that exists |
| `KeptTotals.ChildKeptSum` | budget.py:54-60 | one child adds the same to the parent's finalized total as its kept sum adds to the children's kept sums |
| `KeptTotals.SumsAgree` | budget.py:54-60 | child-by-child agreement adds up to agreement of the whole retained total |
| `KeptTotals.FinalizedKeptSum` | budget.py:50-60 | every node of an ingested tree, finalized under its path's prefix, holds on day `i` the sum of every split of its subtree posted on or before day `i` that no ignored account below it hides |
| `KeptTotals.KeptTotalsAt` | budget.py:44-60 | in the finalized tree, a node reached through kept accounts holds on day `i` that kept sum of its path |
| `KeptTotals.IgnoredSplitAddsNothing` | budget.py:55-56 | a split posted below an ignored account leaves every total of the accounts above it as it was without that split |
| `TableFacts.FinalizedComplete` | budget.py:53-58 | every node reachable through the sorted lists of a finalized tree is finalized |
| `TableFacts.CompleteTable` | budget.py:66 | on such a tree the assertion of `to_dataframe` never fires, at any depth |
| `TableFacts.TableShape` | budget.py:69-79 | a table starts with the node's column under its qualified name; later columns are named below it; at depth 0 or less there is only that column |
| `TableFacts.ChildColumns` | budget.py:77-78 | at depth 0 there is one column per kept child |
| `TableFacts.DepthOne` | budget.py:76-79 | the default depth 1 gives the node's column, then one column per kept child, largest final value first |
| `TableFacts.FinalizedClean` | budget.py:54-59 | below a finalized node no reachable node is ignored or unfinalized |
| `TableFacts.NoIgnoredColumns` | budget.py:75-79 | projecting a finalized tree never shows a column of an ignored account |
| `TableFacts.HiddenUnchanged` | budget.py:55-56 | a node under an ignored child stays exactly as ingestion left it |
| `TableFacts.UnfinalizedNode` | budget.py:24 | every node of an unfinalized tree has no sorted list |
| `TableFacts.HiddenTableFails` | budget.py:66 | the table of a node under an ignored account fails with `NotFinalized` |
| `CumulativeTrees.FillForward` | budget.py:33-34 | the array afterwards is the forward-filled series |
| `CumulativeTrees.AddInto` | budget.py:60 | the array afterwards is the element-wise sum |
| `CumulativeTrees.SortKeys` | budget.py:62 | the keys are the nodes' last-day values, in list order |
| `CumulativeTrees.CumulativeTree.constructor` | budget.py:19-24 | a valid new node: zeros, cursor 0, no children, not finalized |
| `CumulativeTrees.CumulativeTree.IngestSplit` | budget.py:26-42 | the tree's value becomes `Ingest` of the old value, in place, still valid |
| `CumulativeTrees.CumulativeTree.IngestChild` | budget.py:42 | only the child at `k` ingests; its siblings and the node's own state are unchanged |
| `CumulativeTrees.CumulativeTree.PostAt` | budget.py:30-37 | the buckets become `Post` of the old tally, with the cursor on `bucket` |
| `CumulativeTrees.CumulativeTree.AddChild` | budget.py:40-41 | one new child with the segment's name and this node's bucket count, appended after the others |
| `CumulativeTrees.CumulativeTree.Finalize` | budget.py:44-62 | the tree's value becomes `Finalized` of the old value, in place |
| `CumulativeTrees.CumulativeTree.MergeChild` | budget.py:54-60 | the value moves from `Merged` after `k` passes to `Merged` after `k + 1` |
| `CumulativeTrees.CumulativeTree.FinalizeChild` | budget.py:58-60 | the child is finalized, its series added into this node's, and its position appended to the list |
| `CumulativeTrees.CumulativeTree.SortChildren` | budget.py:62 | the retained list is reordered by the stable descending sort of the children's final values |
| `CumulativeTrees.CumulativeTree.RetainedKeysAgree` | budget.py:62 | the sort keys read from the arrays are the final values of the model's retained children |
| `CumulativeTrees.CumulativeTree.GetNode` | budget.py:83-91 | the object found is valid, and it exists if and only if the value-level lookup finds a node, with that node as its value |
| `CumulativeTrees.CumulativeTree.ToDataframe` | budget.py:65-81 | the result is `Table` of the tree's value, including the `NotFinalized` error |
| `CumulativeTrees.CumulativeTree.SortedChildTable` | budget.py:76-78 | the table of a retained child is `Table` of that child's value under this node's qualified name |
| `IngesterSpec.Days` | budget.py:100 | `(end_date - start_date).days + 1`: one bucket per day, both ends included |
| `IngesterSpec.Postings` | budget.py:110-113 | the postings of the queried transactions, transaction by transaction; `PostingAt` and `QueriedFeed` state what they hold |
| `IngesterSpec.TxPostings` | budget.py:111-113 | one posting per split, in order: the split account's segments, the day offset and the amount |
| `IngesterSpec.QueriedFeed` | budget.py:106-111 | transactions from the date-window query give postings inside the range, in date order |
| `IngesterSpec.PostingsPrefix` | budget.py:110 | the postings of the first `m` transactions come first among all postings |
| `IngesterSpec.PostingsNext` | budget.py:110-112 | transaction `i` adds its postings after those of earlier transactions |
| `IngesterSpec.PostingAt` | budget.py:110-113 | split `j` of transaction `i` is the posting at its place in the whole sequence |
| `IngesterSpec.TxPostingsAt` | budget.py:110-113 | the splits of transaction `i` are the postings after the first `c` |
| `IngesterSpec.ReadyLater` | budget.py:28 | a forest that has written nothing after one day has written nothing after any later day |
| `IngesterSpec.Route` | budget.py:114-119 | routing adds the top-level account to the tree names exactly when it was new |
| `IngesterSpec.RouteCases` | budget.py:114-119 | an existing tree ingests the posting; otherwise a fresh tree of `n` buckets is appended and ingests it |
| `IngesterSpec.RouteReady` | budget.py:119 | after routing, every tree still has `n` buckets, no later cursor, and is unfinalized |
| `IngesterSpec.RouteAllReady` | budget.py:110-119 | after routing a feed, no tree is finalized and no cursor is past the last posting's day |
| `IngesterSpec.RouteAllSnoc` | budget.py:110-119 | routing one more posting routes it into the forest of the earlier ones |
| `IngesterSpec.FeedStep` | budget.py:110-119 | posting `c` of a feed is accepted by the forest of the first `c` postings and gives the forest of the first `c + 1` |
| `IngesterSpec.FeedPrefix` | budget.py:108 | a prefix of date-ordered, in-range postings is again such a feed |
| `IngesterSpec.Forests` | budget.py:110-119 | one forest per prefix of the postings |
| `IngesterSpec.ForestsEnds` | budget.py:110-119 | the forests start empty and end with every posting routed |
| `IngesterSpec.RouteAll` | budget.py:110-119 | the loop of `start`: each posting in turn routed into the forest of the earlier ones; its properties are `RouteAllTree`, `RouteAllNames` and `RouteAllFinds` |
| `IngesterSpec.Started` | budget.py:104-122 | the whole of `start`: route the queried postings, then finalize every tree; `Ingesters.CumulativeAccountsIngester.Start` is proved against it |
| `IngesterSpec.StartedIs` | budget.py:104-122 | the queried postings are a feed for the window's bucket count, and `Started` is their routed forest finalized |
| `IngesterSpec.ForestsSteps` | budget.py:110-119 | each posting takes one forest to the next: it is accepted, and routing it gives the next forest |
| `IngesterSpec.Only` | budget.py:116-119 | the postings kept for a root all start with that root and come from the feed |
| `IngesterSpec.OnlyStream` | budget.py:106-108 | one root's postings form a stream its tree accepts |
| `IngesterSpec.RouteAllNames` | budget.py:116-117 | trees are created lazily: there is a tree for a root if and only if some split starts with it, and no two trees share a name |
| `IngesterSpec.RouteAt` | budget.py:114-119 | one posting changes only the tree of its root; a new root's tree starts fresh |
| `IngesterSpec.OnlySnoc` | budget.py:116-119 | one more posting adds to its own root's postings only |
| `IngesterSpec.IngestAllSnoc` | budget.py:119 | one more posting at the end of a stream is one more `Ingest` |
| `IngesterSpec.RouteAllTree` | budget.py:110-119 | each tree is exactly a fresh tree that ingested, in order, the postings of its own top-level account |
| `IngesterSpec.FinalizeAll` | budget.py:121-122 | finalizing every tree keeps every tree's name in place |
| `IngesterSpec.OnlyHas` | budget.py:114-116 | a posting whose path starts at a root is among that root's postings |
| `IngesterSpec.PostedOnly` | budget.py:114-119 | a root's postings reach a path below the root if and only if the whole feed does |
| `IngesterSpec.HistoryOnly` | budget.py:114-119 | the postings to a node are the same whether taken from the feed or from its root's postings |
| `IngesterSpec.RouteAllFinds` | budget.py:110-119 | the forest has a node at a path if and only if some split went to that account or below it |
| `IngesterSpec.Lookup` | budget.py:124-135 | `get_dataframe_for_account`: a table that is found starts with a column named by the account's last segment; `LookupAbsent`, `LookupRetained`, `LookupHidden`, `LookupFinds`, `LookupTotals`, `LookupKeptTotals` and `LookupDepthOne` are its partners |
| `IngesterSpec.LookupFinds` | budget.py:124-133 | the lookup answers `None` if and only if no split in the window went to the account or below it |
| `IngesterSpec.LookupTotals` | budget.py:131-135 | for an account reached through kept accounts, the first column on day `i` is the sum of its own splits on or before day `i`, carried forward (budget.py:30-37, 50-51), plus the day-`i` totals of its kept children (budget.py:54-60) |
| `IngesterSpec.KeptSumOnly` | budget.py:114-119 | the splits that count towards an account are the same whether taken from the feed or from its root's postings |
| `IngesterSpec.LookupKeptTotals` | budget.py:131-135 | for an account reached through kept accounts, the first column on day `i` is the sum of every split of the feed posted on or before day `i` to that account or below it, except those under an ignored account |
| `IngesterSpec.LookupDepthOne` | budget.py:131-135 | at the default depth 1 (budget.py:55-79): the account's column, then one column per child whose full name is not ignored, largest final value first with ties in first-seen order |
| `IngesterSpec.KeptUnder` | budget.py:55 | a child of the node at a path is kept if and only if `':'.join(path) + ':' + child` is not ignored |
| `IngesterSpec.LookupAbsent` | budget.py:127-133 | an unknown top-level account, or a path that leads nowhere, gives `None` |
| `IngesterSpec.LookupRetained` | budget.py:131-135 | an account reached through kept accounts gets its table: first its bare name over its finalized totals, only that column at depth 0 or less |
| `IngesterSpec.LookupHidden` | budget.py:135 | an account under an ignored account fails with `NotFinalized` |
| `IngesterSpec.RoutedUnfinalized` | budget.py:121-122 | before `finalize`, no routed tree is finalized |
| `Ingesters.ModelsOf` | budget.py:101 | the trees as values, position by position |
| `Ingesters.CumulativeAccountsIngester.constructor` | budget.py:96-102 | `end - start + 1` buckets, no trees, not started |
| `Ingesters.CumulativeAccountsIngester.NamesAgree` | budget.py:116 | the tree objects' names are the names of their values |
| `Ingesters.CumulativeAccountsIngester.RouteSplit` | budget.py:114-119 | the trees' values become `Route` of the old ones, creating the tree on first sight |
| `Ingesters.CumulativeAccountsIngester.AddTree` | budget.py:116-117 | one fresh tree is appended after the others |
| `Ingesters.CumulativeAccountsIngester.IngestTree` | budget.py:119 | only tree `k` changes, by `Ingest` |
| `Ingesters.CumulativeAccountsIngester.FinalizeTree` | budget.py:122 | only tree `k` changes, by `Finalized` with no prefix |
| `Ingesters.CumulativeAccountsIngester.Start` | budget.py:104-122 | the trees afterwards are `Started`: every split routed in date order, then every tree finalized |
| `Ingesters.CumulativeAccountsIngester.IngestTransactions` | budget.py:110-119 | the trees go from the empty forest to the forest of all the postings |
| `Ingesters.CumulativeAccountsIngester.IngestTransaction` | budget.py:110-119 | transaction `i` of the queried list takes the trees from the forest before its splits to the forest after them |
| `Ingesters.CumulativeAccountsIngester.IngestSplits` | budget.py:111-119 | the splits of one transaction, each at the bucket of its day, take the trees from the forest before them to the forest after them |
| `Ingesters.CumulativeAccountsIngester.FinalizeTrees` | budget.py:121-122 | every tree is finalized with no prefix, in place |
| `Ingesters.CumulativeAccountsIngester.GetDataframeForAccount` | budget.py:124-135 | the result is `Lookup` on the trees' values |

## Left out

- The book, its database session and the date-window query (budget.py:106-108). `start` takes the transactions the query would return. The precondition `Queried` states the filter and the ordering.
- pandas: the date index of budget.py:130 and the `DataFrame` machinery. A table is a list of named columns. `join` is modelled as appending the child's columns. That matches pandas when no two columns share a name. `IngestFacts.IngestAllDistinct` proves that siblings never share a segment name. It is not proved that all qualified column names of a table are distinct. That also needs the segments to be free of the separator.
- Floating point: `float(split.value)` and `np.zeros` are integers here, so totals are exact.
- `np.add` (budget.py:60) allocates a new array in the source. The model adds in place. No other reference to the old array exists, so nobody can observe the difference.
- Plotting, `plot_ingester`, `main`, the argument parsing and `last_day_of_month` are not part of this model.
- The global `global_ignored_accounts` is a parameter of `finalize`, `start` and the lookup lemmas.
- `CumulativeTrees.CumulativeTree.GetNode`: the assertion `self.name == path[0]` (budget.py:84) is a precondition. Every caller in `budget.py` meets it.
- `CumulativeTrees.CumulativeTree.ToDataframe`: the assertion of budget.py:66 is the `Err(NotFinalized)` result, not a crash.
- `Ingesters.CumulativeAccountsIngester.Start`: a second call is excluded by `requires !hasStarted`. This is the guard of the only caller: budget.py:176-177 calls `start` only while `has_started` is false. The model does not describe a second call. In the source it would query again and ingest into the finalized trees; the date-order assertion of budget.py:28 fails as soon as a split reaches a node whose cursor is past the split's day.
- `CumulativeTrees.CumulativeTree.IngestSplit`: the two assertions of budget.py:27-28 are preconditions (`Ingestible`). `Ingestible` also asks for the bucket to lie inside the array, which the source does not assert: an out-of-range bucket would raise `IndexError` at budget.py:34 or 37. The date-window filter of budget.py:106-107 rules that out, because every day is at most `end_date` and so every bucket is below `total_buckets`. `IngestFacts.CaughtUpIngestible` and `IngesterSpec.RouteReady` prove that the ingester always meets all three conditions.
- Dates are day numbers. Calendar arithmetic on `datetime` is not modelled.
