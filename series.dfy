/** Daily bucket series: the array operations the tree performs on one node
    (forward-fill, adding an amount to a day, adding a child's series), and
    the running-total meaning those operations give the buckets. */
module Series {

  /** `np.zeros(n)`. */
  function Zeros(n: nat): seq<int>
  {
    seq(n, _ => 0)
  }

  /** The series after a forward-fill loop: every position after `from`, up to
      and including `upto`, takes the value held at `from`; the rest keep
      theirs. */
  function Fill(b: seq<int>, from: nat, upto: int): (r: seq<int>)
    ensures |r| == |b|
  {
    seq(|b|, i requires 0 <= i < |b| => if from < i <= upto && from < |b| then b[from] else b[i])
  }

  /** `b[day] += amount`. */
  function AddAt(b: seq<int>, day: nat, amount: int): seq<int>
  {
    if day < |b| then b[day := b[day] + amount] else b
  }

  /** Element-wise `np.add(a, b)` on series of one length. */
  function AddSeries(a: seq<int>, b: seq<int>): (r: seq<int>)
    ensures |r| == |a|
  {
    seq(|a|, i requires 0 <= i < |a| => a[i] + if i < |b| then b[i] else 0)
  }

  /** `b[-1]`, the value on the last day of the range. */
  function FinalValue(b: seq<int>): int
  {
    if b == [] then 0 else b[|b| - 1]
  }

  /** The part of a node the ingestion loop touches: its buckets and the
      cursor of the last day written. */
  datatype Tally = Tally(buckets: seq<int>, latest: nat)

  function Empty(n: nat): Tally
  {
    Tally(Zeros(n), 0)
  }

  /** One amount arriving at a node on `day`: carry the value at the cursor
      forward up to `day`, move the cursor there, then add the amount. */
  function Post(t: Tally, day: nat, amount: int): (r: Tally)
    ensures r.latest == day && |r.buckets| == |t.buckets|
  {
    Tally(AddAt(Fill(t.buckets, t.latest, day), day, amount), day)
  }

  /** One amount ingested directly at a node. */
  datatype Entry = Entry(day: nat, amount: int)

  predicate Chronological(h: seq<Entry>)
  {
    forall j, k :: 0 <= j < k < |h| ==> h[j].day <= h[k].day
  }

  /** The amounts posted in order, starting from an all-zero node. */
  function Replay(h: seq<Entry>, n: nat): Tally
    decreases |h|
  {
    if h == [] then Empty(n)
    else
      var last := h[|h| - 1];
      Post(Replay(h[..|h| - 1], n), last.day, last.amount)
  }

  /** Sum of the amounts of `h` dated on or before day `i`. */
  function SumThrough(h: seq<Entry>, i: int): int
    decreases |h|
  {
    if h == [] then 0
    else
      var last := h[|h| - 1];
      SumThrough(h[..|h| - 1], i) + if last.day <= i then last.amount else 0
  }

  /** The running-total reading of a tally: up to the cursor every bucket holds
      the sum of what was posted on or before its day, after it nothing has
      been written yet, and nothing was posted after the cursor. */
  ghost predicate Running(t: Tally, h: seq<Entry>)
  {
    && (forall k :: 0 <= k < |h| ==> h[k].day <= t.latest)
    && (forall i :: 0 <= i < |t.buckets| ==>
          t.buckets[i] == if i <= t.latest then SumThrough(h, i) else 0)
  }

  lemma SumThroughSnoc(h: seq<Entry>, e: Entry, i: int)
    ensures SumThrough(h + [e], i) == SumThrough(h, i) + if e.day <= i then e.amount else 0
  {
    assert (h + [e])[..|h|] == h;
  }

  /** Once every amount is on or before day `from`, the sum no longer grows. */
  lemma {:induction false} SumThroughSettled(h: seq<Entry>, from: int, i: int)
    requires from <= i
    requires forall k :: 0 <= k < |h| ==> h[k].day <= from
    ensures SumThrough(h, i) == SumThrough(h, from)
    decreases |h|
  {
    if h != [] {
      SumThroughSettled(h[..|h| - 1], from, i);
    }
  }

  /** Posting on or after the cursor keeps the running-total reading, with the
      new amount appended to the history (budget.py:30-37). */
  lemma DepositRunning(t: Tally, h: seq<Entry>, day: nat, amount: int)
    requires Running(t, h)
    requires t.latest <= day < |t.buckets|
    ensures Running(Post(t, day, amount), h + [Entry(day, amount)])
  {
    var e := Entry(day, amount);
    var t' := Post(t, day, amount);
    var h' := h + [e];
    forall i | 0 <= i < |t'.buckets|
      ensures t'.buckets[i] == if i <= t'.latest then SumThrough(h', i) else 0
    {
      SumThroughSnoc(h, e, i);
      if t.latest < i <= day {
        SumThroughSettled(h, t.latest, i);
      }
    }
  }

  /** Replaying a date-ordered history from zero yields the running totals of
      that history, with the cursor on its last day. */
  lemma {:induction false} ReplayRunning(h: seq<Entry>, n: nat)
    requires Chronological(h)
    requires forall k :: 0 <= k < |h| ==> h[k].day < n
    ensures Running(Replay(h, n), h)
    ensures Replay(h, n).latest == if h == [] then 0 else h[|h| - 1].day
    ensures |Replay(h, n).buckets| == n
    decreases |h|
  {
    if h != [] {
      var init := h[..|h| - 1];
      ReplayRunning(init, n);
      var last := h[|h| - 1];
      assert init + [last] == h;
      DepositRunning(Replay(init, n), init, last.day, last.amount);
    }
  }

  /** The final forward-fill turns running totals into totals for every day
      of the range: a day after the last posting carries the last value and
      is never reset to zero (budget.py:50-51). */
  lemma FillRunning(t: Tally, h: seq<Entry>)
    requires Running(t, h)
    requires t.latest < |t.buckets|
    ensures forall i :: 0 <= i < |t.buckets| ==>
      Fill(t.buckets, t.latest, |t.buckets| - 1)[i] == SumThrough(h, i)
  {
    forall i | 0 <= i < |t.buckets|
      ensures Fill(t.buckets, t.latest, |t.buckets| - 1)[i] == SumThrough(h, i)
    {
      if t.latest < i {
        SumThroughSettled(h, t.latest, i);
      }
    }
  }
}
