/** The order a stable sort by descending key leaves a list in: Python's
    `list.sort(key=lambda c: -c.buckets[-1])` is stable, so children with
    equal final values keep the order they were appended in. The sort is
    described on positions 0..n-1 of the list, with `keys[p]` the key of the
    element at position `p`. */
module StableSort {

  /** Position `p` ends up before position `q`: a larger key first, and equal
      keys in their original order. */
  predicate Before(keys: seq<int>, p: nat, q: nat)
    requires p < |keys| && q < |keys|
  {
    keys[p] > keys[q] || (keys[p] == keys[q] && p < q)
  }

  predicate InRange(s: seq<nat>, n: nat)
  {
    forall k :: 0 <= k < |s| ==> s[k] < n
  }

  /** Every neighbouring pair is in `Before` order: keys never increase, and
      among equal keys positions increase. */
  predicate Ordered(keys: seq<int>, s: seq<nat>)
    requires InRange(s, |keys|)
  {
    forall k :: 0 <= k < |s| - 1 ==> Before(keys, s[k], s[k + 1])
  }

  /** The positions 0, 1, ..., n-1 in order. */
  function Range(n: nat): (r: seq<nat>)
    ensures |r| == n && forall k :: 0 <= k < n ==> r[k] == k
  {
    seq(n, k => k)
  }

  /** Insert position `p` into an ordered list, in front of the first element
      it precedes. */
  function Insert(keys: seq<int>, p: nat, s: seq<nat>): (r: seq<nat>)
    requires p < |keys| && InRange(s, |keys|)
    ensures InRange(r, |keys|)
    decreases |s|
  {
    if s == [] then [p]
    else if Before(keys, p, s[0]) then [p] + s
    else
      assert s == [s[0]] + s[1..];
      [s[0]] + Insert(keys, p, s[1..])
  }

  /** Inserting adds `p` and keeps every other element; the new head is `p`
      or the old head. */
  lemma {:induction false} InsertElements(keys: seq<int>, p: nat, s: seq<nat>)
    requires p < |keys| && InRange(s, |keys|)
    ensures multiset(Insert(keys, p, s)) == multiset(s) + multiset{p}
    ensures Insert(keys, p, s)[0] == p || (s != [] && Insert(keys, p, s)[0] == s[0])
    decreases |s|
  {
    if s != [] && !Before(keys, p, s[0]) {
      InsertElements(keys, p, s[1..]);
      assert s == [s[0]] + s[1..];
    }
  }

  /** Positions 0..m-1 inserted one by one, in increasing order. */
  function InsertAll(keys: seq<int>, m: nat): (r: seq<nat>)
    requires m <= |keys|
    ensures InRange(r, |keys|)
    decreases m
  {
    if m == 0 then [] else Insert(keys, m - 1, InsertAll(keys, m - 1))
  }

  /** The positions inserted are exactly 0..m-1, each once. */
  lemma {:induction false} InsertAllElements(keys: seq<int>, m: nat)
    requires m <= |keys|
    ensures multiset(InsertAll(keys, m)) == multiset(Range(m))
    decreases m
  {
    if m > 0 {
      var last: nat := m - 1;
      var s := InsertAll(keys, last);
      assert InsertAll(keys, m) == Insert(keys, last, s);
      assert multiset(Insert(keys, last, s)) == multiset(s) + multiset{last} by {
        InsertElements(keys, last, s);
      }
      assert multiset(s) == multiset(Range(last)) by {
        InsertAllElements(keys, last);
      }
      assert multiset(Range(m)) == multiset(Range(last)) + multiset{last} by {
        assert Range(m) == Range(last) + [last];
      }
    }
  }

  /** The final order of the positions of a list of `|keys|` elements. */
  function SortOrder(keys: seq<int>): seq<nat>
  {
    InsertAll(keys, |keys|)
  }

  /** Inserting a new position into an ordered list keeps it ordered. */
  lemma {:induction false} InsertOrdered(keys: seq<int>, p: nat, s: seq<nat>)
    requires p < |keys| && InRange(s, |keys|)
    requires p !in s
    requires Ordered(keys, s)
    ensures Ordered(keys, Insert(keys, p, s))
    decreases |s|
  {
    if s != [] && !Before(keys, p, s[0]) {
      var tail := s[1..];
      assert forall k :: 0 <= k < |tail| ==> tail[k] == s[k + 1];
      InsertOrdered(keys, p, tail);
      var r := Insert(keys, p, s);
      var rt := Insert(keys, p, tail);
      assert rt[0] == p || (tail != [] && rt[0] == tail[0]) by {
        InsertElements(keys, p, tail);
      }
      assert r == [s[0]] + rt;
      assert Before(keys, s[0], rt[0]) by {
        if rt[0] == p {
          assert p != s[0] by { assert s[0] in s; }
        } else {
          assert tail != [] && rt[0] == s[1];
        }
      }
      forall k | 0 <= k < |r| - 1
        ensures Before(keys, r[k], r[k + 1])
      {
        if k > 0 {
          assert r[k] == rt[k - 1] && r[k + 1] == rt[k];
        }
      }
    }
  }

  lemma {:induction false} InsertAllOrdered(keys: seq<int>, m: nat)
    requires m <= |keys|
    ensures Ordered(keys, InsertAll(keys, m))
    decreases m
  {
    if m > 0 {
      InsertAllOrdered(keys, m - 1);
      var s := InsertAll(keys, m - 1);
      InsertAllElements(keys, m - 1);
      assert m - 1 !in multiset(Range(m - 1));
      InsertOrdered(keys, m - 1, s);
    }
  }

  /** `Before` is transitive, so an ordered list is ordered pair by pair. */
  lemma {:induction false} OrderedPairs(keys: seq<int>, s: seq<nat>, a: nat, b: nat)
    requires InRange(s, |keys|) && Ordered(keys, s)
    requires a < b < |s|
    ensures Before(keys, s[a], s[b])
    decreases b - a
  {
    if a + 1 < b {
      OrderedPairs(keys, s, a + 1, b);
    }
  }

  /** The sort result is a permutation of the positions: each position once.
      Along it the keys never increase, and equal keys keep their original
      relative order. */
  lemma SortOrderCorrect(keys: seq<int>)
    ensures InRange(SortOrder(keys), |keys|)
    ensures multiset(SortOrder(keys)) == multiset(Range(|keys|))
    ensures |SortOrder(keys)| == |keys|
    ensures forall p :: 0 <= p < |keys| ==> p in SortOrder(keys)
    ensures forall a, b :: 0 <= a < b < |keys| ==>
      var s := SortOrder(keys);
      s[a] != s[b] && keys[s[a]] >= keys[s[b]] && (keys[s[a]] == keys[s[b]] ==> s[a] < s[b])
  {
    var s := SortOrder(keys);
    InsertAllOrdered(keys, |keys|);
    InsertAllElements(keys, |keys|);
    assert |s| == |multiset(s)| == |multiset(Range(|keys|))| == |keys|;
    forall p | 0 <= p < |keys|
      ensures p in s
    {
      assert Range(|keys|)[p] == p;
      assert p in multiset(Range(|keys|));
    }
    forall a, b | 0 <= a < b < |keys|
      ensures s[a] != s[b] && keys[s[a]] >= keys[s[b]] && (keys[s[a]] == keys[s[b]] ==> s[a] < s[b])
    {
      OrderedPairs(keys, s, a, b);
    }
  }
}
