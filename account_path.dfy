/** Colon-separated account names: splitting a full name into its segments,
    joining segments back, and the qualified names the tree builds while it
    descends. */
module AccountPath {
  import opened Wrappers

  const Separator: char := ':'

  /** The segments of `s` as Python's `str.split(':')` gives them: every
      separator closes one segment and opens the next, so empty segments are
      kept and the empty string has one (empty) segment. */
  function Split(s: string): (r: seq<string>)
    ensures |r| >= 1
    ensures forall k :: 0 <= k < |r| ==> Separator !in r[k]
    decreases |s|
  {
    if s == [] then [""]
    else if s[0] == Separator then [""] + Split(s[1..])
    else
      var rest := Split(s[1..]);
      [[s[0]] + rest[0]] + rest[1..]
  }

  /** `':'.join(segments)`. */
  function Join(segments: seq<string>): string
    decreases |segments|
  {
    if segments == [] then ""
    else if |segments| == 1 then segments[0]
    else segments[0] + [Separator] + Join(segments[1..])
  }

  /** No segment carries the separator: the shape every split name has. */
  predicate Plain(segments: seq<string>)
  {
    forall k :: 0 <= k < |segments| ==> Separator !in segments[k]
  }

  /** The name a node is known by under an optional prefix: the bare name at
      the top, `prefix + ':' + name` below it. */
  function Qualify(prefix: Option<string>, name: string): (r: string)
    ensures prefix.None? ==> r == name
    ensures prefix.Some? ==> r == Join([prefix.value, name])
  {
    if prefix.None? then name else prefix.value + [Separator] + name
  }

  /** Position of the first occurrence of `x` in `xs`, or `|xs|` when absent:
      a dictionary lookup over keys kept in insertion order. */
  function IndexOf<T(==)>(xs: seq<T>, x: T): (k: nat)
    ensures k <= |xs|
    ensures k < |xs| ==> xs[k] == x
    ensures forall j :: 0 <= j < k ==> xs[j] != x
    decreases |xs|
  {
    if xs == [] then 0
    else if xs[0] == x then 0
    else 1 + IndexOf(xs[1..], x)
  }

  lemma {:induction false} SplitCons(c: char, s: string)
    requires c != Separator
    ensures Split([c] + s) == [[c] + Split(s)[0]] + Split(s)[1..]
  {
    assert ([c] + s)[1..] == s;
  }

  /** Prefixing a character to the first segment prefixes it to the join. */
  lemma JoinExtendHead(c: char, segments: seq<string>)
    requires segments != []
    ensures Join([[c] + segments[0]] + segments[1..]) == [c] + Join(segments)
  {
    var moved := [[c] + segments[0]] + segments[1..];
    if |segments| > 1 {
      assert moved[1..] == segments[1..];
    }
  }

  /** Joining the segments of a name gives the name back. */
  lemma {:induction false} JoinSplit(s: string)
    ensures Join(Split(s)) == s
    decreases |s|
  {
    if s != [] {
      JoinSplit(s[1..]);
      var rest := Split(s[1..]);
      if s[0] == Separator {
        assert ([""] + rest)[1..] == rest;
        assert Join(Split(s)) == [Separator] + Join(rest);
      } else {
        JoinExtendHead(s[0], rest);
      }
      assert s == [s[0]] + s[1..];
    }
  }

  /** Splitting a segment that has no separator, followed by a separator and
      more text, ends that segment exactly at the separator. */
  lemma {:induction false} SplitAfterSegment(x: string, rest: string)
    requires Separator !in x
    ensures Split(x + [Separator] + rest) == [x] + Split(rest)
    decreases |x|
  {
    if x == [] {
      assert x + [Separator] + rest == [Separator] + rest;
      assert ([Separator] + rest)[1..] == rest;
    } else {
      var tail := x[1..];
      SplitAfterSegment(tail, rest);
      assert x + [Separator] + rest == [x[0]] + (tail + [Separator] + rest);
      SplitCons(x[0], tail + [Separator] + rest);
      assert [x[0]] + tail == x;
    }
  }

  /** A segment without separators is its own split. */
  lemma {:induction false} SplitSegment(x: string)
    requires Separator !in x
    ensures Split(x) == [x]
    decreases |x|
  {
    if x != [] {
      SplitSegment(x[1..]);
      assert x == [x[0]] + x[1..];
      SplitCons(x[0], x[1..]);
    }
  }

  /** Splitting a join of plain segments gives the segments back. */
  lemma {:induction false} SplitJoin(segments: seq<string>)
    requires segments != [] && Plain(segments)
    ensures Split(Join(segments)) == segments
    decreases |segments|
  {
    if |segments| == 1 {
      SplitSegment(segments[0]);
    } else {
      SplitJoin(segments[1..]);
      SplitAfterSegment(segments[0], Join(segments[1..]));
      assert [segments[0]] + segments[1..] == segments;
    }
  }

  /** The qualified name of a child is the qualified name of its parent, a
      separator, and the child's segment. */
  lemma {:induction false} JoinSnoc(segments: seq<string>, x: string)
    requires segments != []
    ensures Join(segments + [x]) == Join(segments) + [Separator] + x
    decreases |segments|
  {
    if |segments| == 1 {
      assert segments + [x] == [segments[0], x];
      assert [segments[0], x][1..] == [x];
    } else {
      JoinSnoc(segments[1..], x);
      assert (segments + [x])[1..] == segments[1..] + [x];
    }
  }
}
