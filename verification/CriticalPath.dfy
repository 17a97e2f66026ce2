// The chain of spans with the greatest total duration.
module CriticalPath {
  import opened Model
  import opened Sequences
  import opened Forest
  import opened TraceTree

  // A list in which children come after their parents.
  ghost predicate Layered(order: seq<Span>)
    reads order
  {
    Distinct(order) && forall i :: 0 <= i < |order| ==> ChildrenAfter(order, i)
  }

  ghost predicate ChildrenAfter(order: seq<Span>, i: nat)
    requires i < |order|
    reads order
  {
    forall c :: c in order[i].children ==> c in order[i + 1..]
  }

  // The spans an assembled trace was walked in, which is what bounds the recursion.
  lemma ForestLayered(spans: seq<Span>, parents: map<Span, Span>, order: seq<Span>)
    requires IsForest(spans, parents, order)
    ensures Layered(order)
  {
    hide IsForest;
    ForestMembers(spans, parents, order);
    forall i | 0 <= i < |order| ensures ChildrenAfter(order, i) {
      ChildrenLater(spans, parents, order, i);
    }
  }

  ghost function Position(order: seq<Span>, s: Span, from: nat): (p: nat)
    requires from <= |order| && s in order[from..]
    ensures from <= p < |order| && order[p] == s
    decreases |order| - from
  {
    if order[from] == s then from
    else
      assert order[from..] == [order[from]] + order[from + 1..];
      Position(order, s, from + 1)
  }

  // The greatest total duration of a chain that starts at order[i].
  ghost function Best(order: seq<Span>, i: nat): int
    requires Layered(order) && i < |order|
    reads order
    decreases |order| - i, 1, 0
  {
    order[i].data.Duration() + BestBelow(order, i, |order[i].children|)
  }

  // The best a chain can go on through the first n children, or not at all.
  ghost function BestBelow(order: seq<Span>, i: nat, n: nat): (best: int)
    requires Layered(order) && i < |order| && n <= |order[i].children|
    reads order
    ensures best >= 0
    decreases |order| - i, 0, n
  {
    if n == 0 then 0
    else
      var c := order[i].children[n - 1];
      assert ChildrenAfter(order, i) && c in order[i].children;
      var before, through := BestBelow(order, i, n - 1), Best(order, Position(order, c, i + 1));
      if through > before then through else before
  }

  // Each span is a child of the one before it.
  ghost predicate IsChain(path: seq<Span>)
    reads path
  {
    |path| > 0 && forall k :: 0 <= k < |path| - 1 ==> path[k + 1] in path[k].children
  }

  function Total(path: seq<Span>): int {
    if path == [] then 0 else path[0].data.Duration() + Total(path[1..])
  }

  // The total is the sum of the spans' durations, each from start to end.
  lemma {:induction false} TotalAdds(a: seq<Span>, s: Span)
    ensures Total(a + [s]) == Total(a) + (s.data.end - s.data.start) && Total([]) == 0
  {
    if a == [] {
      assert a + [s] == [s];
    } else {
      assert (a + [s])[1..] == a[1..] + [s];
      TotalAdds(a[1..], s);
    }
  }

  method LongestPath(span: Span, ghost order: seq<Span>, ghost i: nat) returns (path: seq<Span>, duration: int)
    requires Layered(order) && i < |order| && order[i] == span
    ensures IsChain(path) && path[0] == span
    ensures Total(path) == duration == Best(order, i)
    decreases |order| - i
  {
    if |span.children| == 0 {
      return [span], span.data.Duration();
    }
    hide IsChain;
    var bestPath: seq<Span>, bestDuration := [], 0;
    for n := 0 to |span.children|
      invariant bestDuration == BestBelow(order, i, n) == Total(bestPath)
      invariant bestPath != [] ==> IsChain(bestPath) && bestPath[0] in span.children
    {
      var child := span.children[n];
      assert ChildrenAfter(order, i) && child in span.children;
      var childPath, childDuration := LongestPath(child, order, Position(order, child, i + 1));
      if childDuration > bestDuration {
        bestPath, bestDuration := childPath, childDuration;
      }
    }
    path, duration := [span] + bestPath, span.data.Duration() + bestDuration;
    ChainExtends(span, bestPath);
  }

  lemma ChainExtends(span: Span, rest: seq<Span>)
    requires rest != [] ==> IsChain(rest) && rest[0] in span.children
    ensures IsChain([span] + rest) && Total([span] + rest) == span.data.Duration() + Total(rest)
  {
    assert ([span] + rest)[1..] == rest;
  }

  // No chain from the same span, however short, lasts longer in total. Durations
  // may be negative.
  lemma {:induction false} ChainBound(order: seq<Span>, i: nat, path: seq<Span>)
    requires Layered(order) && i < |order|
    requires IsChain(path) && path[0] == order[i]
    ensures Total(path) <= Best(order, i)
    decreases |path|
  {
    if |path| > 1 {
      var rest := path[1..];
      assert rest[0] == path[1] && rest[0] in order[i].children;
      forall k | 0 <= k < |rest| - 1 ensures rest[k + 1] in rest[k].children {
        assert path[k + 1 + 1] in path[k + 1].children;
      }
      assert ChildrenAfter(order, i);
      var p := Position(order, rest[0], i + 1);
      ChainBound(order, p, rest);
      var n :| 0 <= n < |order[i].children| && order[i].children[n] == rest[0];
      BestBelowGrows(order, i, n + 1, |order[i].children|);
    } else {
      assert Total(path[1..]) == 0;
    }
  }

  lemma {:induction false} BestBelowGrows(order: seq<Span>, i: nat, n: nat, m: nat)
    requires Layered(order) && i < |order| && n <= m <= |order[i].children|
    ensures BestBelow(order, i, n) <= BestBelow(order, i, m)
    decreases m
  {
    if n < m {
      BestBelowGrows(order, i, n, m - 1);
    }
  }

  lemma RootVisited(spans: seq<Span>, order: seq<Span>, root: Span)
    requires IsForest(spans, Parents(spans), order)
    requires root in spans && root.data.IsRoot()
    ensures root in order
  {
    RootHops(Parents(spans), root);
  }

  // On an assembled trace; order is the walk that BuildTree returns.
  method ComputeCriticalPath(trace: Trace, ghost order: seq<Span>) returns (path: seq<Span>)
    requires IsForest(trace.spans, Parents(trace.spans), order)
    requires IsEarliestRoot(trace.spans, trace.root)
    ensures trace.root.None? ==> path == []
    ensures trace.root.Some? ==>
      && IsChain(path) && path[0] == trace.root.value
      && exists i :: 0 <= i < |order| && order[i] == path[0] && Layered(order) && Total(path) == Best(order, i)
  {
    if trace.root.None? {
      return [];
    }
    hide IsForest, Layered;
    ForestLayered(trace.spans, Parents(trace.spans), order);
    RootVisited(trace.spans, order, trace.root.value);
    ghost var i: nat :| i < |order| && order[i] == trace.root.value;
    var longest, _ := LongestPath(trace.root.value, order, i);
    path := longest;
  }
}
