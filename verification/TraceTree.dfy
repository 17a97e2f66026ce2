// Building the tree of one trace out of an arbitrary bag of spans.
module TraceTree {
  import opened Model
  import opened Sequences
  import opened Forest
  import Text

  // The span that the assembler's map keeps for an identifier: the last one.
  function Lookup(spans: seq<Span>, id: SpanID): Option<Span> {
    if spans == [] then None
    else
      var last := spans[|spans| - 1];
      if last.data.spanId == id then Some(last) else Lookup(spans[..|spans| - 1], id)
  }

  lemma {:induction false} LookupFinds(spans: seq<Span>, id: SpanID)
    ensures match Lookup(spans, id)
            case Some(s) => s in spans && s.data.spanId == id
            case None => forall s :: s in spans ==> s.data.spanId != id
  {
    if spans != [] {
      LookupFinds(spans[..|spans| - 1], id);
      assert spans == spans[..|spans| - 1] + [spans[|spans| - 1]];
    }
  }

  lemma {:induction false} LookupLast(spans: seq<Span>, id: SpanID, s: Span)
    ensures Lookup(spans, id) == Some(s) <==> IsLastWith(spans, id, s)
  {
    if spans != [] {
      LookupLast(spans[..|spans| - 1], id, s);
      LastWithStep(spans, id, s);
      hide IsLastWith;
    }
  }

  // Who is whose parent. A root has no parent, and neither has an orphan, whose
  // parent identifier no span carries.
  function Parents(spans: seq<Span>): map<Span, Span> {
    map s | s in spans && !s.data.IsRoot() && Lookup(spans, s.data.parentId).Some?
      :: Lookup(spans, s.data.parentId).value
  }

  // A span has as its parent the last span with the identifier it names; one that names
  // none, or an identifier that no span carries, has no parent.
  lemma ParentIff(spans: seq<Span>, s: Span, p: Span)
    ensures s in Parents(spans) && Parents(spans)[s] == p <==>
              s in spans && s.data.parentId != 0 && IsLastWith(spans, s.data.parentId, p)
  {
    LookupLast(spans, s.data.parentId, p);
  }

  ghost predicate SortedByStart(s: seq<Span>) {
    forall i, j :: 0 <= i < j < |s| ==> s[i].data.start <= s[j].data.start
  }

  // kids lists exactly the members of some whose parent is p, each once.
  ghost predicate ChildrenAmong(parents: map<Span, Span>, some: seq<Span>, p: Span, kids: seq<Span>) {
    && Distinct(kids)
    && (forall c :: c in kids ==> c in some && c in parents && parents[c] == p)
    && (forall c :: c in some && c in parents && parents[c] == p ==> c in kids)
  }

  // roots and orphans list exactly the parentless members of some, each once.
  ghost predicate Parentless(parents: map<Span, Span>, some: seq<Span>, roots: seq<Span>, orphans: seq<Span>) {
    && Distinct(roots)
    && (forall s :: s in roots ==> s in some && s.data.IsRoot())
    && (forall s :: s in some && s.data.IsRoot() ==> s in roots)
    && Distinct(orphans)
    && (forall s :: s in orphans ==> s in some && !s.data.IsRoot() && s !in parents)
    && (forall s :: s in some && !s.data.IsRoot() && s !in parents ==> s in orphans)
  }

  // Every parent is listed before its children.
  ghost predicate ParentsFirst(parents: map<Span, Span>, order: seq<Span>) {
    forall j :: 0 <= j < |order| && order[j] in parents ==> parents[order[j]] in order[..j]
  }

  // s has been given its depth, in hops, and its children have been sorted.
  ghost predicate Placed(parents: map<Span, Span>, s: Span)
    reads s
  {
    Hops(parents, s, s.depth) && SortedByStart(s.children)
  }

  // The links are in place, the spans of order have been visited and no others.
  ghost predicate VisitedAre(spans: seq<Span>, parents: map<Span, Span>, order: seq<Span>)
    reads spans, order
  {
    && (forall p :: p in spans ==> ChildrenAmong(parents, spans, p, p.children))
    && (forall s :: s in order ==> Placed(parents, s))
    && (forall s :: s in spans && s !in order ==> s.depth == 0)
  }

  // The tree is linked, and order is the part of it that hangs below a root or
  // an orphan: nothing twice, parents first, depths counted in hops.
  ghost predicate IsForest(spans: seq<Span>, parents: map<Span, Span>, order: seq<Span>)
    reads spans, order
  {
    && Distinct(order)
    && ParentsFirst(parents, order)
    && (forall s :: s in order ==> s in spans && Grounded(parents, s))
    && (forall s :: s in spans && Grounded(parents, s) ==> s in order)
    && VisitedAre(spans, parents, order)
  }

  method IndexSpans(spans: seq<Span>) returns (spanMap: map<SpanID, Span>)
    modifies spans
    ensures forall id :: id in spanMap <==> Lookup(spans, id).Some?
    ensures forall id :: id in spanMap ==> Lookup(spans, id) == Some(spanMap[id]) && IsLastWith(spans, id, spanMap[id])
    ensures forall s :: s in spans ==> s.children == [] && s.depth == 0 && s.hasError == old(s.hasError)
  {
    spanMap := map[];
    for i := 0 to |spans|
      invariant forall id :: id in spanMap <==> Lookup(spans[..i], id).Some?
      invariant forall id :: id in spanMap ==> Lookup(spans[..i], id) == Some(spanMap[id])
      invariant forall s :: s in spans[..i] ==> s.children == [] && s.depth == 0
      invariant forall s :: s in spans ==> s.hasError == old(s.hasError)
    {
      var s := spans[i];
      assert spans[..i + 1][..i] == spans[..i];
      spanMap := spanMap[s.data.spanId := s];
      s.children := [];
      s.depth := 0;
    }
    assert spans[..|spans|] == spans;
    forall id | id in spanMap ensures IsLastWith(spans, id, spanMap[id]) {
      LookupLast(spans, id, spanMap[id]);
    }
  }

  // The first i spans have been linked to their parents.
  ghost predicate LinkedUpTo(spans: seq<Span>, parents: map<Span, Span>, i: nat)
    requires i <= |spans|
    reads spans
  {
    forall p :: p in spans ==> ChildrenAmong(parents, spans[..i], p, p.children)
  }

  method LinkChildren(spans: seq<Span>, spanMap: map<SpanID, Span>, ghost parents: map<Span, Span>)
    returns (roots: seq<Span>, orphans: seq<Span>)
    requires Distinct(spans)
    requires forall s :: s in spans ==> (s in parents <==> !s.data.IsRoot() && s.data.parentId in spanMap)
    requires forall s :: s in spans && s in parents ==>
      parents[s] == spanMap[s.data.parentId] && parents[s] in spans
    requires forall s :: s in spans ==> s.children == []
    modifies spans
    ensures LinkedUpTo(spans, parents, |spans|)
    ensures Parentless(parents, spans, roots, orphans)
    ensures forall s :: s in spans ==> s.depth == old(s.depth) && s.hasError == old(s.hasError)
  {
    hide ChildrenAmong, Parentless;
    roots, orphans := [], [];
    NothingLinked(spans, parents);
    for i := 0 to |spans|
      invariant LinkedUpTo(spans, parents, i)
      invariant Parentless(parents, spans[..i], roots, orphans)
      invariant forall s :: s in spans ==> s.depth == old(s.depth) && s.hasError == old(s.hasError)
    {
      var s := spans[i];
      assert s in spans && s !in spans[..i];
      OneMoreParentless(spans, parents, i, roots, orphans);
      if s.data.IsRoot() {
        LinkNothing(spans, parents, i);
        roots := roots + [s];
      } else if s.data.parentId in spanMap {
        LinkTo(spans, parents, i, spanMap[s.data.parentId]);
      } else {
        LinkNothing(spans, parents, i);
        orphans := orphans + [s];
      }
    }
    assert spans[..|spans|] == spans;
  }

  lemma NothingLinked(spans: seq<Span>, parents: map<Span, Span>)
    ensures forall p :: p in spans ==> ChildrenAmong(parents, spans[..0], p, [])
    ensures Parentless(parents, spans[..0], [], [])
  {
  }

  method LinkTo(spans: seq<Span>, ghost parents: map<Span, Span>, i: nat, parent: Span)
    requires i < |spans| && spans[i] !in spans[..i]
    requires spans[i] in parents && parents[spans[i]] == parent && parent in spans
    requires LinkedUpTo(spans, parents, i)
    modifies parent`children
    ensures LinkedUpTo(spans, parents, i + 1)
  {
    forall p | p in spans ensures ChildrenAmong(parents, spans[..i + 1], p,
                                                if p == parent then p.children + [spans[i]] else p.children) {
      OneMoreChild(spans, parents, i, p, p.children);
    }
    parent.children := parent.children + [spans[i]];
  }

  lemma LinkNothing(spans: seq<Span>, parents: map<Span, Span>, i: nat)
    requires i < |spans| && spans[i] !in spans[..i] && spans[i] !in parents
    requires LinkedUpTo(spans, parents, i)
    ensures LinkedUpTo(spans, parents, i + 1)
  {
    forall p | p in spans ensures ChildrenAmong(parents, spans[..i + 1], p, p.children) {
      OneMoreChild(spans, parents, i, p, p.children);
    }
  }

  lemma OneMoreChild(spans: seq<Span>, parents: map<Span, Span>, i: nat, p: Span, kids: seq<Span>)
    requires i < |spans| && spans[i] !in spans[..i]
    requires ChildrenAmong(parents, spans[..i], p, kids)
    ensures var s := spans[i];
            ChildrenAmong(parents, spans[..i + 1], p, if s in parents && parents[s] == p then kids + [s] else kids)
  {
    assert spans[..i + 1] == spans[..i] + [spans[i]];
  }

  lemma OneMoreParentless(spans: seq<Span>, parents: map<Span, Span>, i: nat, roots: seq<Span>, orphans: seq<Span>)
    requires i < |spans| && spans[i] !in spans[..i]
    requires Parentless(parents, spans[..i], roots, orphans)
    ensures var s := spans[i];
            Parentless(parents, spans[..i + 1],
                       if s.data.IsRoot() then roots + [s] else roots,
                       if !s.data.IsRoot() && s !in parents then orphans + [s] else orphans)
  {
    assert spans[..i + 1] == spans[..i] + [spans[i]];
  }

  datatype Frame = Frame(span: Span, depth: nat)

  function Frames(s: seq<Span>, depth: nat): (r: seq<Frame>)
    ensures |r| == |s|
    ensures forall k :: 0 <= k < |s| ==> r[k] == Frame(s[k], depth)
  {
    seq(|s|, k requires 0 <= k < |s| => Frame(s[k], depth))
  }

  method Visit(spans: seq<Span>, ghost parents: map<Span, Span>, ghost order: seq<Span>, f: Frame)
    requires VisitedAre(spans, parents, order)
    requires f.span in spans && f.span !in order
    requires Hops(parents, f.span, f.depth)
    modifies f.span`depth, f.span`children
    ensures VisitedAre(spans, parents, order + [f.span])
  {
    f.span.depth := f.depth;
    var sorted := SortByKey(f.span.children, (c: Span) => c.data.start);
    MultisetMembers(sorted, f.span.children);
    DistinctReordered(f.span.children, sorted);
    assert ChildrenAmong(parents, spans, f.span, sorted);
    f.span.children := sorted;
    assert Placed(parents, f.span);
  }

  // The breadth-first walk from the seeds.
  method Walk(spans: seq<Span>, ghost parents: map<Span, Span>, seeds: seq<Span>) returns (order: seq<Span>)
    requires Distinct(spans)
    requires forall s :: s in parents ==> s in spans && parents[s] in spans
    requires VisitedAre(spans, parents, [])
    requires AreSeeds(spans, parents, seeds)
    modifies spans
    ensures IsForest(spans, parents, order)
    ensures forall s :: s in spans ==> s.hasError == old(s.hasError)
  {
    hide Grounded, Hops, AreSeeds;
    order := [];
    var queue := Frames(seeds, 0);
    ghost var waiting := seeds;
    WalkStarts(spans, parents, seeds);
    while |queue| > 0
      invariant Frontier(spans, parents, order, waiting)
      invariant Queued(parents, queue, waiting)
      invariant VisitedAre(spans, parents, order)
      invariant forall s :: s in spans ==> s.hasError == old(s.hasError)
      decreases |spans| - |order|
    {
      var f := queue[0];
      HeadUnvisited(spans, parents, order, waiting);
      Visit(spans, parents, order, f);
      var kids := f.span.children;
      FrontierStep(spans, parents, order, waiting, kids);
      QueuedStep(spans, parents, queue, waiting, kids);
      order := order + [f.span];
      queue := queue[1..] + Frames(kids, queue[0].depth + 1);
      waiting := waiting[1..] + kids;
    }
    FrontierExhausted(spans, parents, order);
  }

  ghost predicate AreSeeds(spans: seq<Span>, parents: map<Span, Span>, seeds: seq<Span>) {
    && Distinct(seeds)
    && (forall s :: s in seeds ==> s in spans && s !in parents)
    && (forall s :: s in spans && s !in parents ==> s in seeds)
  }

  ghost predicate Queued(parents: map<Span, Span>, queue: seq<Frame>, waiting: seq<Span>) {
    && |queue| == |waiting|
    && forall k :: 0 <= k < |queue| ==>
         queue[k].span == waiting[k] && Hops(parents, queue[k].span, queue[k].depth)
  }

  lemma QueuedStep(spans: seq<Span>, parents: map<Span, Span>,
                   queue: seq<Frame>, waiting: seq<Span>, kids: seq<Span>)
    requires Queued(parents, queue, waiting) && |queue| > 0
    requires ChildrenAmong(parents, spans, queue[0].span, kids)
    ensures Queued(parents, queue[1..] + Frames(kids, queue[0].depth + 1), waiting[1..] + kids)
  {
    var d := queue[0].depth;
    forall k | 0 <= k < |kids| ensures Hops(parents, kids[k], d + 1) {
      assert kids[k] in kids;
      HopsOfParent(parents, kids[k], d);
    }
  }

  // The visited spans and the waiting ones are, each once, the seeds and the
  // children of the visited ones, parents first.
  ghost predicate Frontier(spans: seq<Span>, parents: map<Span, Span>, order: seq<Span>, waiting: seq<Span>) {
    var seen := order + waiting;
    && |seen| <= |spans|
    && Distinct(seen)
    && (forall s :: s in seen ==> s in spans)
    && (forall s :: s in spans && s !in parents ==> s in seen)
    && (forall s :: s in spans && s in parents ==> (s in seen <==> parents[s] in order))
    && ParentsFirst(parents, seen)
  }

  lemma NoMoreThan(s: seq<Span>, spans: seq<Span>)
    requires Distinct(s) && Distinct(spans)
    requires forall x :: x in s ==> x in spans
    ensures |s| <= |spans|
  {
    DistinctSize(spans, ToSet(spans));
    DistinctSize(s, ToSet(spans));
  }

  lemma WalkStarts(spans: seq<Span>, parents: map<Span, Span>, seeds: seq<Span>)
    requires Distinct(spans)
    requires AreSeeds(spans, parents, seeds)
    ensures Frontier(spans, parents, [], seeds)
    ensures Queued(parents, Frames(seeds, 0), seeds)
  {
    assert [] + seeds == seeds;
    NoMoreThan(seeds, spans);
    forall s | s in seeds ensures Hops(parents, s, 0) {
      RootHops(parents, s);
    }
  }

  lemma HeadUnvisited(spans: seq<Span>, parents: map<Span, Span>, order: seq<Span>, waiting: seq<Span>)
    requires Frontier(spans, parents, order, waiting) && |waiting| > 0
    ensures waiting[0] in spans && waiting[0] !in order
    ensures |order| < |spans|
  {
    assert (order + waiting)[|order|] == waiting[0];
    assert forall i :: 0 <= i < |order| ==> (order + waiting)[i] == order[i];
  }

  lemma FrontierStep(spans: seq<Span>, parents: map<Span, Span>,
                     order: seq<Span>, waiting: seq<Span>, kids: seq<Span>)
    requires Distinct(spans)
    requires Frontier(spans, parents, order, waiting) && |waiting| > 0
    requires ChildrenAmong(parents, spans, waiting[0], kids)
    ensures Frontier(spans, parents, order + [waiting[0]], waiting[1..] + kids)
  {
    var seen := order + waiting;
    var next := seen + kids;
    assert next == (order + [waiting[0]]) + (waiting[1..] + kids);
    HeadUnvisited(spans, parents, order, waiting);
    assert forall c :: c in kids ==> c !in seen;
    forall j | 0 <= j < |next| && next[j] in parents ensures parents[next[j]] in next[..j] {
      if j < |seen| {
        assert next[..j] == seen[..j];
      } else {
        assert next[j] in kids;
        assert next[..j][|order|] == waiting[0];
      }
    }
    NoMoreThan(next, spans);
  }

  // Once nothing is waiting, exactly the grounded spans have been visited.
  lemma FrontierExhausted(spans: seq<Span>, parents: map<Span, Span>, order: seq<Span>)
    requires forall s :: s in parents ==> s in spans && parents[s] in spans
    requires Frontier(spans, parents, order, [])
    ensures ParentsFirst(parents, order) && Distinct(order)
    ensures forall s :: s in order ==> s in spans && Grounded(parents, s)
    ensures forall s :: s in spans && Grounded(parents, s) ==> s in order
  {
    assert order + [] == order;
    forall s | s in spans && Grounded(parents, s) ensures s in order {
      var n: nat :| Hops(parents, s, n);
      ReachedFrom(spans, parents, order, s, n);
    }
    forall s | s in order ensures Grounded(parents, s) {
      var j :| 0 <= j < |order| && order[j] == s;
      GroundedAt(parents, order, j);
    }
  }

  lemma {:induction false} ReachedFrom(spans: seq<Span>, parents: map<Span, Span>, order: seq<Span>, s: Span, n: nat)
    requires forall s :: s in parents ==> s in spans && parents[s] in spans
    requires Frontier(spans, parents, order, [])
    requires s in spans && Hops(parents, s, n)
    ensures s in order
    decreases n
  {
    assert order + [] == order;
    if s in parents {
      HopsOfParent(parents, s, n - 1);
      ReachedFrom(spans, parents, order, parents[s], n - 1);
    }
  }

  lemma {:induction false} GroundedAt(parents: map<Span, Span>, order: seq<Span>, j: nat)
    requires ParentsFirst(parents, order) && j < |order|
    ensures Grounded(parents, order[j])
    decreases j
  {
    var s := order[j];
    if s in parents {
      var i :| 0 <= i < j && order[i] == parents[s];
      GroundedAt(parents, order, i);
      var n: nat :| Hops(parents, parents[s], n);
      HopsOfParent(parents, s, n);
    } else {
      RootHops(parents, s);
    }
  }

  // Some span of errs is s or a descendant of s.
  ghost predicate ErrorBelow(parents: map<Span, Span>, errs: set<Span>, s: Span) {
    exists d :: d in errs && Below(parents, d, s)
  }

  method AbsorbErrors(s: Span, ghost spans: seq<Span>, ghost parents: map<Span, Span>, ghost order: seq<Span>)
    requires s !in s.children
    requires IsForest(spans, parents, order)
    modifies s`hasError
    ensures IsForest(spans, parents, order)
    ensures s.hasError <==> old(s.hasError) || exists c :: c in s.children && c.hasError
  {
    for k := 0 to |s.children|
      invariant s.hasError <==> old(s.hasError) || exists c :: c in s.children[..k] && c.hasError
    {
      assert s.children[..k + 1] == s.children[..k] + [s.children[k]];
      if s.children[k].hasError {
        s.hasError := true;
      }
    }
    assert s.children[..|s.children|] == s.children;
  }

  // Errors climb from the leaves: the list is walked backwards, so a span looks
  // at its children after they have looked at theirs.
  method PropagateErrors(spans: seq<Span>, ghost parents: map<Span, Span>, order: seq<Span>, ghost errs: set<Span>)
    requires forall s :: s in parents ==> s in spans
    requires IsForest(spans, parents, order)
    requires forall s :: s in spans ==> (s.hasError <==> s in errs)
    modifies (set s | s in spans)`hasError
    ensures IsForest(spans, parents, order)
    ensures forall s :: s in order ==> (s.hasError <==> ErrorBelow(parents, errs, s))
    ensures forall s :: s in spans && s !in order ==> (s.hasError <==> s in errs)
  {
    hide ErrorBelow, IsForest;
    ForestMembers(spans, parents, order);
    for i := |order| downto 0
      invariant IsForest(spans, parents, order)
      invariant forall s :: s in order[i..] ==> (s.hasError <==> ErrorBelow(parents, errs, s))
      invariant forall s :: s in spans && s !in order[i..] ==> (s.hasError <==> s in errs)
    {
      var s := order[i];
      ChildrenLater(spans, parents, order, i);
      assert order[i..] == [s] + order[i + 1..];
      assert s !in order[i + 1..];
      AbsorbErrors(s, spans, parents, order);
      ErrorBelowChildren(spans, parents, errs, s, s.children);
    }
    assert order[0..] == order;
  }

  lemma ForestMembers(spans: seq<Span>, parents: map<Span, Span>, order: seq<Span>)
    requires IsForest(spans, parents, order)
    ensures Distinct(order) && forall s :: s in order ==> s in spans && ChildrenAmong(parents, spans, s, s.children)
  {
  }

  // In a parents-first list the children of a member come after it.
  lemma ChildrenLater(spans: seq<Span>, parents: map<Span, Span>, order: seq<Span>, i: nat)
    requires IsForest(spans, parents, order) && i < |order|
    ensures forall c :: c in order[i].children ==> c in order[i + 1..]
  {
    var s := order[i];
    forall c | c in s.children ensures c in order[i + 1..] {
      var n: nat :| Hops(parents, s, n);
      HopsOfParent(parents, c, n);
      var j :| 0 <= j < |order| && order[j] == c;
      var k :| 0 <= k < j && order[k] == s;
      assert order[i + 1..][j - i - 1] == c;
    }
  }

  lemma ErrorBelowChildren(spans: seq<Span>, parents: map<Span, Span>, errs: set<Span>, s: Span, kids: seq<Span>)
    requires forall s :: s in parents ==> s in spans
    requires ChildrenAmong(parents, spans, s, kids)
    ensures ErrorBelow(parents, errs, s) <==> s in errs || exists c :: c in kids && ErrorBelow(parents, errs, c)
  {
    if ErrorBelow(parents, errs, s) {
      var d :| d in errs && Below(parents, d, s);
      BelowChildren(parents, d, s);
    }
    if s in errs {
      BelowChildren(parents, s, s);
    }
    if c :| c in kids && ErrorBelow(parents, errs, c) {
      var d :| d in errs && Below(parents, d, c);
      BelowChildren(parents, d, s);
    }
  }

  // The earliest root leads; the remaining roots join the orphans.
  method PickSeeds(spans: seq<Span>, ghost parents: map<Span, Span>, roots: seq<Span>, orphans: seq<Span>)
    returns (root: Option<Span>, seeds: seq<Span>)
    requires Parentless(parents, spans, roots, orphans)
    requires forall s :: s in spans && s.data.IsRoot() ==> s !in parents
    ensures AreSeeds(spans, parents, seeds)
    ensures IsEarliestRoot(spans, root)
  {
    if |roots| == 0 {
      return None, orphans;
    }
    var sorted := SortByKey(roots, (s: Span) => s.data.start);
    MultisetMembers(sorted, roots);
    DistinctReordered(roots, sorted);
    root := Some(sorted[0]);
    seeds := [sorted[0]] + (orphans + sorted[1..]);
    assert sorted == [sorted[0]] + sorted[1..];
    assert forall s :: s in sorted[1..] ==> s in sorted && s != sorted[0];
  }

  ghost predicate IsEarliestRoot(spans: seq<Span>, root: Option<Span>) {
    match root
    case None => forall s :: s in spans ==> !s.data.IsRoot()
    case Some(r) =>
      && r in spans && r.data.IsRoot()
      && forall s :: s in spans && s.data.IsRoot() ==> r.data.start <= s.data.start
  }

  // From the first start to the last end.
  ghost predicate IsExtent(spans: seq<Span>, duration: int) {
    exists a, b ::
      && a in spans && (forall s :: s in spans ==> a.data.start <= s.data.start)
      && b in spans && (forall s :: s in spans ==> s.data.end <= b.data.end)
      && duration == b.data.end - a.data.start
  }

  method Extent(spans: seq<Span>) returns (duration: int)
    requires |spans| > 0
    ensures IsExtent(spans, duration)
  {
    hide IsExtent;
    var minStart, maxEnd := spans[0].data.start, spans[0].data.end;
    ghost var a: nat, b: nat := 0, 0;
    for i := 1 to |spans|
      invariant a < |spans| && minStart == spans[a].data.start
      invariant b < |spans| && maxEnd == spans[b].data.end
      invariant forall k :: 0 <= k < i ==> minStart <= spans[k].data.start && spans[k].data.end <= maxEnd
    {
      if spans[i].data.start < minStart {
        minStart, a := spans[i].data.start, i;
      }
      if spans[i].data.end > maxEnd {
        maxEnd, b := spans[i].data.end, i;
      }
    }
    duration := maxEnd - minStart;
    ExtentAt(spans, a, b);
  }

  lemma ExtentAt(spans: seq<Span>, a: nat, b: nat)
    requires a < |spans| && b < |spans|
    requires forall k :: 0 <= k < |spans| ==>
      spans[a].data.start <= spans[k].data.start && spans[k].data.end <= spans[b].data.end
    ensures IsExtent(spans, spans[b].data.end - spans[a].data.start)
  {
    assert spans[a] in spans && spans[b] in spans;
  }

  // The service names that occur, in order, each once and never the empty name.
  ghost predicate AreServices(spans: seq<Span>, services: seq<string>) {
    && Distinct(services)
    && Sorted(services, Text.AtMost)
    && (forall n :: n in services <==> n != "" && exists s :: s in spans && s.data.service == n)
  }

  method CollectServices(spans: seq<Span>) returns (services: seq<string>)
    ensures AreServices(spans, services)
  {
    var names := set s | s in spans && s.data.service != "" :: s.data.service;
    var found: seq<string> := [];
    while names != {}
      invariant Distinct(found) && forall n :: n in found ==> n !in names
      invariant forall n :: n in names || n in found <==> n != "" && exists s :: s in spans && s.data.service == n
    {
      var n :| n in names;
      names := names - {n};
      found := found + [n];
    }
    forall x, y, z | x in found && y in found && z in found && Text.AtMost(x, y) && Text.AtMost(y, z)
      ensures Text.AtMost(x, z)
    {
      Text.AtMostTransitive(x, y, z);
    }
    forall x, y | x in found && y in found ensures Text.AtMost(x, y) || Text.AtMost(y, x) {
      Text.AtMostTotal(x, y);
    }
    services := SortBy(found, Text.AtMost);
    MultisetMembers(services, found);
    DistinctReordered(found, services);
  }

  ghost function Failed(spans: seq<Span>): set<Span> {
    set s | s in spans && s.data.status == StatusError
  }

  method CountErrors(spans: seq<Span>) returns (n: nat)
    requires Distinct(spans)
    ensures n == |Failed(spans)|
  {
    n := 0;
    for i := 0 to |spans|
      invariant n == |Failed(spans[..i])|
    {
      FailedGrows(spans, i);
      if spans[i].data.status == StatusError {
        n := n + 1;
      }
    }
    assert spans[..|spans|] == spans;
  }

  lemma FailedGrows(spans: seq<Span>, i: nat)
    requires Distinct(spans) && i < |spans|
    ensures |Failed(spans[..i + 1])| == |Failed(spans[..i])| + if spans[i].data.status == StatusError then 1 else 0
  {
    assert spans[..i + 1] == spans[..i] + [spans[i]];
    hide Failed;
    OneMoreFailed(spans[..i], spans[i]);
  }

  lemma OneMoreFailed(some: seq<Span>, s: Span)
    requires s !in some
    ensures |Failed(some + [s])| == |Failed(some)| + if s.data.status == StatusError then 1 else 0
  {
    var before, after := Failed(some), Failed(some + [s]);
    forall x ensures x in after <==> x in before || (x == s && s.data.status == StatusError) {
      assert x in some + [s] <==> x in some || x == s;
    }
    assert after == if s.data.status == StatusError then before + {s} else before;
  }

  // What a finished trace promises of the spans it was built from.
  ghost predicate Summarises(trace: Trace, spans: seq<Span>) {
    && trace.spans == spans && trace.spanCount == |spans|
    && (trace.root.None? ==> forall s :: s in spans ==> s.data.parentId != 0)
    && (trace.root.Some? ==>
          && trace.root.value in spans && trace.root.value.data.parentId == 0
          && forall s :: s in spans && s.data.parentId == 0 ==> trace.root.value.data.start <= s.data.start)
    && AreServices(spans, trace.services)
    && trace.errorCount == |set s | s in spans && s.data.status == StatusError|
    && (spans != [] ==> trace.traceId == spans[0].data.traceId && trace.tenantId == spans[0].data.tenantId)
    && match trace.root
       case Some(r) => trace.duration == r.data.end - r.data.start
       case None => if spans == [] then trace.duration == 0 else IsExtent(spans, trace.duration)
  }

  method Summarise(spans: seq<Span>, root: Option<Span>) returns (trace: Trace)
    requires Distinct(spans) && |spans| > 0
    requires IsEarliestRoot(spans, root)
    ensures Summarises(trace, spans) && trace.root == root
  {
    var duration;
    if root.Some? {
      duration := root.value.data.Duration();
    } else {
      duration := Extent(spans);
    }
    var services := CollectServices(spans);
    var errorCount := CountErrors(spans);
    trace := Trace(spans[0].data.traceId, spans[0].data.tenantId, spans, |spans|, root, duration, services, errorCount);
  }

  method LinkAndWalk(spans: seq<Span>) returns (root: Option<Span>, order: seq<Span>)
    requires Distinct(spans)
    modifies spans
    ensures IsForest(spans, Parents(spans), order)
    ensures IsEarliestRoot(spans, root)
    ensures forall s :: s in spans ==> s.hasError == old(s.hasError)
  {
    ghost var parents := Parents(spans);
    ParentsInSpans(spans);
    var spanMap := IndexSpans(spans);
    var roots, orphans := LinkChildren(spans, spanMap, parents);
    var seeds;
    root, seeds := PickSeeds(spans, parents, roots, orphans);
    assert spans[..|spans|] == spans;
    order := Walk(spans, parents, seeds);
  }

  ghost function Marked(spans: seq<Span>): set<Span>
    reads spans
  {
    set s | s in spans && s.hasError
  }

  // The children, depths and error marks that a walk over spans leaves behind,
  // given which spans were marked erroneous before it.
  ghost predicate IsMarkedForest(spans: seq<Span>, order: seq<Span>, errs: set<Span>)
    reads spans, order
  {
    var parents := Parents(spans);
    && IsForest(spans, parents, order)
    && (forall s :: s in order ==> (s.hasError <==> ErrorBelow(parents, errs, s)))
    && (forall s :: s in spans && s !in order ==> (s.hasError <==> s in errs))
  }

  // order, the list of visited spans, witnesses that the walk reached exactly
  // the spans whose parent chain ends.
  method BuildTree(spans: seq<Span>) returns (trace: Trace, order: seq<Span>)
    requires Distinct(spans)
    modifies spans
    ensures Summarises(trace, spans)
    ensures IsMarkedForest(spans, order, old(Marked(spans)))
  {
    if |spans| == 0 {
      return Trace(0, "", [], 0, None, 0, [], 0), [];
    }
    hide Summarises, IsForest, Parents;
    ghost var errs := Marked(spans);
    var root;
    root, order := LinkAndWalk(spans);
    ParentsInSpans(spans);
    PropagateErrors(spans, Parents(spans), order, errs);
    trace := Summarise(spans, root);
  }

  // Every span of the tree has as its children, by start, the spans that name it as their
  // parent, where it is the last with its identifier.
  lemma ChildrenExact(spans: seq<Span>, order: seq<Span>, s: Span, i: nat, j: nat, c: Span)
    requires IsForest(spans, Parents(spans), order) && s in order
    ensures c in s.children <==>
              c in spans && c.data.parentId != 0 && IsLastWith(spans, c.data.parentId, s)
    ensures i < j < |s.children| ==>
              s.children[i] != s.children[j] && s.children[i].data.start <= s.children[j].data.start
  {
    ParentIff(spans, c, s);
    hide Hops, Grounded, ParentsFirst, Lookup, IsLastWith;
    assert Placed(Parents(spans), s);
  }

  // A span is left out of the walk exactly when it is on or below a parent cycle.
  lemma UnreachedIffCyclic(spans: seq<Span>, order: seq<Span>, s: Span)
    requires IsForest(spans, Parents(spans), order)
    requires s in spans
    ensures s !in order <==> MeetsCycle(Parents(spans), s)
  {
    GroundedIffNoCycle(Parents(spans), s);
  }

  lemma ParentsInSpans(spans: seq<Span>)
    ensures forall s :: s in Parents(spans) ==> s in spans && Parents(spans)[s] in spans
  {
    forall s | s in Parents(spans) ensures Parents(spans)[s] in spans {
      LookupFinds(spans, s.data.parentId);
    }
  }
}
