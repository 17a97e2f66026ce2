// Depth-first listings of a forest given by its parent relation.
module Preorder {
  import opened Model
  import opened Sequences
  import opened Forest

  // Nothing comes after one of its descendants; so nothing comes twice either.
  ghost predicate TopDown<T>(parents: map<T, T>, nodes: seq<T>) {
    forall i, j :: 0 <= i < j < |nodes| ==> !Below(parents, nodes[i], nodes[j])
  }

  // The descendants of a node follow it without a gap.
  ghost predicate Contiguous<T>(parents: map<T, T>, nodes: seq<T>) {
    forall i, j, m :: 0 <= i <= j <= m < |nodes| && Below(parents, nodes[m], nodes[i]) ==>
      Below(parents, nodes[j], nodes[i])
  }

  ghost predicate Siblings<T>(parents: map<T, T>, a: T, b: T) {
    a in parents && b in parents && parents[a] == parents[b]
  }

  ghost predicate SiblingsBy<T>(parents: map<T, T>, nodes: seq<T>, before: (T, T) -> bool) {
    forall i, j :: 0 <= i < j < |nodes| && Siblings(parents, nodes[i], nodes[j]) ==> before(nodes[i], nodes[j])
  }

  ghost predicate InPreorder<T>(parents: map<T, T>, nodes: seq<T>, before: (T, T) -> bool) {
    && TopDown(parents, nodes)
    && Contiguous(parents, nodes)
    && SiblingsBy(parents, nodes, before)
  }

  // The nodes are top and what lies below the given children of it.
  ghost predicate Covers<T(!new)>(parents: map<T, T>, nodes: seq<T>, top: T, kids: seq<T>) {
    forall d :: d in nodes <==> d == top || exists c :: c in kids && Below(parents, d, c)
  }

  ghost predicate IsSubtree<T(!new)>(parents: map<T, T>, nodes: seq<T>, top: T, before: (T, T) -> bool) {
    && (forall d :: d in nodes <==> Below(parents, d, top))
    && InPreorder(parents, nodes, before)
  }

  lemma BelowSelf<T>(parents: map<T, T>, s: T)
    ensures Below(parents, s, s)
  {
    UpOne(parents, s);
  }

  lemma BelowTransitive<T>(parents: map<T, T>, a: T, b: T, c: T)
    requires Below(parents, a, b) && Below(parents, b, c)
    ensures Below(parents, a, c)
  {
    var n: nat :| Up(parents, a, n) == Some(b);
    var m: nat :| Up(parents, b, m) == Some(c);
    UpCompose(parents, a, n, m);
  }

  lemma BelowParent<T>(parents: map<T, T>, d: T, s: T)
    requires d in parents
    ensures Below(parents, d, s) <==> d == s || Below(parents, parents[d], s)
  {
    UpOne(parents, d);
    if Below(parents, d, s) && d != s {
      var n: nat :| Up(parents, d, n) == Some(s);
      assert n > 0;
      UpCompose(parents, d, 1, n - 1);
    }
    if n: nat :| Up(parents, parents[d], n) == Some(s) {
      UpCompose(parents, d, 1, n);
    }
  }

  // A chain through s is as much longer than the chain of s as s is away.
  lemma HopsThrough<T>(parents: map<T, T>, d: T, s: T, n: nat, h: nat)
    requires Up(parents, d, n) == Some(s) && Hops(parents, s, h)
    ensures Hops(parents, d, n + h)
  {
    UpCompose(parents, d, n, h);
  }

  // Below two siblings lies nothing in common, and their parent lies below neither.
  lemma SiblingsApart<T>(parents: map<T, T>, top: T, h: nat, b: T, c: T, d: T)
    requires Hops(parents, top, h)
    requires b in parents && parents[b] == top && c in parents && parents[c] == top
    requires Below(parents, d, b) && Below(parents, d, c)
    ensures b == c
  {
    HopsOfParent(parents, b, h);
    HopsOfParent(parents, c, h);
    var n: nat :| Up(parents, d, n) == Some(b);
    var m: nat :| Up(parents, d, m) == Some(c);
    HopsThrough(parents, d, b, n, h + 1);
    HopsThrough(parents, d, c, m, h + 1);
    HopsUnique(parents, d, n + (h + 1), m + (h + 1));
  }

  lemma TopNotBelow<T>(parents: map<T, T>, top: T, h: nat, c: T)
    requires Hops(parents, top, h) && c in parents && parents[c] == top
    ensures !Below(parents, top, c)
  {
    HopsOfParent(parents, c, h);
    if n: nat :| Up(parents, top, n) == Some(c) {
      HopsThrough(parents, top, c, n, h + 1);
      HopsUnique(parents, top, h, n + (h + 1));
    }
  }

  // A chain that ends passes each node once, so it has no more hops than there are parents.
  lemma HopsBound<T>(parents: map<T, T>, s: T, n: nat)
    requires Hops(parents, s, n)
    ensures n <= |parents|
  {
    forall k: nat | k < n ensures Up(parents, s, k).Some? && Up(parents, s, k).value in parents {
      UpPrefix(parents, s, k + 1, n);
    }
    var chain := seq(n, (k: nat) requires k < n => Up(parents, s, k).value);
    if n > |parents.Keys| {
      Pigeonhole(chain, parents.Keys);
      var i, j :| 0 <= i < j < n && chain[i] == chain[j];
      UpCompose(parents, s, i, n - i);
      UpCompose(parents, s, j, n - j);
      HopsUnique(parents, chain[i], n - i, n - j);
    }
  }

  // What a node of the listing so far and a node below the next child have to do
  // with each other.
  lemma AcrossKids<T>(parents: map<T, T>, top: T, h: nat, kids: seq<T>, c: T, before: (T, T) -> bool, a: T, b: T)
    requires Hops(parents, top, h)
    requires forall k :: k in kids ==> k in parents && parents[k] == top && before(k, c)
    requires c in parents && parents[c] == top && c !in kids
    requires a == top || exists k :: k in kids && Below(parents, a, k)
    requires Below(parents, b, c)
    ensures Below(parents, b, a) ==> a == top
    ensures !Below(parents, a, b)
    ensures Siblings(parents, a, b) ==> before(a, b)
  {
    hide Below, Hops;
    TopNotBelow(parents, top, h, c);
    if Below(parents, a, b) {
      BelowTransitive(parents, a, b, c);
    }
    if a == top {
      if Siblings(parents, a, b) {
        BelowParent(parents, a, c);
        BelowParent(parents, b, c);
        if parents[top] == top {
          BelowSelf(parents, top);
          TopNotBelow(parents, top, h, top);
        }
      }
    } else {
      var k :| k in kids && Below(parents, a, k);
      if Below(parents, b, a) {
        BelowTransitive(parents, b, a, k);
        SiblingsApart(parents, top, h, k, c, b);
      }
      if Below(parents, a, c) {
        SiblingsApart(parents, top, h, k, c, a);
      }
      if Siblings(parents, a, b) {
        BelowParent(parents, a, c);
        BelowParent(parents, b, c);
        BelowParent(parents, a, k);
        TopNotBelow(parents, top, h, k);
      }
    }
  }

  lemma TopAlone<T(!new)>(parents: map<T, T>, top: T, before: (T, T) -> bool)
    ensures Covers(parents, [top], top, []) && InPreorder(parents, [top], before)
  {
    hide Below, Siblings;
  }

  // A listing of top and what is below some of its children grows by the listing
  // of the next child.
  lemma AppendKid<T(!new)>(parents: map<T, T>, top: T, h: nat, kids: seq<T>, c: T, before: (T, T) -> bool, a: seq<T>,
                           b: seq<T>)
    requires Hops(parents, top, h)
    requires forall k :: k in kids ==> k in parents && parents[k] == top && before(k, c)
    requires c in parents && parents[c] == top && c !in kids
    requires Covers(parents, a, top, kids) && InPreorder(parents, a, before)
    requires IsSubtree(parents, b, c, before)
    ensures Covers(parents, a + b, top, kids + [c]) && InPreorder(parents, a + b, before)
  {
    forall x, y | x in a && y in b
      ensures (Below(parents, y, x) ==> x == top) && !Below(parents, x, y) && (Siblings(parents, x, y) ==> before(x, y))
    {
      AcrossKids(parents, top, h, kids, c, before, x, y);
    }
    forall x | x in a + b
      ensures Below(parents, x, top)
    {
      AllBelowTop(parents, top, kids + [c], x);
    }
    CoversMore(parents, a, b, top, kids, c, before);
    hide Below, Hops, Covers;
    ContiguousJoined(parents, a, b, top);
  }

  lemma AllBelowTop<T>(parents: map<T, T>, top: T, kids: seq<T>, x: T)
    requires forall k :: k in kids ==> k in parents && parents[k] == top
    requires x == top || exists k :: k in kids && Below(parents, x, k)
    ensures Below(parents, x, top)
  {
    BelowSelf(parents, top);
    if x != top {
      var k :| k in kids && Below(parents, x, k);
      BelowParent(parents, k, top);
      BelowTransitive(parents, x, k, top);
    }
  }

  lemma CoversMore<T(!new)>(parents: map<T, T>, a: seq<T>, b: seq<T>, top: T, kids: seq<T>, c: T, before: (T,
                            T) -> bool)
    requires Covers(parents, a, top, kids) && IsSubtree(parents, b, c, before)
    ensures Covers(parents, a + b, top, kids + [c])
  {
    hide Below, InPreorder;
    forall d ensures d in a + b <==> d == top || exists k :: k in kids + [c] && Below(parents, d, k) {
      assert c in kids + [c];
      assert forall k :: k in kids ==> k in kids + [c];
    }
  }

  lemma ContiguousJoined<T>(parents: map<T, T>, a: seq<T>, b: seq<T>, top: T)
    requires Contiguous(parents, a) && Contiguous(parents, b)
    requires forall x :: x in a + b ==> Below(parents, x, top)
    requires forall x, y :: x in a && y in b && Below(parents, y, x) ==> x == top
    ensures Contiguous(parents, a + b)
  {
    hide Below;
    var s := a + b;
    forall i, j, m | 0 <= i <= j <= m < |s| && Below(parents, s[m], s[i]) ensures Below(parents, s[j], s[i]) {
      if i < |a| <= m {
        assert s[i] in a && s[m] in b && s[j] in s;
      }
    }
  }

  // With all children of top listed, the whole subtree is.
  lemma AllKids<T(!new)>(parents: map<T, T>, nodes: seq<T>, top: T, kids: seq<T>)
    requires Covers(parents, nodes, top, kids)
    requires forall k :: k in kids <==> k in parents && parents[k] == top
    ensures forall d :: d in nodes <==> Below(parents, d, top)
  {
    forall d ensures d in nodes <==> Below(parents, d, top) {
      BelowChildren(parents, d, top);
    }
  }

  lemma TopDownDistinct<T>(parents: map<T, T>, nodes: seq<T>)
    requires TopDown(parents, nodes)
    ensures Distinct(nodes)
  {
    forall i, j | 0 <= i < j < |nodes| ensures nodes[i] != nodes[j] {
      BelowSelf(parents, nodes[i]);
    }
  }

  // There is only one preorder listing of a subtree.
  lemma {:induction false} PreorderUnique<T(!new)>(parents: map<T, T>, r: seq<T>, s: seq<T>, top: T, before: (T,
                                                   T) -> bool, n: nat)
    requires IsSubtree(parents, r, top, before) && IsSubtree(parents, s, top, before)
    requires forall x, y :: x in r && y in r && before(x, y) && before(y, x) ==> x == y
    requires n <= |r|
    ensures n <= |s| && r[..n] == s[..n]
  {
    if n > 0 {
      PreorderUnique(parents, r, s, top, before, n - 1);
      hide Below;
      assert r[n - 1] in s;
      TopDownDistinct(parents, r);
      TopDownDistinct(parents, s);
      if r[n - 1] != s[n - 1] {
        FirstDifference(parents, r, s, top, before, n - 1);
      }
    }
  }

  lemma FirstDifference<T(!new)>(parents: map<T, T>, r: seq<T>, s: seq<T>, top: T, before: (T, T) -> bool, n: nat)
    requires IsSubtree(parents, r, top, before) && IsSubtree(parents, s, top, before)
    requires forall x, y :: x in r && y in r && before(x, y) && before(y, x) ==> x == y
    requires n < |r| && n < |s| && r[..n] == s[..n]
    requires Distinct(r) && Distinct(s)
    ensures r[n] == s[n]
  {
    hide Below;
    var x, y := r[n], s[n];
    if x != y {
      var i := Later(r, s, n);
      var j := Later(s, r, n);
      var a := ParentBefore(parents, r, top, before, n);
      var b := ParentBefore(parents, s, top, before, n);
      assert r[..n][a] == s[..n][a] && r[..n][b] == s[..n][b];
      ChildrenInTurn(parents, r, n, j, a, b);
      ChildrenInTurn(parents, s, n, i, b, a);
    }
  }

  // What r has at n and s does not, s has further on.
  lemma Later<T>(r: seq<T>, s: seq<T>, n: nat) returns (i: nat)
    requires n < |r| && n < |s| && r[..n] == s[..n] && r[n] != s[n]
    requires Distinct(r) && r[n] in s
    ensures n < i < |s| && s[i] == r[n]
  {
    i :| 0 <= i < |s| && s[i] == r[n];
  }

  lemma {:induction false} OwnParent<T>(parents: map<T, T>, s: T, n: nat)
    requires s in parents && parents[s] == s
    ensures Up(parents, s, n) == Some(s)
  {
    if n > 0 {
      OwnParent(parents, s, n - 1);
    }
  }

  // top is listed first, and every other node after its parent.
  lemma ParentBefore<T(!new)>(parents: map<T, T>, r: seq<T>, top: T, before: (T, T) -> bool, n: nat) returns (a: nat)
    requires IsSubtree(parents, r, top, before) && n < |r|
    ensures n == 0 ==> r[n] == top
    ensures n > 0 ==> a < n && r[n] in parents && r[a] == parents[r[n]]
  {
    a := 0;
    BelowSelf(parents, top);
    var t :| 0 <= t < |r| && r[t] == top;
    assert Below(parents, r[0], top) && Below(parents, r[n], top);
    if n > 0 {
      var d := r[n];
      BelowSelf(parents, d);
      assert d != top;
      BelowChildren(parents, d, top);
      var k: nat :| Up(parents, d, k) == Some(top);
      UpPrefix(parents, d, 1, k);
      UpOne(parents, d);
      BelowParent(parents, d, top);
      if parents[d] == d {
        OwnParent(parents, d, k);
      }
      assert parents[d] in r;
      a :| 0 <= a < |r| && r[a] == parents[d];
      BelowSelf(parents, r[a]);
      BelowParent(parents, d, r[a]);
    }
  }

  // No child of r[a] stands between r[b] and a child of r[b] when r[b] comes after r[a].
  lemma ChildrenInTurn<T>(parents: map<T, T>, r: seq<T>, n: nat, j: nat, a: nat, b: nat)
    requires TopDown(parents, r) && Contiguous(parents, r)
    requires a < n && b < n < j < |r|
    requires r[n] in parents && parents[r[n]] == r[a]
    requires r[j] in parents && parents[r[j]] == r[b]
    ensures b <= a
  {
    BelowSelf(parents, r[b]);
    BelowParent(parents, r[j], r[b]);
    assert Below(parents, r[n], r[b]);
    BelowSelf(parents, r[n]);
    BelowParent(parents, r[n], r[b]);
  }
}

// The rows of the waterfall view.
module SpanLayout {
  import opened Model
  import opened Sequences
  import opened Forest
  import opened KeyedLog
  import opened Preorder

  // How a span without parent says so.
  const ROOT_MARKS: set<string> := {"", "0000000000000000"}

  // A span as the user interface gets it, with identifiers as text; columns stands
  // for what else is shown of it.
  datatype SpanDetail = SpanDetail(
    spanId: string,
    parentSpanId: string,
    start: Time,
    columns: string)
  {
    predicate IsRoot() { parentSpanId in ROOT_MARKS }
  }

  // offset is the start of the span counted from the first start of the trace.
  datatype SpanRow = SpanRow(span: SpanDetail, depth: nat, offset: int)

  // Identifiers that tell the spans apart, none of them a root mark.
  ghost predicate Identified(spans: seq<SpanDetail>) {
    && (forall i, j :: 0 <= i < j < |spans| ==> spans[i].spanId != spans[j].spanId)
    && (forall i :: 0 <= i < |spans| ==> spans[i].spanId !in ROOT_MARKS)
  }

  ghost predicate NamesParent(spans: seq<SpanDetail>, p: SpanDetail, s: SpanDetail) {
    p in spans && s in spans && s.parentSpanId == p.spanId
  }

  ghost function ParentIn(spans: seq<SpanDetail>, s: SpanDetail): SpanDetail
    requires exists p :: NamesParent(spans, p, s)
  {
    var p :| NamesParent(spans, p, s);
    p
  }

  ghost function Parents(spans: seq<SpanDetail>): map<SpanDetail, SpanDetail> {
    map s | s in spans && exists p :: NamesParent(spans, p, s) :: ParentIn(spans, s)
  }

  lemma SameId(spans: seq<SpanDetail>, p: SpanDetail, q: SpanDetail)
    requires Identified(spans) && p in spans && q in spans && p.spanId == q.spanId
    ensures p == q
  {
  }

  lemma ParentsExact(spans: seq<SpanDetail>, s: SpanDetail, p: SpanDetail)
    requires Identified(spans) && p in spans
    ensures s in Parents(spans) && Parents(spans)[s] == p <==> NamesParent(spans, p, s)
  {
    if NamesParent(spans, p, s) {
      SameId(spans, p, ParentIn(spans, s));
    }
  }

  ghost predicate IsFirstRoot(spans: seq<SpanDetail>, s: SpanDetail, i: nat) {
    i < |spans| && spans[i] == s && s.IsRoot() && forall j :: 0 <= j < i ==> !spans[j].IsRoot()
  }

  function FindRoot(spans: seq<SpanDetail>): (root: Option<SpanDetail>)
    ensures root.None? <==> forall i :: 0 <= i < |spans| ==> !spans[i].IsRoot()
    ensures root.Some? ==> exists i: nat :: IsFirstRoot(spans, root.value, i)
  {
    if spans == [] then None
    else
      var init := spans[..|spans| - 1];
      var last := spans[|spans| - 1];
      var before := FindRoot(init);
      assert before.Some? ==>
          forall i: nat :: IsFirstRoot(init, before.value, i) ==> IsFirstRoot(spans, before.value, i);
      assert before.None? && last.IsRoot() ==> IsFirstRoot(spans, last, |init|) by {
        assert before.None? ==> forall j :: 0 <= j < |init| ==> init[j] == spans[j] && !init[j].IsRoot();
      }
      if before.Some? then before
      else if last.IsRoot() then Some(last)
      else None
  }

  // s is the first root or hangs below it.
  ghost predicate Reached(spans: seq<SpanDetail>, s: SpanDetail) {
    FindRoot(spans).Some? && Below(Parents(spans), s, FindRoot(spans).value)
  }

  ghost function Unreached(spans: seq<SpanDetail>): SpanDetail -> bool {
    (s: SpanDetail) => !Reached(spans, s)
  }

  function Position(spans: seq<SpanDetail>, s: SpanDetail): (i: nat)
    ensures i <= |spans| && (s in spans ==> i < |spans| && spans[i] == s)
  {
    if spans == [] || spans[0] == s then 0 else 1 + Position(spans[1..], s)
  }

  // By start; a stable sort leaves equal starts in the order of the input.
  function StartOrder(spans: seq<SpanDetail>): (SpanDetail, SpanDetail) -> bool {
    (x: SpanDetail, y: SpanDetail) =>
      x.start < y.start || (x.start == y.start && Position(spans, x) <= Position(spans, y))
  }

  // Of no spans there is no first start, and no row to use it.
  function FirstStart(spans: seq<SpanDetail>): (t: Time)
    ensures |spans| > 0 ==> (exists s :: s in spans && s.start == t) && forall s :: s in spans ==> t <= s.start
  {
    if spans == [] then 0
    else
      var init := spans[..|spans| - 1];
      var last := spans[|spans| - 1];
      assert spans == init + [last] && last in spans;
      if init == [] || last.start <= FirstStart(init) then last.start else FirstStart(init)
  }

  ghost function Nodes(rows: seq<SpanRow>): (nodes: seq<SpanDetail>)
    ensures |nodes| == |rows| && forall i :: 0 <= i < |rows| ==> nodes[i] == rows[i].span
  {
    seq(|rows|, (i: nat) requires i < |rows| => rows[i].span)
  }

  ghost predicate HopsDeep(spans: seq<SpanDetail>, rows: seq<SpanRow>) {
    forall i :: 0 <= i < |rows| ==> Hops(Parents(spans), rows[i].span, rows[i].depth)
  }

  // Everything below the first root, in preorder.
  ghost predicate IsTree(spans: seq<SpanDetail>, rows: seq<SpanRow>) {
    && (forall s :: s in Nodes(rows) <==> Reached(spans, s))
    && InPreorder(Parents(spans), Nodes(rows), StartOrder(spans))
    && HopsDeep(spans, rows)
  }

  // Everything else, in the order of the input.
  ghost predicate AreLoose(spans: seq<SpanDetail>, rows: seq<SpanRow>) {
    && Nodes(rows) == Keep(spans, Unreached(spans))
    && forall i :: 0 <= i < |rows| ==> rows[i].depth == 0
  }

  ghost predicate Timed(spans: seq<SpanDetail>, rows: seq<SpanRow>) {
    forall i :: 0 <= i < |rows| ==> rows[i].offset == rows[i].span.start - FirstStart(spans)
  }

  ghost predicate IsLayout(spans: seq<SpanDetail>, rows: seq<SpanRow>, n: nat) {
    n <= |rows| && IsTree(spans, rows[..n]) && AreLoose(spans, rows[n..]) && Timed(spans, rows)
  }

  lemma ReachedIsSpan(spans: seq<SpanDetail>, s: SpanDetail)
    requires Reached(spans, s)
    ensures s in spans
  {
    var n: nat :| Up(Parents(spans), s, n) == Some(FindRoot(spans).value);
    if n > 0 {
      UpPrefix(Parents(spans), s, 1, n);
      UpOne(Parents(spans), s);
    }
  }

  // A layout lists every span once.
  lemma LayoutComplete(spans: seq<SpanDetail>, rows: seq<SpanRow>, n: nat)
    requires Identified(spans) && IsLayout(spans, rows, n)
    ensures multiset(Nodes(rows)) == multiset(spans)
  {
    var tree, loose := Nodes(rows[..n]), Nodes(rows[n..]);
    assert Nodes(rows) == tree + loose;
    TopDownDistinct(Parents(spans), tree);
    SpansDistinct(spans);
    forall s ensures s in tree <==> s in spans && !Unreached(spans)(s) {
      if Reached(spans, s) {
        ReachedIsSpan(spans, s);
      }
    }
    hide Reached, InPreorder, Identified, HopsDeep, Timed;
    KeepTheRest(tree, spans, Unreached(spans));
  }

  lemma KeepTheRest<T>(some: seq<T>, all: seq<T>, rest: T -> bool)
    requires Distinct(some) && Distinct(all)
    requires forall x :: x in some <==> x in all && !rest(x)
    ensures multiset(some + Keep(all, rest)) == multiset(all)
  {
    var a, b := multiset(some + Keep(all, rest)), multiset(all);
    hide Keep, Distinct;
    forall x | x in a + b ensures a[x] == b[x] {
      CountOnce(some, all, rest, x);
    }
    assert a - b == multiset{} && b - a == multiset{};
  }

  lemma CountOnce<T>(some: seq<T>, all: seq<T>, rest: T -> bool, x: T)
    requires Distinct(some) && Distinct(all)
    requires x in some <==> x in all && !rest(x)
    ensures multiset(some)[x] + multiset(Keep(all, rest))[x] == multiset(all)[x]
  {
    KeepCount(all, rest, x);
    DistinctCount(some, x);
    DistinctCount(all, x);
    assert (x in some <==> x in multiset(some)) && (x in all <==> x in multiset(all));
  }

  lemma SpansDistinct(spans: seq<SpanDetail>)
    requires Identified(spans)
    ensures Distinct(spans)
  {
  }

  // In a layout siblings stand by start, and those that start together in the order of
  // the input.
  lemma SiblingsAscend(spans: seq<SpanDetail>, rows: seq<SpanRow>, n: nat, i: nat, j: nat)
    requires Identified(spans) && IsLayout(spans, rows, n)
    requires i < j < n && rows[i].span.parentSpanId == rows[j].span.parentSpanId
    ensures var x, y := rows[i].span, rows[j].span;
            || x.start < y.start
            || (x.start == y.start && exists p, q :: 0 <= p < q < |spans| && spans[p] == x && spans[q] == y)
  {
    hide HopsDeep, AreLoose, Timed, Contiguous, FindRoot, Parents;
    var nodes := Nodes(rows[..n]);
    var x, y := nodes[i], nodes[j];
    assert x in nodes && y in nodes;
    TopDownDistinct(Parents(spans), nodes);
    ReachedIsSpan(spans, x);
    ReachedIsSpan(spans, y);
    ReachedParent(spans, x);
    ReachedParent(spans, y);
    SameId(spans, Parents(spans)[x], Parents(spans)[y]);
    assert Siblings(Parents(spans), x, y);
    assert StartOrder(spans)(x, y);
    assert Position(spans, x) != Position(spans, y);
  }

  // What is reached is the first root, or has its parent among the spans.
  lemma ReachedParent(spans: seq<SpanDetail>, s: SpanDetail)
    requires Identified(spans) && Reached(spans, s)
    ensures s == FindRoot(spans).value || (s in Parents(spans) && NamesParent(spans, Parents(spans)[s], s))
    ensures s in Parents(spans) ==> s.parentSpanId !in ROOT_MARKS
  {
    var n: nat :| Up(Parents(spans), s, n) == Some(FindRoot(spans).value);
    if n > 0 {
      UpPrefix(Parents(spans), s, 1, n);
      UpOne(Parents(spans), s);
      assert NamesParent(spans, ParentIn(spans, s), s);
    }
  }

  // The input has only one layout.
  lemma LayoutUnique(spans: seq<SpanDetail>, r: seq<SpanRow>, n: nat, t: seq<SpanRow>, m: nat)
    requires Identified(spans) && IsLayout(spans, r, n) && IsLayout(spans, t, m)
    ensures n == m && r == t
  {
    TreesAgree(spans, r[..n], t[..m]);
    LayoutParts(spans, r, n);
    LayoutParts(spans, t, m);
    assert n == |Nodes(r[..n])| == |Nodes(t[..m])| == m;
    hide IsLayout, Keep, HopsDeep, Timed;
    forall i | 0 <= i < |r| ensures r[i] == t[i] {
      assert Nodes(r)[i] == Nodes(t)[i];
      RowsAgree(spans, r, t, n, i);
    }
  }

  lemma LayoutParts(spans: seq<SpanDetail>, r: seq<SpanRow>, n: nat)
    requires IsLayout(spans, r, n)
    ensures Nodes(r) == Nodes(r[..n]) + Keep(spans, Unreached(spans))
    ensures HopsDeep(spans, r[..n]) && Timed(spans, r)
    ensures forall j :: n <= j < |r| ==> r[j].depth == 0
  {
    hide Reached, InPreorder, HopsDeep, Keep, StartOrder, Timed;
    forall j | n <= j < |r| ensures r[j].depth == 0 {
      assert r[n..][j - n] == r[j];
    }
    NodesApart(r, n);
  }

  lemma NodesApart(r: seq<SpanRow>, n: nat)
    requires n <= |r|
    ensures Nodes(r) == Nodes(r[..n]) + Nodes(r[n..])
  {
  }

  lemma RowsAgree(spans: seq<SpanDetail>, r: seq<SpanRow>, t: seq<SpanRow>, n: nat, i: nat)
    requires i < |r| == |t| && n <= |r| && r[i].span == t[i].span
    requires HopsDeep(spans, r[..n]) && HopsDeep(spans, t[..n]) && Timed(spans, r) && Timed(spans, t)
    requires forall j :: n <= j < |r| ==> r[j].depth == 0 == t[j].depth
    ensures r[i] == t[i]
  {
    if i < n {
      assert r[..n][i] == r[i] && t[..n][i] == t[i];
      HopsUnique(Parents(spans), r[i].span, r[i].depth, t[i].depth);
    }
  }

  lemma SomethingListed<T>(s: seq<T>)
    requires s != []
    ensures exists x :: x in s
  {
    assert s[0] in s;
  }

  lemma TreesAgree(spans: seq<SpanDetail>, r: seq<SpanRow>, t: seq<SpanRow>)
    requires Identified(spans) && IsTree(spans, r) && IsTree(spans, t)
    ensures Nodes(r) == Nodes(t)
  {
    var a, b := Nodes(r), Nodes(t);
    if FindRoot(spans).None? {
      if a != [] {
        SomethingListed(a);
      }
      if b != [] {
        SomethingListed(b);
      }
    } else {
      var top := FindRoot(spans).value;
      forall x, y | x in a && y in a && StartOrder(spans)(x, y) && StartOrder(spans)(y, x) ensures x == y {
        ReachedIsSpan(spans, x);
        ReachedIsSpan(spans, y);
      }
      PreorderUnique(Parents(spans), a, b, top, StartOrder(spans), |a|);
      PreorderUnique(Parents(spans), b, a, top, StartOrder(spans), |b|);
    }
  }

  // Rows that list span and everything below it.
  ghost predicate Visited(spans: seq<SpanDetail>, span: SpanDetail, rows: seq<SpanRow>) {
    && IsSubtree(Parents(spans), Nodes(rows), span, StartOrder(spans))
    && HopsDeep(spans, rows)
    && Timed(spans, rows)
  }

  // Rows that list span and everything below the given children of it.
  ghost predicate VisitedSoFar(spans: seq<SpanDetail>, span: SpanDetail, kids: seq<SpanDetail>, rows: seq<SpanRow>) {
    && Covers(Parents(spans), Nodes(rows), span, kids)
    && InPreorder(Parents(spans), Nodes(rows), StartOrder(spans))
    && HopsDeep(spans, rows)
    && Timed(spans, rows)
  }

  ghost predicate AreChildren(spans: seq<SpanDetail>, span: SpanDetail, kids: seq<SpanDetail>) {
    && Distinct(kids)
    && (forall c :: c in kids <==> c in Parents(spans) && Parents(spans)[c] == span)
    && Sorted(kids, StartOrder(spans))
  }

  function IsChildOf(id: string): SpanDetail -> bool {
    (candidate: SpanDetail) => candidate.parentSpanId == id
  }

  ghost predicate AreKids(spans: seq<SpanDetail>, id: string, kids: seq<SpanDetail>) {
    multiset(kids) == multiset(Keep(spans, IsChildOf(id))) && Sorted(kids, StartOrder(spans))
  }

  // The spans that name id as their parent, by start.
  ghost function Kids(spans: seq<SpanDetail>, id: string): seq<SpanDetail> {
    KidsExist(spans, id);
    var kids :| AreKids(spans, id, kids);
    kids
  }

  lemma KidsExist(spans: seq<SpanDetail>, id: string)
    ensures exists kids :: AreKids(spans, id, kids)
  {
    StartOrderSorts(spans, Keep(spans, IsChildOf(id)));
    var kids := SortExists(Keep(spans, IsChildOf(id)), StartOrder(spans));
    assert AreKids(spans, id, kids);
  }

  lemma KidsAre(spans: seq<SpanDetail>, id: string)
    ensures AreKids(spans, id, Kids(spans, id))
    ensures forall c :: c in Kids(spans, id) <==> c in spans && c.parentSpanId == id
  {
    KidsExist(spans, id);
    KeepMembers(spans, IsChildOf(id));
    MultisetMembers(Kids(spans, id), Keep(spans, IsChildOf(id)));
  }

  // Whatever the identifiers, the children of a visit ascend by start; those that start
  // together stand as in the input.
  lemma KidsAscend(spans: seq<SpanDetail>, id: string, i: nat, j: nat)
    requires i < j < |Kids(spans, id)|
    ensures var x, y := Kids(spans, id)[i], Kids(spans, id)[j];
            || x.start < y.start
            || (x.start == y.start && exists p, q :: 0 <= p <= q < |spans| && spans[p] == x && spans[q] == y)
  {
    KidsAre(spans, id);
    var x, y := Kids(spans, id)[i], Kids(spans, id)[j];
    assert x in Kids(spans, id) && y in Kids(spans, id);
    assert StartOrder(spans)(x, y);
  }

  lemma KidAt(spans: seq<SpanDetail>, id: string, k: nat)
    requires k < |Kids(spans, id)|
    ensures Kids(spans, id)[k] in spans && Kids(spans, id)[k].parentSpanId == id
  {
    KidsAre(spans, id);
  }

  // A stable sort finds just these.
  lemma KidsUnique(spans: seq<SpanDetail>, id: string, found: seq<SpanDetail>)
    requires AreKids(spans, id, found)
    ensures found == Kids(spans, id)
  {
    KidsAre(spans, id);
    MultisetMembers(found, Kids(spans, id));
    SortedUnique(found, Kids(spans, id), StartOrder(spans));
  }

  lemma KidsAreChildren(spans: seq<SpanDetail>, span: SpanDetail)
    requires Identified(spans) && span in spans
    ensures AreChildren(spans, span, Kids(spans, span.spanId))
  {
    var kids := Kids(spans, span.spanId);
    var at := KeepThins(spans, IsChildOf(span.spanId));
    KidsAre(spans, span.spanId);
    assert Distinct(Keep(spans, IsChildOf(span.spanId)));
    DistinctReordered(Keep(spans, IsChildOf(span.spanId)), kids);
    forall c ensures c in kids <==> c in Parents(spans) && Parents(spans)[c] == span {
      ParentsExact(spans, c, span);
    }
  }

  lemma VisitStarts(spans: seq<SpanDetail>, span: SpanDetail, depth: nat)
    requires Hops(Parents(spans), span, depth)
    ensures VisitedSoFar(spans, span, [], [SpanRow(span, depth, span.start - FirstStart(spans))])
  {
    hide Hops, Covers, InPreorder, Parents, StartOrder, FirstStart;
    assert Nodes([SpanRow(span, depth, span.start - FirstStart(spans))]) == [span];
    TopAlone(Parents(spans), span, StartOrder(spans));
  }

  lemma VisitGrows(spans: seq<SpanDetail>, span: SpanDetail, depth: nat, kids: seq<SpanDetail>, i: nat,
                   a: seq<SpanRow>, b: seq<SpanRow>)
    requires Hops(Parents(spans), span, depth) && AreChildren(spans, span, kids) && i < |kids|
    requires VisitedSoFar(spans, span, kids[..i], a) && Visited(spans, kids[i], b)
    ensures VisitedSoFar(spans, span, kids[..i + 1], a + b)
  {
    hide Hops, Covers, InPreorder, IsSubtree;
    assert kids[i] in kids && kids[i] !in kids[..i] && kids[..i + 1] == kids[..i] + [kids[i]];
    AppendKid(Parents(spans), span, depth, kids[..i], kids[i], StartOrder(spans), Nodes(a), Nodes(b));
    assert Nodes(a + b) == Nodes(a) + Nodes(b);
  }

  lemma VisitEnds(spans: seq<SpanDetail>, span: SpanDetail, kids: seq<SpanDetail>, rows: seq<SpanRow>)
    requires AreChildren(spans, span, kids) && VisitedSoFar(spans, span, kids, rows)
    ensures Visited(spans, span, rows)
  {
    hide Hops, Covers, InPreorder;
    AllKids(Parents(spans), Nodes(rows), span, kids);
  }

  lemma StartOrderSorts(spans: seq<SpanDetail>, s: seq<SpanDetail>)
    ensures TotalOn(s, StartOrder(spans)) && TransitiveOn(s, StartOrder(spans))
  {
  }

  // b is the identifier of a child of a span with identifier a.
  ghost predicate Step(spans: seq<SpanDetail>, a: string, b: string) {
    exists s :: s in spans && s.parentSpanId == a && s.spanId == b
  }

  // Identifiers, each of a child of the one before.
  ghost predicate IsDescent(spans: seq<SpanDetail>, path: seq<string>) {
    |path| > 0 && forall i :: 0 <= i < |path| - 1 ==> Step(spans, path[i], path[i + 1])
  }

  // The visit of a span with this identifier goes n calls deep at most.
  ghost predicate Within(spans: seq<SpanDetail>, id: string, n: nat)
    decreases n
  {
    n > 0 && forall c :: c in spans && c.parentSpanId == id ==> Within(spans, c.spanId, n - 1)
  }

  // The visit of a span with this identifier ends.
  ghost predicate Ends(spans: seq<SpanDetail>, id: string) {
    exists n: nat :: Within(spans, id, n)
  }

  // Some descent from id comes back to where it has been.
  ghost predicate Circles(spans: seq<SpanDetail>, id: string) {
    exists path :: IsDescent(spans, path) && path[0] == id && !Distinct(path)
  }

  lemma {:induction false} LongDescent(spans: seq<SpanDetail>, path: seq<string>, i: nat, j: nat, n: nat)
    returns (longer: seq<string>)
    requires IsDescent(spans, path) && i < j < |path| && path[i] == path[j]
    ensures IsDescent(spans, longer) && longer[0] == path[0] && |longer| > n
    decreases if n < |path| then 0 else n - |path| + 1
  {
    if |path| > n {
      longer := path;
    } else {
      var round := path[..j] + path[i..];
      forall k | 0 <= k < |round| - 1 ensures Step(spans, round[k], round[k + 1]) {
        if k == j - 1 {
          assert round[k + 1] == path[j];
        } else if k >= j {
          assert round[k] == path[k - j + i] && round[k + 1] == path[k - j + i + 1];
        }
      }
      assert round[j] == path[i];
      longer := LongDescent(spans, round, i, j, n);
    }
  }

  // That is, no descent from the identifier is longer than n.
  lemma {:induction false} WithinBounds(spans: seq<SpanDetail>, id: string, n: nat, path: seq<string>)
    requires Within(spans, id, n) && IsDescent(spans, path) && path[0] == id
    ensures |path| <= n
    decreases n
  {
    if |path| > 1 {
      assert Step(spans, path[0], path[1]);
      var c :| c in spans && c.parentSpanId == path[0] && c.spanId == path[1];
      var rest := path[1..];
      forall k | 0 <= k < |rest| - 1 ensures Step(spans, rest[k], rest[k + 1]) {
        assert Step(spans, path[k + 1], path[k + 2]);
      }
      WithinBounds(spans, c.spanId, n - 1, rest);
    }
  }

  lemma {:induction false} BoundedWithin(spans: seq<SpanDetail>, id: string, n: nat)
    requires forall path :: IsDescent(spans, path) && path[0] == id ==> |path| <= n
    ensures Within(spans, id, n)
    decreases n
  {
    assert IsDescent(spans, [id]);
    forall c | c in spans && c.parentSpanId == id ensures Within(spans, c.spanId, n - 1) {
      forall path | IsDescent(spans, path) && path[0] == c.spanId ensures |path| <= n - 1 {
        var longer := [id] + path;
        assert Step(spans, id, c.spanId);
        assert forall k :: 1 <= k < |longer| - 1 ==> longer[k] == path[k - 1] && longer[k + 1] == path[k];
        assert IsDescent(spans, longer);
      }
      BoundedWithin(spans, c.spanId, n - 1);
    }
  }

  // The visit ends if and only if no descent comes back to where it has been.
  lemma EndsIff(spans: seq<SpanDetail>, id: string)
    ensures Ends(spans, id) <==> !Circles(spans, id)
  {
    if Circles(spans, id) {
      var path :| IsDescent(spans, path) && path[0] == id && !Distinct(path);
      var i: nat, j: nat :| i < j < |path| && path[i] == path[j];
      forall n: nat ensures !Within(spans, id, n) {
        var longer := LongDescent(spans, path, i, j, n);
        if Within(spans, id, n) {
          WithinBounds(spans, id, n, longer);
        }
      }
    } else {
      var ids := set s | s in spans :: s.spanId;
      forall path | IsDescent(spans, path) && path[0] == id ensures |path| <= |ids| + 1 {
        var rest := path[1..];
        forall x | x in rest ensures x in ids {
          var k :| 0 <= k < |rest| && rest[k] == x;
          assert Step(spans, path[k], path[k + 1]);
        }
        DistinctSize(rest, ids);
      }
      BoundedWithin(spans, id, |ids| + 1);
    }
  }

  lemma ChildWithin(spans: seq<SpanDetail>, id: string, n: nat, c: SpanDetail)
    requires Within(spans, id, n) && c in spans && c.parentSpanId == id
    ensures n > 1 && Within(spans, c.spanId, n - 1)
  {
  }

  function RowOf(spans: seq<SpanDetail>, span: SpanDetail, depth: nat): SpanRow {
    SpanRow(span, depth, span.start - FirstStart(spans))
  }

  // The rows of a visit: the span, then the listings of its children.
  ghost function Listing(spans: seq<SpanDetail>, span: SpanDetail, depth: nat, n: nat): seq<SpanRow>
    requires Within(spans, span.spanId, n)
    decreases n, 1, 0
  {
    [RowOf(spans, span, depth)] + Listings(spans, span, |Kids(spans, span.spanId)|, depth, n)
  }

  ghost function Listings(spans: seq<SpanDetail>, span: SpanDetail, k: nat, depth: nat, n: nat): seq<SpanRow>
    requires Within(spans, span.spanId, n) && k <= |Kids(spans, span.spanId)|
    decreases n, 0, k
  {
    if k == 0 then []
    else
      var kid := Kids(spans, span.spanId)[k - 1];
      KidAt(spans, span.spanId, k - 1);
      ChildWithin(spans, span.spanId, n, kid);
      Listings(spans, span, k - 1, depth, n) + Listing(spans, kid, depth + 1, n - 1)
  }

  // The row of the span and the listings of its first k children.
  ghost function ListedUpTo(spans: seq<SpanDetail>, span: SpanDetail, k: nat, depth: nat, n: nat): seq<SpanRow>
    requires Within(spans, span.spanId, n) && k <= |Kids(spans, span.spanId)|
  {
    [RowOf(spans, span, depth)] + Listings(spans, span, k, depth, n)
  }

  lemma ListingStarts(spans: seq<SpanDetail>, span: SpanDetail, depth: nat, n: nat)
    requires Within(spans, span.spanId, n)
    ensures ListedUpTo(spans, span, 0, depth, n) == [RowOf(spans, span, depth)]
    ensures Listing(spans, span, depth, n) == ListedUpTo(spans, span, |Kids(spans, span.spanId)|, depth, n)
  {
  }

  lemma ListingsGrow(spans: seq<SpanDetail>, span: SpanDetail, k: nat, depth: nat, n: nat)
    requires Within(spans, span.spanId, n) && k < |Kids(spans, span.spanId)|
    ensures var kid := Kids(spans, span.spanId)[k];
            && kid in spans && kid.parentSpanId == span.spanId && n > 1 && Within(spans, kid.spanId, n - 1)
            && ListedUpTo(spans, span, k + 1, depth, n) ==
               ListedUpTo(spans, span, k, depth, n) + Listing(spans, kid, depth + 1, n - 1)
  {
    hide Within, Kids, RowOf;
    KidAt(spans, span.spanId, k);
    ChildWithin(spans, span.spanId, n, Kids(spans, span.spanId)[k]);
  }

  // rows[j] is the row that rows[i] hangs from in the view: the last one before it
  // that is less deep.
  ghost predicate HangsFrom(rows: seq<SpanRow>, j: nat, i: nat)
    requires j < i < |rows|
  {
    && rows[j].span.spanId == rows[i].span.parentSpanId
    && rows[i].depth == rows[j].depth + 1
    && forall m :: j < m < i ==> rows[m].depth > rows[j].depth
  }

  ghost predicate Hanging(rows: seq<SpanRow>, i: nat)
    requires i < |rows|
  {
    exists j: nat :: j < i && HangsFrom(rows, j, i)
  }

  // Every row but the first hangs from a row of its parent.
  ghost predicate Nested(rows: seq<SpanRow>, span: SpanDetail, depth: nat) {
    && |rows| > 0 && rows[0].span == span && rows[0].depth == depth
    && forall i: nat :: 0 < i < |rows| ==> rows[i].depth > depth && Hanging(rows, i)
  }

  lemma NestedMore(a: seq<SpanRow>, span: SpanDetail, depth: nat, b: seq<SpanRow>, kid: SpanDetail)
    requires Nested(a, span, depth) && Nested(b, kid, depth + 1) && kid.parentSpanId == span.spanId
    ensures Nested(a + b, span, depth)
  {
    var rows := a + b;
    forall i: nat | 0 < i < |rows| ensures rows[i].depth > depth && Hanging(rows, i) {
      if i < |a| {
        assert Hanging(a, i);
        var j: nat :| j < i && HangsFrom(a, j, i);
        assert HangsFrom(rows, j, i);
      } else if i == |a| {
        assert HangsFrom(rows, 0, i);
      } else {
        assert Hanging(b, i - |a|);
        var j: nat :| j < i - |a| && HangsFrom(b, j, i - |a|);
        assert HangsFrom(rows, |a| + j, i);
      }
    }
  }

  // Whatever the identifiers: in a listing every row hangs from its parent's.
  lemma {:induction false} ListingNested(spans: seq<SpanDetail>, span: SpanDetail, depth: nat, n: nat)
    requires Within(spans, span.spanId, n)
    ensures Nested(Listing(spans, span, depth, n), span, depth)
    decreases n, 1, 0
  {
    ListingsNested(spans, span, |Kids(spans, span.spanId)|, depth, n);
    ListingStarts(spans, span, depth, n);
    hide *;
  }

  lemma {:induction false} ListingsNested(spans: seq<SpanDetail>, span: SpanDetail, k: nat, depth: nat, n: nat)
    requires Within(spans, span.spanId, n) && k <= |Kids(spans, span.spanId)|
    ensures Nested(ListedUpTo(spans, span, k, depth, n), span, depth)
    decreases n, 0, k
  {
    hide Within, Nested, ListedUpTo, Listing, Kids, Sorted, Keep, StartOrder;
    if k == 0 {
      NestedAlone(RowOf(spans, span, depth));
      ListingStarts(spans, span, depth, n);
    } else {
      var kid := Kids(spans, span.spanId)[k - 1];
      ListingsGrow(spans, span, k - 1, depth, n);
      ListingsNested(spans, span, k - 1, depth, n);
      ListingNested(spans, kid, depth + 1, n - 1);
      NestedMore(ListedUpTo(spans, span, k - 1, depth, n), span, depth, Listing(spans, kid, depth + 1, n - 1), kid);
    }
  }

  lemma NestedAlone(row: SpanRow)
    ensures Nested([row], row.span, row.depth)
  {
  }

  // With identifiers that tell the spans apart, a listing is the subtree.
  lemma {:induction false} ListingVisited(spans: seq<SpanDetail>, span: SpanDetail, depth: nat, n: nat)
    requires Identified(spans) && span in spans && Hops(Parents(spans), span, depth)
    requires Within(spans, span.spanId, n)
    ensures Visited(spans, span, Listing(spans, span, depth, n))
    decreases n, 1, 0
  {
    hide Identified, Hops, Parents, Visited, VisitedSoFar, Within, AreChildren, ListedUpTo, Listing;
    hide Sorted, Keep, StartOrder;
    var kids := Kids(spans, span.spanId);
    ListingsVisited(spans, span, |kids|, depth, n);
    ListingStarts(spans, span, depth, n);
    assert kids[..|kids|] == kids;
    KidsAreChildren(spans, span);
    VisitEnds(spans, span, kids, Listing(spans, span, depth, n));
  }

  lemma {:induction false} ListingsVisited(spans: seq<SpanDetail>, span: SpanDetail, k: nat, depth: nat, n: nat)
    requires Identified(spans) && span in spans && Hops(Parents(spans), span, depth)
    requires Within(spans, span.spanId, n) && k <= |Kids(spans, span.spanId)|
    ensures VisitedSoFar(spans, span, Kids(spans, span.spanId)[..k], ListedUpTo(spans, span, k, depth, n))
    decreases n, 0, k
  {
    hide Identified, Hops, Parents, Visited, VisitedSoFar, Within, AreChildren, ListedUpTo, Listing;
    hide Sorted, Keep, StartOrder;
    var kids := Kids(spans, span.spanId);
    if k == 0 {
      VisitStarts(spans, span, depth);
      ListingStarts(spans, span, depth, n);
    } else {
      var kid := kids[k - 1];
      ListingsGrow(spans, span, k - 1, depth, n);
      KidsAreChildren(spans, span);
      ChildHops(spans, span, depth, kids, kid);
      ListingsVisited(spans, span, k - 1, depth, n);
      ListingVisited(spans, kid, depth + 1, n - 1);
      VisitGrows(spans, span, depth, kids, k - 1, ListedUpTo(spans, span, k - 1, depth, n),
                 Listing(spans, kid, depth + 1, n - 1));
    }
  }

  lemma ChildHops(spans: seq<SpanDetail>, span: SpanDetail, depth: nat, kids: seq<SpanDetail>, c: SpanDetail)
    requires Hops(Parents(spans), span, depth) && AreChildren(spans, span, kids) && c in kids
    ensures Hops(Parents(spans), c, depth + 1)
  {
    HopsOfParent(Parents(spans), c, depth);
  }

  // Such identifiers always let the visit from the root end.
  lemma IdentifiedEnds(spans: seq<SpanDetail>)
    requires Identified(spans) && FindRoot(spans).Some?
    ensures Ends(spans, FindRoot(spans).value.spanId)
  {
    var root := FindRoot(spans).value;
    RootStarts(spans);
    hide Identified, Parents, Step, FindRoot, Hops;
    forall path | IsDescent(spans, path) && path[0] == root.spanId ensures |path| <= |Parents(spans)| + 1 {
      DescentBound(spans, path, root);
    }
    BoundedWithin(spans, root.spanId, |Parents(spans)| + 1);
  }

  lemma DescentBound(spans: seq<SpanDetail>, path: seq<string>, root: SpanDetail)
    requires Identified(spans) && root in spans && Hops(Parents(spans), root, 0)
    requires IsDescent(spans, path) && path[0] == root.spanId
    ensures |path| <= |Parents(spans)| + 1
  {
    assert |path| > 0;
    hide Identified, Parents, IsDescent, Hops;
    var d := AtEnd(spans, path, root);
    HopsThrough(Parents(spans), d, root, |path| - 1, 0);
    HopsBound(Parents(spans), d, |path| - 1);
  }

  lemma {:induction false} AtEnd(spans: seq<SpanDetail>, path: seq<string>, root: SpanDetail) returns (d: SpanDetail)
    requires Identified(spans) && root in spans && IsDescent(spans, path) && path[0] == root.spanId
    ensures d in spans && d.spanId == path[|path| - 1] && Up(Parents(spans), d, |path| - 1) == Some(root)
    decreases |path|
  {
    hide Identified, Parents;
    if |path| == 1 {
      d := root;
    } else {
      var k := |path| - 1;
      assert IsDescent(spans, path[..k]);
      var p := AtEnd(spans, path[..k], root);
      assert Step(spans, path[k - 1], path[k]);
      d :| d in spans && d.parentSpanId == path[k - 1] && d.spanId == path[k];
      ParentsExact(spans, d, p);
      UpOne(Parents(spans), d);
      UpCompose(Parents(spans), d, 1, k - 1);
    }
  }

  function LooseRow(spans: seq<SpanDetail>): SpanDetail -> SpanRow {
    (s: SpanDetail) => RowOf(spans, s, 0)
  }

  function IdsOf(rows: seq<SpanRow>): set<string> {
    set i | 0 <= i < |rows| :: rows[i].span.spanId
  }

  function NotAmong(ids: set<string>): SpanDetail -> bool {
    (s: SpanDetail) => s.spanId !in ids
  }

  // The rows of the spans whose identifiers have not been visited.
  function Orphans(spans: seq<SpanDetail>, visited: set<string>): seq<SpanRow> {
    Mapped(Keep(spans, NotAmong(visited)), LooseRow(spans))
  }

  // The tree below the first root, then the orphans.
  ghost predicate IsRendering(spans: seq<SpanDetail>, tree: seq<SpanRow>, rows: seq<SpanRow>) {
    && (if FindRoot(spans).None? then tree == []
        else exists n: nat ::
          Within(spans, FindRoot(spans).value.spanId, n) && tree == Listing(spans, FindRoot(spans).value, 0, n))
    && rows == tree + Orphans(spans, IdsOf(tree))
  }

  // The span names no parent: its text is empty or the zero identifier.
  ghost predicate NamesNone(s: SpanDetail) {
    s.parentSpanId == "" || s.parentSpanId == "0000000000000000"
  }

  // The rows begin with the first span that names no parent, if there is one.
  lemma RenderingLed(spans: seq<SpanDetail>, tree: seq<SpanRow>, rows: seq<SpanRow>, i: nat)
    requires IsRendering(spans, tree, rows)
    requires i < |spans| && NamesNone(spans[i]) && forall j :: 0 <= j < i ==> !NamesNone(spans[j])
    ensures |rows| > 0 && rows[0].span == spans[i] && rows[0].depth == 0
  {
    FoundFirst(spans, i);
    hide FindRoot, Orphans, Listings, Within, RowOf;
    var n: nat :|
      Within(spans, FindRoot(spans).value.spanId, n) && tree == Listing(spans, FindRoot(spans).value, 0, n);
    ListingHead(spans, spans[i], 0, n);
    hide Listing;
    assert rows[0] == tree[0];
  }

  lemma FoundFirst(spans: seq<SpanDetail>, i: nat)
    requires i < |spans| && NamesNone(spans[i]) && forall j :: 0 <= j < i ==> !NamesNone(spans[j])
    ensures FindRoot(spans) == Some(spans[i])
  {
    hide FindRoot, IsFirstRoot;
    MarkedFirst(spans, i);
    var k: nat :| IsFirstRoot(spans, FindRoot(spans).value, k);
    FirstRootUnique(spans, spans[i], FindRoot(spans).value, i, k);
  }

  lemma MarkedFirst(spans: seq<SpanDetail>, i: nat)
    requires i < |spans| && NamesNone(spans[i]) && forall j :: 0 <= j < i ==> !NamesNone(spans[j])
    ensures FindRoot(spans).Some? && IsFirstRoot(spans, spans[i], i)
  {
    hide FindRoot, NamesNone;
    forall j | 0 <= j <= i ensures spans[j].IsRoot() <==> NamesNone(spans[j]) {
      MarkedAsRoot(spans[j]);
    }
  }

  lemma MarkedAsRoot(s: SpanDetail)
    ensures s.IsRoot() <==> NamesNone(s)
  {
  }

  lemma FirstRootUnique(spans: seq<SpanDetail>, s: SpanDetail, t: SpanDetail, i: nat, k: nat)
    requires IsFirstRoot(spans, s, i) && IsFirstRoot(spans, t, k)
    ensures s == t
  {
  }

  lemma ListingHead(spans: seq<SpanDetail>, span: SpanDetail, depth: nat, n: nat)
    requires Within(spans, span.spanId, n)
    ensures |Listing(spans, span, depth, n)| > 0
    ensures Listing(spans, span, depth, n)[0].span == span && Listing(spans, span, depth, n)[0].depth == depth
  {
    hide Listings, Within;
  }

  // Whatever the identifiers: the rows of the tree are nested, and every identifier
  // has a row.
  lemma RenderingCovers(spans: seq<SpanDetail>, tree: seq<SpanRow>, rows: seq<SpanRow>)
    requires IsRendering(spans, tree, rows)
    ensures FindRoot(spans).Some? ==> Nested(tree, FindRoot(spans).value, 0)
    ensures forall s :: s in spans ==> s.spanId in IdsOf(rows)
  {
    if FindRoot(spans).Some? {
      var n: nat :|
        Within(spans, FindRoot(spans).value.spanId, n) && tree == Listing(spans, FindRoot(spans).value, 0, n);
      ListingNested(spans, FindRoot(spans).value, 0, n);
    }
    hide Nested;
    forall s | s in spans ensures s.spanId in IdsOf(rows) {
      HasRow(spans, tree, s);
    }
  }

  lemma HasRow(spans: seq<SpanDetail>, tree: seq<SpanRow>, s: SpanDetail)
    requires s in spans
    ensures s.spanId in IdsOf(tree + Orphans(spans, IdsOf(tree)))
  {
    var loose := Keep(spans, NotAmong(IdsOf(tree)));
    var rows := tree + Orphans(spans, IdsOf(tree));
    if s.spanId in IdsOf(tree) {
      var i :| 0 <= i < |tree| && tree[i].span.spanId == s.spanId;
      assert rows[i] == tree[i];
    } else {
      KeepMembers(spans, NotAmong(IdsOf(tree)));
      var i :| 0 <= i < |loose| && loose[i] == s;
      assert rows[|tree| + i].span == s;
    }
  }

  method FilterAndSort(spans: seq<SpanDetail>, id: string) returns (children: seq<SpanDetail>)
    ensures children == Kids(spans, id)
  {
    hide TotalOn, TransitiveOn, Sorted, StartOrder, Kids;
    var found := Keep(spans, IsChildOf(id));
    StartOrderSorts(spans, found);
    children := SortBy(found, StartOrder(spans));
    KidsUnique(spans, id, children);
  }

  class SpanRows {
    const spans: seq<SpanDetail>
    const traceStart: Time
    var rows: seq<SpanRow>

    constructor (spans: seq<SpanDetail>)
      ensures this.spans == spans && rows == []
      ensures traceStart == FirstStart(spans)
    {
      this.spans, rows := spans, [];
      traceStart := FirstStart(spans);
    }

    // n bounds the descents from the span; see EndsIff.
    method Visit(span: SpanDetail, depth: nat, ghost n: nat)
      requires Within(spans, span.spanId, n) && traceStart == FirstStart(spans)
      modifies this
      ensures rows == old(rows) + Listing(spans, span, depth, n)
      decreases n
    {
      hide Within, FirstStart, Listing, ListedUpTo, Kids;
      ghost var before := rows;
      rows := rows + [SpanRow(span, depth, span.start - traceStart)];
      var children := FilterAndSort(spans, span.spanId);
      ListingStarts(spans, span, depth, n);
      for i := 0 to |children|
        invariant rows == before + ListedUpTo(spans, span, i, depth, n)
      {
        ListingsGrow(spans, span, i, depth, n);
        Visit(children[i], depth + 1, n - 1);
      }
    }

    // The rest, after what Visit has listed.
    method PushOrphans()
      requires traceStart == FirstStart(spans)
      modifies this
      ensures rows == old(rows) + Orphans(spans, IdsOf(old(rows)))
    {
      hide FirstStart;
      ghost var tree := rows;
      var visited := set i | 0 <= i < |rows| :: rows[i].span.spanId;
      for i := 0 to |spans|
        invariant rows == tree + Mapped(Keep(spans[..i], NotAmong(visited)), LooseRow(spans))
      {
        var span := spans[i];
        assert spans[..i + 1][..i] == spans[..i];
        if span.spanId !in visited {
          MappedConcat(Keep(spans[..i], NotAmong(visited)), [span], LooseRow(spans));
          rows := rows + [SpanRow(span, 0, span.start - traceStart)];
        }
      }
      assert spans[..|spans|] == spans;
    }
  }

  // The visit from the first root has to end. With identifiers that tell the spans
  // apart it does, and the rows are the one layout that has every span once; see
  // IdentifiedEnds, LayoutUnique and LayoutComplete.
  method BuildSpanRows(spans: seq<SpanDetail>) returns (rows: seq<SpanRow>)
    requires FindRoot(spans).Some? ==> Ends(spans, FindRoot(spans).value.spanId)
    ensures exists tree :: IsRendering(spans, tree, rows)
    ensures Identified(spans) ==> exists n: nat :: IsLayout(spans, rows, n)
  {
    hide Identified, Within, FirstStart, IsLayout, Orphans;
    var list := new SpanRows(spans);
    var root := FindRoot(spans);
    if root.Some? {
      ghost var n: nat :| Within(spans, root.value.spanId, n);
      list.Visit(root.value, 0, n);
      assert list.rows == Listing(spans, root.value, 0, n);
    }
    ghost var tree := list.rows;
    list.PushOrphans();
    rows := list.rows;
    assert IsRendering(spans, tree, rows);
    if Identified(spans) {
      RenderingIsLayout(spans, tree, rows);
    }
  }

  lemma RenderingIsLayout(spans: seq<SpanDetail>, tree: seq<SpanRow>, rows: seq<SpanRow>)
    requires Identified(spans) && IsRendering(spans, tree, rows)
    ensures IsLayout(spans, rows, |tree|)
  {
    if FindRoot(spans).None? {
      RootlessTree(spans);
    } else {
      var n: nat :|
        Within(spans, FindRoot(spans).value.spanId, n) && tree == Listing(spans, FindRoot(spans).value, 0, n);
      RootStarts(spans);
      ListingVisited(spans, FindRoot(spans).value, 0, n);
      RootedTree(spans, tree);
    }
    hide IsTree, Identified;
    assert rows[..|tree|] == tree && rows[|tree|..] == Orphans(spans, IdsOf(tree));
    OrphansLoose(spans, tree);
    OrphansTimed(spans, tree);
  }

  lemma OrphansTimed(spans: seq<SpanDetail>, tree: seq<SpanRow>)
    requires Timed(spans, tree)
    ensures Timed(spans, tree + Orphans(spans, IdsOf(tree)))
  {
  }

  lemma OrphansLoose(spans: seq<SpanDetail>, tree: seq<SpanRow>)
    requires Identified(spans) && IsTree(spans, tree)
    ensures AreLoose(spans, Orphans(spans, IdsOf(tree)))
  {
    forall s | s in spans ensures NotAmong(IdsOf(tree))(s) <==> Unreached(spans)(s) {
      IdsReached(spans, tree, s);
    }
    KeepAlike(spans, NotAmong(IdsOf(tree)), Unreached(spans));
    assert Nodes(Orphans(spans, IdsOf(tree))) == Keep(spans, Unreached(spans));
  }

  lemma {:induction false} KeepAlike<T>(s: seq<T>, p: T -> bool, q: T -> bool)
    requires forall x :: x in s ==> p(x) == q(x)
    ensures Keep(s, p) == Keep(s, q)
  {
    if s != [] {
      assert s[|s| - 1] in s;
      KeepAlike(s[..|s| - 1], p, q);
    }
  }

  lemma IdsReached(spans: seq<SpanDetail>, tree: seq<SpanRow>, s: SpanDetail)
    requires Identified(spans) && IsTree(spans, tree) && s in spans
    ensures Reached(spans, s) <==> exists i :: 0 <= i < |tree| && tree[i].span.spanId == s.spanId
  {
    if i :| 0 <= i < |tree| && tree[i].span.spanId == s.spanId {
      assert Nodes(tree)[i] in Nodes(tree);
      ReachedIsSpan(spans, tree[i].span);
      SameId(spans, tree[i].span, s);
    }
  }

  lemma RootedTree(spans: seq<SpanDetail>, rows: seq<SpanRow>)
    requires FindRoot(spans).Some? && Visited(spans, FindRoot(spans).value, rows)
    ensures IsTree(spans, rows) && Timed(spans, rows)
  {
  }

  lemma RootlessTree(spans: seq<SpanDetail>)
    requires FindRoot(spans).None?
    ensures IsTree(spans, []) && Timed(spans, [])
  {
  }

  lemma RootStarts(spans: seq<SpanDetail>)
    requires Identified(spans) && FindRoot(spans).Some?
    ensures FindRoot(spans).value in spans && Hops(Parents(spans), FindRoot(spans).value, 0)
  {
    RootHops(Parents(spans), FindRoot(spans).value);
  }
}
