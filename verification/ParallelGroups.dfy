// The groups of siblings that ran in parallel.
module ParallelGroups {
  import opened Model
  import opened Sequences
  import opened TraceTree
  import opened Arrangements

  datatype Group = Group(spans: seq<Span>, start: Time, end: Time)

  // Siblings in start order: the later one starts before the earlier one ends.
  predicate Link(cs: seq<Span>, i: nat, j: nat)
    requires i < |cs| && j < |cs|
  {
    (i < j && cs[j].data.start < cs[i].data.end) || (j < i && cs[i].data.start < cs[j].data.end)
  }

  predicate Overlap(a: Span, b: Span) {
    a.data.start < b.data.end && b.data.start < a.data.end
  }

  // s holds of every sibling linked to one of which it holds.
  ghost predicate Closed(cs: seq<Span>, s: nat -> bool) {
    forall i: nat, j: nat :: i < |cs| && j < |cs| && s(i) && Link(cs, i, j) ==> s(j)
  }

  // i and j are in the same component: no closed property separates them.
  ghost predicate Connected(cs: seq<Span>, i: nat, j: nat) {
    forall s: nat -> bool :: Closed(cs, s) && s(i) ==> s(j)
  }

  ghost predicate LinkedBack(cs: seq<Span>, lo: nat, j: nat)
    requires j < |cs|
  {
    exists k: nat :: lo <= k < j && Link(cs, k, j)
  }

  // cs[lo..hi] hangs together from left to right and nothing later is linked to it.
  ghost predicate IsSegment(cs: seq<Span>, lo: nat, hi: nat) {
    && lo < hi <= |cs|
    && (forall j :: lo < j < hi ==> LinkedBack(cs, lo, j))
    && (forall k, j :: lo <= k < hi <= j < |cs| ==> !Link(cs, k, j))
  }

  ghost predicate SegmentAt(cs: seq<Span>, cuts: seq<nat>, n: nat)
    requires n + 1 < |cuts|
  {
    IsSegment(cs, cuts[n], cuts[n + 1])
  }

  // cuts are the starts of the segments, followed by the end of the last one.
  ghost predicate IsPartition(cs: seq<Span>, cuts: seq<nat>) {
    && |cuts| > 0 && cuts[0] == 0 && cuts[|cuts| - 1] <= |cs|
    && forall n: nat :: n + 1 < |cuts| ==> SegmentAt(cs, cuts, n)
  }

  ghost predicate InSegment(cuts: seq<nat>, n: nat, i: nat) {
    n + 1 < |cuts| && cuts[n] <= i < cuts[n + 1]
  }

  ghost predicate SameSegment(cuts: seq<nat>, i: nat, j: nat) {
    exists n: nat :: InSegment(cuts, n, i) && InSegment(cuts, n, j)
  }

  ghost predicate IsLatestEnd(s: seq<Span>, end: Time) {
    && (exists x :: x in s && x.data.end == end)
    && forall x :: x in s ==> x.data.end <= end
  }

  // The group made of a segment: its spans, from the first start to the last end.
  ghost predicate IsGroupOf(cs: seq<Span>, lo: nat, hi: nat, g: Group)
    requires lo < hi <= |cs|
  {
    g.spans == cs[lo..hi] && g.start == cs[lo].data.start && IsLatestEnd(cs[lo..hi], g.end)
  }

  // groups are, in order, the groups of the segments with two members or more.
  ghost predicate AreGroups(cs: seq<Span>, cuts: seq<nat>, groups: seq<Group>)
    requires IsPartition(cs, cuts)
    decreases |cuts|
  {
    if |cuts| == 1 then groups == []
    else
      var lo, hi := cuts[|cuts| - 2], cuts[|cuts| - 1];
      assert SegmentAt(cs, cuts, |cuts| - 2);
      PartitionInit(cs, cuts);
      if hi - lo < 2 then AreGroups(cs, cuts[..|cuts| - 1], groups)
      else
        && |groups| > 0
        && IsGroupOf(cs, lo, hi, groups[|groups| - 1])
        && AreGroups(cs, cuts[..|cuts| - 1], groups[..|groups| - 1])
  }

  lemma PartitionInit(cs: seq<Span>, cuts: seq<nat>)
    requires IsPartition(cs, cuts) && |cuts| > 1
    ensures IsPartition(cs, cuts[..|cuts| - 1])
  {
    var init := cuts[..|cuts| - 1];
    assert SegmentAt(cs, cuts, |cuts| - 2);
    forall n: nat | n + 1 < |init| ensures SegmentAt(cs, init, n) {
      assert SegmentAt(cs, cuts, n);
    }
  }

  lemma OneMoreSegment(cs: seq<Span>, cuts: seq<nat>, hi: nat)
    requires IsPartition(cs, cuts) && IsSegment(cs, cuts[|cuts| - 1], hi)
    ensures IsPartition(cs, cuts + [hi])
  {
    var more := cuts + [hi];
    forall n: nat | n + 1 < |more| ensures SegmentAt(cs, more, n) {
      if n + 1 < |cuts| {
        assert SegmentAt(cs, cuts, n);
      }
    }
  }

  lemma OneMoreGroup(cs: seq<Span>, cuts: seq<nat>, groups: seq<Group>, hi: nat, g: Group)
    requires IsPartition(cs, cuts) && AreGroups(cs, cuts, groups)
    requires IsSegment(cs, cuts[|cuts| - 1], hi)
    requires IsGroupOf(cs, cuts[|cuts| - 1], hi, g)
    ensures IsPartition(cs, cuts + [hi])
    ensures AreGroups(cs, cuts + [hi], if hi - cuts[|cuts| - 1] > 1 then groups + [g] else groups)
  {
    OneMoreSegment(cs, cuts, hi);
    assert (cuts + [hi])[..|cuts|] == cuts;
    assert (groups + [g])[..|groups|] == groups;
  }

  // What the inner loop has collected when it looks at position j.
  ghost predicate Collected(cs: seq<Span>, i: nat, hi: nat, j: nat, group: seq<Span>, groupEnd: Time) {
    && i < hi <= j <= |cs|
    && group == cs[i..hi] && IsLatestEnd(group, groupEnd)
    && (hi < j ==> groupEnd <= cs[hi].data.start)
    && forall m :: i < m < hi ==> LinkedBack(cs, i, m)
  }

  lemma CollectedFirst(cs: seq<Span>, i: nat)
    requires i < |cs|
    ensures Collected(cs, i, i + 1, i + 1, [cs[i]], cs[i].data.end)
  {
    assert cs[i] in [cs[i]];
  }

  lemma CollectMore(cs: seq<Span>, i: nat, hi: nat, j: nat, group: seq<Span>, end: Time)
    requires SortedByStart(cs) && Collected(cs, i, hi, j, group, end) && j < |cs|
    ensures if cs[j].data.start < end
            then Collected(cs, i, j + 1, j + 1, group + [cs[j]], if cs[j].data.end > end then cs[j].data.end else end)
            else Collected(cs, i, hi, j + 1, group, end)
    ensures cs[j].data.start < end ==> hi == j
  {
    hide IsLatestEnd, LinkedBack;
    if cs[j].data.start < end {
      assert hi == j;
      hide SortedByStart;
      LatestEndLinks(cs, i, j, end);
      LaterEnd(group, end, cs[j]);
      assert cs[i..j + 1] == group + [cs[j]];
    }
  }

  lemma LatestEndLinks(cs: seq<Span>, i: nat, j: nat, end: Time)
    requires i < j < |cs| && IsLatestEnd(cs[i..j], end) && cs[j].data.start < end
    ensures LinkedBack(cs, i, j)
  {
    var x :| x in cs[i..j] && x.data.end == end;
    var k :| 0 <= k < j - i && cs[i..j][k] == x;
    assert Link(cs, i + k, j);
  }

  lemma LaterEnd(s: seq<Span>, end: Time, x: Span)
    requires IsLatestEnd(s, end)
    ensures IsLatestEnd(s + [x], if x.data.end > end then x.data.end else end)
  {
    assert forall y :: y in s + [x] <==> y in s || y == x;
  }

  lemma CollectedAll(cs: seq<Span>, i: nat, hi: nat, group: seq<Span>, end: Time)
    requires SortedByStart(cs) && Collected(cs, i, hi, |cs|, group, end)
    ensures IsSegment(cs, i, hi)
    ensures group == cs[i..hi] && IsLatestEnd(group, end)
  {
    forall k, j | i <= k < hi <= j < |cs| ensures !Link(cs, k, j) {
      assert cs[k] == group[k - i] && cs[k] in group;
    }
  }

  // The inner loop: what is collected behind position i is a run, although every
  // later sibling is looked at and none is checked for being taken already.
  method Collect(cs: seq<Span>, i: nat, inGroup: array<bool>) returns (group: seq<Span>, groupEnd: Time, ghost hi: nat)
    requires SortedByStart(cs) && i < |cs| == inGroup.Length
    modifies inGroup
    ensures i < hi <= |cs| && IsSegment(cs, i, hi)
    ensures group == cs[i..hi] && IsLatestEnd(group, groupEnd)
    ensures forall j :: 0 <= j < |cs| ==> inGroup[j] == if i < j < hi then true else old(inGroup[j])
  {
    hide Collected, IsSegment, IsLatestEnd, SortedByStart;
    group, groupEnd := [cs[i]], cs[i].data.end;
    hi := i + 1;
    CollectedFirst(cs, i);
    for j := i + 1 to |cs|
      invariant i < hi <= j && Collected(cs, i, hi, j, group, groupEnd)
      invariant forall j :: 0 <= j < |cs| ==> inGroup[j] == if i < j < hi then true else old(inGroup[j])
    {
      CollectMore(cs, i, hi, j, group, groupEnd);
      if cs[j].data.start < groupEnd {
        group := group + [cs[j]];
        inGroup[j] := true;
        hi := j + 1;
        if cs[j].data.end > groupEnd {
          groupEnd := cs[j].data.end;
        }
      }
    }
    CollectedAll(cs, i, hi, group, groupEnd);
  }

  // What a run on the children may give: their arrangement by start, its division
  // into segments, and the groups.
  datatype Report = Report(cs: seq<Span>, cuts: seq<nat>, groups: seq<Group>)

  ghost predicate IsReport(children: seq<Span>, r: Report) {
    && multiset(r.cs) == multiset(children) && SortedByStart(r.cs)
    && IsPartition(r.cs, r.cuts) && r.cuts[|r.cuts| - 1] == |r.cs|
    && AreGroups(r.cs, r.cuts, r.groups)
  }

  // The siblings below a span that ran in parallel. report holds the sorted copy
  // that the method works on and its division into segments.
  method DetectParallelGroups(span: Span) returns (groups: seq<Group>, ghost report: Report)
    ensures IsReport(span.children, report) && report.groups == groups
    ensures Distinct(span.children) && !TieSensitive(span.children) ==> JoinsBonded(span.children, groups)
    ensures Distinct(span.children) && AllPositive(span.children) ==> JoinsOverlapping(span.children, groups)
  {
    hide IsPartition, AreGroups, JoinsBonded, JoinsOverlapping, TieSensitive, AllPositive;
    groups := [];
    if |span.children| < 2 {
      var cuts := FewChildren(span.children);
      report := Report(span.children, cuts, groups);
    } else {
      var children := SortByKey(span.children, (c: Span) => c.data.start);
      MultisetMembers(children, span.children);
      ghost var cuts;
      groups, cuts := GroupSorted(children);
      report := Report(children, cuts, groups);
    }
    hide IsReport;
    if Distinct(span.children) && !TieSensitive(span.children) {
      GroupsAreBonded(span.children, report);
    }
    if Distinct(span.children) && AllPositive(span.children) {
      ParallelIffOverlapping(span.children, report);
    }
  }

  // Fewer than two children make no group.
  lemma FewChildren(cs: seq<Span>) returns (cuts: seq<nat>)
    requires |cs| < 2
    ensures IsPartition(cs, cuts) && cuts[|cuts| - 1] == |cs| && AreGroups(cs, cuts, [])
  {
    cuts := [0];
    if |cs| == 1 {
      assert cs[0] in cs[0..1];
      OneMoreGroup(cs, [0], [], 1, Group(cs, cs[0].data.start, cs[0].data.end));
      cuts := [0] + [1];
    }
  }

  method GroupSorted(children: seq<Span>) returns (groups: seq<Group>, ghost cuts: seq<nat>)
    requires SortedByStart(children)
    ensures IsPartition(children, cuts) && cuts[|cuts| - 1] == |children|
    ensures AreGroups(children, cuts, groups)
  {
    cuts, groups := [0], [];
    assert IsPartition(children, cuts) && AreGroups(children, cuts, groups);
    hide AreGroups, SortedByStart, IsSegment, IsLatestEnd, IsPartition;
    var inGroup := new bool[|children|](_ => false);
    for i := 0 to |children|
      invariant |cuts| > 0 && IsPartition(children, cuts) && AreGroups(children, cuts, groups)
      invariant i <= cuts[|cuts| - 1] <= |children|
      invariant forall j :: i <= j < cuts[|cuts| - 1] ==> inGroup[j]
      invariant forall j :: cuts[|cuts| - 1] <= j < |children| ==> !inGroup[j]
    {
      if inGroup[i] {
        continue;
      }
      var group, groupEnd, hi := Collect(children, i, inGroup);
      OneMoreGroup(children, cuts, groups, hi, Group(group, children[i].data.start, groupEnd));
      if |group| > 1 {
        inGroup[i] := true;
        groups := groups + [Group(group, children[i].data.start, groupEnd)];
      }
      cuts := cuts + [hi];
    }
  }

  lemma {:induction false} CutsAscend(cs: seq<Span>, cuts: seq<nat>, n: nat, m: nat)
    requires IsPartition(cs, cuts) && n <= m < |cuts|
    ensures cuts[n] + (m - n) <= cuts[m]
    decreases m
  {
    if n < m {
      CutsAscend(cs, cuts, n, m - 1);
      assert SegmentAt(cs, cuts, m - 1);
    }
  }

  lemma {:induction false} SegmentOf(cs: seq<Span>, cuts: seq<nat>, i: nat, m: nat) returns (n: nat)
    requires IsPartition(cs, cuts) && m < |cuts| && i < cuts[m]
    ensures n < m && InSegment(cuts, n, i)
    decreases m
  {
    if cuts[m - 1] <= i {
      n := m - 1;
    } else {
      n := SegmentOf(cs, cuts, i, m - 1);
    }
  }

  // A segment is closed: no link leads out of it, to the left or to the right.
  lemma SegmentClosed(cs: seq<Span>, cuts: seq<nat>, n: nat)
    requires IsPartition(cs, cuts) && cuts[|cuts| - 1] == |cs| && n + 1 < |cuts|
    ensures Closed(cs, (i: nat) => InSegment(cuts, n, i))
  {
    forall i: nat, j: nat | i < |cs| && j < |cs| && InSegment(cuts, n, i) && !InSegment(cuts, n, j)
      ensures !Link(cs, i, j)
    {
      var m := SegmentOf(cs, cuts, j, |cuts| - 1);
      assert SegmentAt(cs, cuts, n) && SegmentAt(cs, cuts, m);
      if m < n {
        CutsAscend(cs, cuts, m + 1, n);
        assert !Link(cs, j, i);
      } else {
        CutsAscend(cs, cuts, n + 1, m);
      }
    }
  }

  lemma {:induction false} DownToFirst(cs: seq<Span>, lo: nat, hi: nat, s: nat -> bool, j: nat)
    requires IsSegment(cs, lo, hi) && Closed(cs, s) && lo <= j < hi && s(j)
    ensures s(lo)
    decreases j
  {
    if lo < j {
      assert LinkedBack(cs, lo, j);
      var k: nat :| lo <= k < j && Link(cs, k, j);
      assert Link(cs, j, k);
      DownToFirst(cs, lo, hi, s, k);
    }
  }

  lemma {:induction false} UpFromFirst(cs: seq<Span>, lo: nat, hi: nat, s: nat -> bool, j: nat)
    requires IsSegment(cs, lo, hi) && Closed(cs, s) && s(lo) && lo <= j < hi
    ensures s(j)
    decreases j
  {
    if lo < j {
      assert LinkedBack(cs, lo, j);
      var k: nat :| lo <= k < j && Link(cs, k, j);
      UpFromFirst(cs, lo, hi, s, k);
    }
  }

  // The segments are exactly the connected components, however ties in the sort
  // fell and whatever the durations.
  lemma SegmentsAreComponents(cs: seq<Span>, cuts: seq<nat>, i: nat, j: nat)
    requires IsPartition(cs, cuts) && cuts[|cuts| - 1] == |cs|
    requires i < |cs| && j < |cs|
    ensures SameSegment(cuts, i, j) <==> Connected(cs, i, j)
  {
    if SameSegment(cuts, i, j) {
      var m: nat :| InSegment(cuts, m, i) && InSegment(cuts, m, j);
      assert SegmentAt(cs, cuts, m);
      forall s: nat -> bool | Closed(cs, s) && s(i) ensures s(j) {
        DownToFirst(cs, cuts[m], cuts[m + 1], s, i);
        UpFromFirst(cs, cuts[m], cuts[m + 1], s, j);
      }
    }
    if Connected(cs, i, j) {
      var n := SegmentOf(cs, cuts, i, |cuts| - 1);
      SegmentClosed(cs, cuts, n);
      var s := (k: nat) => InSegment(cuts, n, k);
      assert Closed(cs, s) && s(i);
    }
  }

  // The groups found are components of two siblings or more, and every sibling
  // that shares a component with another one is in a group.
  lemma {:induction false} GroupsAreComponents(cs: seq<Span>, cuts: seq<nat>, groups: seq<Group>, i: nat, j: nat)
    requires IsPartition(cs, cuts) && AreGroups(cs, cuts, groups)
    requires i < j < cuts[|cuts| - 1] && SameSegment(cuts, i, j)
    ensures exists g :: g in groups && cs[i] in g.spans && cs[j] in g.spans
    decreases |cuts|
  {
    var lo, hi := cuts[|cuts| - 2], cuts[|cuts| - 1];
    assert SegmentAt(cs, cuts, |cuts| - 2);
    PartitionInit(cs, cuts);
    var m: nat :| InSegment(cuts, m, i) && InSegment(cuts, m, j);
    if m == |cuts| - 2 {
      var g := groups[|groups| - 1];
      assert g.spans[i - lo] == cs[i] && g.spans[j - lo] == cs[j];
    } else {
      CutsAscend(cs, cuts, m + 1, |cuts| - 2);
      var init := cuts[..|cuts| - 1];
      assert InSegment(init, m, i) && InSegment(init, m, j);
      if hi - lo < 2 {
        GroupsAreComponents(cs, init, groups, i, j);
      } else {
        GroupsAreComponents(cs, init, groups[..|groups| - 1], i, j);
      }
    }
  }

  // Conversely a group is the run of one segment.
  lemma {:induction false} GroupIsSegment(cs: seq<Span>, cuts: seq<nat>, groups: seq<Group>, k: nat) returns (n: nat)
    requires IsPartition(cs, cuts) && AreGroups(cs, cuts, groups) && k < |groups|
    ensures n + 1 < |cuts| && cuts[n] + 1 < cuts[n + 1] <= |cs|
    ensures IsGroupOf(cs, cuts[n], cuts[n + 1], groups[k])
    decreases |cuts|
  {
    var lo, hi := cuts[|cuts| - 2], cuts[|cuts| - 1];
    assert SegmentAt(cs, cuts, |cuts| - 2);
    PartitionInit(cs, cuts);
    if hi - lo < 2 {
      n := GroupIsSegment(cs, cuts[..|cuts| - 1], groups, k);
    } else if k == |groups| - 1 {
      n := |cuts| - 2;
    } else {
      n := GroupIsSegment(cs, cuts[..|cuts| - 1], groups[..|groups| - 1], k);
    }
  }

  // A group reaches from the first start to the last end of its spans.
  lemma GroupExtent(cs: seq<Span>, cuts: seq<nat>, groups: seq<Group>, g: Group)
    requires SortedByStart(cs) && IsPartition(cs, cuts) && AreGroups(cs, cuts, groups) && g in groups
    ensures |g.spans| >= 2
    ensures exists first :: first in g.spans && g.start == first.data.start
    ensures exists last :: last in g.spans && g.end == last.data.end
    ensures forall s :: s in g.spans ==> s in cs && g.start <= s.data.start && s.data.end <= g.end
  {
    var k: nat :| k < |groups| && groups[k] == g;
    var n := GroupIsSegment(cs, cuts, groups, k);
    hide AreGroups, IsPartition;
    assert g.spans[0] in g.spans;
    assert forall i :: cuts[n] <= i < cuts[n + 1] ==> cs[i] == g.spans[i - cuts[n]];
  }

  // The result in one statement: two different siblings are reported in one group
  // if and only if they are in the same component.
  lemma ParallelIffConnected(cs: seq<Span>, cuts: seq<nat>, groups: seq<Group>, i: nat, j: nat)
    requires IsPartition(cs, cuts) && cuts[|cuts| - 1] == |cs| && AreGroups(cs, cuts, groups)
    requires Distinct(cs) && i < j < |cs|
    ensures Together(groups, cs[i], cs[j]) <==> Connected(cs, i, j)
  {
    SegmentsAreComponents(cs, cuts, i, j);
    if SameSegment(cuts, i, j) {
      GroupsAreComponents(cs, cuts, groups, i, j);
    }
    if g :| g in groups && cs[i] in g.spans && cs[j] in g.spans {
      var k :| 0 <= k < |groups| && groups[k] == g;
      var n := GroupIsSegment(cs, cuts, groups, k);
      assert InSegment(cuts, n, i) && InSegment(cuts, n, j);
    }
  }

  ghost predicate Together(groups: seq<Group>, x: Span, y: Span) {
    exists g :: g in groups && x in g.spans && y in g.spans
  }

  lemma TogetherIffConnected(cs: seq<Span>, cuts: seq<nat>, groups: seq<Group>, p: nat, q: nat)
    requires IsPartition(cs, cuts) && cuts[|cuts| - 1] == |cs| && AreGroups(cs, cuts, groups)
    requires Distinct(cs) && p < |cs| && q < |cs| && p != q
    ensures Together(groups, cs[p], cs[q]) <==> Connected(cs, p, q)
  {
    hide IsPartition, AreGroups, Connected;
    if p < q {
      ParallelIffConnected(cs, cuts, groups, p, q);
    } else {
      ParallelIffConnected(cs, cuts, groups, q, p);
      SegmentsAreComponents(cs, cuts, p, q);
      SegmentsAreComponents(cs, cuts, q, p);
    }
  }

  // Connection through a relation between siblings that does not look at their order.
  ghost predicate JoinClosed(cs: seq<Span>, join: (Span, Span) -> bool, s: nat -> bool) {
    forall i: nat, j: nat :: i < |cs| && j < |cs| && s(i) && join(cs[i], cs[j]) ==> s(j)
  }

  ghost predicate Joined(cs: seq<Span>, join: (Span, Span) -> bool, i: nat, j: nat) {
    forall s: nat -> bool :: JoinClosed(cs, join, s) && s(i) ==> s(j)
  }

  lemma JoinedReordered(a: seq<Span>, b: seq<Span>, join: (Span, Span) -> bool, i: nat, j: nat, p: nat, q: nat)
    requires Distinct(b) && forall x :: x in a ==> x in b
    requires i < |a| && j < |a| && p < |b| && q < |b| && a[i] == b[p] && a[j] == b[q]
    requires Joined(a, join, i, j)
    ensures Joined(b, join, p, q)
  {
    forall s: nat -> bool | JoinClosed(b, join, s) && s(p) ensures s(q) {
      var moved := (m: nat) => m < |a| && exists n: nat :: n < |b| && b[n] == a[m] && s(n);
      forall x: nat, y: nat | x < |a| && y < |a| && moved(x) && join(a[x], a[y]) ensures moved(y) {
        assert a[y] in b;
      }
      assert JoinClosed(a, join, moved) && moved(i);
    }
  }

  // Two siblings that are linked in some order of the children: the later one
  // starts before the earlier one ends, or they start together and one of them lasts.
  predicate Bond(a: Span, b: Span) {
    if a.data.start < b.data.start then b.data.start < a.data.end
    else if b.data.start < a.data.start then a.data.start < b.data.end
    else 0 < a.data.Duration() || 0 < b.data.Duration()
  }

  // x and z start together, x lasts, z does not, and no sibling that started
  // before them is still running: whether z joins x depends on which comes first.
  ghost predicate TieSplits(children: seq<Span>, x: Span, z: Span) {
    && x.data.start == z.data.start && 0 < x.data.Duration() && z.data.Duration() <= 0
    && forall y :: y in children && y.data.start < x.data.start ==> y.data.end <= x.data.start
  }

  ghost predicate TieSensitive(children: seq<Span>) {
    exists x, z :: x in children && z in children && TieSplits(children, x, z)
  }

  ghost predicate AllPositive(children: seq<Span>) {
    forall c :: c in children ==> 0 < c.data.Duration()
  }

  // A bond that is no link is a tie with the lasting sibling behind.
  lemma BondOrLink(cs: seq<Span>, i: nat, j: nat)
    requires SortedByStart(cs) && i < |cs| && j < |cs| && i != j
    ensures Link(cs, i, j) ==> Bond(cs[i], cs[j])
    ensures Bond(cs[i], cs[j]) && !Link(cs, i, j) ==>
      && cs[i].data.start == cs[j].data.start
      && (cs[i].data.Duration() <= 0 < cs[j].data.Duration() || cs[j].data.Duration() <= 0 < cs[i].data.Duration())
  {
  }

  // A sibling still running when a tie starts is linked to both its members.
  lemma BondThroughEarlier(cs: seq<Span>, i: nat, j: nat) returns (m: nat)
    requires SortedByStart(cs) && i < |cs| && j < |cs| && !TieSensitive(cs)
    requires cs[i].data.start == cs[j].data.start && cs[i].data.Duration() <= 0 < cs[j].data.Duration()
    ensures m < |cs| && Link(cs, m, i) && Link(cs, i, m) && Link(cs, m, j) && Link(cs, j, m)
  {
    assert cs[i] in cs && cs[j] in cs && !TieSplits(cs, cs[j], cs[i]);
    var y :| y in cs && y.data.start < cs[j].data.start < y.data.end;
    m :| 0 <= m < |cs| && cs[m] == y;
  }

  // Where no tie is sensitive, links and bonds connect the same siblings.
  lemma ConnectedByBonds(cs: seq<Span>, i: nat, j: nat)
    requires SortedByStart(cs) && !TieSensitive(cs)
    ensures Connected(cs, i, j) <==> Joined(cs, Bond, i, j)
  {
    hide TieSensitive, SortedByStart;
    forall s: nat -> bool ensures Closed(cs, s) <==> JoinClosed(cs, Bond, s) {
      LinksGiveBonds(cs, s);
      BondsGiveLinks(cs, s);
    }
  }

  lemma BondsGiveLinks(cs: seq<Span>, s: nat -> bool)
    requires SortedByStart(cs)
    ensures JoinClosed(cs, Bond, s) ==> Closed(cs, s)
  {
    if JoinClosed(cs, Bond, s) {
      forall i: nat, j: nat | i < |cs| && j < |cs| && s(i) && Link(cs, i, j) ensures s(j) {
        BondOrLink(cs, i, j);
      }
    }
  }

  lemma LinksGiveBonds(cs: seq<Span>, s: nat -> bool)
    requires SortedByStart(cs) && !TieSensitive(cs)
    ensures Closed(cs, s) ==> JoinClosed(cs, Bond, s)
  {
    hide TieSensitive;
    if Closed(cs, s) {
      forall i: nat, j: nat | i < |cs| && j < |cs| && s(i) && Bond(cs[i], cs[j]) ensures s(j) {
        if i != j && !Link(cs, i, j) {
          BondOrLink(cs, i, j);
          hide SortedByStart, Bond;
          if cs[i].data.Duration() <= 0 {
            var m := BondThroughEarlier(cs, i, j);
            assert s(m);
          } else {
            var m := BondThroughEarlier(cs, j, i);
            assert s(m);
          }
        }
      }
    }
  }

  // Whatever order the children are listed in: two of them are reported together
  // if and only if a chain of bonds joins them.
  ghost predicate JoinsBonded(children: seq<Span>, groups: seq<Group>) {
    forall i: nat, j: nat :: i < |children| && j < |children| && i != j ==>
      (Together(groups, children[i], children[j]) <==> Joined(children, Bond, i, j))
  }

  // The same with overlaps in time.
  ghost predicate JoinsOverlapping(children: seq<Span>, groups: seq<Group>) {
    forall i: nat, j: nat :: i < |children| && j < |children| && i != j ==>
      (Together(groups, children[i], children[j]) <==> Joined(children, Overlap, i, j))
  }

  lemma SensitiveReordered(a: seq<Span>, b: seq<Span>)
    requires forall x :: x in a <==> x in b
    ensures TieSensitive(a) <==> TieSensitive(b)
  {
    forall x, z | x in a && z in a ensures TieSplits(a, x, z) <==> TieSplits(b, x, z) {}
  }

  lemma GroupsAreBonded(children: seq<Span>, r: Report)
    requires IsReport(children, r) && Distinct(children) && !TieSensitive(children)
    ensures JoinsBonded(children, r.groups)
  {
    MultisetMembers(r.cs, children);
    DistinctReordered(children, r.cs);
    SensitiveReordered(r.cs, children);
    hide SortedByStart, IsPartition, AreGroups, Joined, Connected, TieSensitive;
    forall i: nat, j: nat | i < |children| && j < |children| && i != j
      ensures Together(r.groups, children[i], children[j]) <==> Joined(children, Bond, i, j)
    {
      assert children[i] in r.cs && children[j] in r.cs;
      var p: nat :| p < |r.cs| && r.cs[p] == children[i];
      var q: nat :| q < |r.cs| && r.cs[q] == children[j];
      TogetherIffConnected(r.cs, r.cuts, r.groups, p, q);
      ConnectedByBonds(r.cs, p, q);
      if Joined(children, Bond, i, j) {
        JoinedReordered(children, r.cs, Bond, i, j, p, q);
      }
      if Joined(r.cs, Bond, p, q) {
        JoinedReordered(r.cs, children, Bond, p, q, i, j);
      }
    }
  }

  // With positive durations bonds are overlaps, and no tie is sensitive.
  lemma ParallelIffOverlapping(children: seq<Span>, r: Report)
    requires IsReport(children, r) && Distinct(children) && AllPositive(children)
    ensures JoinsOverlapping(children, r.groups)
  {
    hide IsReport;
    GroupsAreBonded(children, r);
    forall i: nat, j: nat | i < |children| && j < |children|
      ensures Bond(children[i], children[j]) <==> Overlap(children[i], children[j])
    {
      assert children[i] in children && children[j] in children;
    }
    forall s: nat -> bool ensures JoinClosed(children, Bond, s) <==> JoinClosed(children, Overlap, s) {}
  }

  lemma SegmentExists(cs: seq<Span>, i: nat) returns (hi: nat, g: Group)
    requires SortedByStart(cs) && i < |cs|
    ensures i < hi <= |cs| && IsSegment(cs, i, hi) && IsGroupOf(cs, i, hi, g)
  {
    hide Collected, IsSegment, IsLatestEnd, SortedByStart;
    var group, end := [cs[i]], cs[i].data.end;
    hi := i + 1;
    CollectedFirst(cs, i);
    for j := i + 1 to |cs|
      invariant i < hi <= j && Collected(cs, i, hi, j, group, end)
    {
      CollectMore(cs, i, hi, j, group, end);
      if cs[j].data.start < end {
        group, hi, end := group + [cs[j]], j + 1, if cs[j].data.end > end then cs[j].data.end else end;
      }
    }
    CollectedAll(cs, i, hi, group, end);
    g := Group(group, cs[i].data.start, end);
  }

  // Every arrangement by start has its report.
  lemma ReportExists(children: seq<Span>, cs: seq<Span>) returns (r: Report)
    requires multiset(cs) == multiset(children) && SortedByStart(cs)
    ensures IsReport(children, r) && r.cs == cs
  {
    var cuts: seq<nat>, groups: seq<Group> := [0], [];
    assert IsPartition(cs, cuts) && AreGroups(cs, cuts, groups);
    hide AreGroups, SortedByStart, IsSegment, IsGroupOf, IsPartition;
    while cuts[|cuts| - 1] < |cs|
      invariant |cuts| > 0 && cuts[|cuts| - 1] <= |cs|
      invariant IsPartition(cs, cuts) && AreGroups(cs, cuts, groups)
      decreases |cs| - cuts[|cuts| - 1]
    {
      var lo := cuts[|cuts| - 1];
      var hi, g := SegmentExists(cs, lo);
      OneMoreGroup(cs, cuts, groups, hi, g);
      cuts, groups := cuts + [hi], if hi - lo > 1 then groups + [g] else groups;
    }
    r := Report(cs, cuts, groups);
  }

  // At the front z is on its own.
  lemma AloneInFront(children: seq<Span>, r: Report, x: Span, z: Span, at: nat)
    requires IsReport(children, r) && Distinct(children) && x in children && z in children && TieSplits(children, x, z)
    requires at < |r.cs| && r.cs[at] == z && forall k :: 0 <= k < at ==> r.cs[k].data.start < z.data.start
    ensures !Together(r.groups, x, z)
  {
    MultisetMembers(r.cs, children);
    DistinctReordered(children, r.cs);
    var q: nat :| q < |r.cs| && r.cs[q] == x;
    TogetherIffConnected(r.cs, r.cuts, r.groups, q, at);
    TogetherIffConnected(r.cs, r.cuts, r.groups, at, q);
    var alone := (m: nat) => m == at;
    hide IsPartition, AreGroups, Together;
    forall j: nat | j < |r.cs| ensures !Link(r.cs, at, j) {
      assert r.cs[j] in children;
    }
    assert Closed(r.cs, alone) && alone(at) && !alone(q);
  }

  // At the back it joins x.
  lemma JoinedBehind(children: seq<Span>, r: Report, x: Span, z: Span, at: nat)
    requires IsReport(children, r) && Distinct(children) && x in children && z in children && TieSplits(children, x, z)
    requires at < |r.cs| && r.cs[at] == z && forall k :: at < k < |r.cs| ==> z.data.start < r.cs[k].data.start
    ensures Together(r.groups, x, z)
  {
    MultisetMembers(r.cs, children);
    DistinctReordered(children, r.cs);
    var q: nat :| q < |r.cs| && r.cs[q] == x;
    TogetherIffConnected(r.cs, r.cuts, r.groups, q, at);
    assert Link(r.cs, q, at);
  }

  ghost predicate SameTogether(children: seq<Span>, g: seq<Group>, h: seq<Group>) {
    forall x, y :: x in children && y in children && x != y ==> (Together(g, x, y) <==> Together(h, x, y))
  }

  // A sensitive tie shows: two arrangements by start report different groups.
  lemma SensitiveTieShows(children: seq<Span>) returns (a: Report, b: Report)
    requires Distinct(children) && TieSensitive(children)
    ensures IsReport(children, a) && IsReport(children, b) && !SameTogether(children, a.groups, b.groups)
  {
    hide SortedByStart, IsPartition, AreGroups, Together;
    var x, z :| x in children && z in children && TieSplits(children, x, z);
    var cs := ArrangementExists(children);
    MultisetMembers(cs, children);
    var p: nat :| p < |cs| && cs[p] == z;
    var ahead, i := MovedInTie(cs, p, true);
    var behind, j := MovedInTie(cs, p, false);
    a := ReportExists(children, ahead);
    b := ReportExists(children, behind);
    AloneInFront(children, a, x, z, i);
    JoinedBehind(children, b, x, z, j);
  }

  // Where no tie is sensitive, the groups do not depend on how ties fall.
  lemma InsensitiveTiesAgree(children: seq<Span>, a: Report, b: Report)
    requires Distinct(children) && !TieSensitive(children)
    requires IsReport(children, a) && IsReport(children, b)
    ensures SameTogether(children, a.groups, b.groups)
  {
    hide IsReport, Together;
    GroupsAreBonded(children, a);
    GroupsAreBonded(children, b);
    forall x, y | x in children && y in children && x != y
      ensures Together(a.groups, x, y) <==> Together(b.groups, x, y)
    {
      var i: nat :| i < |children| && children[i] == x;
      var j: nat :| j < |children| && children[j] == y;
    }
  }

  // Any two arrangements of the children by start put the same children together
  // if and only if no tie is sensitive.
  lemma TiesExact(children: seq<Span>)
    requires Distinct(children)
    ensures !TieSensitive(children) <==>
              forall a: Report, b: Report :: IsReport(children, a) && IsReport(children, b) ==>
                SameTogether(children, a.groups, b.groups)
  {
    hide IsReport, TieSensitive, SameTogether;
    if TieSensitive(children) {
      var a, b := SensitiveTieShows(children);
    } else {
      forall a: Report, b: Report | IsReport(children, a) && IsReport(children, b)
        ensures SameTogether(children, a.groups, b.groups)
      {
        InsensitiveTiesAgree(children, a, b);
      }
    }
  }
}
