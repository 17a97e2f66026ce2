// The idle stretches between siblings.
module Gaps {
  import opened Model
  import opened Sequences
  import opened TraceTree
  import opened Arrangements

  datatype Gap = Gap(before: Span, after: Span, duration: int)

  predicate GapAfter(cs: seq<Span>, i: nat) {
    i + 1 < |cs| && cs[i].data.end < cs[i + 1].data.start
  }

  // gaps are, in order, the gaps that follow the first n siblings.
  ghost predicate AreGaps(cs: seq<Span>, n: nat, gaps: seq<Gap>)
    requires n < |cs| || n == 0
  {
    if n == 0 then gaps == []
    else if !GapAfter(cs, n - 1) then AreGaps(cs, n - 1, gaps)
    else
      && |gaps| > 0
      && gaps[|gaps| - 1] == Gap(cs[n - 1], cs[n], cs[n].data.start - cs[n - 1].data.end)
      && AreGaps(cs, n - 1, gaps[..|gaps| - 1])
  }

  // What can be reported for the children: the gaps in one of their arrangements by start.
  ghost predicate IsReport(children: seq<Span>, cs: seq<Span>, gaps: seq<Gap>) {
    && multiset(cs) == multiset(children) && SortedByStart(cs)
    && AreGaps(cs, if |cs| == 0 then 0 else |cs| - 1, gaps)
  }

  method DetectGaps(trace: Trace) returns (gaps: seq<Gap>, ghost cs: seq<Span>)
    ensures trace.root.None? ==> gaps == []
    ensures trace.root.Some? ==> IsReport(trace.root.value.children, cs, gaps)
  {
    gaps, cs := [], [];
    if trace.root.None? {
      return;
    }
    var children := SortByKey(trace.root.value.children, (c: Span) => c.data.start);
    MultisetMembers(children, trace.root.value.children);
    cs := children;
    if |trace.root.value.children| < 2 {
      return;
    }
    for i := 0 to |children| - 1
      invariant AreGaps(cs, i, gaps)
    {
      var cur, next := children[i], children[i + 1];
      if next.data.start > cur.data.end {
        var gap := next.data.start - cur.data.end;
        ghost var before := gaps;
        if gap > 0 {
          gaps := gaps + [Gap(cur, next, gap)];
        }
        assert gaps[..|gaps| - 1] == before;
      }
    }
  }

  lemma {:induction false} GapReported(cs: seq<Span>, n: nat, gaps: seq<Gap>, i: nat)
    requires (n < |cs| || n == 0) && AreGaps(cs, n, gaps)
    requires i < n && GapAfter(cs, i)
    ensures Gap(cs[i], cs[i + 1], cs[i + 1].data.start - cs[i].data.end) in gaps
  {
    if i < n - 1 {
      GapReported(cs, n - 1, if GapAfter(cs, n - 1) then gaps[..|gaps| - 1] else gaps, i);
    }
  }

  lemma {:induction false} GapPosition(cs: seq<Span>, n: nat, gaps: seq<Gap>, g: Gap) returns (i: nat)
    requires (n < |cs| || n == 0) && AreGaps(cs, n, gaps) && g in gaps
    ensures i < n && GapAfter(cs, i) && g == Gap(cs[i], cs[i + 1], cs[i + 1].data.start - cs[i].data.end)
  {
    if GapAfter(cs, n - 1) && g == gaps[|gaps| - 1] {
      i := n - 1;
    } else {
      i := GapPosition(cs, n - 1, if GapAfter(cs, n - 1) then gaps[..|gaps| - 1] else gaps, g);
    }
  }

  // The gaps reported: one wherever a child starts after the one before it has ended.
  lemma GapIff(cs: seq<Span>, gaps: seq<Gap>, g: Gap)
    requires AreGaps(cs, if |cs| == 0 then 0 else |cs| - 1, gaps)
    ensures g in gaps <==>
              exists i :: 0 <= i < |cs| - 1 && cs[i].data.end < cs[i + 1].data.start && g.before == cs[i] &&
                g.after == cs[i + 1] && g.duration == cs[i + 1].data.start - cs[i].data.end
  {
    hide AreGaps;
    if g in gaps {
      var i := GapPosition(cs, if |cs| == 0 then 0 else |cs| - 1, gaps, g);
    }
    if i :| 0 <= i < |cs| - 1 && cs[i].data.end < cs[i + 1].data.start && g.before == cs[i] &&
            g.after == cs[i + 1] && g.duration == cs[i + 1].data.start - cs[i].data.end {
      GapReported(cs, |cs| - 1, gaps, i);
    }
  }

  ghost predicate Covered(cs: seq<Span>, t: Time) {
    exists c :: c in cs && c.data.start <= t < c.data.end
  }

  predicate During(g: Gap, t: Time) {
    g.before.data.end <= t < g.after.data.start
  }

  // No idle moment is missed: every moment between the first and the last start
  // that no sibling covers lies in a reported gap.
  lemma IdleIsReported(cs: seq<Span>, gaps: seq<Gap>, t: Time)
    requires SortedByStart(cs) && |cs| > 0 && AreGaps(cs, |cs| - 1, gaps)
    requires cs[0].data.start <= t < cs[|cs| - 1].data.start
    requires !Covered(cs, t)
    ensures exists g :: g in gaps && During(g, t)
  {
    var i := 0;
    while cs[i + 1].data.start <= t
      invariant 0 <= i < |cs| - 1 && cs[i].data.start <= t
      decreases |cs| - i
    {
      i := i + 1;
    }
    assert cs[i] in cs;
    GapReported(cs, |cs| - 1, gaps, i);
    assert During(Gap(cs[i], cs[i + 1], cs[i + 1].data.start - cs[i].data.end), t);
  }

  ghost predicate AllIdle(cs: seq<Span>, gaps: seq<Gap>) {
    forall g, t :: g in gaps && During(g, t) ==> !Covered(cs, t)
  }

  // Sibling k runs into the gap that is said to follow sibling i.
  predicate Outlasts(cs: seq<Span>, k: nat, i: nat)
    requires k < i && i + 1 < |cs|
  {
    && cs[k].data.start < cs[k].data.end
    && cs[k].data.start < cs[i + 1].data.start
    && cs[i].data.end < cs[k].data.end
  }

  ghost predicate NoneOutlasts(cs: seq<Span>) {
    forall i: nat, k: nat :: k < i && i + 1 < |cs| && GapAfter(cs, i) ==> !Outlasts(cs, k, i)
  }

  // Every reported gap is idle throughout exactly when no earlier sibling
  // outlasts the one the gap is said to follow. Durations may have any sign.
  lemma ReportedIsIdle(cs: seq<Span>, gaps: seq<Gap>)
    requires SortedByStart(cs) && AreGaps(cs, if |cs| == 0 then 0 else |cs| - 1, gaps)
    ensures AllIdle(cs, gaps) <==> NoneOutlasts(cs)
  {
    if NoneOutlasts(cs) {
      forall g, t | g in gaps && During(g, t) ensures !Covered(cs, t) {
        GapIsIdle(cs, gaps, g, t);
      }
    } else {
      var i: nat, k: nat :| k < i && i + 1 < |cs| && GapAfter(cs, i) && Outlasts(cs, k, i);
      OutlastedGap(cs, gaps, i, k);
    }
  }

  lemma GapIsIdle(cs: seq<Span>, gaps: seq<Gap>, g: Gap, t: Time)
    requires SortedByStart(cs) && AreGaps(cs, if |cs| == 0 then 0 else |cs| - 1, gaps)
    requires NoneOutlasts(cs) && g in gaps && During(g, t)
    ensures !Covered(cs, t)
  {
    var i := GapPosition(cs, if |cs| == 0 then 0 else |cs| - 1, gaps, g);
    hide AreGaps;
    forall k | 0 <= k < |cs| ensures !(cs[k].data.start <= t < cs[k].data.end) {
      if k < i {
        assert !Outlasts(cs, k, i);
      }
    }
  }

  // The gap is not idle where the outlasting sibling and the gap first meet.
  lemma OutlastedGap(cs: seq<Span>, gaps: seq<Gap>, i: nat, k: nat)
    requires AreGaps(cs, if |cs| == 0 then 0 else |cs| - 1, gaps)
    requires k < i && i + 1 < |cs| && GapAfter(cs, i) && Outlasts(cs, k, i)
    ensures !AllIdle(cs, gaps)
  {
    GapReported(cs, |cs| - 1, gaps, i);
    var g := Gap(cs[i], cs[i + 1], cs[i + 1].data.start - cs[i].data.end);
    var t := if cs[k].data.start < cs[i].data.end then cs[i].data.end else cs[k].data.start;
    assert cs[k] in cs;
    assert During(g, t) && Covered(cs, t);
  }

  // y and z can come next to each other, with a gap between them into which x runs.
  ghost predicate FalseGap(children: seq<Span>, x: Span, y: Span, z: Span) {
    && x in children && y in children && z in children && y != z
    && y.data.start <= z.data.start && (forall w :: w in children ==> !(y.data.start < w.data.start < z.data.start))
    && y.data.end < z.data.start
    && x.data.start < x.data.end && y.data.end < x.data.end
    && x.data.start <= y.data.start && x.data.start < z.data.start
  }

  lemma {:induction false} GapsExist(cs: seq<Span>, n: nat) returns (gaps: seq<Gap>)
    requires n < |cs| || n == 0
    ensures AreGaps(cs, n, gaps)
  {
    if n == 0 {
      gaps := [];
    } else {
      gaps := GapsExist(cs, n - 1);
      if GapAfter(cs, n - 1) {
        var g := Gap(cs[n - 1], cs[n], cs[n].data.start - cs[n - 1].data.end);
        assert (gaps + [g])[..|gaps|] == gaps;
        gaps := gaps + [g];
      }
    }
  }

  // An arrangement in which such a gap is reported.
  lemma FalseGapShows(children: seq<Span>, x: Span, y: Span, z: Span) returns (cs: seq<Span>, gaps: seq<Gap>)
    requires FalseGap(children, x, y, z)
    ensures IsReport(children, cs, gaps) && !AllIdle(cs, gaps)
  {
    hide SortedByStart, AreGaps, AllIdle;
    var i;
    cs, i := ArrangedTogether(children, y, z);
    MultisetMembers(cs, children);
    var k: nat :| k < |cs| && cs[k] == x;
    assert k < i;
    gaps := GapsExist(cs, |cs| - 1);
    OutlastedGap(cs, gaps, i, k);
  }

  lemma OutlastedIsFalse(children: seq<Span>, cs: seq<Span>, i: nat, k: nat)
    requires Distinct(children) && multiset(cs) == multiset(children) && SortedByStart(cs)
    requires k < i && i + 1 < |cs| && GapAfter(cs, i) && Outlasts(cs, k, i)
    ensures FalseGap(children, cs[k], cs[i], cs[i + 1])
  {
    MultisetMembers(cs, children);
    DistinctReordered(children, cs);
    assert cs[k] in cs && cs[i] in cs && cs[i + 1] in cs;
    forall w | w in children ensures !(cs[i].data.start < w.data.start < cs[i + 1].data.start) {
      var j: nat :| j < |cs| && cs[j] == w;
    }
  }

  // On the children as given: however ties fall every reported gap is idle throughout,
  // if and only if no two of them can be neighbours with a gap between them into which
  // a third one runs.
  lemma AlwaysIdleIff(children: seq<Span>)
    requires Distinct(children)
    ensures (forall x, y, z :: !FalseGap(children, x, y, z)) <==>
              forall cs: seq<Span>, gaps: seq<Gap> :: IsReport(children, cs, gaps) ==> AllIdle(cs, gaps)
  {
    hide FalseGap, AllIdle, AreGaps, SortedByStart, Distinct;
    if x, y, z :| FalseGap(children, x, y, z) {
      var cs, gaps := FalseGapShows(children, x, y, z);
    } else {
      forall cs: seq<Span>, gaps: seq<Gap> | IsReport(children, cs, gaps) ensures AllIdle(cs, gaps) {
        ReportedIsIdle(cs, gaps);
        if !NoneOutlasts(cs) {
          var i: nat, k: nat :| k < i && i + 1 < |cs| && GapAfter(cs, i) && Outlasts(cs, k, i);
          OutlastedIsFalse(children, cs, i, k);
        }
      }
    }
  }
}
