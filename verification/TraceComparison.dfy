// Comparing two traces span by span, matched by where they hang in their trace.
module TraceComparison {
  import opened Model
  import opened Sequences
  import opened KeyedLog
  import opened SpanOrder
  import opened SpanGroups

  datatype SpanDiff = SpanDiff(baseSpanId: SpanID, compareSpanId: SpanID, durationDeltaMs: real)

  datatype Comparison = Comparison(
    durationDeltaMs: real,
    spanCountDelta: int,
    errorDelta: int,
    matched: seq<SpanDiff>,
    onlyInBase: seq<SpanID>,
    onlyInCompare: seq<SpanID>)

  function DurationMs(d: int): real { d as real / 1000000.0 }

  // The same outcome with the spans themselves in place of their identifiers.
  datatype Diff = Diff(pairs: seq<(Span, Span)>, onlyBase: seq<Span>, onlyCompare: seq<Span>)

  function IdOf(s: Span): SpanID { s.data.spanId }

  function DiffOf(p: (Span, Span)): SpanDiff {
    SpanDiff(p.0.data.spanId, p.1.data.spanId, DurationMs(p.1.data.Duration()) - DurationMs(p.0.data.Duration()))
  }

  function Group(groups: Groups, k: string): seq<Span> {
    if k in groups then groups[k] else []
  }

  // The first spans of two groups pair up in order; the longer group's rest is
  // on its own.
  function DiffGroup(b: seq<Span>, c: seq<Span>): Diff {
    var n := if |c| < |b| then |c| else |b|;
    Diff(seq(n, i requires 0 <= i < n => (b[i], c[i])), b[n..], c[n..])
  }

  function Join(a: Diff, b: Diff): Diff {
    Diff(a.pairs + b.pairs, a.onlyBase + b.onlyBase, a.onlyCompare + b.onlyCompare)
  }

  function DiffGroups(keys: seq<string>, base: Groups, compare: Groups): Diff {
    if keys == [] then Diff([], [], [])
    else
      var k := keys[|keys| - 1];
      Join(DiffGroups(keys[..|keys| - 1], base, compare), DiffGroup(Group(base, k), Group(compare, k)))
  }

  // What a comparison works from: the groups of both traces and their keys in order.
  datatype Matching = Matching(keys: seq<string>, base: Groups, compare: Groups)

  // diff is the outcome of comparing two lists of spans group by group.
  ghost predicate Compares(base: seq<Span>, compare: seq<Span>, m: Matching, diff: Diff) {
    && IsGrouping(base, m.base) && IsGrouping(compare, m.compare)
    && IsEnumeration(m.keys, m.base.Keys + m.compare.Keys)
    && diff == DiffGroups(m.keys, m.base, m.compare)
  }

  // The lists of a comparison: the outcome, by identifier.
  ghost predicate Reports(diff: Diff, matched: seq<SpanDiff>, onlyInBase: seq<SpanID>, onlyInCompare: seq<SpanID>) {
    && matched == Mapped(diff.pairs, DiffOf)
    && onlyInBase == Mapped(diff.onlyBase, IdOf)
    && onlyInCompare == Mapped(diff.onlyCompare, IdOf)
  }

  function BaseId(d: SpanDiff): SpanID { d.baseSpanId }

  function CompareId(d: SpanDiff): SpanID { d.compareSpanId }

  // The identifiers of each trace, every occurrence of one, are reported once,
  // as matched or as missing from the other trace.
  ghost predicate AccountsFor(r: Comparison, base: seq<Span>, compare: seq<Span>) {
    && multiset(Mapped(r.matched, BaseId)) + multiset(r.onlyInBase) == multiset(Mapped(base, IdOf))
    && multiset(Mapped(r.matched, CompareId)) + multiset(r.onlyInCompare) == multiset(Mapped(compare, IdOf))
    && |r.onlyInCompare| - |r.onlyInBase| == |compare| - |base|
  }

  ghost predicate ReportsNoDifference(r: Comparison) {
    && r.onlyInBase == [] && r.onlyInCompare == []
    && forall d :: d in r.matched ==> d.baseSpanId == d.compareSpanId && d.durationDeltaMs == 0.0
  }

  // The duration of c less that of b, from nanoseconds to milliseconds.
  ghost predicate IsDelta(delta: real, b: Span, c: Span) {
    delta == ((c.data.end - c.data.start) - (b.data.end - b.data.start)) as real / 1000000.0
  }

  // The match names a span of each trace, and by how much the second took longer.
  ghost predicate IsMeasured(d: SpanDiff, base: seq<Span>, compare: seq<Span>) {
    exists b, c :: b in base && c in compare && d.baseSpanId == b.data.spanId && d.compareSpanId == c.data.spanId &&
      IsDelta(d.durationDeltaMs, b, c)
  }

  ghost predicate MatchesMeasured(matched: seq<SpanDiff>, base: seq<Span>, compare: seq<Span>) {
    forall d :: d in matched ==> IsMeasured(d, base, compare)
  }

  method CompareTraces(base: Trace, compare: Trace) returns (r: Comparison, ghost m: Matching, ghost diff: Diff)
    ensures r.durationDeltaMs == (compare.duration - base.duration) as real / 1000000.0
    ensures r.spanCountDelta == compare.spanCount - base.spanCount
    ensures r.errorDelta == compare.errorCount - base.errorCount
    ensures Compares(base.spans, compare.spans, m, diff)
    ensures Reports(diff, r.matched, r.onlyInBase, r.onlyInCompare)
    ensures AccountsFor(r, base.spans, compare.spans)
    ensures MatchesMeasured(r.matched, base.spans, compare.spans)
    ensures base.spans == compare.spans && UniqueSpanIds(base.spans) ==> ReportsNoDifference(r)
  {
    hide IsGrouping, IsEnumeration, Reports, DiffGroups, AccountsFor, MatchesMeasured, ReportsNoDifference, Compares;
    var g := GroupSpans(base.spans);
    var h := GroupSpans(compare.spans);
    var keys := SortTexts(g.Keys + h.Keys);
    m := Matching(keys, g, h);
    var matched, onlyInBase, onlyInCompare := ReportGroups(keys, g, h);
    diff := DiffGroups(keys, g, h);
    r := Comparison(DurationMs(compare.duration) - DurationMs(base.duration), compare.spanCount - base.spanCount,
                    compare.errorCount - base.errorCount, matched, onlyInBase, onlyInCompare);
    assert Compares(base.spans, compare.spans, m, diff) by {
      ComparesHere(base.spans, compare.spans, m);
    }
    ReportAccounts(base.spans, compare.spans, m, diff, r);
    ReportMeasures(base.spans, compare.spans, m, diff, r);
    if base.spans == compare.spans && UniqueSpanIds(base.spans) {
      ReportOfSelf(base.spans, m, diff, r);
    }
  }

  lemma ComparesHere(base: seq<Span>, compare: seq<Span>, m: Matching)
    requires IsGrouping(base, m.base) && IsGrouping(compare, m.compare)
    requires IsEnumeration(m.keys, m.base.Keys + m.compare.Keys)
    ensures Compares(base, compare, m, DiffGroups(m.keys, m.base, m.compare))
  {
  }

  method ReportGroups(keys: seq<string>, g: Groups, h: Groups)
    returns (matched: seq<SpanDiff>, onlyInBase: seq<SpanID>, onlyInCompare: seq<SpanID>)
    ensures Reports(DiffGroups(keys, g, h), matched, onlyInBase, onlyInCompare)
  {
    matched, onlyInBase, onlyInCompare := [], [], [];
    hide DiffGroup;
    for i := 0 to |keys|
      invariant Reports(DiffGroups(keys[..i], g, h), matched, onlyInBase, onlyInCompare)
    {
      assert keys[..i + 1][..i] == keys[..i];
      var p, b, c := ReportGroup(Group(g, keys[i]), Group(h, keys[i]));
      ReportsJoin(DiffGroups(keys[..i], g, h), matched, onlyInBase, onlyInCompare,
                  DiffGroup(Group(g, keys[i]), Group(h, keys[i])), p, b, c);
      matched, onlyInBase, onlyInCompare := matched + p, onlyInBase + b, onlyInCompare + c;
    }
    assert keys[..|keys|] == keys;
  }

  lemma ReportsJoin(d: Diff, p: seq<SpanDiff>, b: seq<SpanID>, c: seq<SpanID>,
                    d': Diff, p': seq<SpanDiff>, b': seq<SpanID>, c': seq<SpanID>)
    requires Reports(d, p, b, c) && Reports(d', p', b', c')
    ensures Reports(Join(d, d'), p + p', b + b', c + c')
  {
    MappedConcat(d.pairs, d'.pairs, DiffOf);
    MappedConcat(d.onlyBase, d'.onlyBase, IdOf);
    MappedConcat(d.onlyCompare, d'.onlyCompare, IdOf);
  }

  // The loops over one group.
  method ReportGroup(b: seq<Span>, c: seq<Span>)
    returns (matched: seq<SpanDiff>, onlyInBase: seq<SpanID>, onlyInCompare: seq<SpanID>)
    ensures Reports(DiffGroup(b, c), matched, onlyInBase, onlyInCompare)
  {
    ghost var diff := DiffGroup(b, c);
    var minLen := if |c| < |b| then |c| else |b|;
    matched, onlyInBase, onlyInCompare := [], [], [];
    for i := 0 to minLen
      invariant matched == Mapped(diff.pairs[..i], DiffOf)
    {
      var delta := DurationMs(c[i].data.Duration()) - DurationMs(b[i].data.Duration());
      matched := matched + [SpanDiff(b[i].data.spanId, c[i].data.spanId, delta)];
    }
    for i := minLen to |b|
      invariant onlyInBase == Mapped(diff.onlyBase[..i - minLen], IdOf)
    {
      onlyInBase := onlyInBase + [b[i].data.spanId];
    }
    for i := minLen to |c|
      invariant onlyInCompare == Mapped(diff.onlyCompare[..i - minLen], IdOf)
    {
      onlyInCompare := onlyInCompare + [c[i].data.spanId];
    }
    assert diff.pairs[..minLen] == diff.pairs;
  }

  function First(p: (Span, Span)): Span { p.0 }

  function Second(p: (Span, Span)): Span { p.1 }

  // A diff uses up, between pairs and leftovers, the spans of both sides.
  ghost predicate UsesUp(d: Diff, base: seq<Span>, compare: seq<Span>) {
    && multiset(Mapped(d.pairs, First)) + multiset(d.onlyBase) == multiset(base)
    && multiset(Mapped(d.pairs, Second)) + multiset(d.onlyCompare) == multiset(compare)
  }

  lemma DiffGroupUsesUp(b: seq<Span>, c: seq<Span>)
    ensures UsesUp(DiffGroup(b, c), b, c)
  {
    var d := DiffGroup(b, c);
    assert Mapped(d.pairs, First) + d.onlyBase == b;
    assert Mapped(d.pairs, Second) + d.onlyCompare == c;
  }

  lemma JoinUsesUp(d: Diff, b: seq<Span>, c: seq<Span>, d': Diff, b': seq<Span>, c': seq<Span>)
    requires UsesUp(d, b, c) && UsesUp(d', b', c')
    ensures UsesUp(Join(d, d'), b + b', c + c')
  {
    MappedConcat(d.pairs, d'.pairs, First);
    MappedConcat(d.pairs, d'.pairs, Second);
  }

  lemma {:induction false} DiffFlattens(keys: seq<string>, g: Groups, h: Groups)
    ensures UsesUp(DiffGroups(keys, g, h), Flatten(g, keys), Flatten(h, keys))
  {
    if keys != [] {
      hide UsesUp, DiffGroup, Join;
      var init := keys[..|keys| - 1];
      var k := keys[|keys| - 1];
      DiffFlattens(init, g, h);
      DiffGroupUsesUp(Group(g, k), Group(h, k));
      JoinUsesUp(DiffGroups(init, g, h), Flatten(g, init), Flatten(h, init),
                 DiffGroup(Group(g, k), Group(h, k)), Group(g, k), Group(h, k));
    }
  }

  // Every span of the base is matched or reported missing, once; and so for the
  // other trace.
  lemma ComparisonPartitions(base: seq<Span>, compare: seq<Span>, m: Matching, diff: Diff)
    requires Compares(base, compare, m, diff)
    ensures multiset(Mapped(diff.pairs, First)) + multiset(diff.onlyBase) == multiset(base)
    ensures multiset(Mapped(diff.pairs, Second)) + multiset(diff.onlyCompare) == multiset(compare)
    ensures |diff.onlyCompare| - |diff.onlyBase| == |compare| - |base|
  {
    hide IsGrouping;
    DiffFlattens(m.keys, m.base, m.compare);
    GroupsPartition(base, m.base, m.keys);
    GroupsPartition(compare, m.compare, m.keys);
    assert |multiset(base)| == |diff.pairs| + |diff.onlyBase|;
    assert |multiset(compare)| == |diff.pairs| + |diff.onlyCompare|;
  }

  lemma ReportAccounts(base: seq<Span>, compare: seq<Span>, m: Matching, diff: Diff, r: Comparison)
    requires Compares(base, compare, m, diff) && Reports(diff, r.matched, r.onlyInBase, r.onlyInCompare)
    ensures AccountsFor(r, base, compare)
  {
    ComparisonPartitions(base, compare, m, diff);
    hide Compares;
    SideAccounts(diff.pairs, First, r.matched, BaseId, diff.onlyBase, r.onlyInBase, base);
    SideAccounts(diff.pairs, Second, r.matched, CompareId, diff.onlyCompare, r.onlyInCompare, compare);
  }

  lemma ReportMeasures(base: seq<Span>, compare: seq<Span>, m: Matching, diff: Diff, r: Comparison)
    requires Compares(base, compare, m, diff) && Reports(diff, r.matched, r.onlyInBase, r.onlyInCompare)
    ensures MatchesMeasured(r.matched, base, compare)
  {
    ComparisonPartitions(base, compare, m, diff);
    assert UsesUp(diff, base, compare);
    hide Compares, IsMeasured, DiffOf, UsesUp;
    forall i: nat | i < |r.matched| ensures IsMeasured(r.matched[i], base, compare) {
      PairInTraces(base, compare, diff, i);
      PairMeasured(diff.pairs[i], base, compare);
    }
  }

  lemma PairInTraces(base: seq<Span>, compare: seq<Span>, diff: Diff, i: nat)
    requires UsesUp(diff, base, compare) && i < |diff.pairs|
    ensures diff.pairs[i].0 in base && diff.pairs[i].1 in compare
  {
    assert Mapped(diff.pairs, First)[i] in multiset(Mapped(diff.pairs, First));
    assert Mapped(diff.pairs, Second)[i] in multiset(Mapped(diff.pairs, Second));
    assert diff.pairs[i].0 in multiset(base) && diff.pairs[i].1 in multiset(compare);
  }

  lemma PairMeasured(p: (Span, Span), base: seq<Span>, compare: seq<Span>)
    requires p.0 in base && p.1 in compare
    ensures IsMeasured(DiffOf(p), base, compare)
  {
    assert IsDelta(DiffOf(p).durationDeltaMs, p.0, p.1);
  }

  // s stands at place i in the group of key k.
  ghost predicate StandsAt(groups: Groups, k: string, i: nat, s: Span) {
    k in groups && i < |groups[k]| && groups[k][i] == s
  }

  // Which spans match: those that stand at the same place in the groups of one key. The
  // spans of a group that have no counterpart there are left over.
  lemma MatchedIff(base: seq<Span>, compare: seq<Span>, m: Matching, diff: Diff, s: Span, t: Span)
    requires Compares(base, compare, m, diff)
    ensures (s, t) in diff.pairs <==> exists k, i: nat :: StandsAt(m.base, k, i, s) && StandsAt(m.compare, k, i, t)
    ensures s in diff.onlyBase <==>
              exists k, i: nat :: StandsAt(m.base, k, i, s) && (k in m.compare ==> |m.compare[k]| <= i)
    ensures t in diff.onlyCompare <==>
              exists k, i: nat :: StandsAt(m.compare, k, i, t) && (k in m.base ==> |m.base[k]| <= i)
  {
    hide IsGrouping, DiffGroups, DiffGroup;
    DiffFrom(m.keys, m.base, m.compare, s, t);
    forall k | k in m.keys
      ensures (s, t) in DiffGroup(Group(m.base, k), Group(m.compare, k)).pairs <==>
                exists i: nat :: StandsAt(m.base, k, i, s) && StandsAt(m.compare, k, i, t)
      ensures s in DiffGroup(Group(m.base, k), Group(m.compare, k)).onlyBase <==>
                exists i: nat :: StandsAt(m.base, k, i, s) && (k in m.compare ==> |m.compare[k]| <= i)
      ensures t in DiffGroup(Group(m.base, k), Group(m.compare, k)).onlyCompare <==>
                exists i: nat :: StandsAt(m.compare, k, i, t) && (k in m.base ==> |m.base[k]| <= i)
    {
      MatchedInGroup(m.base, m.compare, k, s, t);
    }
  }

  // The outcome holds what each pair of groups contributes, and nothing else.
  lemma {:induction false} DiffFrom(keys: seq<string>, g: Groups, h: Groups, s: Span, t: Span)
    ensures (s, t) in DiffGroups(keys, g, h).pairs <==>
              exists k :: k in keys && (s, t) in DiffGroup(Group(g, k), Group(h, k)).pairs
    ensures s in DiffGroups(keys, g, h).onlyBase <==>
              exists k :: k in keys && s in DiffGroup(Group(g, k), Group(h, k)).onlyBase
    ensures t in DiffGroups(keys, g, h).onlyCompare <==>
              exists k :: k in keys && t in DiffGroup(Group(g, k), Group(h, k)).onlyCompare
  {
    hide DiffGroup, Group;
    if keys != [] {
      DiffFrom(keys[..|keys| - 1], g, h, s, t);
      assert keys == keys[..|keys| - 1] + [keys[|keys| - 1]];
    }
  }

  lemma MatchedInGroup(g: Groups, h: Groups, k: string, s: Span, t: Span)
    ensures var part := DiffGroup(Group(g, k), Group(h, k));
            && ((s, t) in part.pairs <==> exists i: nat :: StandsAt(g, k, i, s) && StandsAt(h, k, i, t))
            && (s in part.onlyBase <==> exists i: nat :: StandsAt(g, k, i, s) && (k in h ==> |h[k]| <= i))
            && (t in part.onlyCompare <==> exists i: nat :: StandsAt(h, k, i, t) && (k in g ==> |g[k]| <= i))
  {
    var b, c := Group(g, k), Group(h, k);
    PairedIff(b, c, s, t);
    LeftOverIff(b, |c|, s);
    LeftOverIff(c, |b|, t);
    forall i: nat ensures StandsAt(g, k, i, s) <==> i < |b| && b[i] == s {}
    forall i: nat ensures StandsAt(h, k, i, t) <==> i < |c| && c[i] == t {}
    hide StandsAt;
    if i: nat :| i < |b| && i < |c| && b[i] == s && c[i] == t {
      assert StandsAt(g, k, i, s);
    }
    if i: nat :| |c| <= i < |b| && b[i] == s {
      assert StandsAt(g, k, i, s);
    }
    if i: nat :| |b| <= i < |c| && c[i] == t {
      assert StandsAt(h, k, i, t);
    }
  }

  lemma PairedIff(b: seq<Span>, c: seq<Span>, s: Span, t: Span)
    ensures (s, t) in DiffGroup(b, c).pairs <==> exists i: nat :: i < |b| && i < |c| && b[i] == s && c[i] == t
  {
    var pairs := DiffGroup(b, c).pairs;
    forall i: nat | i < |pairs| ensures pairs[i] == (b[i], c[i]) {}
    if i: nat :| i < |b| && i < |c| && b[i] == s && c[i] == t {
      assert pairs[i] == (s, t);
    }
  }

  // The longer group's rest, all of it if the other one is empty.
  lemma LeftOverIff(b: seq<Span>, n: nat, s: Span)
    ensures s in b[if n < |b| then n else |b|..] <==> exists i: nat :: n <= i < |b| && b[i] == s
  {
    var from := if n < |b| then n else |b|;
    if i: nat :| n <= i < |b| && b[i] == s {
      assert b[from..][i - from] == s;
    }
  }

  // One trace's side of the account, given which member of a pair is its span and
  // which identifier of a match is that span's.
  lemma SideAccounts(pairs: seq<(Span, Span)>, member: ((Span, Span)) -> Span, matched: seq<SpanDiff>,
                     id: SpanDiff -> SpanID,
                     only: seq<Span>, onlyIds: seq<SpanID>, spans: seq<Span>)
    requires matched == Mapped(pairs, DiffOf) && onlyIds == Mapped(only, IdOf)
    requires forall p :: p in pairs ==> id(DiffOf(p)) == IdOf(member(p))
    requires multiset(Mapped(pairs, member)) + multiset(only) == multiset(spans)
    ensures multiset(Mapped(matched, id)) + multiset(onlyIds) == multiset(Mapped(spans, IdOf))
  {
    var members := Mapped(pairs, member);
    assert Mapped(matched, id) == Mapped(members, IdOf) by {
      assert forall i :: 0 <= i < |pairs| ==> pairs[i] in pairs;
    }
    hide Mapped, DiffOf;
    MappedRearranged(members + only, spans, IdOf);
    MappedConcat(members, only, IdOf);
  }

  lemma ReportOfSelf(spans: seq<Span>, m: Matching, diff: Diff, r: Comparison)
    requires UniqueSpanIds(spans) && Compares(spans, spans, m, diff)
    requires Reports(diff, r.matched, r.onlyInBase, r.onlyInCompare)
    ensures ReportsNoDifference(r)
  {
    ComparisonWithItself(spans, m, diff);
    hide Compares, UniqueSpanIds;
    forall d | d in r.matched ensures d.baseSpanId == d.compareSpanId && d.durationDeltaMs == 0.0 {
      var i :| 0 <= i < |r.matched| && r.matched[i] == d;
      assert diff.pairs[i] in diff.pairs && DiffOf(diff.pairs[i]) == d;
    }
  }

  // The outcome does not depend on the order in which the spans are listed.
  lemma ComparisonOfAnyOrder(base: seq<Span>, compare: seq<Span>, m: Matching, diff: Diff,
                             base': seq<Span>, compare': seq<Span>, m': Matching, diff': Diff)
    requires multiset(base) == multiset(base') && multiset(compare) == multiset(compare')
    requires IsTree(base) && IsTree(compare)
    requires Compares(base, compare, m, diff) && Compares(base', compare', m', diff')
    ensures diff == diff'
  {
    hide IsGrouping, IsTree;
    GroupingOfAnyOrder(base, base', m.base, m'.base);
    GroupingOfAnyOrder(compare, compare', m.compare, m'.compare);
    OneEnumeration(m.keys, m'.keys, m.base.Keys + m.compare.Keys);
  }

  // Every span is paired with itself and none is left over.
  ghost predicate NoDifference(d: Diff) {
    d.onlyBase == [] && d.onlyCompare == [] && forall p :: p in d.pairs ==> p.0 == p.1
  }

  // A list compared with itself: every span is matched with itself.
  lemma ComparisonWithItself(spans: seq<Span>, m: Matching, diff: Diff)
    requires UniqueSpanIds(spans) && Compares(spans, spans, m, diff)
    ensures NoDifference(diff) && multiset(Mapped(diff.pairs, First)) == multiset(spans)
    ensures forall p :: p in diff.pairs ==> DiffOf(p).durationDeltaMs == 0.0
  {
    hide IsGrouping;
    GroupingDetermined(spans, m.base, m.compare);
    SelfDiff(m.keys, m.base);
    ComparisonPartitions(spans, spans, m, diff);
  }

  lemma {:induction false} SelfDiff(keys: seq<string>, g: Groups)
    ensures NoDifference(DiffGroups(keys, g, g))
  {
    if keys != [] {
      SelfDiff(keys[..|keys| - 1], g);
    }
  }

  // Without a difference, what is in a group is in the other trace's group of that key.
  lemma SameGroupThen(keys: seq<string>, g: Groups, h: Groups, k: string, e: Span)
    requires k in keys && k in g && e in g[k]
    requires NoDifference(DiffGroups(keys, g, h))
    ensures k in h && e in h[k]
  {
    var i: nat :| i < |g[k]| && g[k][i] == e;
    assert StandsAt(g, k, i, e);
    var t := if k in h && i < |h[k]| then h[k][i] else e;
    MatchedInGroup(g, h, k, e, t);
    DiffFrom(keys, g, h, e, t);
    hide DiffGroups, DiffGroup;
    assert k in h && i < |h[k]| ==> StandsAt(h, k, i, t);
  }

  // Two listings that give a span different keys show a difference.
  lemma OtherKeyShows(s: seq<Span>, t: seq<Span>, i: nat, j: nat) returns (m: Matching, diff: Diff)
    requires Distinct(s) && Distinct(t)
    requires i < |s| && j < |t| && s[i] == t[j] && KeyList(s)[i] != KeyList(t)[j]
    ensures Compares(s, t, m, diff) && !NoDifference(diff)
  {
    hide IsGrouping, KeyList, Distinct;
    var g := GroupingExists(s);
    var h := GroupingExists(t);
    var keys := EnumerationExists(g.Keys + h.Keys);
    m := Matching(keys, g, h);
    diff := DiffGroups(keys, g, h);
    var k := KeyList(s)[i];
    KeyOfGroup(s, g, i, k);
    KeyOfGroup(t, h, j, k);
    if NoDifference(diff) {
      SameGroupThen(keys, g, h, k, s[i]);
    }
  }

  // For spans with distinct identifiers: comparing any listing of them with any other
  // shows no difference if and only if no parent chain runs into a cycle of two
  // spans or more.
  lemma ComparisonFixedIff(spans: seq<Span>)
    requires UniqueSpanIds(spans) && Distinct(spans)
    ensures IsTree(spans) <==>
              forall s: seq<Span>, t: seq<Span>, m: Matching, diff: Diff ::
                multiset(s) == multiset(spans) == multiset(t) && Compares(s, t, m, diff) ==> NoDifference(diff)
  {
    hide UniqueSpanIds, Distinct, NoDifference, IsGrouping, DiffGroups, KeyList;
    if IsTree(spans) {
      forall s: seq<Span>, t: seq<Span>, m: Matching, diff: Diff
        | multiset(s) == multiset(spans) == multiset(t) && Compares(s, t, m, diff)
        ensures NoDifference(diff)
      {
        var own := GroupingExists(spans);
        GroupingOfAnyOrder(spans, s, own, m.base);
        GroupingOfAnyOrder(spans, t, own, m.compare);
        SelfDiff(m.keys, own);
      }
    } else {
      var s, t := CycleShows(spans);
      var m, diff := OtherKeyShows(s, t, 0, 1);
    }
  }
}
