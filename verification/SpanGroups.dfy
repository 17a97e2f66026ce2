// The spans of a trace grouped by key.
module SpanGroups {
  import opened Model
  import opened Sequences
  import opened KeyedLog
  import opened Forest
  import opened MatchKeys
  import opened SpanOrder

  // The last span with each identifier.
  function IdMap(spans: seq<Span>): (m: SpanMap)
    ensures KeyedById(m)
    ensures forall s :: s in spans ==> s.data.spanId in m
    ensures forall id :: id in m ==> m[id] in spans
  {
    if spans == [] then map[]
    else
      var last := spans[|spans| - 1];
      assert spans == spans[..|spans| - 1] + [last];
      IdMap(spans[..|spans| - 1])[last.data.spanId := last]
  }

  lemma {:induction false} IdMapLast(spans: seq<Span>, id: SpanID, s: Span)
    ensures id in IdMap(spans) && IdMap(spans)[id] == s <==> IsLastWith(spans, id, s)
  {
    if spans != [] {
      IdMapLast(spans[..|spans| - 1], id, s);
      LastWithStep(spans, id, s);
      hide IsLastWith;
    }
  }

  // The keys of the first n spans, asked for in order, and the cache in the end.
  function Keys(spans: seq<Span>, byId: SpanMap, n: nat): (r: (seq<string>, map<SpanID, string>))
    requires n <= |spans| && KeyedById(byId)
    requires forall s :: s in spans ==> s.data.spanId in byId
    ensures |r.0| == n
  {
    if n == 0 then ([], map[])
    else
      var (keys, cache) := Keys(spans, byId, n - 1);
      var (key, filled) := MatchKey(spans[n - 1], byId, cache, {});
      (keys + [key], filled)
  }

  function KeyList(spans: seq<Span>): (keys: seq<string>)
    ensures |keys| == |spans|
  {
    Keys(spans, IdMap(spans), |spans|).0
  }

  // The spans whose key is k, in order.
  function Members(spans: seq<Span>, keys: seq<string>, k: string): seq<Span>
    requires |keys| == |spans|
  {
    if spans == [] then []
    else
      var n := |spans| - 1;
      Members(spans[..n], keys[..n], k) + if keys[n] == k then [spans[n]] else []
  }

  type Groups = map<string, seq<Span>>

  // The groups: by key, every span in the group of its key, sorted.
  ghost predicate IsGrouping(spans: seq<Span>, groups: Groups) {
    && (forall k :: k in groups <==> k in KeyList(spans))
    && forall k :: k in groups ==>
         multiset(groups[k]) == multiset(Members(spans, KeyList(spans), k)) && Sorted(groups[k], SpanAtMost)
  }

  method GroupSpans(spans: seq<Span>) returns (groups: Groups)
    ensures IsGrouping(spans, groups)
  {
    var parentById := IndexById(spans);
    var unsorted := Collect(spans, parentById);
    groups := SortGroups(unsorted);
  }

  lemma IdMapGrows(spans: seq<Span>)
    ensures IdMap([]) == map[]
    ensures forall i :: 0 <= i < |spans| ==>
      IdMap(spans[..i + 1]) == IdMap(spans[..i])[spans[i].data.spanId := spans[i]]
  {
    forall i | 0 <= i < |spans|
      ensures IdMap(spans[..i + 1]) == IdMap(spans[..i])[spans[i].data.spanId := spans[i]]
    {
      assert spans[..i + 1][..i] == spans[..i];
    }
  }

  method IndexById(spans: seq<Span>) returns (byId: SpanMap)
    ensures byId == IdMap(spans)
  {
    hide IdMap;
    IdMapGrows(spans);
    byId := map[];
    for i := 0 to |spans|
      invariant byId == IdMap(spans[..i])
    {
      byId := byId[spans[i].data.spanId := spans[i]];
    }
    assert spans[..|spans|] == spans;
  }

  method SortGroups(unsorted: Groups) returns (groups: Groups)
    ensures groups.Keys == unsorted.Keys
    ensures forall k :: k in groups ==> multiset(groups[k]) == multiset(unsorted[k]) && Sorted(groups[k], SpanAtMost)
  {
    hide Sorted;
    groups := unsorted;
    var rest := groups.Keys;
    while rest != {}
      invariant rest <= groups.Keys == unsorted.Keys
      invariant forall k :: k in rest ==> groups[k] == unsorted[k]
      invariant forall k :: k in groups.Keys - rest ==>
        multiset(groups[k]) == multiset(unsorted[k]) && Sorted(groups[k], SpanAtMost)
    {
      var k :| k in rest;
      rest := rest - {k};
      var sorted := SortSpans(groups[k]);
      groups := groups[k := sorted];
    }
  }

  // groups hold the members of each key, unsorted.
  ghost predicate Collected(spans: seq<Span>, keys: seq<string>, groups: Groups)
    requires |keys| == |spans|
  {
    && (forall k :: k in groups <==> k in keys)
    && forall k :: k in groups ==> groups[k] == Members(spans, keys, k)
  }

  // The loop that asks for each key in turn and appends to its group.
  method Collect(spans: seq<Span>, byId: SpanMap) returns (groups: Groups)
    requires KeyedById(byId) && forall s :: s in spans ==> s.data.spanId in byId
    ensures Collected(spans, Keys(spans, byId, |spans|).0, groups)
  {
    hide MatchKey, Collected;
    groups := map[];
    var matcher := new KeyMatcher(byId);
    ghost var keys: seq<string> := [];
    NothingCollected();
    for i := 0 to |spans|
      invariant matcher.byId == byId && matcher.visiting == {} && |keys| == i
      invariant (keys, matcher.cache) == Keys(spans, byId, i)
      invariant Collected(spans[..i], keys, groups)
    {
      var key := matcher.SpanMatchKey(spans[i]);
      OneMoreCollected(spans, keys, groups, i, key);
      groups := groups[key := (if key in groups then groups[key] else []) + [spans[i]]];
      keys := keys + [key];
    }
    assert spans[..|spans|] == spans;
  }

  lemma NothingCollected()
    ensures Collected([], [], map[])
  {
  }

  lemma OneMoreCollected(spans: seq<Span>, keys: seq<string>, groups: Groups, i: nat, key: string)
    requires i < |spans| && |keys| == i && Collected(spans[..i], keys, groups)
    ensures Collected(spans[..i + 1], keys + [key],
                      groups[key := (if key in groups then groups[key] else []) + [spans[i]]])
  {
    hide Members;
    forall k ensures Members(spans[..i + 1], keys + [key], k) ==
                     Members(spans[..i], keys, k) + if key == k then [spans[i]] else [] {
      OneMoreMember(spans, keys, i, key, k);
    }
    NoMembers(spans[..i], keys, key);
  }

  lemma OneMoreMember(spans: seq<Span>, keys: seq<string>, i: nat, key: string, k: string)
    requires i < |spans| && |keys| == i
    ensures Members(spans[..i + 1], keys + [key], k) ==
            Members(spans[..i], keys, k) + if key == k then [spans[i]] else []
  {
    assert spans[..i + 1][..i] == spans[..i] && (keys + [key])[..i] == keys;
  }

  lemma {:induction false} NoMembers(spans: seq<Span>, keys: seq<string>, k: string)
    requires |keys| == |spans|
    ensures k !in keys ==> Members(spans, keys, k) == []
  {
    if spans != [] && k !in keys {
      var n := |spans| - 1;
      NoMembers(spans[..n], keys[..n], k);
    }
  }

  // The ancestry key of a span whose parent chain ends.
  ghost function SpanKey(byId: SpanMap, id: SpanID): string
    requires id in byId && Grounded<SpanID>(ParentIds(byId), id)
  {
    var n: nat :| Hops<SpanID>(ParentIds(byId), id, n);
    AncestryKey(byId, id, n)
  }

  // Distinct identifiers, and no parent cycle of two spans or more.
  ghost predicate IsTree(spans: seq<Span>) {
    && UniqueSpanIds(spans)
    && forall s :: s in spans ==> Grounded<SpanID>(ParentIds(IdMap(spans)), s.data.spanId)
  }

  // s is the span its identifier stands for, and its parent chain ends.
  ghost predicate Rooted(byId: SpanMap, s: Span) {
    s.data.spanId in byId && byId[s.data.spanId] == s && Grounded<SpanID>(ParentIds(byId), s.data.spanId)
  }

  lemma TreeIsRooted(spans: seq<Span>)
    requires IsTree(spans)
    ensures forall s :: s in spans ==> Rooted(IdMap(spans), s)
  {
  }

  lemma SpanKeyComputed(byId: SpanMap, cache: map<SpanID, string>, s: Span)
    requires KeyedById(byId) && Rooted(byId, s) && CacheExact(byId, cache)
    ensures MatchKey(s, byId, cache, {}).0 == SpanKey(byId, s.data.spanId)
    ensures CacheExact(byId, MatchKey(s, byId, cache, {}).1)
  {
    hide MatchKey, CacheExact;
    var id: SpanID := s.data.spanId;
    var h: nat :| Hops<SpanID>(ParentIds(byId), id, h);
    HopsUniqueAt(ParentIds(byId), id, h);
    KeyIsAncestry(byId, cache, {}, id, h);
  }

  // In a tree every key is an ancestry key.
  lemma {:induction false} KeysAreAncestry(spans: seq<Span>, byId: SpanMap, n: nat)
    requires KeyedById(byId) && n <= |spans|
    requires forall s :: s in spans ==> s.data.spanId in byId
    requires forall i :: 0 <= i < |spans| ==> Rooted(byId, spans[i])
    ensures CacheExact(byId, Keys(spans, byId, n).1)
    ensures forall i :: 0 <= i < n ==> Rooted(byId, spans[i]) &&
                                       Keys(spans, byId, n).0[i] == SpanKey(byId, spans[i].data.spanId)
  {
    hide MatchKey, Rooted, SpanKey;
    if n == 0 {
      assert CacheExact(byId, map[]);
    } else {
      hide CacheExact;
      KeysAreAncestry(spans, byId, n - 1);
      SpanKeyComputed(byId, Keys(spans, byId, n - 1).1, spans[n - 1]);
    }
  }

  ghost function HasKey(byId: SpanMap, k: string): Span -> bool {
    (s: Span) => Rooted(byId, s) && SpanKey(byId, s.data.spanId) == k
  }

  // In a tree a group is a selection by ancestry key.
  lemma {:induction false} MembersByKey(spans: seq<Span>, keys: seq<string>, byId: SpanMap, k: string)
    requires |keys| == |spans|
    requires forall i :: 0 <= i < |spans| ==> Rooted(byId, spans[i]) && keys[i] == SpanKey(byId, spans[i].data.spanId)
    ensures Members(spans, keys, k) == Keep(spans, HasKey(byId, k))
  {
    if spans != [] {
      hide SpanKey, Rooted;
      var n := |spans| - 1;
      MembersByKey(spans[..n], keys[..n], byId, k);
    }
  }

  lemma SameIdMap(spans: seq<Span>, other: seq<Span>)
    requires multiset(spans) == multiset(other) && UniqueSpanIds(spans)
    ensures IdMap(spans) == IdMap(other)
  {
    MultisetMembers(spans, other);
  }

  lemma TreeKeys(spans: seq<Span>, byId: SpanMap)
    requires byId == IdMap(spans)
    requires forall s :: s in spans ==> Rooted(byId, s)
    ensures forall k :: Members(spans, KeyList(spans), k) == Keep(spans, HasKey(byId, k))
    ensures forall k :: k in KeyList(spans) <==> exists s :: s in spans && HasKey(byId, k)(s)
  {
    hide SpanKey, Rooted;
    var keys := KeyList(spans);
    KeysAreAncestry(spans, byId, |spans|);
    forall k ensures Members(spans, keys, k) == Keep(spans, HasKey(byId, k)) {
      MembersByKey(spans, keys, byId, k);
    }
    forall k ensures k in keys <==> exists s :: s in spans && HasKey(byId, k)(s) {
      if k in keys {
        var i :| 0 <= i < |keys| && keys[i] == k;
        assert spans[i] in spans && HasKey(byId, k)(spans[i]);
      }
      if s :| s in spans && HasKey(byId, k)(s) {
        var i :| 0 <= i < |spans| && spans[i] == s;
        assert keys[i] == k;
      }
    }
  }

  // A selection by key finds something in one list if it does in the other.
  lemma SameKeys(spans: seq<Span>, other: seq<Span>, byId: SpanMap, k: string)
    requires multiset(spans) == multiset(other) && byId == IdMap(spans) == IdMap(other)
    requires forall s :: s in spans ==> Rooted(byId, s)
    ensures k in KeyList(spans) <==> k in KeyList(other)
  {
    hide Rooted, SpanKey, KeyList, Keep, Members, HasKey, IdMap;
    MultisetMembers(spans, other);
    TreeKeys(spans, byId);
    TreeKeys(other, byId);
  }

  lemma SameMembers(spans: seq<Span>, other: seq<Span>, byId: SpanMap, k: string)
    requires multiset(spans) == multiset(other) && byId == IdMap(spans) == IdMap(other)
    requires forall s :: s in spans ==> Rooted(byId, s)
    ensures multiset(Members(spans, KeyList(spans), k)) == multiset(Members(other, KeyList(other), k))
  {
    hide Rooted, SpanKey, KeyList, Keep, Members, HasKey, IdMap;
    MultisetMembers(spans, other);
    TreeKeys(spans, byId);
    TreeKeys(other, byId);
    KeepRearranged(spans, other, HasKey(byId, k));
  }

  // The groups of a tree do not depend on the order in which its spans are listed.
  lemma GroupingOfAnyOrder(spans: seq<Span>, other: seq<Span>, g: Groups, h: Groups)
    requires multiset(spans) == multiset(other) && IsTree(spans)
    requires IsGrouping(spans, g) && IsGrouping(other, h)
    ensures g == h
  {
    var byId := IdMap(spans);
    SameIdMap(spans, other);
    TreeIsRooted(spans);
    hide Rooted, KeyList, Members, IdMap, Sorted;
    forall k ensures k in g <==> k in h {
      SameKeys(spans, other, byId, k);
    }
    assert g.Keys == h.Keys;
    forall k | k in g ensures g[k] == h[k] {
      SameMembers(spans, other, byId, k);
      SameGroup(spans, g[k], h[k], Members(spans, KeyList(spans), k));
    }
  }

  lemma SameGroup(spans: seq<Span>, a: seq<Span>, b: seq<Span>, members: seq<Span>)
    requires UniqueSpanIds(spans)
    requires exists k :: members == Members(spans, KeyList(spans), k)
    requires multiset(a) == multiset(b) == multiset(members)
    requires Sorted(a, SpanAtMost) && Sorted(b, SpanAtMost)
    ensures a == b
  {
    var k :| members == Members(spans, KeyList(spans), k);
    MembersAreSpans(spans, KeyList(spans), k);
    MultisetMembers(a, members);
    OneSpanOrder(a, b);
  }

  // The groups of one and the same list are determined by it, cycles or not.
  lemma GroupingDetermined(spans: seq<Span>, g: Groups, h: Groups)
    requires UniqueSpanIds(spans)
    requires IsGrouping(spans, g) && IsGrouping(spans, h)
    ensures g == h
  {
    assert g.Keys == h.Keys;
    forall k | k in g ensures g[k] == h[k] {
      SameGroup(spans, g[k], h[k], Members(spans, KeyList(spans), k));
    }
  }

  lemma {:induction false} MembersAreSpans(spans: seq<Span>, keys: seq<string>, k: string)
    requires |keys| == |spans|
    ensures forall s :: s in Members(spans, keys, k) ==> s in spans
  {
    if spans != [] {
      MembersAreSpans(spans[..|spans| - 1], keys[..|spans| - 1], k);
    }
  }

  lemma {:induction false} MembersExactly(spans: seq<Span>, keys: seq<string>, k: string, s: Span)
    requires |keys| == |spans|
    ensures s in Members(spans, keys, k) <==> exists i :: 0 <= i < |spans| && spans[i] == s && keys[i] == k
  {
    if spans != [] {
      MembersExactly(spans[..|spans| - 1], keys[..|spans| - 1], k, s);
    }
  }

  // A span is in the group of its key only.
  lemma KeyOfGroup(spans: seq<Span>, groups: Groups, i: nat, k: string)
    requires Distinct(spans) && IsGrouping(spans, groups) && i < |spans|
    ensures k in groups && spans[i] in groups[k] <==> KeyList(spans)[i] == k
  {
    hide KeyList, Members;
    var keys := KeyList(spans);
    assert keys[i] in keys;
    MembersExactly(spans, keys, k, spans[i]);
    if k in groups {
      MultisetMembers(groups[k], Members(spans, keys, k));
    }
  }

  lemma {:induction false} KeysOfPrefix(spans: seq<Span>, byId: SpanMap, n: nat, m: nat)
    requires m <= n <= |spans| && KeyedById(byId) && forall s :: s in spans ==> s.data.spanId in byId
    ensures Keys(spans, byId, n).0[..m] == Keys(spans, byId, m).0
  {
    if m < n {
      KeysOfPrefix(spans, byId, n - 1, m);
    }
  }

  // The span listed first is asked for first; the one listed second after it.
  lemma FirstKeys(spans: seq<Span>)
    requires UniqueSpanIds(spans) && |spans| > 1
    ensures var byId := IdMap(spans);
            var first, second := spans[0].data.spanId, spans[1].data.spanId;
            && first in byId && second in byId && Known(byId, [first])
            && KeyList(spans)[0] == KeyAfter(byId, [], first)
            && KeyList(spans)[1] == KeyAfter(byId, [first], second)
  {
    var byId := IdMap(spans);
    KeysOfPrefix(spans, byId, |spans|, 1);
    KeysOfPrefix(spans, byId, |spans|, 2);
    OwnIdMap(spans, 0);
    OwnIdMap(spans, 1);
    var keys := Keys(spans, byId, |spans|).0;
    assert keys[0] == keys[..1][0] && keys[1] == keys[..2][1];
    hide IdMap, UniqueSpanIds;
    KeyOfFirst(spans, byId);
    KeyOfSecond(spans, byId);
  }

  lemma KeyOfFirst(spans: seq<Span>, byId: SpanMap)
    requires KeyedById(byId) && |spans| > 0 && forall s :: s in spans ==> s.data.spanId in byId
    requires byId[spans[0].data.spanId] == spans[0]
    ensures Known(byId, [spans[0].data.spanId])
    ensures Keys(spans, byId, 1).0 == [KeyAfter(byId, [], spans[0].data.spanId)]
    ensures Keys(spans, byId, 1).1 == Asked(byId, [spans[0].data.spanId])
  {
    hide MatchKey;
    assert Keys(spans, byId, 0) == ([], map[]);
    assert [spans[0].data.spanId][..0] == [];
  }

  lemma KeyOfSecond(spans: seq<Span>, byId: SpanMap)
    requires KeyedById(byId) && |spans| > 1 && forall s :: s in spans ==> s.data.spanId in byId
    requires byId[spans[0].data.spanId] == spans[0] && byId[spans[1].data.spanId] == spans[1]
    ensures Known(byId, [spans[0].data.spanId])
    ensures Keys(spans, byId, 2).0[1] == KeyAfter(byId, [spans[0].data.spanId], spans[1].data.spanId)
  {
    hide MatchKey, Asked;
    KeyOfFirst(spans, byId);
  }

  lemma OwnIdMap(spans: seq<Span>, i: nat)
    requires UniqueSpanIds(spans) && i < |spans|
    ensures spans[i].data.spanId in IdMap(spans) && IdMap(spans)[spans[i].data.spanId] == spans[i]
  {
    assert spans[i] in spans;
  }

  // x and y moved to the front.
  lemma MovedToFront(spans: seq<Span>, x: Span, y: Span) returns (rest: seq<Span>)
    requires x in spans && y in spans && x != y
    ensures multiset([x, y] + rest) == multiset([y, x] + rest) == multiset(spans)
  {
    var others := AllBut(spans, x);
    rest := AllBut(others, y);
  }

  lemma AllBut(spans: seq<Span>, x: Span) returns (rest: seq<Span>)
    requires x in spans
    ensures multiset(spans) == multiset(rest) + multiset{x}
    ensures forall w :: w in spans && w != x ==> w in rest
  {
    var i: nat :| i < |spans| && spans[i] == x;
    rest := spans[..i] + spans[i + 1..];
    assert spans == spans[..i] + [x] + spans[i + 1..];
  }

  lemma UniqueReordered(spans: seq<Span>, other: seq<Span>)
    requires UniqueSpanIds(spans) && Distinct(spans) && multiset(spans) == multiset(other)
    ensures UniqueSpanIds(other) && Distinct(other)
  {
    MultisetMembers(spans, other);
    DistinctReordered(spans, other);
  }

  // A span on a cycle of two spans or more, and its parent.
  lemma SpanOnCycle(spans: seq<Span>) returns (e: Span, c: Span)
    requires UniqueSpanIds(spans) && !IsTree(spans)
    ensures e in spans && c in spans && e != c
    ensures var byId := IdMap(spans);
            && e.data.spanId in byId && c.data.spanId in byId && Known(byId, [c.data.spanId])
            && KeyAfter(byId, [], e.data.spanId) != KeyAfter(byId, [c.data.spanId], e.data.spanId)
  {
    var byId := IdMap(spans);
    var parents := ParentIds(byId);
    var x :| x in spans && !Grounded<SpanID>(parents, x.data.spanId);
    GroundedIffNoCycle<SpanID>(parents, x.data.spanId);
    var k := CycleAbove<SpanID>(parents, x.data.spanId);
    var id: SpanID := Up<SpanID>(parents, x.data.spanId, k).value;
    var path := CyclePath<SpanID>(parents, id);
    hide IdMap, Asked, MatchKey, UniqueSpanIds;
    CycleMemberDiffers(byId, id);
    e, c := byId[id], byId[parents[id]];
  }

  // The same span under different keys is in different groups.
  lemma OtherKeyOtherGroups(s: seq<Span>, t: seq<Span>, g: Groups, h: Groups, i: nat, j: nat)
    requires Distinct(s) && Distinct(t) && IsGrouping(s, g) && IsGrouping(t, h)
    ensures i < |s| && j < |t| && s[i] == t[j] && KeyList(s)[i] != KeyList(t)[j] ==> g != h
  {
    hide KeyList, IsGrouping, Distinct;
    if i < |s| && j < |t| && s[i] == t[j] {
      KeyOfGroup(s, g, i, KeyList(s)[i]);
      KeyOfGroup(t, h, j, KeyList(s)[i]);
    }
  }

  // With a cycle of two spans or more, some two orders give different groups.
  lemma CycleShows(spans: seq<Span>) returns (s: seq<Span>, t: seq<Span>)
    requires UniqueSpanIds(spans) && Distinct(spans) && !IsTree(spans)
    ensures multiset(s) == multiset(spans) == multiset(t)
    ensures |s| == |t| > 1 && s[0] == t[1] && Distinct(s) && Distinct(t)
    ensures KeyList(s)[0] != KeyList(t)[1]
  {
    var e, c := SpanOnCycle(spans);
    var rest := MovedToFront(spans, e, c);
    s, t := [e, c] + rest, [c, e] + rest;
    SameIdMap(spans, s);
    SameIdMap(spans, t);
    UniqueReordered(spans, s);
    UniqueReordered(spans, t);
    hide KeyList, IdMap, UniqueSpanIds, Distinct, KeyAfter;
    FirstKeys(s);
    FirstKeys(t);
  }

  // Every list has a grouping.
  lemma GroupingExists(spans: seq<Span>) returns (groups: Groups)
    ensures IsGrouping(spans, groups)
  {
    hide KeyList, Members, SpanAtMost;
    var keys := ToSet(KeyList(spans));
    groups := map[];
    var rest := keys;
    while rest != {}
      invariant rest <= keys && groups.Keys == keys - rest
      invariant forall k :: k in groups ==>
        multiset(groups[k]) == multiset(Members(spans, KeyList(spans), k)) && Sorted(groups[k], SpanAtMost)
    {
      var k :| k in rest;
      SpanOrderSorts(Members(spans, KeyList(spans), k));
      var sorted := SortExists(Members(spans, KeyList(spans), k), SpanAtMost);
      groups, rest := groups[k := sorted], rest - {k};
    }
  }

  // For spans with distinct identifiers: the groups do not depend on the order in
  // which they are listed if and only if no parent chain runs into a cycle of two
  // spans or more.
  lemma GroupingFixedIff(spans: seq<Span>)
    requires UniqueSpanIds(spans) && Distinct(spans)
    ensures IsTree(spans) <==>
              forall s: seq<Span>, t: seq<Span>, g: Groups, h: Groups ::
                multiset(s) == multiset(spans) == multiset(t) && IsGrouping(s, g) && IsGrouping(t, h) ==> g == h
  {
    hide IsGrouping, UniqueSpanIds, Distinct;
    if IsTree(spans) {
      forall s: seq<Span>, t: seq<Span>, g: Groups, h: Groups
        | multiset(s) == multiset(spans) == multiset(t) && IsGrouping(s, g) && IsGrouping(t, h)
        ensures g == h
      {
        var own := GroupingExists(spans);
        GroupingOfAnyOrder(spans, s, own, g);
        GroupingOfAnyOrder(spans, t, own, h);
      }
    } else {
      var s, t := CycleShows(spans);
      var g := GroupingExists(s);
      var h := GroupingExists(t);
      OtherKeyOtherGroups(s, t, g, h, 0, 1);
    }
  }

  // The groups of a list of keys, one after the other.
  function Flatten(groups: Groups, keys: seq<string>): seq<Span> {
    if keys == [] then []
    else
      var last := keys[|keys| - 1];
      Flatten(groups, keys[..|keys| - 1]) + if last in groups then groups[last] else []
  }

  function FlatMembers(spans: seq<Span>, keyOf: seq<string>, keys: seq<string>): seq<Span>
    requires |keyOf| == |spans|
  {
    if keys == [] then []
    else FlatMembers(spans, keyOf, keys[..|keys| - 1]) + Members(spans, keyOf, keys[|keys| - 1])
  }

  // Every span is in the group of its key and in no other.
  lemma {:induction false} FlatMembersPartition(spans: seq<Span>, keyOf: seq<string>, keys: seq<string>)
    requires |keyOf| == |spans| && Distinct(keys)
    requires forall k :: k in keyOf ==> k in keys
    ensures multiset(FlatMembers(spans, keyOf, keys)) == multiset(spans)
  {
    hide FlatMembers, Members;
    if spans == [] {
      NoSpans(keyOf, keys);
    } else {
      var n := |spans| - 1;
      FlatMembersPartition(spans[..n], keyOf[..n], keys);
      OneMoreFlat(spans, keyOf, keys);
      assert spans == spans[..n] + [spans[n]];
      assert keyOf[n] in keyOf;
    }
  }

  lemma {:induction false} NoSpans(keyOf: seq<string>, keys: seq<string>)
    requires keyOf == []
    ensures FlatMembers([], keyOf, keys) == []
  {
    if keys != [] {
      NoSpans(keyOf, keys[..|keys| - 1]);
    }
  }

  lemma {:induction false} OneMoreFlat(spans: seq<Span>, keyOf: seq<string>, keys: seq<string>)
    requires |keyOf| == |spans| > 0 && Distinct(keys)
    ensures var n := |spans| - 1;
            multiset(FlatMembers(spans, keyOf, keys)) ==
            multiset(FlatMembers(spans[..n], keyOf[..n], keys)) +
            if keyOf[n] in keys then multiset{spans[n]} else multiset{}
  {
    if keys != [] {
      var last := keys[|keys| - 1];
      assert keys == keys[..|keys| - 1] + [last];
      OneMoreFlat(spans, keyOf, keys[..|keys| - 1]);
    }
  }

  lemma {:induction false} FlattenGroups(spans: seq<Span>, groups: Groups, keys: seq<string>)
    requires IsGrouping(spans, groups)
    ensures multiset(Flatten(groups, keys)) == multiset(FlatMembers(spans, KeyList(spans), keys))
  {
    if keys != [] {
      hide KeyList;
      FlattenGroups(spans, groups, keys[..|keys| - 1]);
      NoMembers(spans, KeyList(spans), keys[|keys| - 1]);
    }
  }

  // Read over any list of distinct keys that leaves none out, the groups hold
  // each span exactly once.
  lemma GroupsPartition(spans: seq<Span>, groups: Groups, keys: seq<string>)
    requires IsGrouping(spans, groups) && Distinct(keys)
    requires forall k :: k in groups ==> k in keys
    ensures multiset(Flatten(groups, keys)) == multiset(spans)
  {
    FlattenGroups(spans, groups, keys);
    FlatMembersPartition(spans, KeyList(spans), keys);
  }
}
