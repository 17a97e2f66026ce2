// The key under which a span is compared: where it hangs in its trace.
module MatchKeys {
  import opened Model
  import opened Sequences
  import opened Forest
  import Text

  const DIGITS := "0123456789abcdef"

  function Hex(n: nat, width: nat): (s: string)
    ensures |s| == width
  {
    if width == 0 then "" else Hex(n / 16, width - 1) + [DIGITS[n % 16]]
  }

  lemma {:induction false} HexInjective(a: nat, b: nat, width: nat)
    requires Hex(a, width) == Hex(b, width)
    requires a < Pow16(width) && b < Pow16(width)
    ensures a == b
  {
    if width > 0 {
      var ha, hb := Hex(a / 16, width - 1), Hex(b / 16, width - 1);
      assert Hex(a, width)[width - 1] == DIGITS[a % 16] && Hex(b, width)[width - 1] == DIGITS[b % 16];
      assert Hex(a, width)[..width - 1] == ha && Hex(b, width)[..width - 1] == hb;
      HexInjective(a / 16, b / 16, width - 1);
      DigitsDiffer(a % 16, b % 16);
    }
  }

  lemma DigitsDiffer(a: nat, b: nat)
    requires a < 16 && b < 16 && DIGITS[a] == DIGITS[b]
    ensures a == b
  {
  }

  function Pow16(width: nat): nat {
    if width == 0 then 1 else 16 * Pow16(width - 1)
  }

  function IdText(id: SpanID): string { Hex(id, 16) }

  lemma IdTextInjective(a: SpanID, b: SpanID)
    requires IdText(a) == IdText(b)
    ensures a == b
  {
    Pow16Of16();
    HexInjective(a, b, 16);
  }

  // Written with one width, numbers and their texts have the same order.
  lemma {:induction false} HexOrder(a: nat, b: nat, width: nat)
    requires a < Pow16(width) && b < Pow16(width)
    ensures Text.AtMost(Hex(a, width), Hex(b, width)) <==> a <= b
  {
    if width > 0 {
      HexOrder(a / 16, b / 16, width - 1);
      var x, y := Hex(a / 16, width - 1), Hex(b / 16, width - 1);
      DigitOrder(a % 16, b % 16);
      if x == y {
        HexInjective(a / 16, b / 16, width - 1);
      }
      LastDecides(x, y, DIGITS[a % 16], DIGITS[b % 16]);
    }
  }

  lemma DigitOrder(a: nat, b: nat)
    requires a < 16 && b < 16
    ensures DIGITS[a] <= DIGITS[b] <==> a <= b
  {
  }

  lemma {:induction false} LastDecides(x: string, y: string, c: char, d: char)
    requires |x| == |y|
    ensures Text.AtMost(x + [c], y + [d]) <==> if x == y then c <= d else Text.AtMost(x, y)
  {
    if x != [] {
      assert (x + [c])[1..] == x[1..] + [c] && (y + [d])[1..] == y[1..] + [d];
      LastDecides(x[1..], y[1..], c, d);
      assert x == [x[0]] + x[1..] && y == [y[0]] + y[1..];
    }
  }

  lemma Pow16Of16()
    ensures Pow16(16) == 0x1_0000_0000_0000_0000
  {
    assert Pow16(4) == 0x1_0000;
    assert Pow16(8) == 0x1_0000_0000;
    assert Pow16(12) == 0x1_0000_0000_0000;
  }

  lemma IdTextOrder(a: SpanID, b: SpanID)
    ensures Text.AtMost(IdText(a), IdText(b)) <==> a <= b
  {
    Pow16Of16();
    HexOrder(a, b, 16);
  }

  function Segment(s: Span): string {
    s.data.service + "/" + s.data.name
  }

  type SpanMap = map<SpanID, Span>

  ghost predicate KeyedById(byId: SpanMap) {
    forall id :: id in byId ==> byId[id].data.spanId == id
  }

  // The key of a span without another span of the trace as its parent.
  function TopKey(s: Span): string {
    if s.data.parentId == 0 then Segment(s)
    else if s.data.parentId == s.data.spanId then Segment(s) + ">" + Segment(s)
    else "missing:" + IdText(s.data.parentId) + ">" + Segment(s)
  }

  // What spanMatchKey computes: the key, and the cache it leaves.
  function MatchKey(s: Span, byId: SpanMap, cache: map<SpanID, string>, visiting: set<SpanID>)
    : (string, map<SpanID, string>)
    requires KeyedById(byId) && s.data.spanId in byId
    decreases byId.Keys - visiting
  {
    var id := s.data.spanId;
    if id in cache then (cache[id], cache)
    else if id in visiting then (Segment(s), cache)
    else if s.data.parentId == 0 || s.data.parentId !in byId then (TopKey(s), cache[id := TopKey(s)])
    else
      var (parentKey, filled) := MatchKey(byId[s.data.parentId], byId, cache, visiting + {id});
      var key := parentKey + ">" + Segment(s);
      (key, filled[id := key])
  }

  class KeyMatcher {
    const byId: SpanMap
    var cache: map<SpanID, string>
    var visiting: set<SpanID>

    constructor (byId: SpanMap)
      ensures this.byId == byId && cache == map[] && visiting == {}
    {
      this.byId, cache, visiting := byId, map[], {};
    }

    // Recursion ends on any parent relation: each call visits one more identifier.
    method SpanMatchKey(s: Span) returns (key: string)
      requires KeyedById(byId) && s.data.spanId in byId
      modifies this
      ensures (key, cache) == MatchKey(s, byId, old(cache), old(visiting))
      ensures visiting == old(visiting)
      decreases byId.Keys - visiting
    {
      var id := s.data.spanId;
      if id in cache {
        return cache[id];
      }
      if id in visiting {
        return Segment(s);
      }
      visiting := visiting + {id};
      var segment := Segment(s);
      if s.data.parentId == 0 {
        key := segment;
      } else if s.data.parentId !in byId {
        key := "missing:" + IdText(s.data.parentId) + ">" + segment;
      } else {
        var parentKey := SpanMatchKey(byId[s.data.parentId]);
        key := parentKey + ">" + segment;
      }
      visiting := visiting - {id};
      cache := cache[id := key];
    }
  }

  // Who is whose parent, by identifier; a span is not its own parent.
  function ParentIds(byId: SpanMap): map<SpanID, SpanID> {
    map id | id in byId && byId[id].data.parentId !in {0, id} && byId[id].data.parentId in byId ::
      byId[id].data.parentId
  }

  // The segments of a span and its ancestors, outermost first.
  ghost function AncestryKey(byId: SpanMap, id: SpanID, n: nat): string
    requires id in byId && Hops(ParentIds(byId), id, n)
    decreases n
  {
    if id in ParentIds(byId) then
      HopsOfParent<SpanID>(ParentIds(byId), id, n - 1);
      AncestryKey(byId, ParentIds(byId)[id], n - 1) + ">" + Segment(byId[id])
    else TopKey(byId[id])
  }

  // What is cached for a span whose parent chain ends is its ancestry key.
  ghost predicate CacheExact(byId: SpanMap, cache: map<SpanID, string>) {
    forall id, n: nat :: id in cache && id in byId && Hops(ParentIds(byId), id, n) ==>
      cache[id] == AncestryKey(byId, id, n)
  }

  // The spans being visited lie below a span that is n hops from the top.
  ghost predicate VisitingBelow(byId: SpanMap, visiting: set<SpanID>, n: nat) {
    forall v, m: nat :: v in visiting && Hops(ParentIds(byId), v, m) ==> n < m
  }

  // For a span whose chain ends, the memoised key is the ancestry key, whatever
  // the cache holds and whichever spans have been asked for before.
  lemma {:induction false} KeyIsAncestry(byId: SpanMap, cache: map<SpanID, string>, visiting: set<SpanID>, id: SpanID,
                                         n: nat)
    requires KeyedById(byId) && id in byId && Hops(ParentIds(byId), id, n)
    requires CacheExact(byId, cache) && VisitingBelow(byId, visiting, n)
    ensures var (key, filled) := MatchKey(byId[id], byId, cache, visiting);
            key == AncestryKey(byId, id, n) && CacheExact(byId, filled)
    decreases n
  {
    var parents := ParentIds(byId);
    if id !in cache {
      if id in parents {
        var p := parents[id];
        HopsOfParent<SpanID>(parents, id, n - 1);
        HopsUniqueAt(parents, id, n);
        KeyIsAncestry(byId, cache, visiting + {id}, p, n - 1);
      }
      HopsUniqueAt(parents, id, n);
    }
  }

  lemma HopsUniqueAt(parents: map<SpanID, SpanID>, id: SpanID, n: nat)
    requires Hops(parents, id, n)
    ensures forall m: nat :: Hops(parents, id, m) ==> m == n
  {
    forall m: nat | Hops(parents, id, m) ensures m == n {
      HopsUnique<SpanID>(parents, id, n, m);
    }
  }

  // Spans whose chain does not end leave what matters in the cache alone.
  lemma {:induction false} CyclicKeepsCache(byId: SpanMap, cache: map<SpanID, string>, visiting: set<SpanID>,
                                            id: SpanID)
    requires KeyedById(byId) && id in byId && !Grounded(ParentIds(byId), id)
    requires CacheExact(byId, cache)
    ensures CacheExact(byId, MatchKey(byId[id], byId, cache, visiting).1)
    decreases byId.Keys - visiting
  {
    var parents := ParentIds(byId);
    if id !in cache && id !in visiting {
      if id !in parents {
        RootHops<SpanID>(parents, id);
      } else {
        var p: SpanID := parents[id];
        if Grounded<SpanID>(parents, p) {
          var n: nat :| Hops<SpanID>(parents, p, n);
          HopsOfParent<SpanID>(parents, id, n);
        }
        CyclicKeepsCache(byId, cache, visiting + {id}, p);
      }
    }
  }

  // The cache after spans have been asked for, one after the other.
  function Asked(byId: SpanMap, ids: seq<SpanID>): map<SpanID, string>
    requires KeyedById(byId) && forall id :: id in ids ==> id in byId
  {
    if ids == [] then map[]
    else MatchKey(byId[ids[|ids| - 1]], byId, Asked(byId, ids[..|ids| - 1]), {}).1
  }

  function KeyAfter(byId: SpanMap, ids: seq<SpanID>, id: SpanID): string
    requires KeyedById(byId) && id in byId && forall x :: x in ids ==> x in byId
  {
    MatchKey(byId[id], byId, Asked(byId, ids), {}).0
  }

  ghost predicate Known(byId: SpanMap, ids: seq<SpanID>) {
    forall id :: id in ids ==> id in byId
  }

  // The key of id is the same whoever has been asked for before.
  ghost predicate KeyFixed(byId: SpanMap, id: SpanID)
    requires KeyedById(byId) && id in byId
  {
    forall a: seq<SpanID>, b: seq<SpanID> :: Known(byId, a) && Known(byId, b) ==>
      KeyAfter(byId, a, id) == KeyAfter(byId, b, id)
  }

  lemma {:induction false} AskedExact(byId: SpanMap, ids: seq<SpanID>)
    requires KeyedById(byId) && Known(byId, ids)
    ensures CacheExact(byId, Asked(byId, ids))
  {
    if ids != [] {
      var init, id := ids[..|ids| - 1], ids[|ids| - 1];
      AskedExact(byId, init);
      if Grounded<SpanID>(ParentIds(byId), id) {
        var n: nat :| Hops<SpanID>(ParentIds(byId), id, n);
        KeyIsAncestry(byId, Asked(byId, init), {}, id, n);
      } else {
        CyclicKeepsCache(byId, Asked(byId, init), {}, id);
      }
    }
  }

  // Only what has been asked for, and what is above it, is cached.
  lemma {:induction false} CachedAbove(byId: SpanMap, cache: map<SpanID, string>, visiting: set<SpanID>, id: SpanID,
                                       d: SpanID)
    requires KeyedById(byId) && id in byId
    requires d in MatchKey(byId[id], byId, cache, visiting).1
    ensures d in cache || Below<SpanID>(ParentIds(byId), id, d)
    decreases byId.Keys - visiting
  {
    var parents := ParentIds(byId);
    UpOne<SpanID>(parents, id);
    if id !in cache && id !in visiting && d != id {
      if id in parents {
        var p: SpanID := parents[id];
        CachedAbove(byId, cache, visiting + {id}, p, d);
        if d !in cache {
          var n: nat :| Up<SpanID>(parents, p, n) == Some(d);
          UpCompose<SpanID>(parents, id, 1, n);
        }
      }
    }
  }

  lemma {:induction false} AskedAbove(byId: SpanMap, ids: seq<SpanID>, d: SpanID)
    requires KeyedById(byId) && Known(byId, ids)
    requires d in Asked(byId, ids)
    ensures exists x :: x in ids && Below<SpanID>(ParentIds(byId), x, d)
  {
    if ids != [] {
      var init, id := ids[..|ids| - 1], ids[|ids| - 1];
      CachedAbove(byId, Asked(byId, init), {}, id, d);
      if d in Asked(byId, init) {
        AskedAbove(byId, init, d);
      }
    }
  }

  // On the way up a path to e, whose parent c is being visited, e is cached with
  // the segment of c cut off there.
  lemma {:induction false} CutAtVisited(byId: SpanMap, cache: map<SpanID, string>, visiting: set<SpanID>,
                                        path: seq<SpanID>, c: SpanID)
    requires KeyedById(byId) && |path| > 0 && path[0] in byId
    requires IsPath<SpanID>(ParentIds(byId), path) && Distinct<SpanID>(path)
    requires forall x :: x in path ==> x !in cache && x !in visiting
    requires c in visiting && c !in cache
    requires path[|path| - 1] in ParentIds(byId) && ParentIds(byId)[path[|path| - 1]] == c
    ensures var e := path[|path| - 1];
            var filled := MatchKey(byId[path[0]], byId, cache, visiting).1;
            e in filled && e in byId && c in byId && filled[e] == Segment(byId[c]) + ">" + Segment(byId[e])
    decreases |path|
  {
    var s := path[0];
    if |path| == 1 {
      assert MatchKey(byId[c], byId, cache, visiting + {s}) == (Segment(byId[c]), cache);
    } else {
      assert path[1] in path[1..];
      CutAtVisited(byId, cache, visiting + {s}, path[1..], c);
    }
  }

  // On a cycle of two spans or more: asked for first, a span gets its parent's
  // segments and more; after its parent, only the last two.
  lemma CycleMemberDiffers(byId: SpanMap, e: SpanID)
    requires KeyedById(byId) && e in byId && OnCycle<SpanID>(ParentIds(byId), e)
    ensures e in ParentIds(byId)
    ensures Known(byId, [ParentIds(byId)[e]])
    ensures |KeyAfter(byId, [ParentIds(byId)[e]], e)| < |KeyAfter(byId, [], e)|
  {
    var parents := ParentIds(byId);
    var path := CyclePath<SpanID>(parents, e);
    var c: SpanID := path[0];
    assert c in parents && path[1..][|path| - 2] == e;
    var up := parents[c];
    assert path[1] == up;
    CutAtVisited(byId, map[], {c}, path[1..], c);
    assert {} + {c} == {c} && {} + {e} == {e} && c != e;
    assert Asked(byId, [c]) == MatchKey(byId[c], byId, map[], {}).1;
    assert e in Asked(byId, [c]) && Asked(byId, [c])[e] == Segment(byId[c]) + ">" + Segment(byId[e]);
    assert KeyAfter(byId, [c], e) == Segment(byId[c]) + ">" + Segment(byId[e]);
    assert |MatchKey(byId[c], byId, map[], {e}).0| > |Segment(byId[c])|;
    assert KeyAfter(byId, [], e) == MatchKey(byId[c], byId, map[], {e}).0 + ">" + Segment(byId[e]);
  }

  // Asking for a span first and then for one below it hands the key down.
  lemma KeyHandedDown(byId: SpanMap, ids: seq<SpanID>, id: SpanID)
    requires KeyedById(byId) && Known(byId, ids) && id in ParentIds(byId)
    requires id !in Asked(byId, ids + [ParentIds(byId)[id]])
    ensures Known(byId, ids + [ParentIds(byId)[id]])
    ensures KeyAfter(byId, ids + [ParentIds(byId)[id]], id) ==
            KeyAfter(byId, ids, ParentIds(byId)[id]) + ">" + Segment(byId[id])
  {
    var p: SpanID := ParentIds(byId)[id];
    assert (ids + [p])[..|ids|] == ids;
    var cache := Asked(byId, ids + [p]);
    assert p in cache && cache[p] == KeyAfter(byId, ids, p);
    assert MatchKey(byId[p], byId, cache, {} + {id}) == (cache[p], cache);
  }

  // Below a cycle of two spans or more two histories give different keys. Both ask
  // only for spans above.
  lemma {:induction false} CyclicKeyVaries(byId: SpanMap, id: SpanID, k: nat) returns (a: seq<SpanID>, b: seq<SpanID>)
    requires KeyedById(byId) && id in byId
    requires Up<SpanID>(ParentIds(byId), id, k).Some?
    requires OnCycle<SpanID>(ParentIds(byId), Up<SpanID>(ParentIds(byId), id, k).value)
    ensures Known(byId, a) && Known(byId, b)
    ensures forall x :: x in a || x in b ==> Below<SpanID>(ParentIds(byId), id, x)
    ensures |KeyAfter(byId, a, id)| != |KeyAfter(byId, b, id)|
    decreases k
  {
    var parents := ParentIds(byId);
    if OnCycle<SpanID>(parents, id) {
      CycleMemberDiffers(byId, id);
      a, b := [], [parents[id]];
      UpOne<SpanID>(parents, id);
    } else {
      UpPrefix<SpanID>(parents, id, 1, k);
      UpOne<SpanID>(parents, id);
      UpCompose<SpanID>(parents, id, 1, k - 1);
      var p: SpanID := parents[id];
      a, b := CyclicKeyVaries(byId, p, k - 1);
      HistoryBelow(byId, id, a);
      HistoryBelow(byId, id, b);
      KeyHandedDown(byId, a, id);
      KeyHandedDown(byId, b, id);
      a, b := a + [p], b + [p];
    }
  }

  // A history of spans above the parent of id, and the parent, does not cache id
  // unless id is on a cycle.
  lemma HistoryBelow(byId: SpanMap, id: SpanID, ids: seq<SpanID>)
    requires KeyedById(byId) && Known(byId, ids) && id in ParentIds(byId) && !OnCycle<SpanID>(ParentIds(byId), id)
    requires forall x :: x in ids ==> Below<SpanID>(ParentIds(byId), ParentIds(byId)[id], x)
    ensures Known(byId, ids + [ParentIds(byId)[id]]) && id !in Asked(byId, ids + [ParentIds(byId)[id]])
    ensures forall x :: x in ids + [ParentIds(byId)[id]] ==> Below<SpanID>(ParentIds(byId), id, x)
  {
    var parents := ParentIds(byId);
    var p: SpanID := parents[id];
    UpOne<SpanID>(parents, p);
    forall x | x in ids + [p] ensures Below<SpanID>(parents, id, x) {
      var n: nat :| Up<SpanID>(parents, p, n) == Some(x);
      UpOne<SpanID>(parents, id);
      UpCompose<SpanID>(parents, id, 1, n);
    }
    if id in Asked(byId, ids + [p]) {
      AskedAbove(byId, ids + [p], id);
      var x: SpanID :| x in ids + [p] && Below<SpanID>(parents, x, id);
      var n: nat :| Up<SpanID>(parents, p, n) == Some(x);
      var m: nat :| Up<SpanID>(parents, x, m) == Some(id);
      UpCompose<SpanID>(parents, p, n, m);
      UpOne<SpanID>(parents, id);
      UpCompose<SpanID>(parents, id, 1, n + m);
    }
  }

  // The key of a span does not depend on what has been asked for before if and only
  // if its parent chain does not run into a cycle of two spans or more.
  lemma KeyFixedIff(byId: SpanMap, id: SpanID)
    requires KeyedById(byId) && id in byId
    ensures KeyFixed(byId, id) <==> !MeetsCycle<SpanID>(ParentIds(byId), id)
  {
    GroundedIffNoCycle<SpanID>(ParentIds(byId), id);
    if MeetsCycle<SpanID>(ParentIds(byId), id) {
      var k := CycleAbove<SpanID>(ParentIds(byId), id);
      var a, b := CyclicKeyVaries(byId, id, k);
      assert KeyAfter(byId, a, id) != KeyAfter(byId, b, id);
    } else {
      var n: nat :| Hops<SpanID>(ParentIds(byId), id, n);
      forall a: seq<SpanID>, b: seq<SpanID> | Known(byId, a) && Known(byId, b)
        ensures KeyAfter(byId, a, id) == KeyAfter(byId, b, id)
      {
        AskedExact(byId, a);
        AskedExact(byId, b);
        KeyIsAncestry(byId, Asked(byId, a), {}, id, n);
        KeyIsAncestry(byId, Asked(byId, b), {}, id, n);
      }
    }
  }

  // What the key of a span reads, if its parent chain does not run into a cycle of two
  // spans or more, and whatever has been asked for before it or before its parent.
  lemma KeyText(byId: SpanMap, id: SpanID, asked: seq<SpanID>, before: seq<SpanID>)
    requires KeyedById(byId) && id in byId && Known(byId, asked) && Known(byId, before)
    requires !MeetsCycle<SpanID>(ParentIds(byId), id)
    ensures var s := byId[id].data;
            KeyAfter(byId, asked, id) ==
            (if s.parentId == 0 then ""
             else if s.parentId == id then s.service + "/" + s.name + ">"
             else if s.parentId in byId then KeyAfter(byId, before, s.parentId) + ">"
             else "missing:" + IdText(s.parentId) + ">") + (s.service + "/" + s.name)
  {
    var parents := ParentIds(byId);
    GroundedIffNoCycle<SpanID>(parents, id);
    var n: nat :| Hops<SpanID>(parents, id, n);
    AskedExact(byId, asked);
    AskedExact(byId, before);
    KeyIsAncestry(byId, Asked(byId, asked), {}, id, n);
    if id in parents {
      var p: SpanID := parents[id];
      HopsOfParent<SpanID>(parents, id, n - 1);
      KeyIsAncestry(byId, Asked(byId, before), {}, p, n - 1);
    }
    hide MatchKey, Asked;
    SegmentLast(byId, id, n);
  }

  lemma SegmentLast(byId: SpanMap, id: SpanID, n: nat)
    requires KeyedById(byId) && id in byId && Hops<SpanID>(ParentIds(byId), id, n)
    ensures var s := byId[id].data; var segment := s.service + "/" + s.name;
            AncestryKey(byId, id, n) ==
            (if id in ParentIds(byId) then
               HopsOfParent<SpanID>(ParentIds(byId), id, n - 1);
               AncestryKey(byId, s.parentId, n - 1) + ">"
             else if s.parentId == 0 then ""
             else if s.parentId == id then segment + ">"
             else "missing:" + IdText(s.parentId) + ">") + (s.service + "/" + s.name)
  {
    var segment := Segment(byId[id]);
    assert "" + segment == segment;
  }
}
