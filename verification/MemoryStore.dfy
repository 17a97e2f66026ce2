// The in-memory store: a map of traces, two inverted indexes, an error set and a
// timeline, kept in step by every operation.
module TraceIndex {
  import opened Model
  import opened StoreSpec

  type Index = map<string, set<TraceID>>
  type TraceMap = map<TraceID, StoredTrace>

  function OpKey(span: SpanData): string {
    span.service + ":" + span.name
  }

  function OpKeys(spans: seq<SpanData>): seq<string> {
    seq(|spans|, i requires 0 <= i < |spans| => OpKey(spans[i]))
  }

  predicate Has(index: Index, key: string, id: TraceID) {
    key in index && id in index[key]
  }

  ghost predicate NoEmptyBucket(index: Index) {
    forall key :: key in index ==> index[key] != {}
  }

  // The index lists, under every key, exactly the traces of m with that key.
  ghost predicate Indexes(index: Index, m: TraceMap, keys: StoredTrace -> seq<string>) {
    && NoEmptyBucket(index)
    && forall key, id :: Has(index, key, id) <==> id in m && key in keys(m[id])
  }

  function AddKey(index: Index, key: string, id: TraceID): Index {
    index[key := (if key in index then index[key] else {}) + {id}]
  }

  lemma AddKeyExact(index: Index, key: string, id: TraceID)
    requires NoEmptyBucket(index)
    ensures NoEmptyBucket(AddKey(index, key, id))
    ensures forall k, i :: Has(AddKey(index, key, id), k, i) <==> Has(index, k, i) || (i == id && k == key)
  {
    assert id in AddKey(index, key, id)[key];
  }

  method AddKeys(index: Index, keys: seq<string>, id: TraceID) returns (r: Index)
    requires NoEmptyBucket(index)
    ensures NoEmptyBucket(r)
    ensures forall k, i :: Has(r, k, i) <==> Has(index, k, i) || (i == id && k in keys)
  {
    hide NoEmptyBucket, Has, AddKey;
    r := index;
    for n := 0 to |keys|
      invariant NoEmptyBucket(r)
      invariant forall k, i :: Has(r, k, i) <==> Has(index, k, i) || (i == id && k in keys[..n])
    {
      assert keys[..n + 1] == keys[..n] + [keys[n]];
      AddKeyExact(r, keys[n], id);
      r := AddKey(r, keys[n], id);
    }
    assert keys[..|keys|] == keys;
  }

  // Removing the identifier leaves no empty bucket behind.
  function DropKey(index: Index, key: string, id: TraceID): Index {
    if key !in index then index
    else if index[key] - {id} == {} then index - {key}
    else index[key := index[key] - {id}]
  }

  lemma DropKeyExact(index: Index, key: string, id: TraceID)
    requires NoEmptyBucket(index)
    ensures NoEmptyBucket(DropKey(index, key, id))
    ensures forall k, i :: Has(DropKey(index, key, id), k, i) <==> Has(index, k, i) && !(i == id && k == key)
  {
    if key in index {
      assert forall i :: i in index[key] ==> i == id || i in index[key] - {id};
    }
  }

  method DropServices(index: Index, services: seq<string>, id: TraceID) returns (r: Index)
    requires NoEmptyBucket(index)
    ensures NoEmptyBucket(r)
    ensures forall k, i :: Has(r, k, i) <==> Has(index, k, i) && !(i == id && k in services)
  {
    hide NoEmptyBucket, Has, DropKey;
    r := index;
    for n := 0 to |services|
      invariant NoEmptyBucket(r)
      invariant forall k, i :: Has(r, k, i) <==> Has(index, k, i) && !(i == id && k in services[..n])
    {
      assert services[..n + 1] == services[..n] + [services[n]];
      DropKeyExact(r, services[n], id);
      r := DropKey(r, services[n], id);
    }
    assert services[..|services|] == services;
  }

  // The same over the spans' operation keys, each key looked at once.
  method DropOperations(index: Index, spans: seq<SpanData>, id: TraceID) returns (r: Index)
    requires NoEmptyBucket(index)
    ensures NoEmptyBucket(r)
    ensures forall k, i :: Has(r, k, i) <==> Has(index, k, i) && !(i == id && k in OpKeys(spans))
  {
    hide NoEmptyBucket, Has, DropKey;
    r := index;
    var seen: set<string> := {};
    for n := 0 to |spans|
      invariant forall k :: k in seen <==> k in OpKeys(spans)[..n]
      invariant NoEmptyBucket(r)
      invariant forall k, i :: Has(r, k, i) <==> Has(index, k, i) && !(i == id && k in seen)
    {
      var key := OpKey(spans[n]);
      assert OpKeys(spans)[..n + 1] == OpKeys(spans)[..n] + [key];
      if key !in seen {
        seen := seen + {key};
        DropKeyExact(r, key, id);
        r := DropKey(r, key, id);
      }
    }
    assert OpKeys(spans)[..|spans|] == OpKeys(spans);
  }
}

module MemoryStore {
  import opened Model
  import opened Sequences
  import opened KeyedLog
  import opened StoreSpec
  import opened TraceIndex
  import opened SearchSpec

  datatype Entry = Entry(id: TraceID, receivedAt: Time)

  function EntryOf(t: StoredTrace): Entry { Entry(t.traceId, t.receivedAt) }

  // The map and the timeline describe the same list of traces.
  ghost predicate Describes(log: seq<StoredTrace>, m: TraceMap, timeline: seq<Entry>) {
    && UniqueIds(log) && OldestFirst(log)
    && MapsLog(m, log, IdOf)
    && timeline == Mapped(log, EntryOf)
  }

  lemma Removed(log: seq<StoredTrace>, m: TraceMap, timeline: seq<Entry>, i: nat)
    requires Describes(log, m, timeline) && i < |log|
    ensures log[i].traceId in m && m[log[i].traceId] == log[i]
    ensures Describes(Without(log, log[i].traceId), m - {log[i].traceId}, Cut(timeline, i))
    ensures Without(log, log[i].traceId) == Cut(log, i)
  {
    assert log[i] in log;
    assert forall j :: 0 <= j < |log| && j != i ==> IdOf(log[j]) != IdOf(log[i]);
    KeepAllButOne(log, NotId(log[i].traceId), i);
    CutMapsLog(log, m, i, IdOf);
    CutOrder(log, i, IdOf, ReceiptOf);
    MappedCut(log, EntryOf, i);
  }

  lemma PositionOf(log: seq<StoredTrace>, m: TraceMap, timeline: seq<Entry>, id: TraceID) returns (at: nat)
    requires Describes(log, m, timeline) && id in m
    ensures at < |timeline| && timeline[at].id == id
  {
    assert m[id] in log;
    at :| at < |log| && log[at] == m[id];
    assert timeline[at].id == IdOf(m[id]) == id;
  }

  lemma RemovedFirst(log: seq<StoredTrace>, m: TraceMap, timeline: seq<Entry>)
    requires Describes(log, m, timeline) && |log| > 0
    ensures timeline[0].id in m && m[timeline[0].id].traceId == timeline[0].id
    ensures Describes(log[1..], m - {timeline[0].id}, timeline[1..])
  {
    Removed(log, m, timeline, 0);
    assert Cut(timeline, 0) == timeline[1..] && Cut(log, 0) == log[1..];
  }

  // An entry that is due is the first trace to go.
  lemma HeadBefore(log: seq<StoredTrace>, m: TraceMap, timeline: seq<Entry>, cutoff: Time)
    requires Describes(log, m, timeline)
    requires |timeline| > 0 && timeline[0].receivedAt < cutoff
    ensures |log| == |m| == |timeline| && From(log, cutoff) == From(log[1..], cutoff)
  {
    KeepWithoutHead(log, NotBefore(cutoff));
  }

  // With no entry due at the head no trace is due.
  lemma NoneBefore(log: seq<StoredTrace>, m: TraceMap, timeline: seq<Entry>, cutoff: Time)
    requires Describes(log, m, timeline)
    requires |timeline| > 0 ==> cutoff <= timeline[0].receivedAt
    ensures From(log, cutoff) == log
  {
    TimelineSorted(log, m, timeline);
    assert forall i :: 0 <= i < |log| ==> log[i].receivedAt == timeline[i].receivedAt;
    KeepAll(log, NotBefore(cutoff));
  }

  lemma DescribesSize(log: seq<StoredTrace>, m: TraceMap, timeline: seq<Entry>)
    requires Describes(log, m, timeline)
    ensures |log| == |m| == |timeline|
  {
  }

  lemma MinusCommutes(m: TraceMap, kept: set<TraceID>, id: TraceID)
    requires id in m && id !in kept
    ensures m - kept - {id} == m - {id} - kept
    ensures |m - {id}| == |m| - 1
  {
    assert m.Keys == (m - {id}).Keys + {id};
  }

  lemma ReplaceKept(m: TraceMap, kept: set<TraceID>, id: TraceID, t: StoredTrace)
    requires kept <= {id} && id !in m - kept
    ensures m[id := t] == (m - kept)[id := t]
    ensures |m[id := t]| == |m - kept| + 1
  {
    assert m[id := t].Keys == (m - kept).Keys + {id};
  }

  lemma Added(log: seq<StoredTrace>, m: TraceMap, timeline: seq<Entry>, t: StoredTrace, i: nat)
    requires Describes(log, m, timeline) && t.traceId !in m && i <= |log|
    requires forall j :: 0 <= j < i ==> log[j].receivedAt <= t.receivedAt
    requires forall j :: i <= j < |log| ==> t.receivedAt < log[j].receivedAt
    ensures Describes(Inserted(log, t), m[t.traceId := t], Put(timeline, i, EntryOf(t)))
  {
    forall j | 0 <= j < |log| ensures IdOf(log[j]) != IdOf(t) {
      assert log[j] in log;
    }
    InsertedAt(log, t, i);
    PutMapsLog(log, m, t, i, IdOf);
    PutOrder(log, t, i, IdOf, ReceiptOf);
    MappedPut(log, EntryOf, i, t);
  }

  function ServiceKeys(t: StoredTrace): seq<string> { t.services }

  function OperationKeys(t: StoredTrace): seq<string> { OpKeys(t.spans) }

  ghost function ErrorIds(m: TraceMap): set<TraceID> {
    set id | id in m && m[id].errorCount > 0
  }

  // sort.Search: the first position whose entry was received after t.
  method SearchAfter(timeline: seq<Entry>, t: Time) returns (pos: nat)
    requires forall i, j :: 0 <= i < j < |timeline| ==> timeline[i].receivedAt <= timeline[j].receivedAt
    ensures pos <= |timeline|
    ensures forall i :: 0 <= i < pos ==> timeline[i].receivedAt <= t
    ensures forall i :: pos <= i < |timeline| ==> t < timeline[i].receivedAt
  {
    pos := 0;
    var hi := |timeline|;
    while pos < hi
      invariant 0 <= pos <= hi <= |timeline|
      invariant forall i :: 0 <= i < pos ==> timeline[i].receivedAt <= t
      invariant forall i :: hi <= i < |timeline| ==> t < timeline[i].receivedAt
    {
      var mid := (pos + hi) / 2;
      if timeline[mid].receivedAt > t {
        hi := mid;
      } else {
        pos := mid + 1;
      }
    }
  }

  class MemoryStore {
    var traces: TraceMap
    var byService: Index
    var byOperation: Index
    var byError: set<TraceID>
    var timeline: seq<Entry>
    const maxSize: nat
    ghost var log: seq<StoredTrace>  // the stored traces, oldest first

    // The secondary indexes are the ones that m would be given from scratch.
    ghost predicate IndexedAs(m: TraceMap)
      reads this`byService, this`byOperation, this`byError
    {
      && Indexes(byService, m, ServiceKeys)
      && Indexes(byOperation, m, OperationKeys)
      && byError == ErrorIds(m)
    }

    ghost predicate ConsistentWith(m: TraceMap)
      reads this
    {
      Describes(log, m, timeline) && IndexedAs(m)
    }

    ghost predicate Valid()
      reads this
    {
      ConsistentWith(traces) && 0 < maxSize && |traces| <= maxSize
    }

    constructor (maxSize: int)
      ensures Valid() && log == []
      ensures this.maxSize == if maxSize <= 0 then 10000 else maxSize
    {
      traces, byService, byOperation, byError, timeline := map[], map[], map[], {}, [];
      this.maxSize := if maxSize <= 0 then 10000 else maxSize;
      log := [];
    }

    method RemoveFromIndexes(trace: StoredTrace, ghost m: TraceMap)
      requires IndexedAs(m)
      requires trace.traceId in m && m[trace.traceId] == trace
      modifies this`byService, this`byOperation, this`byError
      ensures IndexedAs(m - {trace.traceId})
    {
      hide OpKeys;
      var id := trace.traceId;
      byService := DropServices(byService, trace.services, id);
      byOperation := DropOperations(byOperation, trace.spans, id);
      byError := byError - {id};
    }

    method AddToIndexes(trace: StoredTrace, ghost m: TraceMap)
      requires IndexedAs(m) && trace.traceId !in m
      modifies this`byService, this`byOperation, this`byError
      ensures IndexedAs(m[trace.traceId := trace])
    {
      hide OpKeys;
      var id := trace.traceId;
      byService := AddKeys(byService, trace.services, id);
      byOperation := AddKeys(byOperation, OpKeys(trace.spans), id);
      if trace.errorCount > 0 {
        byError := byError + {id};
      }
    }

    method RemoveFromTimeline(id: TraceID, ghost m: TraceMap)
      requires Describes(log, m, timeline) && id in m
      modifies this`timeline, this`log
      ensures Describes(log, m - {id}, timeline) && log == Without(old(log), id)
    {
      hide UniqueIds, OldestFirst, MapsLog;
      ghost var at := PositionOf(log, m, timeline, id);
      var i := 0;
      while i < |timeline| && timeline[i].id != id
        invariant 0 <= i <= at
      {
        i := i + 1;
      }
      Removed(log, m, timeline, i);
      timeline := Cut(timeline, i);
      log := Without(log, id);
    }

    // Drops the oldest trace; kept is a trace that is in the map but on its way
    // to being replaced, and so neither listed nor indexed.
    method Evict(ghost kept: set<TraceID>)
      requires ConsistentWith(traces - kept) && kept <= traces.Keys
      modifies this
      ensures ConsistentWith(traces - kept) && kept <= traces.Keys <= old(traces.Keys)
      ensures log == if old(log) == [] then [] else old(log)[1..]
      ensures old(log) != [] ==> |traces| == |old(traces)| - 1
    {
      hide UniqueIds, OldestFirst, MapsLog, IndexedAs, Describes;
      DescribesSize(log, traces - kept, timeline);
      if |timeline| == 0 {
        return;
      }
      var oldest := timeline[0];
      ghost var m := traces - kept;
      RemovedFirst(log, m, timeline);
      timeline := timeline[1..];
      log := log[1..];
      RemoveFromIndexes(traces[oldest.id], m);
      MinusCommutes(traces, kept, oldest.id);
      traces := traces - {oldest.id};
    }

    // Adds or replaces a trace. Replacing the only trace of a store that holds
    // one at most never returns: see StoreSpec.EvictionLoopEnds.
    method Upsert(trace: StoredTrace)
      requires Valid()
      requires Returns(log, StoreSpec.Upsert(trace), maxSize)
      modifies this
      ensures Valid()
      ensures log == Apply(old(log), StoreSpec.Upsert(trace), maxSize)
      ensures trace.traceId in traces && traces[trace.traceId] == trace
    {
      hide Describes, IndexedAs, Without, Inserted, Held;
      ghost var held := Held(log, trace.traceId);
      ghost var kept := Displace(trace.traceId);
      MakeRoom(kept, held);
      Store(trace, kept);
    }

    // Maps, indexes and lists a trace for which room has been made.
    method Store(trace: StoredTrace, ghost kept: set<TraceID>)
      requires ConsistentWith(traces - kept)
      requires kept <= {trace.traceId} && trace.traceId !in traces - kept
      modifies this
      ensures ConsistentWith(traces) && log == Inserted(old(log), trace)
      ensures |traces| == |old(log)| + 1
      ensures trace.traceId in traces && traces[trace.traceId] == trace
    {
      hide Describes, IndexedAs, Inserted;
      ghost var m := traces - kept;
      DescribesSize(log, m, timeline);
      ReplaceKept(traces, kept, trace.traceId, trace);
      traces := traces[trace.traceId := trace];
      AddToIndexes(trace, m);
      Insert(trace, m);
    }

    // Takes the version about to be replaced off the indexes and the timeline; it
    // stays in the map.
    method Displace(id: TraceID) returns (ghost kept: set<TraceID>)
      requires ConsistentWith(traces)
      modifies this`byService, this`byOperation, this`byError, this`timeline, this`log
      ensures ConsistentWith(traces - kept) && log == Without(old(log), id)
      ensures kept == (if id in traces then {id} else {}) && |kept| == Held(old(log), id)
    {
      hide UniqueIds, OldestFirst, MapsLog, IndexedAs, Without;
      HeldIffMapped(log, traces, id);
      if id in traces {
        kept := {id};
        RemoveFromIndexes(traces[id], traces);
        RemoveFromTimeline(id, traces);
      } else {
        kept := {};
        WithoutUnmapped(log, traces, id);
        assert traces - kept == traces;
      }
    }

    // Upsert's eviction loop.
    method MakeRoom(ghost kept: set<TraceID>, ghost held: nat)
      requires ConsistentWith(traces - kept) && kept <= traces.Keys
      requires |kept| == held < maxSize
      modifies this
      ensures ConsistentWith(traces - kept) && kept <= traces.Keys <= old(traces.Keys)
      ensures log == Newest(old(log), maxSize - 1 - held)
    {
      hide UniqueIds, OldestFirst, MapsLog, IndexedAs;
      MapsLogSize(log, traces, kept);
      while |traces| >= maxSize
        invariant ConsistentWith(traces - kept) && kept <= traces.Keys <= old(traces.Keys)
        invariant |traces| == |log| + held
        invariant Newest(log, maxSize - 1 - held) == Newest(old(log), maxSize - 1 - held)
        decreases |log|
      {
        Evict(kept);
      }
    }

    method Insert(trace: StoredTrace, ghost m: TraceMap)
      requires Describes(log, m, timeline) && trace.traceId !in m
      modifies this`timeline, this`log
      ensures Describes(log, m[trace.traceId := trace], timeline)
      ensures log == Inserted(old(log), trace)
    {
      TimelineSorted(log, m, timeline);
      var pos := SearchAfter(timeline, trace.receivedAt);
      Added(log, m, timeline, trace, pos);
      timeline := Put(timeline, pos, Entry(trace.traceId, trace.receivedAt));
      log := Inserted(log, trace);
    }

    method Delete(id: TraceID)
      requires Valid()
      modifies this
      ensures Valid() && id !in traces
      ensures log == Apply(old(log), StoreSpec.Delete(id), maxSize)
    {
      hide UniqueIds, OldestFirst, MapsLog, IndexedAs, Without;
      if id !in traces {
        WithoutUnmapped(log, traces, id);
        return;
      }
      ghost var m := traces;
      HeldIffMapped(log, m, id);
      RemoveFromIndexes(traces[id], m);
      traces := traces - {id};
      assert m.Keys == traces.Keys + {id};
      RemoveFromTimeline(id, m);
    }

    method EvictOlderThan(cutoff: Time) returns (evicted: nat)
      requires Valid()
      modifies this
      ensures Valid()
      ensures log == Apply(old(log), StoreSpec.EvictOlderThan(cutoff), maxSize)
      ensures evicted == |old(log)| - |log|
    {
      hide Describes, IndexedAs, Keep;
      evicted := 0;
      while |timeline| > 0 && timeline[0].receivedAt < cutoff
        invariant ConsistentWith(traces) && |traces| <= maxSize
        invariant From(log, cutoff) == From(old(log), cutoff)
        invariant evicted == |old(log)| - |log|
        decreases |timeline|
      {
        HeadBefore(log, traces, timeline, cutoff);
        assert traces - {} == traces;
        Evict({});
        assert traces - {} == traces;
        DescribesSize(log, traces, timeline);
        evicted := evicted + 1;
      }
      NoneBefore(log, traces, timeline, cutoff);
    }

    // The traces with a span of the operation asked for, as the index has them.
    method OperationIds(q: TraceQuery) returns (ids: set<TraceID>)
      requires Valid()
      ensures forall id :: id in ids <==> id in traces && exists s :: s in traces[id].spans && OperationByKey(q, s)
    {
      hide Describes, OpKeys;
      if q.serviceName != "" {
        var key := q.serviceName + ":" + q.operationName;
        ids := if key in byOperation then byOperation[key] else {};
        assert forall id :: id in ids <==> Has(byOperation, key, id);
      } else {
        ids := KeysOfOperation(byOperation, q.operationName);
      }
      forall id | id in traces ensures id in ids <==> exists s :: s in traces[id].spans && OperationByKey(q, s) {
        OpKeysMembers(traces[id].spans);
      }
    }

    // What the indexes leave to be looked at.
    method Candidates(q: TraceQuery) returns (ids: set<TraceID>)
      requires Valid()
      ensures forall id :: id in ids <==> id in traces && IndexFilters(q, traces[id], OperationByKey)
    {
      hide Describes, OperationByKey, OpKeys;
      if q.serviceName == "" {
        ids := traces.Keys;
      } else if q.serviceName in byService {
        ids := byService[q.serviceName];
      } else {
        ids := {};
      }
      assert forall id :: id in ids <==>
                            id in traces && (q.serviceName == "" || q.serviceName in traces[id].services) by {
        assert forall id :: Has(byService, q.serviceName, id) <==> id in traces && q.serviceName in traces[id].services;
      }
      if q.operationName != "" {
        var opSet := OperationIds(q);
        ids := ids * opSet;
      }
      if q.hasError.Some? {
        ids := if q.hasError.value then ids * byError else ids - byError;
      }
    }

    // The candidates that pass the remaining filters, in some order.
    method LoadFiltered(ids: set<TraceID>, q: TraceQuery, attributes: AttributeFilter) returns (found: seq<StoredTrace>)
      requires Valid()
      requires ids <= traces.Keys
      ensures Distinct(found)
      ensures forall t :: t in found <==> t in log && t.traceId in ids && TraceFilters(q, attributes, t)
    {
      hide TraceFilters;
      LogMembers(log, traces, timeline);
      found := [];
      var rest := ids;
      while rest != {}
        invariant rest <= ids
        invariant Distinct(found)
        invariant forall t :: t in found <==> t in log && t.traceId in ids - rest && TraceFilters(q, attributes, t)
      {
        var id :| id in rest;
        var t := traces[id];
        if TraceFilters(q, attributes, t) {
          found := found + [t];
        }
        rest := rest - {id};
      }
    }

    // A page of the stored traces that pass every filter, in the order asked for.
    method Query(q: TraceQuery, attributes: AttributeFilter) returns (r: QueryResult)
      requires Valid()
      ensures q.traceId.Some? ==> AnswersLookup(log, q, q.traceId.value, r)
      ensures q.traceId.None? ==> AnswersScan(log, q, attributes, OperationByKey, r)
    {
      LogMembers(log, traces, timeline);
      if q.traceId.Some? {
        if q.traceId.value in traces {
          var t := traces[q.traceId.value];
          if q.tenantId != "" && t.tenantId != q.tenantId {
            return QueryResult([], 0, false);
          }
          return QueryResult([ToSummary(t)], 1, false);
        }
        return QueryResult([], 0, false);
      }
      var ids := Candidates(q);
      var found := LoadFiltered(ids, q, attributes);
      r := SortAndPage(found, q);
      ListingScans(log, traces, ids, q, attributes, found, r);
    }
  }

  // Every trace listed under a key that ends in the operation.
  method KeysOfOperation(index: Index, operation: string) returns (ids: set<TraceID>)
    ensures forall id :: id in ids <==> exists k :: Has(index, k, id) && OperationFromKey(k) == operation
  {
    ids := {};
    var rest := index.Keys;
    ghost var done: set<string> := {};
    while rest != {}
      invariant done + rest == index.Keys
      invariant forall id :: id in ids <==>
                               exists k :: k in done && Has(index, k, id) && OperationFromKey(k) == operation
    {
      var key :| key in rest;
      rest, done := rest - {key}, done + {key};
      ghost var before := ids;
      if OperationFromKey(key) == operation {
        ids := ids + index[key];
      }
      assert forall id :: id in ids <==> id in before || (Has(index, key, id) && OperationFromKey(key) == operation);
    }
  }

  // The rest of Query: sort, count, skip to the offset, cut at the limit.
  method SortAndPage(found: seq<StoredTrace>, q: TraceQuery) returns (r: QueryResult)
    ensures AnswersFound(found, q, r)
  {
    hide Summaries, InOrder, SortKey, IsCut;
    var all := SortByKey(found, SortKey(q));
    KeyOrders(q, all);
    var page := all;
    if q.offset > 0 {
      page := if q.offset >= |page| then [] else page[q.offset..];
    }
    ghost var rest := page;
    var limit := if q.limit <= 0 then 100 else q.limit;
    var hasMore := false;
    if |page| > limit {
      page := page[..limit];
      hasMore := true;
    }
    r := QueryResult(Summaries(page), |all|, hasMore);
    var before, behind := CutInSteps(q, all, rest, page);
  }

  // Skipping to the offset and cutting at the limit gives the page.
  lemma CutInSteps(q: TraceQuery, all: seq<StoredTrace>, rest: seq<StoredTrace>, page: seq<StoredTrace>)
    returns (before: seq<StoredTrace>, behind: seq<StoredTrace>)
    requires rest == if q.offset <= 0 then all else if q.offset >= |all| then [] else all[q.offset..]
    requires var limit := if q.limit <= 0 then 100 else q.limit; page == if |rest| > limit then rest[..limit] else rest
    ensures IsCut(q, all, before, page, behind)
    ensures behind != [] <==> |rest| > if q.limit <= 0 then 100 else q.limit
  {
    var k := if q.offset <= 0 then 0 else if q.offset >= |all| then |all| else q.offset;
    before, behind := all[..k], rest[|page|..];
    assert rest == all[k..] && page == rest[..|page|];
    CutTwice(all, k, |page|);
  }

  lemma CutTwice<T>(s: seq<T>, k: nat, n: nat)
    requires k + n <= |s|
    ensures s == s[..k] + s[k..][..n] + s[k..][n..]
  {
    assert s[k..] == s[k..][..n] + s[k..][n..];
    assert s == s[..k] + s[k..];
  }

  // What the key stands for: the field sorted by, turned round if the order is descending.
  lemma KeyOrders(q: TraceQuery, all: seq<StoredTrace>)
    requires forall i, j :: 0 <= i < j < |all| ==> SortKey(q)(all[i]) <= SortKey(q)(all[j])
    ensures InOrder(q, all)
  {
  }

  ghost predicate AnswersFound(found: seq<StoredTrace>, q: TraceQuery, r: QueryResult) {
    exists all :: multiset(all) == multiset(found) && InOrder(q, all) && ShowsPage(q, all, r)
  }

  lemma ListingScans(log: seq<StoredTrace>, m: TraceMap, ids: set<TraceID>, q: TraceQuery,
                     attributes: AttributeFilter, found: seq<StoredTrace>, r: QueryResult)
    requires forall t :: t in log ==> t.traceId in m && m[t.traceId] == t
    requires forall id :: id in ids <==> id in m && IndexFilters(q, m[id], OperationByKey)
    requires Distinct(found)
    requires forall t :: t in found <==> t in log && t.traceId in ids && TraceFilters(q, attributes, t)
    requires AnswersFound(found, q, r)
    ensures AnswersScan(log, q, attributes, OperationByKey, r)
  {
    hide IndexFilters, TraceFilters, ShowsPage, InOrder;
    var all :| multiset(all) == multiset(found) && InOrder(q, all) && ShowsPage(q, all, r);
    MultisetMembers(all, found);
    DistinctReordered(found, all);
    assert IsListing(log, q, attributes, OperationByKey, all);
  }

  lemma OpKeysMembers(spans: seq<SpanData>)
    ensures forall k :: k in OpKeys(spans) <==> exists s :: s in spans && OpKey(s) == k
  {
    forall s | s in spans ensures OpKey(s) in OpKeys(spans) {
      var i :| 0 <= i < |spans| && spans[i] == s;
      assert OpKeys(spans)[i] == OpKey(s);
    }
  }

  lemma LogMembers(log: seq<StoredTrace>, m: TraceMap, timeline: seq<Entry>)
    requires Describes(log, m, timeline)
    ensures forall t :: t in log ==> t.traceId in m && m[t.traceId] == t
    ensures forall id :: id in m ==> m[id].traceId == id && m[id] in log
  {
    forall t | t in log ensures t.traceId in m && m[t.traceId] == t {
      assert IdOf(t) == t.traceId;
    }
    forall id | id in m ensures m[id].traceId == id {
      assert IdOf(m[id]) == id;
    }
  }

  lemma TimelineSorted(log: seq<StoredTrace>, m: TraceMap, timeline: seq<Entry>)
    requires Describes(log, m, timeline)
    ensures forall i, j :: 0 <= i < j < |timeline| ==> timeline[i].receivedAt <= timeline[j].receivedAt
  {
    forall i, j | 0 <= i < j < |timeline| ensures timeline[i].receivedAt <= timeline[j].receivedAt {
      assert ReceiptOf(log[i]) <= ReceiptOf(log[j]);
    }
  }

  lemma HeldIffMapped(log: seq<StoredTrace>, m: TraceMap, id: TraceID)
    requires MapsLog(m, log, IdOf)
    ensures Held(log, id) == if id in m then 1 else 0
    ensures id in m ==> m[id].traceId == id
  {
    if id in m {
      assert m[id] in log && IdOf(m[id]) == id;
    }
    if Holds(log, id) {
      var t :| t in log && t.traceId == id;
      assert IdOf(t) in m;
    }
  }

  lemma WithoutUnmapped(log: seq<StoredTrace>, m: TraceMap, id: TraceID)
    requires MapsLog(m, log, IdOf) && id !in m
    ensures Without(log, id) == log
  {
    forall i | 0 <= i < |log| ensures log[i].traceId != id {
      assert log[i] in log && IdOf(log[i]) in m;
    }
    KeepAll(log, NotId(id));
  }

  lemma MapsLogSize(log: seq<StoredTrace>, m: TraceMap, kept: set<TraceID>)
    requires MapsLog(m - kept, log, IdOf) && kept <= m.Keys
    ensures |m| == |log| + |kept|
  {
    assert m.Keys == (m - kept).Keys + kept;
  }
}
