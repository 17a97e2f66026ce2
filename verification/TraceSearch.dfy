// Searching the store through its indexes, against a scan of everything stored.
module SearchSpec {
  import opened Model
  import opened Sequences
  import opened StoreSpec
  import opened TraceIndex
  import Text

  datatype TraceQuery = TraceQuery(
    tenantId: string,
    serviceName: string,
    operationName: string,
    attributeKV: string,
    minDuration: Option<int>,
    maxDuration: Option<int>,
    hasError: Option<bool>,
    startTime: Option<Time>,
    endTime: Option<Time>,
    traceId: Option<TraceID>,
    limit: int,
    offset: int,
    sortBy: string,
    sortDesc: bool)

  datatype Summary = Summary(
    traceId: TraceID,
    tenantId: string,
    rootService: string,
    rootOp: string,
    duration: int,
    spanCount: int,
    services: seq<string>,
    hasError: bool,
    receivedAt: Time)

  datatype QueryResult = QueryResult(traces: seq<Summary>, total: nat, hasMore: bool)

  // The attribute filter, an arbitrary predicate on a trace and the filter text.
  type AttributeFilter = (StoredTrace, string) -> bool

  function ToSummary(t: StoredTrace): Summary {
    Summary(t.traceId, t.tenantId, t.rootService, t.rootOp, t.duration, t.spanCount, t.services,
            t.errorCount > 0, t.receivedAt)
  }

  // What follows the first colon of an index key, or the whole key without one.
  function OperationFromKey(key: string): string {
    if key == "" then ""
    else if key[0] == ':' then key[1..]
    else if ':' in key then OperationFromKey(key[1..])
    else key
  }

  // The operation filter as the index keys decide it.
  predicate OperationByKey(q: TraceQuery, span: SpanData) {
    if q.serviceName != "" then OpKey(span) == q.serviceName + ":" + q.operationName
    else OperationFromKey(OpKey(span)) == q.operationName
  }

  // The operation filter as it is meant.
  predicate OperationByName(q: TraceQuery, span: SpanData) {
    span.name == q.operationName && (q.serviceName == "" || span.service == q.serviceName)
  }

  // The filters answered by the indexes, given how operations are compared.
  predicate IndexFilters(q: TraceQuery, t: StoredTrace, sameOperation: (TraceQuery, SpanData) -> bool) {
    && (q.serviceName == "" || q.serviceName in t.services)
    && (q.operationName == "" || exists s :: s in t.spans && sameOperation(q, s))
    && (q.hasError.Some? ==> q.hasError.value == (t.errorCount > 0))
  }

  // The filters tested on each candidate.
  predicate TraceFilters(q: TraceQuery, attributes: AttributeFilter, t: StoredTrace) {
    && (q.tenantId == "" || t.tenantId == q.tenantId)
    && (q.minDuration.Some? ==> q.minDuration.value <= t.duration)
    && (q.maxDuration.Some? ==> t.duration <= q.maxDuration.value)
    && (q.startTime.Some? ==> q.startTime.value <= t.receivedAt)
    && (q.endTime.Some? ==> t.receivedAt <= q.endTime.value)
    && (q.attributeKV == "" || attributes(t, q.attributeKV))
  }

  function SortKey(q: TraceQuery): StoredTrace -> int {
    (t: StoredTrace) =>
      var key := if q.sortBy == "duration" then t.duration
                 else if q.sortBy == "spanCount" then t.spanCount
                 else t.receivedAt;
      if q.sortDesc then -key else key
  }

  // x may come before y: the field sorted by does not decrease, or does not increase
  // if the order is descending.
  predicate MayPrecede(q: TraceQuery, x: Summary, y: Summary) {
    if q.sortBy == "duration" then (if q.sortDesc then x.duration >= y.duration else x.duration <= y.duration)
    else if q.sortBy == "spanCount" then (if q.sortDesc then x.spanCount >= y.spanCount else x.spanCount <= y.spanCount)
    else if q.sortDesc then x.receivedAt >= y.receivedAt
    else x.receivedAt <= y.receivedAt
  }

  function Summaries(s: seq<StoredTrace>): seq<Summary> {
    seq(|s|, i requires 0 <= i < |s| => ToSummary(s[i]))
  }

  // all lists, once each and in the order asked for, the stored traces that pass
  // every filter.
  ghost predicate IsListing(log: seq<StoredTrace>, q: TraceQuery, attributes: AttributeFilter,
                            sameOperation: (TraceQuery, SpanData) -> bool, all: seq<StoredTrace>) {
    && Distinct(all)
    && (forall t :: t in all <==> t in log && IndexFilters(q, t, sameOperation) && TraceFilters(q, attributes, t))
    && InOrder(q, all)
  }

  ghost predicate InOrder(q: TraceQuery, all: seq<StoredTrace>) {
    forall i, j :: 0 <= i < j < |all| ==> MayPrecede(q, ToSummary(all[i]), ToSummary(all[j]))
  }

  // A list cut where the page asked for begins and ends. Without a positive offset the
  // page begins at the start, without a positive limit it holds up to a hundred.
  ghost predicate IsCut(q: TraceQuery, all: seq<StoredTrace>, before: seq<StoredTrace>, page: seq<StoredTrace>,
                        behind: seq<StoredTrace>) {
    && all == before + page + behind
    && (if 0 < q.offset then |before| == q.offset || (|before| < q.offset && page == behind == []) else before == [])
    && (var limit := if q.limit <= 0 then 100 else q.limit; |page| == limit || (|page| < limit && behind == []))
  }

  // The answer shows the page cut from the list, how long the list is, and whether more follows.
  ghost predicate ShowsPage(q: TraceQuery, all: seq<StoredTrace>, r: QueryResult) {
    exists before, page, behind ::
      && IsCut(q, all, before, page, behind)
      && r.total == |all|
      && r.traces == Summaries(page)
      && (r.hasMore <==> behind != [])
  }

  // The answer a plain scan of the stored traces would give.
  ghost predicate AnswersScan(log: seq<StoredTrace>, q: TraceQuery, attributes: AttributeFilter,
                              sameOperation: (TraceQuery, SpanData) -> bool, r: QueryResult) {
    exists all :: IsListing(log, q, attributes, sameOperation, all) && ShowsPage(q, all, r)
  }

  // A query by identifier looks at the identifier and the tenant only.
  ghost predicate AnswersLookup(log: seq<StoredTrace>, q: TraceQuery, id: TraceID, r: QueryResult) {
    && !r.hasMore
    && r.total == |r.traces|
    && ((exists t :: t in log && t.traceId == id && (q.tenantId == "" || t.tenantId == q.tenantId) &&
           r.traces == [ToSummary(t)])
        || (r.traces == [] &&
            forall t :: t in log && t.traceId == id ==> q.tenantId != "" && t.tenantId != q.tenantId))
  }

  // The key of a span gives its operation back exactly when its service name has
  // no colon.
  lemma {:induction false} RecoverOperation(service: string, name: string)
    ensures ':' !in service ==> OperationFromKey(service + ":" + name) == name
    ensures ':' in service ==> |OperationFromKey(service + ":" + name)| > |name|
  {
    var key := service + ":" + name;
    if service == "" {
      assert key == [':'] + name;
    } else {
      assert key[1..] == service[1..] + ":" + name;
      assert key[|service|] == ':';
      if service[0] == ':' {
      } else {
        RecoverOperation(service[1..], name);
        assert service == [service[0]] + service[1..];
      }
    }
  }

  // Without a service in the query, comparing keys is comparing operations, for
  // every operation asked for, exactly when the span's service has no colon.
  lemma OperationFilterExact(span: SpanData)
    ensures ':' !in span.service <==>
              forall q: TraceQuery :: q.serviceName == "" ==>
                (OperationByKey(q, span) <==> OperationByName(q, span))
  {
    RecoverOperation(span.service, span.name);
    if ':' in span.service {
      var q := TraceQuery("", "", span.name, "", None, None, None, None, None, None, 0, 0, "", false);
      assert OperationByName(q, span) && !OperationByKey(q, span);
    }
  }

  lemma {:induction false} SplitUnique(a: string, b: string, x: string, y: string)
    requires ':' !in a && ':' !in b
    requires a + ":" + x == b + ":" + y
    ensures a == b && x == y
  {
    var key := a + ":" + x;
    assert key[|a|] == ':' && (b + ":" + y)[|b|] == ':';
    assert forall i :: 0 <= i < |a| ==> key[i] == a[i] && a[i] in a;
    assert forall i :: 0 <= i < |b| ==> key[i] == b[i] && b[i] in b;
    assert |a| == |b|;
    assert a == key[..|a|] && b == key[..|b|];
    assert x == key[|a| + 1..] && y == key[|b| + 1..];
  }

  // With a service in the query, its key decides the operation for every span
  // exactly when neither name in the query has a colon.
  lemma ServiceOperationExact(q: TraceQuery)
    requires q.serviceName != ""
    ensures ':' !in q.serviceName && ':' !in q.operationName <==>
              forall span :: OperationByKey(q, span) <==> OperationByName(q, span)
  {
    if ':' !in q.serviceName && ':' !in q.operationName {
      forall span ensures OperationByKey(q, span) <==> OperationByName(q, span) {
        if OperationByKey(q, span) {
          Text.OneSeparator(':', q.serviceName, q.operationName, span.service, span.name);
        }
      }
    } else {
      var service, name := OtherSplit(q.serviceName, q.operationName);
      var span := SpanOf(service, name);
      assert OperationByKey(q, span) && !OperationByName(q, span);
    }
  }

  // A key with a second colon is also the key of another pair.
  lemma OtherSplit(service: string, name: string) returns (service': string, name': string)
    requires ':' in service || ':' in name
    ensures service' + ":" + name' == service + ":" + name
    ensures service' != service
  {
    if ':' in service {
      var i :| 0 <= i < |service| && service[i] == ':';
      service', name' := service[..i], service[i + 1..] + ":" + name;
      assert service == service[..i] + ":" + service[i + 1..];
    } else {
      var i :| 0 <= i < |name| && name[i] == ':';
      service', name' := service + ":" + name[..i], name[i + 1..];
      assert name == name[..i] + ":" + name[i + 1..];
    }
  }

  function SpanOf(service: string, name: string): SpanData {
    SpanData(1, 1, 0, "", name, service, 0, 0, StatusUnset)
  }

  // The services of a trace are those of its spans, as the assembler lists them.
  ghost predicate ServicesListed(t: StoredTrace) {
    forall n :: n in t.services <==> n != "" && exists s :: s in t.spans && s.service == n
  }

  // The index filters of a query mean what they say, for every trace, exactly when
  // the query asks for no operation, or for a service and an operation without a colon.
  predicate Unambiguous(q: TraceQuery) {
    q.operationName == "" || (q.serviceName != "" && ':' !in q.serviceName && ':' !in q.operationName)
  }

  // The indexes find the trace though they should not, or miss it though they should.
  predicate Mistaken(q: TraceQuery, t: StoredTrace) {
    IndexFilters(q, t, OperationByKey) <==> !IndexFilters(q, t, OperationByName)
  }

  lemma QueryExact(q: TraceQuery)
    ensures Unambiguous(q) <==> forall t :: ServicesListed(t) ==> !Mistaken(q, t)
  {
    if Unambiguous(q) {
      forall t ensures !Mistaken(q, t) {
        UnambiguousExact(q, t);
      }
    } else {
      var t := MistakenTrace(q);
    }
  }

  lemma UnambiguousExact(q: TraceQuery, t: StoredTrace)
    requires Unambiguous(q)
    ensures !Mistaken(q, t)
  {
    if q.operationName != "" {
      ServiceOperationExact(q);
    }
  }

  // A trace that the indexes get wrong. For a service "a:b" and operation "c" it
  // has the services "a" and "a:b", and an operation "b:c" of the former.
  lemma MistakenTrace(q: TraceQuery) returns (t: StoredTrace)
    requires !Unambiguous(q)
    ensures ServicesListed(t) && Mistaken(q, t)
    ensures q.serviceName != "" ==> IndexFilters(q, t, OperationByKey)
  {
    var errors := if q.hasError == Some(true) then 1 else 0;
    if q.serviceName == "" {
      var span := SpanOf(":", q.operationName);
      t := StoredTrace(1, "", [span], [":"], "", "", 0, 1, errors, 0);
      RecoverOperation(span.service, span.name);
      assert span in t.spans && OperationByName(q, span) && !OperationByKey(q, span);
    } else {
      var service, name := OtherSplit(q.serviceName, q.operationName);
      var other, own := SpanOf(service, name), SpanOf(q.serviceName, q.operationName + ":");
      var services := if service == "" then [q.serviceName] else [q.serviceName, service];
      t := StoredTrace(1, "", [own, other], services, "", "", 0, 2, errors, 0);
      assert own in t.spans && other in t.spans;
      assert forall n :: n in t.services <==> n == q.serviceName || (n == service && n != "");
      assert OperationByKey(q, other) && !OperationByName(q, other) && !OperationByName(q, own);
    }
  }

  // The traces a query lists are the right ones if and only if no stored trace that
  // passes the other filters is mistaken.
  lemma ListingExact(log: seq<StoredTrace>, q: TraceQuery, attributes: AttributeFilter, all: seq<StoredTrace>)
    requires IsListing(log, q, attributes, OperationByKey, all)
    ensures IsListing(log, q, attributes, OperationByName, all) <==>
              forall t :: t in log && TraceFilters(q, attributes, t) ==> !Mistaken(q, t)
  {
    hide IndexFilters, TraceFilters, MayPrecede;
  }

  // With one such trace in the store the answer itself is wrong, whatever else the
  // store holds and whatever page is asked for.
  lemma WrongAnswer(log: seq<StoredTrace>, q: TraceQuery, attributes: AttributeFilter, t: StoredTrace, r: QueryResult)
    requires t in log && TraceFilters(q, attributes, t) && Mistaken(q, t)
    requires forall x :: x in log && x != t && TraceFilters(q, attributes, x) ==> !Mistaken(q, x)
    requires AnswersScan(log, q, attributes, OperationByKey, r)
    ensures !AnswersScan(log, q, attributes, OperationByName, r)
  {
    hide IndexFilters, TraceFilters, IsListing, Summaries;
    if AnswersScan(log, q, attributes, OperationByName, r) {
      var found :| IsListing(log, q, attributes, OperationByKey, found) && r.total == |found|;
      var meant :| IsListing(log, q, attributes, OperationByName, meant) && r.total == |meant|;
      ListingsDiffer(log, q, attributes, t, found, meant);
    }
  }

  lemma ListingsDiffer(log: seq<StoredTrace>, q: TraceQuery, attributes: AttributeFilter, t: StoredTrace,
                       found: seq<StoredTrace>, meant: seq<StoredTrace>)
    requires t in log && TraceFilters(q, attributes, t) && Mistaken(q, t)
    requires forall x :: x in log && x != t && TraceFilters(q, attributes, x) ==> !Mistaken(q, x)
    requires IsListing(log, q, attributes, OperationByKey, found)
    requires IsListing(log, q, attributes, OperationByName, meant)
    ensures |found| != |meant|
  {
    hide IndexFilters, TraceFilters, InOrder;
    if t in found {
      OneLonger(found, meant, t);
    } else {
      OneLonger(meant, found, t);
    }
  }

  ghost predicate ColonFree(t: StoredTrace) {
    && (forall s :: s in t.spans ==> ':' !in s.service)
    && (forall n :: n in t.services ==> ':' !in n)
  }

  // With colon-free service names the index filters mean what they say.
  lemma IndexFiltersExact(q: TraceQuery, t: StoredTrace)
    requires q.operationName != "" ==> ColonFree(t)
    ensures !Mistaken(q, t)
  {
    if (q.serviceName == "" || q.serviceName in t.services) && q.operationName != "" {
      forall s | s in t.spans ensures OperationByKey(q, s) <==> OperationByName(q, s) {
        RecoverOperation(s.service, s.name);
        if q.serviceName != "" && OperationByKey(q, s) {
          SplitUnique(s.service, q.serviceName, s.name, q.operationName);
        }
      }
    }
  }

  lemma ScanByName(log: seq<StoredTrace>, q: TraceQuery, attributes: AttributeFilter, r: QueryResult)
    requires AnswersScan(log, q, attributes, OperationByKey, r)
    requires Unambiguous(q) || forall t :: t in log ==> ColonFree(t)
    ensures AnswersScan(log, q, attributes, OperationByName, r)
  {
    var all :| IsListing(log, q, attributes, OperationByKey, all) && ShowsPage(q, all, r);
    forall t | t in log ensures !Mistaken(q, t) {
      if Unambiguous(q) {
        UnambiguousExact(q, t);
      } else {
        IndexFiltersExact(q, t);
      }
    }
    ListingExact(log, q, attributes, all);
  }

  // Which traces are listed, by what their summaries show: the bounds on duration and
  // receipt include their ends.
  lemma ListedIff(log: seq<StoredTrace>, q: TraceQuery, attributes: AttributeFilter,
                  sameOperation: (TraceQuery, SpanData) -> bool, all: seq<StoredTrace>, t: StoredTrace)
    requires IsListing(log, q, attributes, sameOperation, all) && t in log
    ensures t in all <==>
              var s := ToSummary(t);
              && (q.tenantId == "" || s.tenantId == q.tenantId)
              && (q.serviceName == "" || q.serviceName in s.services)
              && (q.operationName == "" || exists x :: x in t.spans && sameOperation(q, x))
              && (q.hasError == None || q.hasError == Some(s.hasError))
              && (q.minDuration.Some? ==> q.minDuration.value <= s.duration)
              && (q.maxDuration.Some? ==> s.duration <= q.maxDuration.value)
              && (q.startTime.Some? ==> q.startTime.value <= s.receivedAt)
              && (q.endTime.Some? ==> s.receivedAt <= q.endTime.value)
              && (q.attributeKV == "" || attributes(t, q.attributeKV))
  {
  }

  // The page is in the order asked for, and so are the traces before it and behind it:
  // together they are all that pass the filters.
  lemma PageOrdered(log: seq<StoredTrace>, q: TraceQuery, attributes: AttributeFilter,
                    sameOperation: (TraceQuery, SpanData) -> bool, r: QueryResult)
    returns (before: seq<StoredTrace>, page: seq<StoredTrace>, behind: seq<StoredTrace>)
    requires AnswersScan(log, q, attributes, sameOperation, r)
    ensures Distinct(before + page + behind)
    ensures forall t :: t in before || t in page || t in behind <==>
              t in log && IndexFilters(q, t, sameOperation) && TraceFilters(q, attributes, t)
    ensures IsCut(q, before + page + behind, before, page, behind) && r.traces == Summaries(page)
    ensures r.total == |before| + |page| + |behind| && (r.hasMore <==> behind != [])
    ensures forall i, j :: 0 <= i < j < |r.traces| ==> MayPrecede(q, r.traces[i], r.traces[j])
    ensures forall t, s :: t in before && s in r.traces ==> MayPrecede(q, ToSummary(t), s)
    ensures forall s, t :: s in r.traces && t in behind ==> MayPrecede(q, s, ToSummary(t))
  {
    hide IndexFilters, TraceFilters, MayPrecede, ToSummary;
    var all :| IsListing(log, q, attributes, sameOperation, all) && ShowsPage(q, all, r);
    before, page, behind :|
      IsCut(q, all, before, page, behind) && r.traces == Summaries(page) && (r.hasMore <==> behind != []);
    hide IsCut, Distinct;
    OrderAcross(q, before, page, behind);
  }

  lemma OrderAcross(q: TraceQuery, before: seq<StoredTrace>, page: seq<StoredTrace>, behind: seq<StoredTrace>)
    requires InOrder(q, before + page + behind)
    ensures forall i, j :: 0 <= i < j < |page| ==> MayPrecede(q, Summaries(page)[i], Summaries(page)[j])
    ensures forall t, s :: t in before && s in Summaries(page) ==> MayPrecede(q, ToSummary(t), s)
    ensures forall s, t :: s in Summaries(page) && t in behind ==> MayPrecede(q, s, ToSummary(t))
  {
    hide MayPrecede, ToSummary;
    var all := before + page + behind;
    forall i | 0 <= i < |before| ensures all[i] == before[i] {}
    forall i | 0 <= i < |page| ensures all[|before| + i] == page[i] {}
    forall i | 0 <= i < |behind| ensures all[|before| + |page| + i] == behind[i] {}
  }

  lemma Summarised(page: seq<StoredTrace>, t: StoredTrace)
    requires t in page
    ensures ToSummary(t) in Summaries(page)
  {
    var i :| 0 <= i < |page| && page[i] == t;
    assert Summaries(page)[i] == ToSummary(t);
  }

  // Each place on the page shows a stored trace of its own that passes the filters.
  lemma PageShows(log: seq<StoredTrace>, q: TraceQuery, attributes: AttributeFilter,
                  sameOperation: (TraceQuery, SpanData) -> bool, r: QueryResult)
    requires AnswersScan(log, q, attributes, sameOperation, r) && UniqueIds(log)
    ensures forall i, j :: 0 <= i < j < |r.traces| ==> r.traces[i].traceId != r.traces[j].traceId
    ensures forall s :: s in r.traces ==>
              exists t :: t in log && IndexFilters(q, t, sameOperation) && TraceFilters(q, attributes, t) &&
                s.traceId == t.traceId && s.tenantId == t.tenantId && s.rootService == t.rootService &&
                s.rootOp == t.rootOp && s.duration == t.duration && s.spanCount == t.spanCount &&
                s.services == t.services && s.receivedAt == t.receivedAt && (s.hasError <==> t.errorCount > 0)
  {
    hide IndexFilters, TraceFilters, IsCut;
    var before, page, behind := PageOrdered(log, q, attributes, sameOperation, r);
    DistinctConcat(before + page, behind);
    DistinctConcat(before, page);
    forall i, j | 0 <= i < j < |page| ensures page[i].traceId != page[j].traceId {
      assert page[i] in page && page[j] in page && page[i] != page[j];
    }
    forall i | 0 <= i < |page| ensures page[i] in page {}
  }

  // So a query for the latest traces shows them: none that it leaves out for the limit
  // was received after one that it shows.
  lemma LatestShown(log: seq<StoredTrace>, q: TraceQuery, attributes: AttributeFilter,
                    sameOperation: (TraceQuery, SpanData) -> bool, r: QueryResult, t: StoredTrace, s: Summary)
    requires AnswersScan(log, q, attributes, sameOperation, r)
    requires q.sortBy == "receivedAt" && q.sortDesc && q.offset <= 0
    requires t in log && IndexFilters(q, t, sameOperation) && TraceFilters(q, attributes, t)
    requires s in r.traces && ToSummary(t) !in r.traces
    ensures t.receivedAt <= s.receivedAt
  {
    var before, page, behind := PageOrdered(log, q, attributes, sameOperation, r);
    if t in page {
      Summarised(page, t);
    }
  }
}
