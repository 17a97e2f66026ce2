// The entities that every engine of the collector shares.
module Model {

  // Identifiers are fixed-width byte arrays; they are read here as the unsigned
  // numbers those bytes spell, so the all-zero identifier is 0.
  type TraceID = n: nat | n < 0x1_0000_0000_0000_0000_0000_0000_0000_0000
  type SpanID = n: nat | n < 0x1_0000_0000_0000_0000

  // A point in time in nanoseconds; 0 is the zero value of Go's time.Time.
  type Time = int

  datatype Option<+T> = None | Some(value: T)

  function Max(x: int, y: int): (m: int)
    ensures x <= m && y <= m && m in {x, y}
  {
    if x > y then x else y
  }

  datatype StatusCode = StatusUnset | StatusOk | StatusError

  // The fields a span arrives with.
  datatype SpanData = SpanData(
    traceId: TraceID,
    spanId: SpanID,
    parentId: SpanID,
    tenantId: string,
    name: string,
    service: string,
    start: Time,
    end: Time,
    status: StatusCode)
  {
    predicate IsRoot() { parentId == 0 }

    function Duration(): int { end - start }
  }

  // A span object: arrival data, and the three fields the assembler computes.
  class Span {
    const data: SpanData
    var depth: nat
    var hasError: bool
    var children: seq<Span>

    constructor (data: SpanData, hasError: bool)
      ensures this.data == data && this.hasError == hasError
      ensures depth == 0 && children == []
    {
      this.data := data;
      this.hasError := hasError;
      depth, children := 0, [];
    }
  }

  // s is the last of the spans with that identifier.
  ghost predicate IsLastWith(spans: seq<Span>, id: SpanID, s: Span) {
    exists i :: 0 <= i < |spans| && spans[i] == s && s.data.spanId == id &&
      forall j :: i < j < |spans| ==> spans[j].data.spanId != id
  }

  lemma LastWithStep(spans: seq<Span>, id: SpanID, s: Span)
    requires spans != []
    ensures var last := spans[|spans| - 1];
            IsLastWith(spans, id, s) <==>
              if last.data.spanId == id then s == last else IsLastWith(spans[..|spans| - 1], id, s)
  {
    var init := spans[..|spans| - 1];
    assert forall i :: 0 <= i < |init| ==> init[i] == spans[i];
    if i :| 0 <= i < |init| && init[i] == s && s.data.spanId == id &&
            forall j :: i < j < |init| ==> init[j].data.spanId != id {
      assert spans[i] == s;
    }
  }

  // What the assembler hands on: the spans of one trace with the totals drawn from them.
  datatype Trace = Trace(
    traceId: TraceID,
    tenantId: string,
    spans: seq<Span>,
    spanCount: nat,
    root: Option<Span>,
    duration: int,
    services: seq<string>,
    errorCount: nat)
}
