// The sampler as a machine whose steps are its critical sections. Between taking
// a buffer and recording the verdict the lock is free, and timers may fire late.
module TailProtocol {
  import opened Model
  import opened Sequences
  import opened TailPolicies

  datatype Buffered = Buffered(spans: seq<Span>, firstAt: Time)

  // The spans of a trace whose evaluation has begun and not ended.
  datatype Flight = Flight(traceId: TraceID, spans: seq<Span>)

  datatype Config = Config(maxSize: int, policies: seq<Policy>)

  // accepted lists the spans handed to the accept callback, discarded the spans
  // that were let go; verdicts lists the traces judged since decided was reset.
  datatype State = State(
    buffer: map<TraceID, Buffered>,
    decided: map<TraceID, bool>,
    flights: seq<Flight>,
    accepted: seq<Span>,
    discarded: seq<Span>,
    rejected: seq<TraceID>,
    verdicts: seq<TraceID>)

  const INITIAL := State(map[], map[], [], [], [], [], [])

  datatype Step =
    | Add(span: Span, now: Time, victim: TraceID)  // victim: whom an eviction would hit
    | Take(traceId: TraceID)
    | Decide(flight: nat)

  function BufferFor(st: State, id: TraceID): seq<Span> {
    if id in st.buffer then st.buffer[id].spans else []
  }

  predicate MustEvict(c: Config, st: State, id: TraceID) {
    id !in st.decided && id !in st.buffer && |st.buffer| >= c.maxSize && st.buffer != map[]
  }

  // The victim has waited longest; which of several is up to the map's order.
  ghost predicate IsOldest(buffer: map<TraceID, Buffered>, victim: TraceID) {
    victim in buffer && forall id :: id in buffer ==> buffer[victim].firstAt <= buffer[id].firstAt
  }

  ghost predicate Enabled(c: Config, st: State, step: Step) {
    step.Add? ==> step.now > 0 && (MustEvict(c, st, step.span.data.traceId) ==> IsOldest(st.buffer, step.victim))
  }

  function Evict(st: State, victim: TraceID): State
    requires victim in st.buffer
  {
    st.(buffer := st.buffer - {victim},
        decided := st.decided[victim := false],
        discarded := st.discarded + st.buffer[victim].spans,
        rejected := st.rejected + [victim],
        verdicts := st.verdicts + [victim])
  }

  function Record(c: Config, st: State, id: TraceID, keep: bool): State {
    var decided := st.decided[id := keep];
    if |decided| > c.maxSize * 2 then st.(decided := map[id := keep], verdicts := [id])
    else st.(decided := decided, verdicts := st.verdicts + [id])
  }

  function Append(st: State, span: Span, now: Time): State {
    var id := span.data.traceId;
    var b := if id in st.buffer then st.buffer[id] else Buffered([], now);
    st.(buffer := st.buffer[id := b.(spans := b.spans + [span])])
  }

  function FlightVerdict(c: Config, spans: seq<Span>): bool {
    Verdict(c.policies, spans, ScanDuration(spans))
  }

  function NextAdd(c: Config, st: State, span: Span, now: Time, victim: TraceID): State {
    var id := span.data.traceId;
    if id in st.decided then
      if st.decided[id] then st.(accepted := st.accepted + [span])
      else st.(discarded := st.discarded + [span])
    else if MustEvict(c, st, id) && victim in st.buffer then Append(Evict(st, victim), span, now)
    else Append(st, span, now)
  }

  function NextTake(st: State, id: TraceID): State {
    if id !in st.buffer then st
    else st.(buffer := st.buffer - {id}, flights := st.flights + [Flight(id, st.buffer[id].spans)])
  }

  // Record the verdict, then call back.
  function Settle(c: Config, st: State, f: Flight, keep: bool): State {
    var judged := Record(c, st, f.traceId, keep);
    if keep then judged.(accepted := judged.accepted + f.spans)
    else judged.(discarded := judged.discarded + f.spans, rejected := judged.rejected + [f.traceId])
  }

  function NextDecide(c: Config, st: State, k: nat): State {
    if k >= |st.flights| then st
    else
      var f := st.flights[k];
      Settle(c, st.(flights := Cut(st.flights, k)), f, FlightVerdict(c, f.spans))
  }

  function Next(c: Config, st: State, step: Step): State {
    match step
    case Add(span, now, victim) => NextAdd(c, st, span, now, victim)
    case Take(id) => NextTake(st, id)
    case Decide(k) => NextDecide(c, st, k)
  }

  function Run(c: Config, steps: seq<Step>): State {
    if steps == [] then INITIAL else Next(c, Run(c, steps[..|steps| - 1]), steps[|steps| - 1])
  }

  ghost predicate Possible(c: Config, steps: seq<Step>) {
    steps == [] ||
    (Possible(c, steps[..|steps| - 1]) && Enabled(c, Run(c, steps[..|steps| - 1]), steps[|steps| - 1]))
  }

  // How often a span was given to AddSpan.
  function Given(steps: seq<Step>, x: Span): nat {
    if steps == [] then 0
    else
      var last := steps[|steps| - 1];
      Given(steps[..|steps| - 1], x) + if last.Add? && last.span == x then 1 else 0
  }

  function InFlight(flights: seq<Flight>, x: Span): nat {
    if flights == [] then 0
    else InFlight(flights[..|flights| - 1], x) + multiset(flights[|flights| - 1].spans)[x]
  }

  // The places in which occurrences of a span are.
  function Places(st: State, x: Span): nat {
    multiset(BufferFor(st, x.data.traceId))[x] + InFlight(st.flights, x) +
    multiset(st.accepted)[x] + multiset(st.discarded)[x]
  }

  ghost predicate OwnSpans(id: TraceID, spans: seq<Span>) {
    forall s :: s in spans ==> s.data.traceId == id
  }

  ghost predicate WellFormed(st: State) {
    && (forall id :: id in st.buffer ==> OwnSpans(id, st.buffer[id].spans) && st.buffer[id].firstAt > 0)
    && (forall k :: 0 <= k < |st.flights| ==> OwnSpans(st.flights[k].traceId, st.flights[k].spans))
  }

  lemma {:induction false} CutFlight(flights: seq<Flight>, k: nat, x: Span)
    requires k < |flights|
    ensures InFlight(flights, x) == InFlight(Cut(flights, k), x) + multiset(flights[k].spans)[x]
  {
    var init := flights[..|flights| - 1];
    var rest := Cut(flights, k);
    if k == |flights| - 1 {
      assert rest == init;
    } else {
      CutFlight(init, k, x);
      assert rest[..|rest| - 1] == Cut(init, k);
    }
  }

  lemma NextPlaces(c: Config, st: State, step: Step, x: Span)
    requires WellFormed(st)
    ensures Places(Next(c, st, step), x) == Places(st, x) + if step.Add? && step.span == x then 1 else 0
  {
    match step
    case Add(span, now, victim) => AddPlaces(c, st, span, now, victim, x);
    case Take(id) => TakePlaces(st, id, x);
    case Decide(k) => DecidePlaces(c, st, k, x);
  }

  lemma AddPlaces(c: Config, st: State, span: Span, now: Time, victim: TraceID, x: Span)
    requires WellFormed(st)
    ensures Places(NextAdd(c, st, span, now, victim), x) == Places(st, x) + if span == x then 1 else 0
  {
    hide Append, Evict, InFlight, Places;
    var id := span.data.traceId;
    if id in st.decided {
      LatePlaces(st, span, x);
    } else if MustEvict(c, st, id) && victim in st.buffer {
      EvictPlaces(st, victim, x);
      AppendPlaces(Evict(st, victim), span, now, x);
    } else {
      AppendPlaces(st, span, now, x);
    }
  }

  // A span of a decided trace.
  lemma LatePlaces(st: State, span: Span, x: Span)
    ensures Places(st.(accepted := st.accepted + [span]), x) == Places(st, x) + if span == x then 1 else 0
    ensures Places(st.(discarded := st.discarded + [span]), x) == Places(st, x) + if span == x then 1 else 0
  {
    hide InFlight;
  }

  lemma TakePlaces(st: State, id: TraceID, x: Span)
    requires WellFormed(st)
    ensures Places(NextTake(st, id), x) == Places(st, x)
  {
    if id in st.buffer {
      var f := Flight(id, st.buffer[id].spans);
      assert (st.flights + [f])[..|st.flights|] == st.flights;
      ForeignSpan(id, st.buffer[id].spans, x);
    }
  }

  lemma DecidePlaces(c: Config, st: State, k: nat, x: Span)
    ensures Places(NextDecide(c, st, k), x) == Places(st, x)
  {
    hide FlightVerdict, InFlight, Cut, Settle;
    if k < |st.flights| {
      CutFlight(st.flights, k, x);
      var f := st.flights[k];
      SettlePlaces(c, st.(flights := Cut(st.flights, k)), f, FlightVerdict(c, f.spans), x);
    }
  }

  lemma SettlePlaces(c: Config, st: State, f: Flight, keep: bool, x: Span)
    ensures Places(Settle(c, st, f, keep), x) == Places(st, x) + multiset(f.spans)[x]
  {
    hide InFlight;
    var judged := Record(c, st, f.traceId, keep);
    assert judged.buffer == st.buffer && judged.accepted == st.accepted && judged.discarded == st.discarded;
    hide Record;
  }

  lemma ForeignSpan(id: TraceID, spans: seq<Span>, x: Span)
    requires OwnSpans(id, spans)
    ensures x.data.traceId != id ==> multiset(spans)[x] == 0
  {
    if multiset(spans)[x] > 0 {
      assert x in spans;
    }
  }

  lemma EvictPlaces(st: State, victim: TraceID, x: Span)
    requires WellFormed(st) && victim in st.buffer
    ensures Places(Evict(st, victim), x) == Places(st, x)
  {
    ForeignSpan(victim, st.buffer[victim].spans, x);
  }

  lemma AppendPlaces(st: State, span: Span, now: Time, x: Span)
    ensures Places(Append(st, span, now), x) == Places(st, x) + if span == x then 1 else 0
  {
    var id := span.data.traceId;
    assert BufferFor(Append(st, span, now), id) == BufferFor(st, id) + [span];
  }

  lemma NextWellFormed(c: Config, st: State, step: Step)
    requires WellFormed(st) && Enabled(c, st, step)
    ensures WellFormed(Next(c, st, step))
  {
    hide WellFormed;
    match step
    case Add(span, now, victim) => AddWellFormed(c, st, span, now, victim);
    case Take(id) => TakeWellFormed(st, id);
    case Decide(k) => DecideWellFormed(c, st, k);
  }

  lemma AddWellFormed(c: Config, st: State, span: Span, now: Time, victim: TraceID)
    requires WellFormed(st) && now > 0
    ensures WellFormed(NextAdd(c, st, span, now, victim))
  {
  }

  lemma TakeWellFormed(st: State, id: TraceID)
    requires WellFormed(st)
    ensures WellFormed(NextTake(st, id))
  {
  }

  lemma DecideWellFormed(c: Config, st: State, k: nat)
    requires WellFormed(st)
    ensures WellFormed(NextDecide(c, st, k))
  {
    hide FlightVerdict;
  }

  // Conservation: in every interleaving, each occurrence of a span given to
  // AddSpan is in exactly one place, buffered, in flight, accepted or let go.
  lemma {:induction false} Conservation(c: Config, steps: seq<Step>, x: Span)
    requires Possible(c, steps)
    ensures WellFormed(Run(c, steps))
    ensures Places(Run(c, steps), x) == Given(steps, x)
  {
    if steps != [] {
      var before := Run(c, steps[..|steps| - 1]);
      Conservation(c, steps[..|steps| - 1], x);
      NextPlaces(c, before, steps[|steps| - 1], x);
      NextWellFormed(c, before, steps[|steps| - 1]);
    }
  }

  // The buffer never holds more traces than it should, in any interleaving.
  lemma {:induction false} BufferBound(c: Config, steps: seq<Step>)
    requires Possible(c, steps)
    ensures |Run(c, steps).buffer| <= Capacity(c)
  {
    if steps != [] {
      BufferBound(c, steps[..|steps| - 1]);
      NextBound(c, Run(c, steps[..|steps| - 1]), steps[|steps| - 1]);
    }
  }

  function Capacity(c: Config): nat {
    if c.maxSize >= 1 then c.maxSize else 1
  }

  lemma NextBound(c: Config, st: State, step: Step)
    requires Enabled(c, st, step)
    requires |st.buffer| <= Capacity(c)
    ensures |Next(c, st, step).buffer| <= Capacity(c)
  {
    match step
    case Add(span, now, victim) =>
      AddBound(c, st, span, now, victim);
    case Take(id) =>
      SmallerSet((st.buffer - {id}).Keys, st.buffer.Keys);
    case Decide(k) =>
      SettleBuffer(c, st, k);
  }

  lemma AddBound(c: Config, st: State, span: Span, now: Time, victim: TraceID)
    requires MustEvict(c, st, span.data.traceId) ==> victim in st.buffer
    requires |st.buffer| <= Capacity(c)
    ensures |NextAdd(c, st, span, now, victim).buffer| <= Capacity(c)
  {
    hide Append;
    if MustEvict(c, st, span.data.traceId) {
      assert st.buffer.Keys == (st.buffer - {victim}).Keys + {victim};
      AppendSize(Evict(st, victim), span, now);
    } else {
      AppendSize(st, span, now);
    }
  }

  lemma AppendSize(st: State, span: Span, now: Time)
    ensures |Append(st, span, now).buffer| == |st.buffer| + if span.data.traceId in st.buffer then 0 else 1
  {
    var id := span.data.traceId;
    var b := if id in st.buffer then st.buffer[id] else Buffered([], now);
    MapUpdateSize(st.buffer, id, b.(spans := b.spans + [span]));
  }

  lemma SettleBuffer(c: Config, st: State, k: nat)
    ensures NextDecide(c, st, k).buffer == st.buffer
  {
    hide FlightVerdict;
  }

  lemma {:induction false} SmallerSet<T>(a: set<T>, b: set<T>)
    requires a <= b
    ensures |a| <= |b|
  {
    if a != {} {
      var x :| x in a;
      SmallerSet(a - {x}, b - {x});
    }
  }

  function RecordLimit(c: Config): nat {
    if c.maxSize >= 1 then 2 * c.maxSize else 1
  }

  // Recording a verdict keeps decided within twice the configured size.
  lemma RecordBound(c: Config, st: State, id: TraceID, keep: bool)
    ensures |Record(c, st, id, keep).decided| <= RecordLimit(c)
    ensures id in Record(c, st, id, keep).decided && Record(c, st, id, keep).decided[id] == keep
  {
  }

  lemma RunMore(c: Config, steps: seq<Step>, step: Step)
    ensures Run(c, steps + [step]) == Next(c, Run(c, steps), step)
    ensures Possible(c, steps) && Enabled(c, Run(c, steps), step) ==> Possible(c, steps + [step])
  {
    assert (steps + [step])[..|steps|] == steps;
  }

  // Evictions since a verdict was last recorded by an evaluation.
  function LooseEvictions(c: Config, steps: seq<Step>): nat {
    if steps == [] then 0
    else
      var init := steps[..|steps| - 1];
      var st := Run(c, init);
      match steps[|steps| - 1]
      case Add(span, now, victim) =>
        LooseEvictions(c, init) + if MustEvict(c, st, span.data.traceId) && victim in st.buffer then 1 else 0
      case Take(id) => LooseEvictions(c, init)
      case Decide(k) => if k < |st.flights| then 0 else LooseEvictions(c, init)
  }

  // Only recording enforces the limit; evictions add to decided without looking at it.
  lemma {:induction false} DecidedBound(c: Config, steps: seq<Step>)
    ensures |Run(c, steps).decided| <= RecordLimit(c) + LooseEvictions(c, steps)
  {
    if steps != [] {
      var st := Run(c, steps[..|steps| - 1]);
      DecidedBound(c, steps[..|steps| - 1]);
      match steps[|steps| - 1]
      case Add(span, now, victim) => AddDecides(c, st, span, now, victim);
      case Take(id) =>
      case Decide(k) => DecideDecides(c, st, k);
    }
  }

  lemma AddDecides(c: Config, st: State, span: Span, now: Time, victim: TraceID)
    ensures |NextAdd(c, st, span, now, victim).decided| <=
            |st.decided| + if MustEvict(c, st, span.data.traceId) && victim in st.buffer then 1 else 0
  {
    MapUpdateSize(st.decided, victim, false);
  }

  lemma DecideDecides(c: Config, st: State, k: nat)
    ensures k < |st.flights| ==> |NextDecide(c, st, k).decided| <= RecordLimit(c)
    ensures k >= |st.flights| ==> NextDecide(c, st, k) == st
  {
    hide FlightVerdict, Record;
    if k < |st.flights| {
      var f := st.flights[k];
      RecordBound(c, st.(flights := Cut(st.flights, k)), f.traceId, FlightVerdict(c, f.spans));
    }
  }

  function Ids(spans: seq<Span>): (ids: seq<TraceID>)
    ensures |ids| == |spans|
    ensures forall i :: 0 <= i < |spans| ==> ids[i] == spans[i].data.traceId
  {
    seq(|spans|, (i: nat) requires i < |spans| => spans[i].data.traceId)
  }

  // Where the traces still buffered begin when n have come.
  function FirstKept(c: Config, n: nat): nat {
    if n <= Capacity(c) then 0 else n - Capacity(c)
  }

  // The spans one after the other, each one evicting the trace that has waited longest.
  function AddAll(c: Config, spans: seq<Span>): seq<Step> {
    if spans == [] then []
    else
      var n := |spans| - 1;
      AddAll(c, spans[..n]) + [Add(spans[n], n + 1, spans[FirstKept(c, n)].data.traceId)]
  }

  // The first lo traces are decided, the others wait in the order in which they came.
  ghost predicate Filled(decided: set<TraceID>, buffer: map<TraceID, Buffered>, ids: seq<TraceID>, lo: nat) {
    && lo <= |ids|
    && decided == ToSet(ids[..lo])
    && buffer.Keys == ToSet(ids[lo..])
    && forall i :: lo <= i < |ids| ==> ids[i] in buffer && buffer[ids[i]].firstAt == i + 1
  }

  // There is no bound on decided: spans of different traces, arriving one by one
  // with no evaluation between, leave all of them decided but those that fit.
  lemma {:induction false} DecidedGrows(c: Config, spans: seq<Span>)
    requires Distinct(Ids(spans))
    ensures Possible(c, AddAll(c, spans))
    ensures |Run(c, AddAll(c, spans)).decided| == FirstKept(c, |spans|)
  {
    AddAllFills(c, spans);
    var lo := FirstKept(c, |spans|);
    DistinctSize(Ids(spans)[..lo], ToSet(Ids(spans)[..lo]));
  }

  lemma {:induction false} AddAllFills(c: Config, spans: seq<Span>)
    requires Distinct(Ids(spans))
    ensures Possible(c, AddAll(c, spans))
    ensures var st := Run(c, AddAll(c, spans));
            Filled(st.decided.Keys, st.buffer, Ids(spans), FirstKept(c, |spans|))
  {
    if spans != [] {
      var n := |spans| - 1;
      var init, last := spans[..n], spans[n];
      assert Ids(spans) == Ids(init) + [last.data.traceId] && init + [last] == spans;
      AddAllFills(c, init);
      var victim := spans[FirstKept(c, n)].data.traceId;
      assert victim == Ids(spans)[FirstKept(c, n)];
      RunMore(c, AddAll(c, init), Add(last, n + 1, victim));
      hide Run, Possible, Next, Filled, Distinct;
      FillMore(c, Run(c, AddAll(c, init)), Ids(init), last, victim);
    }
  }

  lemma FillMore(c: Config, st: State, ids: seq<TraceID>, last: Span, victim: TraceID)
    requires Distinct(ids + [last.data.traceId])
    requires Filled(st.decided.Keys, st.buffer, ids, FirstKept(c, |ids|))
    requires victim == (ids + [last.data.traceId])[FirstKept(c, |ids|)]
    ensures Enabled(c, st, Add(last, |ids| + 1, victim))
    ensures var after := Next(c, st, Add(last, |ids| + 1, victim));
            Filled(after.decided.Keys, after.buffer, ids + [last.data.traceId], FirstKept(c, |ids| + 1))
  {
    var id := last.data.traceId;
    var lo := FirstKept(c, |ids|);
    NotAmong(ids, id);
    FilledSize(st.decided.Keys, st.buffer, ids, lo, id);
    hide Filled, Next, Enabled, Distinct;
    if |ids| < Capacity(c) {
      assert lo == FirstKept(c, |ids| + 1) == 0;
      hide *;
      FillWithRoom(c, st, ids, last, victim);
    } else {
      assert lo + 1 == FirstKept(c, |ids| + 1) && victim == ids[lo];
      hide *;
      FillEvicting(c, st, ids, lo, last);
    }
  }

  lemma FillWithRoom(c: Config, st: State, ids: seq<TraceID>, last: Span, victim: TraceID)
    requires Filled(st.decided.Keys, st.buffer, ids, 0) && last.data.traceId !in ids
    requires last.data.traceId !in st.decided && last.data.traceId !in st.buffer
    requires |st.buffer| == |ids| < Capacity(c)
    ensures Enabled(c, st, Add(last, |ids| + 1, victim))
    ensures var after := Next(c, st, Add(last, |ids| + 1, victim));
            Filled(after.decided.Keys, after.buffer, ids + [last.data.traceId], 0)
  {
    hide Filled, Next, Enabled;
    NewWithRoom(c, st, last, |ids| + 1, victim);
    AppendFills(st.decided.Keys, st.buffer, ids, 0, last.data.traceId, Buffered([] + [last], |ids| + 1));
  }

  lemma FillEvicting(c: Config, st: State, ids: seq<TraceID>, lo: nat, last: Span)
    requires Filled(st.decided.Keys, st.buffer, ids, lo) && Distinct(ids) && last.data.traceId !in ids
    requires last.data.traceId !in st.decided && last.data.traceId !in st.buffer
    requires lo < |ids| && |st.buffer| == Capacity(c)
    ensures Enabled(c, st, Add(last, |ids| + 1, ids[lo]))
    ensures var after := Next(c, st, Add(last, |ids| + 1, ids[lo]));
            Filled(after.decided.Keys, after.buffer, ids + [last.data.traceId], lo + 1)
  {
    hide Filled, Next, Enabled, IsOldest, Distinct;
    var victim := ids[lo];
    OldestWaits(st.decided.Keys, st.buffer, ids, lo);
    NewWithEviction(c, st, last, |ids| + 1, victim);
    EvictFills(st.decided.Keys, st.buffer, ids, lo);
    AppendFills(st.decided.Keys + {victim}, st.buffer - {victim}, ids, lo + 1, last.data.traceId,
                Buffered([] + [last], |ids| + 1));
  }

  lemma NewWithRoom(c: Config, st: State, span: Span, now: Time, victim: TraceID)
    requires now > 0 && |st.buffer| < Capacity(c)
    requires span.data.traceId !in st.decided && span.data.traceId !in st.buffer
    ensures var after := Next(c, st, Add(span, now, victim));
            && Enabled(c, st, Add(span, now, victim))
            && after.decided == st.decided
            && after.buffer == st.buffer[span.data.traceId := Buffered([] + [span], now)]
  {
    assert |st.buffer| == 0 ==> st.buffer == map[];
  }

  lemma NewWithEviction(c: Config, st: State, span: Span, now: Time, victim: TraceID)
    requires now > 0 && |st.buffer| == Capacity(c) && IsOldest(st.buffer, victim)
    requires span.data.traceId !in st.decided && span.data.traceId !in st.buffer
    ensures var after := Next(c, st, Add(span, now, victim));
            && Enabled(c, st, Add(span, now, victim))
            && after.decided.Keys == st.decided.Keys + {victim}
            && after.buffer == (st.buffer - {victim})[span.data.traceId := Buffered([] + [span], now)]
  {
    assert st.decided[victim := false].Keys == st.decided.Keys + {victim};
  }

  lemma NotAmong(ids: seq<TraceID>, id: TraceID)
    requires Distinct(ids + [id])
    ensures Distinct(ids) && id !in ids
  {
    DistinctConcat(ids, [id]);
    assert id in [id];
  }

  lemma FilledSize(decided: set<TraceID>, buffer: map<TraceID, Buffered>, ids: seq<TraceID>, lo: nat, id: TraceID)
    requires Distinct(ids) && Filled(decided, buffer, ids, lo) && id !in ids
    ensures |buffer| == |ids| - lo
    ensures id !in decided && id !in buffer
  {
    DistinctSize(ids[lo..], ToSet(ids[lo..]));
  }

  lemma OldestWaits(decided: set<TraceID>, buffer: map<TraceID, Buffered>, ids: seq<TraceID>, lo: nat)
    requires Filled(decided, buffer, ids, lo) && lo < |ids|
    ensures IsOldest(buffer, ids[lo])
  {
    forall id | id in buffer ensures buffer[ids[lo]].firstAt <= buffer[id].firstAt {
      assert id in ids[lo..];
      var i :| lo <= i < |ids| && ids[i] == id;
    }
  }

  lemma EvictFills(decided: set<TraceID>, buffer: map<TraceID, Buffered>, ids: seq<TraceID>, lo: nat)
    requires Filled(decided, buffer, ids, lo) && lo < |ids| && Distinct(ids)
    ensures Filled(decided + {ids[lo]}, buffer - {ids[lo]}, ids, lo + 1)
  {
    assert ids[..lo + 1] == ids[..lo] + [ids[lo]];
    assert ToSet(ids[..lo + 1]) == ToSet(ids[..lo]) + {ids[lo]};
    var rest := ids[lo + 1..];
    assert ids[lo..] == [ids[lo]] + rest;
    assert ids[lo] !in rest && ToSet(rest) == ToSet(ids[lo..]) - {ids[lo]};
    hide ToSet;
  }

  lemma AppendFills(decided: set<TraceID>, buffer: map<TraceID, Buffered>, ids: seq<TraceID>, lo: nat, id: TraceID,
                    b: Buffered)
    requires Filled(decided, buffer, ids, lo) && id !in ids && b.firstAt == |ids| + 1
    ensures Filled(decided, buffer[id := b], ids + [id], lo)
  {
    assert (ids + [id])[..lo] == ids[..lo];
    assert (ids + [id])[lo..] == ids[lo..] + [id];
    assert ToSet(ids[lo..] + [id]) == ToSet(ids[lo..]) + {id};
  }

  ghost predicate InFlightTrace(st: State, id: TraceID) {
    exists k :: 0 <= k < |st.flights| && st.flights[k].traceId == id
  }

  // Each trace is buffered, in flight once, decided, or none of these; the decided
  // traces are those judged since the last reset, each once.
  ghost predicate OneVerdictEach(st: State) {
    TracesApart(st.buffer.Keys, st.decided.Keys, st.flights) && JudgedOnce(st.verdicts, st.decided.Keys)
  }

  ghost predicate JudgedOnce(verdicts: seq<TraceID>, decided: set<TraceID>) {
    Distinct(verdicts) && ToSet(verdicts) == decided
  }

  ghost predicate TracesApart(buffered: set<TraceID>, decided: set<TraceID>, flights: seq<Flight>) {
    && (forall i, j :: 0 <= i < j < |flights| ==> flights[i].traceId != flights[j].traceId)
    && (forall k :: 0 <= k < |flights| ==> flights[k].traceId !in buffered && flights[k].traceId !in decided)
    && buffered !! decided
  }

  // A step that brings a span of a trace in flight.
  ghost predicate Overlaps(st: State, step: Step) {
    step.Add? && InFlightTrace(st, step.span.data.traceId)
  }

  lemma VerdictAdded(verdicts: seq<TraceID>, decided: set<TraceID>, id: TraceID)
    requires JudgedOnce(verdicts, decided) && id !in decided
    ensures JudgedOnce(verdicts + [id], decided + {id})
  {
    assert id !in ToSet(verdicts);
    assert ToSet(verdicts + [id]) == ToSet(verdicts) + {id};
  }

  lemma VerdictAlone(id: TraceID)
    ensures JudgedOnce([id], {id})
  {
    assert ToSet([id]) == {id};
  }

  // A step keeps it that way unless it overlaps.
  lemma StepKeepsOneVerdict(c: Config, st: State, step: Step)
    requires OneVerdictEach(st)
    ensures OneVerdictEach(Next(c, st, step)) <==> !Overlaps(st, step)
  {
    hide OneVerdictEach;
    match step
    case Add(span, now, victim) => AddKeepsOneVerdict(c, st, span, now, victim);
    case Take(id) => TakeKeepsOneVerdict(st, id);
    case Decide(k) => DecideKeepsOneVerdict(c, st, k);
  }

  lemma AddKeepsOneVerdict(c: Config, st: State, span: Span, now: Time, victim: TraceID)
    requires OneVerdictEach(st)
    ensures OneVerdictEach(NextAdd(c, st, span, now, victim)) <==> !InFlightTrace(st, span.data.traceId)
  {
    var id := span.data.traceId;
    if id !in st.decided {
      if MustEvict(c, st, id) && victim in st.buffer {
        EvictKeepsOneVerdict(st, victim);
        AppendKeepsOneVerdict(Evict(st, victim), span, now);
      } else {
        AppendKeepsOneVerdict(st, span, now);
      }
    }
  }

  lemma EvictKeepsOneVerdict(st: State, victim: TraceID)
    requires OneVerdictEach(st) && victim in st.buffer
    ensures OneVerdictEach(Evict(st, victim))
  {
    VerdictAdded(st.verdicts, st.decided.Keys, victim);
    assert st.decided[victim := false].Keys == st.decided.Keys + {victim};
  }

  lemma AppendKeepsOneVerdict(st: State, span: Span, now: Time)
    requires OneVerdictEach(st) && span.data.traceId !in st.decided
    ensures OneVerdictEach(Append(st, span, now)) <==> !InFlightTrace(st, span.data.traceId)
  {
    assert span.data.traceId in Append(st, span, now).buffer;
  }

  lemma TakeKeepsOneVerdict(st: State, id: TraceID)
    requires OneVerdictEach(st)
    ensures OneVerdictEach(NextTake(st, id))
  {
  }

  lemma DecideKeepsOneVerdict(c: Config, st: State, k: nat)
    requires OneVerdictEach(st)
    ensures OneVerdictEach(NextDecide(c, st, k))
  {
    hide FlightVerdict, Settle, Cut, OneVerdictEach;
    if k < |st.flights| {
      var f := st.flights[k];
      LandKeepsOneVerdict(st, k);
      SettleKeepsOneVerdict(c, st.(flights := Cut(st.flights, k)), f, FlightVerdict(c, f.spans));
    }
  }

  ghost predicate Unknown(st: State, id: TraceID) {
    id !in st.buffer && id !in st.decided && !InFlightTrace(st, id)
  }

  lemma LandKeepsOneVerdict(st: State, k: nat)
    requires OneVerdictEach(st) && k < |st.flights|
    ensures OneVerdictEach(st.(flights := Cut(st.flights, k)))
    ensures Unknown(st.(flights := Cut(st.flights, k)), st.flights[k].traceId)
  {
    hide Cut;
  }

  lemma SettleKeepsOneVerdict(c: Config, st: State, f: Flight, keep: bool)
    requires OneVerdictEach(st) && Unknown(st, f.traceId)
    ensures OneVerdictEach(Settle(c, st, f, keep))
  {
    RecordKeepsOneVerdict(c, st, f.traceId, keep);
    hide Record, TracesApart, Distinct, ToSet;
  }

  lemma RecordKeepsOneVerdict(c: Config, st: State, id: TraceID, keep: bool)
    requires OneVerdictEach(st) && Unknown(st, id)
    ensures OneVerdictEach(Record(c, st, id, keep))
  {
    DecidedApart(st.buffer.Keys, st.decided.Keys, st.flights, id);
    VerdictAdded(st.verdicts, st.decided.Keys, id);
    VerdictAlone(id);
    hide TracesApart, JudgedOnce;
    RecordedKeys(c, st, id, keep);
    hide Record;
  }

  lemma RecordedKeys(c: Config, st: State, id: TraceID, keep: bool)
    ensures var after := Record(c, st, id, keep);
            && after.buffer == st.buffer && after.flights == st.flights
            && ((after.decided.Keys == {id} && after.verdicts == [id]) ||
                (after.decided.Keys == st.decided.Keys + {id} && after.verdicts == st.verdicts + [id]))
  {
    assert st.decided[id := keep].Keys == st.decided.Keys + {id};
    assert map[id := keep].Keys == {id};
  }

  lemma DecidedApart(buffered: set<TraceID>, decided: set<TraceID>, flights: seq<Flight>, id: TraceID)
    requires TracesApart(buffered, decided, flights) && id !in buffered
    requires forall k :: 0 <= k < |flights| ==> flights[k].traceId != id
    ensures TracesApart(buffered, decided + {id}, flights) && TracesApart(buffered, {id}, flights)
  {
  }

  ghost predicate AlwaysOneVerdict(c: Config, steps: seq<Step>) {
    OneVerdictEach(Run(c, steps)) && (steps != [] ==> AlwaysOneVerdict(c, steps[..|steps| - 1]))
  }

  ghost predicate NeverOverlaps(c: Config, steps: seq<Step>) {
    steps == [] ||
    (NeverOverlaps(c, steps[..|steps| - 1]) && !Overlaps(Run(c, steps[..|steps| - 1]), steps[|steps| - 1]))
  }

  // Over a run: each trace has one place and one verdict at every moment if and
  // only if no span arrives while its trace is in flight.
  lemma {:induction false} OneVerdictIff(c: Config, steps: seq<Step>)
    ensures AlwaysOneVerdict(c, steps) <==> NeverOverlaps(c, steps)
  {
    hide OneVerdictEach, Overlaps, Next;
    if steps == [] {
      InitialOneVerdict();
    } else {
      var init := steps[..|steps| - 1];
      OneVerdictIff(c, init);
      if AlwaysOneVerdict(c, init) {
        StepKeepsOneVerdict(c, Run(c, init), steps[|init|]);
      }
    }
  }

  lemma InitialOneVerdict()
    ensures OneVerdictEach(INITIAL)
  {
  }

  lemma RunUpTo(c: Config, steps: seq<Step>, j: nat)
    requires j < |steps|
    ensures Run(c, steps[..j + 1]) == Next(c, Run(c, steps[..j]), steps[j])
  {
    hide Next;
    assert steps[..j + 1][..j] == steps[..j];
  }

  // The step takes the trace from the buffer, to be judged or because it is evicted.
  ghost predicate Removes(c: Config, st: State, step: Step, id: TraceID) {
    step == Take(id) || (step.Add? && MustEvict(c, st, step.span.data.traceId) && step.victim == id)
  }

  lemma StaysBuffered(c: Config, st: State, step: Step, id: TraceID)
    requires id in st.buffer
    ensures id in Next(c, st, step).buffer <==> !Removes(c, st, step, id)
  {
    hide FlightVerdict;
    if step.Decide? {
      SettleBuffer(c, st, step.flight);
    }
  }

  lemma {:induction false} BufferedUntilRemoved(c: Config, steps: seq<Step>, id: TraceID, i: nat, j: nat)
    requires i <= j <= |steps| && id in Run(c, steps[..i]).buffer
    requires forall m :: i <= m < j ==> !Removes(c, Run(c, steps[..m]), steps[m], id)
    ensures id in Run(c, steps[..j]).buffer
  {
    hide Run, Next, Removes;
    if i < j {
      BufferedUntilRemoved(c, steps, id, i, j - 1);
      StaysBuffered(c, Run(c, steps[..j - 1]), steps[j - 1], id);
      RunUpTo(c, steps, j - 1);
    }
  }

  // When a flight lands its trace is decided, and stays buffered if it was.
  lemma LandingShows(c: Config, st: State, k: nat)
    requires k < |st.flights|
    ensures var id, after := st.flights[k].traceId, Next(c, st, Decide(k));
            id in after.decided && (id in after.buffer <==> id in st.buffer)
  {
    hide FlightVerdict, Cut;
    SettleBuffer(c, st, k);
  }

  // An overlap tells, whatever comes between: if a flight of the trace lands while
  // the overlapping span is neither taken nor evicted, the trace is buffered and
  // decided at the same time.
  lemma OverlapShows(c: Config, steps: seq<Step>, i: nat, j: nat)
    requires i < j < |steps| && steps[j].Decide?
    requires OneVerdictEach(Run(c, steps[..i])) && Overlaps(Run(c, steps[..i]), steps[i])
    requires var id, st := steps[i].span.data.traceId, Run(c, steps[..j]);
             steps[j].flight < |st.flights| && st.flights[steps[j].flight].traceId == id
    requires forall m :: i < m < j ==> !Removes(c, Run(c, steps[..m]), steps[m], steps[i].span.data.traceId)
    ensures var id, after := steps[i].span.data.traceId, Run(c, steps[..j + 1]);
            id in after.buffer && id in after.decided
  {
    var id := steps[i].span.data.traceId;
    OverlapBuffers(c, Run(c, steps[..i]), steps[i]);
    hide OneVerdictEach, Overlaps, Removes, Next, Run;
    RunUpTo(c, steps, i);
    BufferedUntilRemoved(c, steps, id, i + 1, j);
    LandingShows(c, Run(c, steps[..j]), steps[j].flight);
    RunUpTo(c, steps, j);
  }

  lemma OverlapBuffers(c: Config, st: State, step: Step)
    requires OneVerdictEach(st) && Overlaps(st, step)
    ensures step.span.data.traceId in Next(c, st, step).buffer
  {
  }

  lemma TakenOrNot(c: Config, st: State, step: Step, id: TraceID)
    requires !step.Add?
    ensures id in Next(c, st, step).buffer <==> id in st.buffer && step != Take(id)
  {
    if step.Decide? {
      SettleBuffer(c, st, step.flight);
    }
  }

  // Without additions a trace stays buffered unless it is taken, whatever timers
  // fire and flights land meanwhile.
  lemma {:induction false} TakenStaysOut(c: Config, before: seq<Step>, after: seq<Step>, id: TraceID)
    requires forall k :: 0 <= k < |after| ==> !after[k].Add?
    ensures id in Run(c, before + after).buffer <==> id in Run(c, before).buffer && Take(id) !in after
  {
    hide Run, Next;
    if after == [] {
      assert before + after == before;
    } else {
      var n := |after| - 1;
      var init, last := after[..n], after[n];
      TakenStaysOut(c, before, init, id);
      assert after == init + [last] && before + after == before + init + [last];
      RunMore(c, before + init, last);
      TakenOrNot(c, Run(c, before + init), last, id);
    }
  }

  // So stopping empties the buffer if and only if every buffered trace is taken.
  lemma StopEmpties(c: Config, before: seq<Step>, after: seq<Step>)
    requires forall k :: 0 <= k < |after| ==> !after[k].Add?
    ensures Run(c, before + after).buffer == map[] <==> forall id :: id in Run(c, before).buffer ==> Take(id) in after
  {
    hide Run;
    forall id: TraceID
      ensures id in Run(c, before + after).buffer <==> id in Run(c, before).buffer && Take(id) !in after
    {
      TakenStaysOut(c, before, after, id);
    }
  }

  // What the verdict on a flight does: its trace is decided as the policies say, and
  // its spans are accepted if they are kept; otherwise the trace is rejected.
  ghost predicate Landed(policies: seq<Policy>, before: State, after: State, f: Flight) {
    && f.traceId in after.decided && (after.decided[f.traceId] <==> Kept(policies, f.spans))
    && (if Kept(policies, f.spans) then
          && after.accepted == before.accepted + f.spans && after.discarded == before.discarded
          && after.rejected == before.rejected
        else
          && after.accepted == before.accepted && after.discarded == before.discarded + f.spans
          && after.rejected == before.rejected + [f.traceId])
  }

  // At any moment of any run, whatever has happened since the spans were taken.
  lemma LandingJudges(c: Config, st: State, k: nat)
    requires k < |st.flights|
    ensures var after := Next(c, st, Decide(k));
            && Landed(c.policies, st, after, st.flights[k])
            && after.buffer == st.buffer && after.flights == Cut(st.flights, k)
  {
    var f := st.flights[k];
    VerdictIsKept(c, f.spans);
    hide FlightVerdict, Kept, Cut;
  }

  lemma VerdictIsKept(c: Config, spans: seq<Span>)
    ensures FlightVerdict(c, spans) <==> Kept(c.policies, spans)
  {
    hide Verdict, FirstOpinion, Opine, ScanDuration;
    VerdictIsFirstOpinion(c.policies, spans, ScanDuration(spans));
  }

  // With an error policy behind error and latency policies only, all spans of a judged
  // trace with an error among them are accepted.
  lemma ErrorTraceAccepted(c: Config, st: State, k: nat, e: nat)
    requires k < |st.flights| && HasError(st.flights[k].spans)
    requires e < |c.policies| && c.policies[e].ErrorPolicy?
    requires forall j :: 0 <= j < e ==> c.policies[j].ErrorPolicy? || c.policies[j].LatencyPolicy?
    ensures var f, after := st.flights[k], Next(c, st, Decide(k));
            && after.accepted == st.accepted + f.spans && after.discarded == st.discarded
            && f.traceId in after.decided && after.decided[f.traceId]
  {
    LandingJudges(c, st, k);
    ErrorsKept(c.policies, e, st.flights[k].spans, ScanDuration(st.flights[k].spans));
    VerdictIsFirstOpinion(c.policies, st.flights[k].spans, ScanDuration(st.flights[k].spans));
    hide Next;
  }

  // A span of a decided trace goes where the verdict sends it, and nothing else changes;
  // any other one joins those buffered for its trace.
  lemma AddGoes(c: Config, st: State, span: Span, now: Time, victim: TraceID)
    ensures var id, after := span.data.traceId, Next(c, st, Add(span, now, victim));
            if id in st.decided then
              after == st.(accepted := st.accepted + if st.decided[id] then [span] else [],
                           discarded := st.discarded + if st.decided[id] then [] else [span])
            else
              && after.accepted == st.accepted && after.flights == st.flights
              && id in after.buffer && (id in st.buffer ==> after.buffer[id].firstAt == st.buffer[id].firstAt)
              && (id !in st.buffer ==> after.buffer[id].firstAt == now)
              && after.buffer[id].spans == BufferFor(st, id) + [span]
  {
  }

  // The verdict on the flight throws away what was decided before.
  predicate Resets(c: Config, st: State, step: Step) {
    step.Decide? && step.flight < |st.flights| &&
    |st.decided[st.flights[step.flight].traceId := true]| > 2 * c.maxSize
  }

  ghost predicate NeverResets(c: Config, steps: seq<Step>) {
    steps == [] ||
    (NeverResets(c, steps[..|steps| - 1]) && !Resets(c, Run(c, steps[..|steps| - 1]), steps[|steps| - 1]))
  }

  // An accepted span is of a trace decided to be kept, a discarded one of a trace
  // decided to be dropped.
  ghost predicate Sided(st: State) {
    && (forall x :: x in st.accepted ==> x.data.traceId in st.decided && st.decided[x.data.traceId])
    && (forall x :: x in st.discarded ==> x.data.traceId in st.decided && !st.decided[x.data.traceId])
  }

  lemma AddKeepsSides(c: Config, st: State, span: Span, now: Time, victim: TraceID)
    requires Sided(st) && OneVerdictEach(st) && WellFormed(st)
    ensures Sided(NextAdd(c, st, span, now, victim))
  {
  }

  lemma DecideKeepsSides(c: Config, st: State, k: nat)
    requires Sided(st) && OneVerdictEach(st) && WellFormed(st) && !Resets(c, st, Decide(k))
    ensures Sided(NextDecide(c, st, k))
  {
    hide FlightVerdict;
    if k < |st.flights| {
      var f := st.flights[k];
      MapUpdateSize(st.decided, f.traceId, true);
      MapUpdateSize(st.decided, f.traceId, FlightVerdict(c, f.spans));
    }
  }

  lemma {:induction false} AlwaysSided(c: Config, steps: seq<Step>)
    requires Possible(c, steps) && NeverOverlaps(c, steps) && NeverResets(c, steps)
    ensures Sided(Run(c, steps)) && OneVerdictEach(Run(c, steps)) && WellFormed(Run(c, steps))
  {
    hide OneVerdictEach, WellFormed, Overlaps, Resets, Enabled;
    if steps == [] {
      InitialOneVerdict();
      assert WellFormed(INITIAL) && Sided(INITIAL) by { InitialSided(); }
    } else {
      var init, step := steps[..|steps| - 1], steps[|steps| - 1];
      AlwaysSided(c, init);
      var st := Run(c, init);
      StepKeepsOneVerdict(c, st, step);
      NextWellFormed(c, st, step);
      hide Sided;
      match step
      case Add(span, now, victim) => AddKeepsSides(c, st, span, now, victim);
      case Take(id) => TakeKeepsSides(st, id);
      case Decide(k) => DecideKeepsSides(c, st, k);
    }
  }

  lemma InitialSided()
    ensures WellFormed(INITIAL) && Sided(INITIAL)
  {
  }

  lemma TakeKeepsSides(st: State, id: TraceID)
    requires Sided(st)
    ensures Sided(NextTake(st, id))
  {
  }

  // Whole traces: in any run in which no span arrives while its trace is in flight and
  // the verdicts are not thrown away, all spans given of a decided trace, before the
  // verdict or after it, are accepted if it is to be kept and none is if it is not.
  lemma WholeTraces(c: Config, steps: seq<Step>, x: Span)
    requires Possible(c, steps) && NeverOverlaps(c, steps) && NeverResets(c, steps)
    requires x.data.traceId in Run(c, steps).decided
    ensures multiset(Run(c, steps).accepted)[x] == if Run(c, steps).decided[x.data.traceId] then Given(steps, x) else 0
  {
    var st := Run(c, steps);
    Conservation(c, steps, x);
    AlwaysSided(c, steps);
    NotInFlight(st.flights, x);
    hide Run, Possible, NeverOverlaps, NeverResets;
    assert x.data.traceId !in st.buffer;
    assert x in multiset(st.accepted) <==> x in st.accepted;
    assert x in multiset(st.discarded) <==> x in st.discarded;
  }

  lemma {:induction false} NotInFlight(flights: seq<Flight>, x: Span)
    requires forall k :: 0 <= k < |flights| ==> flights[k].traceId != x.data.traceId
    requires forall k :: 0 <= k < |flights| ==> OwnSpans(flights[k].traceId, flights[k].spans)
    ensures InFlight(flights, x) == 0
  {
    if flights != [] {
      NotInFlight(flights[..|flights| - 1], x);
      ForeignSpan(flights[|flights| - 1].traceId, flights[|flights| - 1].spans, x);
    }
  }

  // Whole calls, as when no two of them overlap: evaluateTrace takes and decides
  // with nothing in between.
  datatype Call =
    | AddSpan(span: Span, now: Time, victim: TraceID)
    | EvaluateTrace(traceId: TraceID)

  function StepsOf(call: Call): seq<Step> {
    match call
    case AddSpan(span, now, victim) => [Add(span, now, victim)]
    case EvaluateTrace(id) => [Take(id), Decide(0)]
  }

  function Serial(calls: seq<Call>): seq<Step> {
    if calls == [] then [] else Serial(calls[..|calls| - 1]) + StepsOf(calls[|calls| - 1])
  }

  // Calls that do not overlap at all are a special case.
  lemma {:induction false} SerialOneVerdict(c: Config, calls: seq<Call>)
    ensures OneVerdictEach(Run(c, Serial(calls))) && Run(c, Serial(calls)).flights == []
  {
    hide OneVerdictEach, Next;
    if calls == [] {
      InitialOneVerdict();
    } else {
      SerialOneVerdict(c, calls[..|calls| - 1]);
      var steps := Serial(calls[..|calls| - 1]);
      var st := Run(c, steps);
      match calls[|calls| - 1]
      case AddSpan(span, now, victim) =>
        RunMore(c, steps, Add(span, now, victim));
        StepKeepsOneVerdict(c, st, Add(span, now, victim));
        SerialStep(c, st, Add(span, now, victim));
      case EvaluateTrace(id) =>
        assert steps + [Take(id), Decide(0)] == steps + [Take(id)] + [Decide(0)];
        RunMore(c, steps, Take(id));
        RunMore(c, steps + [Take(id)], Decide(0));
        StepKeepsOneVerdict(c, st, Take(id));
        StepKeepsOneVerdict(c, Next(c, st, Take(id)), Decide(0));
        SerialEvaluation(c, st, id);
    }
  }

  lemma SerialStep(c: Config, st: State, step: Step)
    requires st.flights == [] && step.Add?
    ensures Next(c, st, step).flights == []
  {
  }

  lemma SerialEvaluation(c: Config, st: State, id: TraceID)
    requires st.flights == []
    ensures Next(c, Next(c, st, Take(id)), Decide(0)).flights == []
  {
    hide FlightVerdict;
  }

  // A run in which that happens, and in which the trace is then judged twice.
  lemma OverlapJudgesTwice(c: Config, s: Span, late: Span)
    requires c.maxSize >= 1
    requires s.data.traceId == late.data.traceId
    ensures var id := s.data.traceId;
            var steps := [Add(s, 1, id), Take(id), Add(late, 2, id), Decide(0)];
            && Possible(c, steps)
            && id in Run(c, steps).buffer && id in Run(c, steps).decided
            && Possible(c, steps + [Take(id)] + [Decide(0)])
            && Run(c, steps + [Take(id)] + [Decide(0)]).verdicts == [id, id]
  {
    hide FlightVerdict;
    var id := s.data.traceId;
    var one := [Add(s, 1, id)];
    var two := one + [Take(id)];
    var three := two + [Add(late, 2, id)];
    var four := three + [Decide(0)];
    assert four == [Add(s, 1, id), Take(id), Add(late, 2, id), Decide(0)];
    assert one == [] + [Add(s, 1, id)];
    RunMore(c, [], Add(s, 1, id));
    RunMore(c, one, Take(id));
    RunMore(c, two, Add(late, 2, id));
    RunMore(c, three, Decide(0));
    RunMore(c, four, Take(id));
    RunMore(c, four + [Take(id)], Decide(0));
    OverlapStates(c, s, late);
  }

  lemma OverlapStates(c: Config, s: Span, late: Span)
    requires c.maxSize >= 1
    requires s.data.traceId == late.data.traceId
    ensures var id := s.data.traceId;
            var three := Next(c, Next(c, Next(c, INITIAL, Add(s, 1, id)), Take(id)), Add(late, 2, id));
            var four := Next(c, three, Decide(0));
            && three.buffer == map[id := Buffered([late], 2)] && three.flights == [Flight(id, [s])]
            && id in four.buffer && id in four.decided && four.verdicts == [id]
            && Next(c, Next(c, four, Take(id)), Decide(0)).verdicts == [id, id]
  {
    var id := s.data.traceId;
    var taken := Next(c, Next(c, INITIAL, Add(s, 1, id)), Take(id));
    OpenedAndTaken(c, s);
    var three := Next(c, taken, Add(late, 2, id));
    assert three.buffer == map[id := Buffered([late], 2)] by {
      assert [] + [late] == [late];
    }
    DecideOnly(c, three, Flight(id, [s]));
    var four := Next(c, three, Decide(0));
    var five := Next(c, four, Take(id));
    assert five.flights == [Flight(id, [late])];
    DecideOnly(c, five, Flight(id, [late]));
  }

  lemma OpenedAndTaken(c: Config, s: Span)
    requires c.maxSize >= 1
    ensures var id := s.data.traceId;
            Next(c, Next(c, INITIAL, Add(s, 1, id)), Take(id)) == INITIAL.(flights := [Flight(id, [s])])
  {
    var id := s.data.traceId;
    var first := Next(c, INITIAL, Add(s, 1, id));
    assert first.buffer == map[id := Buffered([s], 1)] by {
      assert [] + [s] == [s];
    }
    assert first.buffer - {id} == map[];
  }

  // The verdict on the only flight, while decided holds no more than that trace.
  lemma DecideOnly(c: Config, st: State, f: Flight)
    requires c.maxSize >= 1 && st.flights == [f]
    requires st.decided == map[] || exists b :: st.decided == map[f.traceId := b]
    ensures var after := Next(c, st, Decide(0));
            && after.buffer == st.buffer && after.flights == []
            && after.decided == map[f.traceId := FlightVerdict(c, f.spans)]
            && after.verdicts == st.verdicts + [f.traceId]
  {
    hide FlightVerdict;
    var keep := FlightVerdict(c, f.spans);
    assert st.decided[f.traceId := keep] == map[f.traceId := keep];
  }
}
