// Head sampling in the ingest path: one decision per trace, remembered for a while.
module DecisionCache {
  import opened Model

  datatype Decision = Drop | RecordOnly | Sample

  datatype Entry = Entry(result: Decision, expiresAt: Time)

  datatype Config = Config(ttl: int, sweepEvery: int)

  // lastSweep is 0 before the first sweep and after the cache has been cleared.
  datatype State = State(entries: map<TraceID, Entry>, lastSweep: Time)

  const INITIAL := State(map[], 0)

  // The steps under the cache's lock. ifAsked is what the sampler would answer if
  // it were asked at this point.
  datatype Step =
    | Decide(traceId: TraceID, now: Time, ifAsked: Decision)
    | Clear(traceId: TraceID)
    | ClearAll

  datatype Answer = Answer(result: Decision, asked: bool) | NoAnswer

  function Sweep(c: Config, st: State, now: Time): State {
    if st.lastSweep != 0 && now - st.lastSweep < c.sweepEvery then st
    else State(map id | id in st.entries && now <= st.entries[id].expiresAt :: st.entries[id], now)
  }

  predicate Hit(st: State, id: TraceID, now: Time) {
    id in st.entries && now < st.entries[id].expiresAt
  }

  function Recall(st: State, id: TraceID, now: Time, ifAsked: Decision): Answer {
    if Hit(st, id, now) then Answer(st.entries[id].result, false) else Answer(ifAsked, true)
  }

  // A hit prolongs the entry, a miss replaces it.
  function Remember(c: Config, st: State, id: TraceID, now: Time, ifAsked: Decision): State {
    st.(entries := st.entries[id := Entry(Recall(st, id, now, ifAsked).result, now + c.ttl)])
  }

  // sweeping says whether expired entries are dropped now and then, as the
  // collector does, or never.
  function Next(c: Config, st: State, step: Step, sweeping: bool): State {
    match step
    case Decide(id, now, ifAsked) => Remember(c, if sweeping then Sweep(c, st, now) else st, id, now, ifAsked)
    case Clear(id) => st.(entries := st.entries - {id})
    case ClearAll => INITIAL
  }

  function Reply(c: Config, st: State, step: Step, sweeping: bool): Answer {
    match step
    case Decide(id, now, ifAsked) => Recall(if sweeping then Sweep(c, st, now) else st, id, now, ifAsked)
    case Clear(_) => NoAnswer
    case ClearAll => NoAnswer
  }

  function Run(c: Config, st: State, steps: seq<Step>, sweeping: bool): State {
    if steps == [] then st
    else Next(c, Run(c, st, steps[..|steps| - 1], sweeping), steps[|steps| - 1], sweeping)
  }

  // The answer to the k-th step.
  function ReplyAt(c: Config, st: State, steps: seq<Step>, k: nat, sweeping: bool): Answer
    requires k < |steps|
  {
    Reply(c, Run(c, st, steps[..k], sweeping), steps[k], sweeping)
  }

  // The clock never goes back in the order in which the lock is taken, and starts
  // no earlier than from.
  ghost predicate ClockInOrder(steps: seq<Step>, from: Time) {
    && (forall k :: 0 <= k < |steps| && steps[k].Decide? ==> from <= steps[k].now)
    && forall j, k :: 0 <= j < k < |steps| && steps[j].Decide? && steps[k].Decide? ==> steps[j].now <= steps[k].now
  }

  function Latest(steps: seq<Step>, from: Time): Time {
    if steps == [] then from
    else
      var last := steps[|steps| - 1];
      if last.Decide? then last.now else Latest(steps[..|steps| - 1], from)
  }

  // The swept cache lacks nothing but entries that have expired.
  ghost predicate SweptOf(swept: State, full: State, now: Time) {
    && (forall id :: id in swept.entries ==> id in full.entries && full.entries[id] == swept.entries[id])
    && (forall id :: id in full.entries && id !in swept.entries ==> full.entries[id].expiresAt < now)
  }

  lemma SweptNext(c: Config, swept: State, full: State, step: Step, now: Time)
    requires SweptOf(swept, full, now) && (step.Decide? ==> now <= step.now)
    ensures Reply(c, swept, step, true) == Reply(c, full, step, false)
    ensures SweptOf(Next(c, swept, step, true), Next(c, full, step, false), if step.Decide? then step.now else now)
  {
  }

  // Sweeping changes no answer and no call of the sampler.
  lemma {:induction false} SweepingIsInvisible(c: Config, steps: seq<Step>, from: Time)
    requires ClockInOrder(steps, from)
    ensures SweptOf(Run(c, INITIAL, steps, true), Run(c, INITIAL, steps, false), Latest(steps, from))
    ensures forall k :: 0 <= k < |steps| ==>
      ReplyAt(c, INITIAL, steps, k, true) == ReplyAt(c, INITIAL, steps, k, false)
  {
    if steps != [] {
      var init := steps[..|steps| - 1];
      SweepingIsInvisible(c, init, from);
      LatestInOrder(steps, from);
      SweptNext(c, Run(c, INITIAL, init, true), Run(c, INITIAL, init, false), steps[|steps| - 1], Latest(init, from));
      forall k | 0 <= k < |init|
        ensures ReplyAt(c, INITIAL, steps, k, true) == ReplyAt(c, INITIAL, init, k, true)
        ensures ReplyAt(c, INITIAL, steps, k, false) == ReplyAt(c, INITIAL, init, k, false)
      {
        assert init[..k] == steps[..k];
      }
    }
  }

  lemma {:induction false} LatestInOrder(steps: seq<Step>, from: Time)
    requires ClockInOrder(steps, from) && |steps| > 0
    ensures steps[|steps| - 1].Decide? ==> Latest(steps[..|steps| - 1], from) <= steps[|steps| - 1].now
  {
    LatestIsOne(steps[..|steps| - 1], from);
  }

  lemma {:induction false} LatestIsOne(steps: seq<Step>, from: Time)
    ensures Latest(steps, from) == from ||
            exists k :: 0 <= k < |steps| && steps[k].Decide? && steps[k].now == Latest(steps, from)
  {
    if steps != [] && !steps[|steps| - 1].Decide? {
      LatestIsOne(steps[..|steps| - 1], from);
    }
  }

  lemma {:induction false} LatestIsLast(steps: seq<Step>, from: Time)
    requires ClockInOrder(steps, from)
    ensures from <= Latest(steps, from)
    ensures forall k :: 0 <= k < |steps| && steps[k].Decide? ==> steps[k].now <= Latest(steps, from)
  {
    if steps != [] && !steps[|steps| - 1].Decide? {
      LatestIsLast(steps[..|steps| - 1], from);
    }
  }

  // Between steps i and j the trace is not forgotten: no clearing, and each
  // question about it comes within the time to live of the one before.
  ghost predicate KeptAlive(c: Config, steps: seq<Step>, id: TraceID, i: nat, j: nat, asked: Time)
    requires i <= j <= |steps|
    decreases j - i
  {
    i == j ||
    match steps[i]
    case Decide(other, now, _) =>
      if other == id then now < asked + c.ttl && KeptAlive(c, steps, id, i + 1, j, now)
      else KeptAlive(c, steps, id, i + 1, j, asked)
    case Clear(other) => other != id && KeptAlive(c, steps, id, i + 1, j, asked)
    case ClearAll => false
  }

  // While a trace is kept alive every question about it gets the first answer,
  // and the sampler is not asked again.
  lemma {:induction false} OneDecision(c: Config, steps: seq<Step>, id: TraceID, i: nat, j: nat, asked: Time,
                                       result: Decision)
    requires i <= j <= |steps| && KeptAlive(c, steps, id, i, j, asked)
    requires var st := Run(c, INITIAL, steps[..i], false);
             id in st.entries && st.entries[id] == Entry(result, asked + c.ttl)
    ensures forall k :: i <= k < j && steps[k].Decide? && steps[k].traceId == id ==>
              ReplyAt(c, INITIAL, steps, k, false) == Answer(result, false)
    decreases j - i
  {
    if i < j {
      assert steps[..i + 1][..i] == steps[..i];
      OneDecision(c, steps, id, i + 1, j,
                  if steps[i].Decide? && steps[i].traceId == id then steps[i].now else asked, result);
    }
  }

  // The law for the cache as it is: spans of one trace, each less than a time to
  // live after the one before and with nothing cleared between, share one
  // decision and one call of the sampler.
  lemma TraceSharesDecision(c: Config, steps: seq<Step>, from: Time, i: nat, j: nat)
    requires ClockInOrder(steps, from)
    requires i < j <= |steps| && steps[i].Decide?
    requires KeptAlive(c, steps, steps[i].traceId, i + 1, j, steps[i].now)
    ensures forall k :: i < k < j && steps[k].Decide? && steps[k].traceId == steps[i].traceId ==>
              ReplyAt(c, INITIAL, steps, k, true) == Answer(ReplyAt(c, INITIAL, steps, i, true).result, false)
  {
    SweepingIsInvisible(c, steps, from);
    assert steps[..i + 1][..i] == steps[..i];
    OneDecision(c, steps, steps[i].traceId, i + 1, j, steps[i].now, ReplyAt(c, INITIAL, steps, i, false).result);
  }

  predicate Asks(step: Step, id: TraceID) {
    step.Decide? && step.traceId == id
  }

  predicate Forgets(step: Step, id: TraceID) {
    step == Clear(id) || step == ClearAll
  }

  // A question about id, from step i on and before step j, that the sampler is asked.
  ghost predicate SamplerAsked(c: Config, steps: seq<Step>, id: TraceID, i: nat, j: nat) {
    exists m: nat :: i <= m < j && m < |steps| && Asks(steps[m], id) &&
      ReplyAt(c, INITIAL, steps, m, true) == Answer(steps[m].ifAsked, true)
  }

  // A trace that has no live entry when it is next asked about is decided anew.
  lemma {:induction false} AskedAnew(c: Config, steps: seq<Step>, id: TraceID, i: nat, k: nat)
    requires i <= k < |steps| && Asks(steps[k], id)
    requires id !in Run(c, INITIAL, steps[..i], true).entries
    ensures SamplerAsked(c, steps, id, i, k + 1)
    decreases k - i
  {
    assert steps[..i + 1][..i] == steps[..i];
    if Asks(steps[i], id) {
      assert ReplyAt(c, INITIAL, steps, i, true) == Answer(steps[i].ifAsked, true);
    } else {
      AskedAnew(c, steps, id, i + 1, k);
    }
  }

  // While the trace has an entry, expiring a time to live after asked: the sampler
  // is asked about it by the time of question k if and only if it is not kept alive.
  lemma {:induction false} AskedUnlessAlive(c: Config, steps: seq<Step>, id: TraceID, i: nat, k: nat, asked: Time)
    requires i <= k < |steps| && Asks(steps[k], id)
    requires var st := Run(c, INITIAL, steps[..i], true);
             id in st.entries ==> st.entries[id].expiresAt == asked + c.ttl
    requires !KeptAlive(c, steps, id, i, k + 1, asked)
    ensures SamplerAsked(c, steps, id, i, k + 1)
    decreases k - i
  {
    assert steps[..i + 1][..i] == steps[..i];
    if id !in Run(c, INITIAL, steps[..i], true).entries {
      AskedAnew(c, steps, id, i, k);
    } else if Asks(steps[i], id) && asked + c.ttl <= steps[i].now {
      assert ReplyAt(c, INITIAL, steps, i, true) == Answer(steps[i].ifAsked, true);
    } else if Forgets(steps[i], id) {
      AskedAnew(c, steps, id, i + 1, k);
    } else {
      AskedUnlessAlive(c, steps, id, i + 1, k, if Asks(steps[i], id) then steps[i].now else asked);
    }
  }

  // In any run, for two questions i and k about one trace: none after i, up to k,
  // asks the sampler if and only if the trace is kept alive from one to the other.
  lemma SharedIffKeptAlive(c: Config, steps: seq<Step>, from: Time, i: nat, k: nat)
    requires ClockInOrder(steps, from)
    requires i < k < |steps| && steps[i].Decide? && Asks(steps[k], steps[i].traceId)
    ensures KeptAlive(c, steps, steps[i].traceId, i + 1, k + 1, steps[i].now) <==>
            !SamplerAsked(c, steps, steps[i].traceId, i + 1, k + 1)
  {
    var id := steps[i].traceId;
    assert steps[..i + 1][..i] == steps[..i];
    if KeptAlive(c, steps, id, i + 1, k + 1, steps[i].now) {
      TraceSharesDecision(c, steps, from, i, k + 1);
    } else {
      AskedUnlessAlive(c, steps, id, i + 1, k, steps[i].now);
    }
  }

  ghost predicate Forgotten(steps: seq<Step>, id: TraceID, i: nat, j: nat) {
    exists m: nat :: i <= m < j && m < |steps| && Forgets(steps[m], id)
  }

  // Within one time to live only clearing ends a trace's life.
  lemma {:induction false} AliveUnlessForgotten(c: Config, steps: seq<Step>, from: Time, id: TraceID, i: nat, k: nat,
                                                asked: Time)
    requires ClockInOrder(steps, from)
    requires i <= k < |steps| && Asks(steps[k], id) && steps[k].now < asked + c.ttl
    requires forall m :: i <= m < |steps| && steps[m].Decide? ==> asked <= steps[m].now
    ensures KeptAlive(c, steps, id, i, k + 1, asked) <==> !Forgotten(steps, id, i, k)
    decreases k - i
  {
    if i < k {
      AliveUnlessForgotten(c, steps, from, id, i + 1, k, if Asks(steps[i], id) then steps[i].now else asked);
      assert Forgotten(steps, id, i, k) <==> Forgets(steps[i], id) || Forgotten(steps, id, i + 1, k);
    } else {
      assert KeptAlive(c, steps, id, i + 1, k + 1, steps[i].now);
    }
  }

  // In any run, for two questions about one trace less than a time to live apart:
  // they share one decision, and the sampler is not asked again, if and only if
  // nothing between them clears the trace.
  lemma SharedIffNotForgotten(c: Config, steps: seq<Step>, from: Time, i: nat, k: nat)
    requires ClockInOrder(steps, from)
    requires i < k < |steps| && steps[i].Decide? && Asks(steps[k], steps[i].traceId)
    requires steps[k].now < steps[i].now + c.ttl
    ensures !Forgotten(steps, steps[i].traceId, i + 1, k) <==> !SamplerAsked(c, steps, steps[i].traceId, i + 1, k + 1)
    ensures !Forgotten(steps, steps[i].traceId, i + 1, k) ==>
              forall m :: i < m <= k && Asks(steps[m], steps[i].traceId) ==>
                ReplyAt(c, INITIAL, steps, m, true) == Answer(ReplyAt(c, INITIAL, steps, i, true).result, false)
  {
    var id := steps[i].traceId;
    hide ReplyAt, KeptAlive;
    SharedIffKeptAlive(c, steps, from, i, k);
    AliveUnlessForgotten(c, steps, from, id, i + 1, k, steps[i].now);
    if !Forgotten(steps, id, i + 1, k) {
      TraceSharesDecision(c, steps, from, i, k + 1);
    }
  }

  // So a trace cleared between two of its spans can be split, as the completion of
  // a trace clears it: the first span is kept and the second dropped.
  lemma ClearingSplits(c: Config, id: TraceID, now: Time, later: Time)
    ensures var steps := [Decide(id, now, Sample), Clear(id), Decide(id, later, Drop)];
            && ReplyAt(c, INITIAL, steps, 0, true) == Answer(Sample, true)
            && ReplyAt(c, INITIAL, steps, 2, true) == Answer(Drop, true)
  {
    var steps := [Decide(id, now, Sample), Clear(id), Decide(id, later, Drop)];
    assert steps[..0] == [] && steps[..1] == [steps[0]] && steps[..2][..1] == steps[..1];
  }

  // Nothing in the cache had expired when it was last swept.
  lemma {:induction false} NothingExpiredAtSweep(c: Config, steps: seq<Step>, from: Time)
    requires ClockInOrder(steps, from) && c.ttl >= 0
    ensures var st := Run(c, INITIAL, steps, true);
            && (st == INITIAL || st.lastSweep <= Latest(steps, from))
            && forall id :: id in st.entries ==> st.lastSweep <= st.entries[id].expiresAt
  {
    if steps != [] {
      NothingExpiredAtSweep(c, steps[..|steps| - 1], from);
      LatestInOrder(steps, from);
    }
  }

  // Sweeping keeps the cache small: right after a question, no entry has been expired for
  // longer than the time between sweeps.
  lemma SweptInTime(c: Config, steps: seq<Step>, from: Time, id: TraceID)
    requires ClockInOrder(steps, from) && c.ttl >= 0 && c.sweepEvery >= 0
    requires steps != [] && steps[|steps| - 1].Decide? && id in Run(c, INITIAL, steps, true).entries
    ensures steps[|steps| - 1].now <= Run(c, INITIAL, steps, true).entries[id].expiresAt + c.sweepEvery
  {
    NothingExpiredAtSweep(c, steps, from);
  }

  lemma {:induction false} RunOn(c: Config, history: seq<Step>, steps: seq<Step>, sweeping: bool)
    ensures Run(c, INITIAL, history + steps, sweeping) == Run(c, Run(c, INITIAL, history, sweeping), steps, sweeping)
    ensures forall k :: 0 <= k < |steps| ==>
      ReplyAt(c, INITIAL, history + steps, |history| + k, sweeping) ==
      ReplyAt(c, Run(c, INITIAL, history, sweeping), steps, k, sweeping)
  {
    if steps == [] {
      assert history + steps == history;
    } else {
      var init := steps[..|steps| - 1];
      RunOn(c, history, init, sweeping);
      assert (history + steps)[..|history + steps| - 1] == history + init;
      var st := Run(c, INITIAL, history, sweeping);
      forall k | 0 <= k < |steps|
        ensures ReplyAt(c, INITIAL, history + steps, |history| + k, sweeping) == ReplyAt(c, st, steps, k, sweeping)
      {
        assert (history + steps)[..|history| + k] == history + steps[..k];
        RunOn(c, history, steps[..k], sweeping);
      }
    }
  }

}

module IngestPipeline {
  import opened Model
  import opened KeyedLog
  import opened DecisionCache

  // A sampler that is asked about one span at a time; its answer may depend on
  // everything it has been asked before.
  class HeadSampler {
    const answer: seq<Span> -> Decision
    var asked: seq<Span>

    constructor (answer: seq<Span> -> Decision)
      ensures this.answer == answer && asked == []
    {
      this.answer, asked := answer, [];
    }

    method ShouldSample(span: Span) returns (d: Decision)
      modifies this
      ensures asked == old(asked) + [span] && d == answer(asked)
    {
      asked := asked + [span];
      d := answer(asked);
    }
  }

  predicate HasIds(s: Span) {
    s.data.traceId != 0 && s.data.spanId != 0
  }

  lemma KeepGrows(spans: seq<Span>, i: nat)
    requires i <= |spans|
    ensures Keep<Span>([], HasIds) == []
    ensures i < |spans| ==>
      Keep(spans[..i + 1], HasIds) == Keep(spans[..i], HasIds) + if HasIds(spans[i]) then [spans[i]] else []
  {
    if i < |spans| {
      assert spans[..i + 1][..i] == spans[..i];
    }
  }

  lemma {:induction false} KeptHaveIds(spans: seq<Span>)
    ensures forall v :: v in Keep(spans, HasIds) <==> v in spans && v.data.traceId != 0 && v.data.spanId != 0
  {
    if spans != [] {
      KeptHaveIds(spans[..|spans| - 1]);
      assert spans == spans[..|spans| - 1] + [spans[|spans| - 1]];
    }
  }

  lemma KeptCount(spans: seq<Span>, x: Span)
    ensures multiset(Keep<Span>(spans, HasIds))[x] ==
            if x.data.traceId != 0 && x.data.spanId != 0 then multiset(spans)[x] else 0
  {
    KeepCount<Span>(spans, HasIds, x);
  }

  lemma KeptCounts(spans: seq<Span>)
    ensures forall x :: x in spans ==>
      multiset(Keep<Span>(spans, HasIds))[x] ==
      if x.data.traceId != 0 && x.data.spanId != 0 then multiset(spans)[x] else 0
  {
    forall x | x in spans
      ensures multiset(Keep<Span>(spans, HasIds))[x] ==
              if x.data.traceId != 0 && x.data.spanId != 0 then multiset(spans)[x] else 0
    {
      KeptCount(spans, x);
    }
  }

  // The span that speaks for its trace in a batch: a root, the earliest one that
  // has a start time, if any has.
  ghost predicate IsBatchRoot(spans: seq<Span>, id: TraceID, r: Span) {
    && r in spans && r.data.IsRoot() && r.data.traceId == id
    && forall s :: s in spans && s.data.IsRoot() && s.data.traceId == id && s.data.start != 0 ==>
         r.data.start != 0 && r.data.start <= s.data.start
  }

  ghost predicate AreBatchRoots(spans: seq<Span>, roots: map<TraceID, Span>) {
    && (forall id :: id in roots ==> IsBatchRoot(spans, id, roots[id]))
    && (forall s :: s in spans && s.data.IsRoot() ==> s.data.traceId in roots)
  }

  method FindBatchRoots(spans: seq<Span>) returns (roots: map<TraceID, Span>)
    ensures AreBatchRoots(spans, roots)
  {
    roots := map[];
    for i := 0 to |spans|
      invariant AreBatchRoots(spans[..i], roots)
    {
      var s := spans[i];
      assert spans[..i + 1] == spans[..i] + [s];
      if s.data.IsRoot() {
        var id := s.data.traceId;
        if id !in roots || (s.data.start != 0 && (roots[id].data.start == 0 || s.data.start < roots[id].data.start)) {
          roots := roots[id := s];
        }
      }
    }
    assert spans[..|spans|] == spans;
  }

  function Speaker(roots: map<TraceID, Span>, s: Span): Span {
    if s.data.traceId in roots then roots[s.data.traceId] else s
  }

  const SECOND := 1_000_000_000

  class Pipeline {
    var traceDecisions: map<TraceID, Entry>
    var lastSweep: Time
    const ttl: int
    const sweepEvery: int
    var droppedTotal: nat

    ghost function View(): State
      reads this
    {
      State(traceDecisions, lastSweep)
    }

    ghost function Settings(): Config { Config(ttl, sweepEvery) }

    constructor (timeout: int)
      ensures View() == INITIAL && droppedTotal == 0
      ensures Settings() == Config(Max(30_000_000_000, timeout * 4), Max(5_000_000_000, timeout * 2))
    {
      traceDecisions, lastSweep, droppedTotal := map[], 0, 0;
      ttl, sweepEvery := Max(30 * SECOND, timeout * 4), Max(5 * SECOND, timeout * 2);
    }

    method SweepExpired(now: Time)
      modifies this
      ensures View() == Sweep(Settings(), old(View()), now) && droppedTotal == old(droppedTotal)
    {
      if lastSweep != 0 && now - lastSweep < sweepEvery {
        return;
      }
      var ids := traceDecisions.Keys;
      ghost var was := traceDecisions;
      while ids != {}
        invariant ids <= was.Keys && droppedTotal == old(droppedTotal) && lastSweep == old(lastSweep)
        invariant traceDecisions == map id | id in was && (id in ids || now <= was[id].expiresAt) :: was[id]
      {
        var id :| id in ids;
        if now > traceDecisions[id].expiresAt {
          traceDecisions := traceDecisions - {id};
        }
        ids := ids - {id};
      }
      lastSweep := now;
    }

    // The decision for a span's trace, from the cache or from the sampler; the
    // sampler is shown the span that speaks for the trace.
    method DecisionForSpan(s: HeadSampler, id: TraceID, speaker: Span, now: Time) returns (d: Decision)
      modifies this, s
      ensures var step := Decide(id, now, s.answer(old(s.asked) + [speaker]));
              var reply := Reply(Settings(), old(View()), step, true);
              && View() == Next(Settings(), old(View()), step, true)
              && reply == Answer(d, reply.asked)
              && s.asked == if reply.asked then old(s.asked) + [speaker] else old(s.asked)
      ensures droppedTotal == old(droppedTotal)
    {
      SweepExpired(now);
      if id in traceDecisions && now < traceDecisions[id].expiresAt {
        d := traceDecisions[id].result;
        traceDecisions := traceDecisions[id := traceDecisions[id].(expiresAt := now + ttl)];
        return;
      }
      d := s.ShouldSample(speaker);
      traceDecisions := traceDecisions[id := Entry(d, now + ttl)];
    }

    method ClearTraceDecision(id: TraceID)
      modifies this
      ensures View() == Next(Settings(), old(View()), Clear(id), true)
    {
      traceDecisions := traceDecisions - {id};
    }

    method ClearAllTraceDecisions()
      modifies this
      ensures View() == Next(Settings(), old(View()), ClearAll, true)
    {
      traceDecisions, lastSweep := map[], 0;
    }

    // A batch through a head sampler. clock gives the reading taken for each span;
    // steps, valid and speakers record the questions put to the cache, one for each
    // span that carries both identifiers, and the span that speaks for its trace.
    method IngestSpans(s: HeadSampler, spans: seq<Span>, clock: seq<Time>)
      returns (accepted: nat, dropped: nat, submitted: seq<Span>,
               ghost steps: seq<Step>, ghost valid: seq<Span>, ghost speakers: seq<Span>)
      requires |clock| == |spans|
      modifies this, s
      ensures accepted + dropped == |spans| && accepted == |submitted|
      ensures valid == Keep(spans, HasIds) && AreQuestions(valid, steps, Readings(spans, clock))
      ensures forall v :: v in valid <==> v in spans && v.data.traceId != 0 && v.data.spanId != 0
      ensures View() == Run(Settings(), old(View()), steps, true)
      ensures submitted == Passed(Settings(), old(View()), valid, steps, |steps|)
      ensures droppedTotal == old(droppedTotal) + |valid| - |submitted|
      ensures |speakers| == |valid| && forall k :: 0 <= k < |valid| ==> SpeaksFor(spans, valid[k], speakers[k])
      ensures s.asked == old(s.asked) + Shown(Settings(), old(View()), steps, speakers, |steps|)
      ensures SamplerDecides(s.answer, old(s.asked), Settings(), old(View()), steps, speakers)
    {
      hide AreBatchRoots, Run, Next, Reply, Keep, DecidedUpTo, ConsultedUpTo;
      var batchRoots := FindBatchRoots(spans);
      accepted, dropped, submitted, steps, valid, speakers := 0, 0, [], [], [], [];
      ghost var c, st, asked := Settings(), View(), s.asked;
      NothingDecided(c, st, spans, clock);
      NothingConsulted(s.answer, asked, c, st, spans);
      for i := 0 to |spans|
        invariant accepted + dropped == i && accepted == |submitted|
        invariant droppedTotal == old(droppedTotal) + |valid| - |submitted|
        invariant DecidedUpTo(c, st, spans, clock, i, valid, steps, View(), submitted)
        invariant ConsultedUpTo(s.answer, asked, c, st, spans, valid, steps, speakers, s.asked)
      {
        var span := spans[i];
        if span.data.traceId == 0 || span.data.spanId == 0 {
          dropped := dropped + 1;
          OneSkipped(c, st, spans, clock, i, valid, steps, View(), submitted);
          continue;
        }
        var speaker := Speaker(batchRoots, span);
        ghost var step := Decide(span.data.traceId, clock[i], s.answer(s.asked + [speaker]));
        OneDecided(c, st, spans, clock, i, valid, steps, View(), submitted, step);
        OneConsulted(s.answer, asked, c, st, spans, valid, steps, speakers, s.asked, batchRoots, span, step);
        var result := DecisionForSpan(s, span.data.traceId, speaker, clock[i]);
        steps, valid, speakers := steps + [step], valid + [span], speakers + [speaker];
        if result == Drop {
          droppedTotal := droppedTotal + 1;
          dropped := dropped + 1;
          continue;
        }
        submitted := submitted + [span];
        accepted := accepted + 1;
      }
      AllDecided(c, st, spans, clock, valid, steps, View(), submitted);
      AllConsulted(s.answer, asked, c, st, spans, valid, steps, speakers, s.asked);
    }
  }

  // The first i spans of a batch have had their questions put to the cache, which is
  // now in state now; submitted are those that passed.
  ghost predicate DecidedUpTo(c: Config, st: State, spans: seq<Span>, clock: seq<Time>, i: nat,
                              valid: seq<Span>, steps: seq<Step>, now: State, submitted: seq<Span>) {
    && i <= |spans| == |clock|
    && valid == Keep<Span>(spans[..i], HasIds) && AreQuestions(valid, steps, Readings(spans[..i], clock[..i]))
    && now == Run(c, st, steps, true)
    && submitted == Passed(c, st, valid, steps, |steps|)
  }

  lemma NothingDecided(c: Config, st: State, spans: seq<Span>, clock: seq<Time>)
    requires |clock| == |spans|
    ensures DecidedUpTo(c, st, spans, clock, 0, [], [], st, [])
  {
    KeepGrows(spans, 0);
    NoQuestions(c, st);
    assert spans[..0] == [] && clock[..0] == [];
  }

  lemma OneSkipped(c: Config, st: State, spans: seq<Span>, clock: seq<Time>, i: nat,
                   valid: seq<Span>, steps: seq<Step>, now: State, submitted: seq<Span>)
    requires DecidedUpTo(c, st, spans, clock, i, valid, steps, now, submitted)
    requires i < |spans| && (spans[i].data.traceId == 0 || spans[i].data.spanId == 0)
    ensures DecidedUpTo(c, st, spans, clock, i + 1, valid, steps, now, submitted)
  {
    KeepGrows(spans, i);
    ReadingsGrow(spans, clock, i);
    hide Keep, Readings, Run, Passed, AreQuestions;
  }

  lemma OneDecided(c: Config, st: State, spans: seq<Span>, clock: seq<Time>, i: nat,
                   valid: seq<Span>, steps: seq<Step>, now: State, submitted: seq<Span>, step: Step)
    requires DecidedUpTo(c, st, spans, clock, i, valid, steps, now, submitted)
    requires i < |spans| && spans[i].data.traceId != 0 && spans[i].data.spanId != 0
    requires step.Decide? && step.traceId == spans[i].data.traceId && step.now == clock[i]
    ensures now == Run(c, st, steps, true)
    ensures DecidedUpTo(c, st, spans, clock, i + 1, valid + [spans[i]], steps + [step], Next(c, now, step, true),
                        if Reply(c, now, step, true).result != Drop then submitted + [spans[i]] else submitted)
  {
    KeepGrows(spans, i);
    ReadingsGrow(spans, clock, i);
    hide Keep, Readings, Run, Passed, AreQuestions, Next, Reply;
    OneMoreQuestion(c, st, valid, steps, Readings(spans[..i], clock[..i]), spans[i], step);
    QuestionEach(valid, steps, Readings(spans[..i], clock[..i]));
  }

  lemma QuestionEach(valid: seq<Span>, steps: seq<Step>, readings: seq<Time>)
    requires AreQuestions(valid, steps, readings)
    ensures |valid| == |steps|
  {
  }

  lemma AllDecided(c: Config, st: State, spans: seq<Span>, clock: seq<Time>,
                   valid: seq<Span>, steps: seq<Step>, now: State, submitted: seq<Span>)
    requires DecidedUpTo(c, st, spans, clock, |spans|, valid, steps, now, submitted)
    ensures |clock| == |spans| && valid == Keep<Span>(spans, HasIds)
    ensures AreQuestions(valid, steps, Readings(spans, clock))
    ensures forall v :: v in valid <==> v in spans && v.data.traceId != 0 && v.data.spanId != 0
    ensures now == Run(c, st, steps, true) && |steps| == |valid| && submitted == Passed(c, st, valid, steps, |steps|)
  {
    assert spans[..|spans|] == spans && clock[..|clock|] == clock;
    KeptHaveIds(spans);
    hide Keep, Readings, Run, Passed;
  }

  // The sampler has now been shown what the cache could not answer, each time the span
  // that speaks for its trace.
  ghost predicate ConsultedUpTo(answer: seq<Span> -> Decision, asked: seq<Span>, c: Config, st: State, spans: seq<Span>,
                                valid: seq<Span>, steps: seq<Step>, speakers: seq<Span>, shown: seq<Span>) {
    && |valid| == |steps| && AllSpeak(spans, valid, speakers)
    && shown == asked + Shown(c, st, steps, speakers, |steps|)
    && SamplerDecides(answer, asked, c, st, steps, speakers)
  }

  lemma NothingConsulted(answer: seq<Span> -> Decision, asked: seq<Span>, c: Config, st: State, spans: seq<Span>)
    ensures ConsultedUpTo(answer, asked, c, st, spans, [], [], [], asked)
  {
    NothingShown(answer, asked, c, st);
  }

  lemma OneConsulted(answer: seq<Span> -> Decision, asked: seq<Span>, c: Config, st: State, spans: seq<Span>,
                     valid: seq<Span>, steps: seq<Step>, speakers: seq<Span>, shown: seq<Span>,
                     roots: map<TraceID, Span>, span: Span, step: Step)
    requires ConsultedUpTo(answer, asked, c, st, spans, valid, steps, speakers, shown) && AreBatchRoots(spans, roots)
    requires step.Decide? && step.ifAsked == answer(shown + [Speaker(roots, span)])
    ensures var speaker := Speaker(roots, span);
            ConsultedUpTo(answer, asked, c, st, spans, valid + [span], steps + [step], speakers + [speaker],
                          if Reply(c, Run(c, st, steps, true), step, true).asked then shown + [speaker] else shown)
  {
    OneMoreSpeaks(spans, valid, speakers, roots, span);
    SpeakersEach(spans, valid, speakers);
    hide Shown, SamplerDecides, AllSpeak, Run, Reply, AreBatchRoots, Speaker;
    OneMoreShown(answer, asked, c, st, steps, speakers, step, Speaker(roots, span));
  }

  ghost predicate AllSpeak(spans: seq<Span>, valid: seq<Span>, speakers: seq<Span>) {
    |speakers| == |valid| && forall k :: 0 <= k < |valid| ==> SpeaksFor(spans, valid[k], speakers[k])
  }

  lemma SpeakersEach(spans: seq<Span>, valid: seq<Span>, speakers: seq<Span>)
    requires AllSpeak(spans, valid, speakers)
    ensures |speakers| == |valid|
  {
  }

  lemma OneMoreSpeaks(spans: seq<Span>, valid: seq<Span>, speakers: seq<Span>, roots: map<TraceID, Span>, span: Span)
    requires AllSpeak(spans, valid, speakers) && AreBatchRoots(spans, roots)
    ensures AllSpeak(spans, valid + [span], speakers + [Speaker(roots, span)])
  {
    RootSpeaks(spans, roots, span);
    hide SpeaksFor, AreBatchRoots, Speaker;
  }

  lemma AllConsulted(answer: seq<Span> -> Decision, asked: seq<Span>, c: Config, st: State, spans: seq<Span>,
                     valid: seq<Span>, steps: seq<Step>, speakers: seq<Span>, shown: seq<Span>)
    requires ConsultedUpTo(answer, asked, c, st, spans, valid, steps, speakers, shown)
    ensures |speakers| == |valid| == |steps| && forall k :: 0 <= k < |valid| ==> SpeaksFor(spans, valid[k], speakers[k])
    ensures shown == asked + Shown(c, st, steps, speakers, |steps|)
    ensures SamplerDecides(answer, asked, c, st, steps, speakers)
  {
  }

  // The span a is shown to the sampler for span v of a batch: a root of v's trace, the
  // earliest one that has a start time, or v itself if the batch holds no root of it.
  ghost predicate SpeaksFor(spans: seq<Span>, v: Span, a: Span) {
    if exists r :: r in spans && r.data.parentId == 0 && r.data.traceId == v.data.traceId then
      && a in spans && a.data.parentId == 0 && a.data.traceId == v.data.traceId
      && forall r :: r in spans && r.data.parentId == 0 && r.data.traceId == v.data.traceId && r.data.start != 0 ==>
           a.data.start != 0 && a.data.start <= r.data.start
    else a == v
  }

  lemma RootSpeaks(spans: seq<Span>, roots: map<TraceID, Span>, v: Span)
    requires AreBatchRoots(spans, roots)
    ensures SpeaksFor(spans, v, Speaker(roots, v))
  {
  }

  // What the sampler has been shown after n questions: the speaker for each one that
  // the cache could not answer.
  function Shown(c: Config, st: State, steps: seq<Step>, speakers: seq<Span>, n: nat): seq<Span>
    requires n <= |steps| == |speakers|
  {
    if n == 0 then []
    else
      var reply := ReplyAt(c, st, steps, n - 1, true);
      Shown(c, st, steps, speakers, n - 1) + if reply.Answer? && reply.asked then [speakers[n - 1]] else []
  }

  // Each question would be answered as the sampler answers for its speaker, after all
  // it has been shown before.
  ghost predicate SamplerDecides(answer: seq<Span> -> Decision, asked: seq<Span>, c: Config, st: State,
                                 steps: seq<Step>, speakers: seq<Span>) {
    && |speakers| == |steps|
    && forall k :: 0 <= k < |steps| && steps[k].Decide? ==>
         steps[k].ifAsked == answer(asked + Shown(c, st, steps, speakers, k) + [speakers[k]])
  }

  lemma NothingShown(answer: seq<Span> -> Decision, asked: seq<Span>, c: Config, st: State)
    ensures asked == asked + Shown(c, st, [], [], 0) && SamplerDecides(answer, asked, c, st, [], [])
  {
  }

  lemma {:induction false} ShownPrefix(c: Config, st: State, steps: seq<Step>, speakers: seq<Span>, step: Step,
                                       speaker: Span, n: nat)
    requires n <= |steps| == |speakers|
    ensures Shown(c, st, steps + [step], speakers + [speaker], n) == Shown(c, st, steps, speakers, n)
  {
    if n > 0 {
      ShownPrefix(c, st, steps, speakers, step, speaker, n - 1);
      assert (steps + [step])[..n - 1] == steps[..n - 1];
    }
  }

  lemma OneMoreShown(answer: seq<Span> -> Decision, asked: seq<Span>, c: Config, st: State,
                     steps: seq<Step>, speakers: seq<Span>, step: Step, speaker: Span)
    requires SamplerDecides(answer, asked, c, st, steps, speakers) && step.Decide?
    requires step.ifAsked == answer(asked + Shown(c, st, steps, speakers, |steps|) + [speaker])
    ensures SamplerDecides(answer, asked, c, st, steps + [step], speakers + [speaker])
    ensures Shown(c, st, steps + [step], speakers + [speaker], |steps| + 1) ==
            Shown(c, st, steps, speakers, |steps|) +
            if Reply(c, Run(c, st, steps, true), step, true).asked then [speaker] else []
  {
    hide Shown;
    forall k | 0 <= k <= |steps|
      ensures Shown(c, st, steps + [step], speakers + [speaker], k) == Shown(c, st, steps, speakers, k)
    {
      ShownPrefix(c, st, steps, speakers, step, speaker, k);
    }
    LastShown(c, st, steps, speakers, step, speaker);
  }

  lemma LastShown(c: Config, st: State, steps: seq<Step>, speakers: seq<Span>, step: Step, speaker: Span)
    requires |steps| == |speakers| && step.Decide?
    ensures Shown(c, st, steps + [step], speakers + [speaker], |steps| + 1) ==
            Shown(c, st, steps + [step], speakers + [speaker], |steps|) +
            if Reply(c, Run(c, st, steps, true), step, true).asked then [speaker] else []
  {
    assert (steps + [step])[..|steps|] == steps;
  }

  // The clock readings taken for the spans that carry both identifiers.
  function Readings(spans: seq<Span>, clock: seq<Time>): seq<Time>
    requires |clock| == |spans|
  {
    if spans == [] then []
    else
      var n := |spans| - 1;
      Readings(spans[..n], clock[..n]) + if HasIds(spans[n]) then [clock[n]] else []
  }

  lemma ReadingsGrow(spans: seq<Span>, clock: seq<Time>, i: nat)
    requires i < |spans| == |clock|
    ensures Readings(spans[..i + 1], clock[..i + 1]) ==
            if HasIds(spans[i]) then Readings(spans[..i], clock[..i]) + [clock[i]] else Readings(spans[..i], clock[..i])
  {
    assert spans[..i + 1][..i] == spans[..i] && clock[..i + 1][..i] == clock[..i];
  }

  lemma NoQuestions(c: Config, st: State)
    ensures AreQuestions([], [], Readings([], [])) && Run(c, st, [], true) == st && Passed(c, st, [], [], 0) == []
  {
  }

  // One question for each span, in order, each at the reading taken for that span.
  ghost predicate AreQuestions(valid: seq<Span>, steps: seq<Step>, readings: seq<Time>) {
    && |steps| == |valid| == |readings|
    && forall k :: 0 <= k < |steps| ==>
         steps[k].Decide? && steps[k].traceId == valid[k].data.traceId && steps[k].now == readings[k]
  }

  ghost predicate Ascending(clock: seq<Time>) {
    forall i, j :: 0 <= i < j < |clock| ==> clock[i] <= clock[j]
  }

  // A clock that does not go back gives readings that do not go back.
  lemma {:induction false} ReadingsInOrder(spans: seq<Span>, clock: seq<Time>)
    requires |clock| == |spans| && Ascending(clock)
    ensures Ascending(Readings(spans, clock))
    ensures forall r :: r in Readings(spans, clock) ==> |clock| > 0 && clock[0] <= r <= clock[|clock| - 1]
  {
    if spans != [] {
      var n := |spans| - 1;
      ReadingsInOrder(spans[..n], clock[..n]);
      var init := Readings(spans[..n], clock[..n]);
      forall i | 0 <= i < |init| ensures clock[0] <= init[i] <= clock[n] {
        assert init[i] in init;
      }
    }
  }

  // The questions of a batch continue a history in the order of the clock.
  lemma BatchInOrder(history: seq<Step>, from: Time, spans: seq<Span>, clock: seq<Time>, valid: seq<Span>,
                     steps: seq<Step>)
    requires ClockInOrder(history, from)
    requires |clock| == |spans| && AreQuestions(valid, steps, Readings(spans, clock))
    requires Ascending(clock) && (|clock| > 0 ==> Latest(history, from) <= clock[0])
    ensures ClockInOrder(history + steps, from)
  {
    var readings := Readings(spans, clock);
    ReadingsInOrder(spans, clock);
    LatestIsLast(history, from);
    forall k | 0 <= k < |steps| ensures Latest(history, from) <= steps[k].now {
      assert readings[k] in readings;
    }
    hide Readings;
    forall j, k | 0 <= j < k < |history + steps| && (history + steps)[j].Decide? && (history + steps)[k].Decide?
      ensures (history + steps)[j].now <= (history + steps)[k].now
    {
      if j >= |history| {
        assert readings[j - |history|] <= readings[k - |history|];
      }
    }
  }

  // The answer to the k-th question was not to drop the span.
  predicate Passes(c: Config, st: State, steps: seq<Step>, k: nat)
    requires k < |steps|
  {
    var reply := ReplyAt(c, st, steps, k, true);
    reply.Answer? && reply.result != Drop
  }

  // The spans, among the first n, that pass.
  function Passed(c: Config, st: State, valid: seq<Span>, steps: seq<Step>, n: nat): seq<Span>
    requires n <= |steps| == |valid|
  {
    if n == 0 then []
    else Passed(c, st, valid, steps, n - 1) + if Passes(c, st, steps, n - 1) then [valid[n - 1]] else []
  }

  lemma PassesIff(c: Config, st: State, steps: seq<Step>, k: nat)
    requires k < |steps| && steps[k].Decide?
    ensures var reply := ReplyAt(c, st, steps, k, true);
            Passes(c, st, steps, k) <==> reply.Answer? && (reply.result == RecordOnly || reply.result == Sample)
  {
  }

  // The spans submitted are those whose question was not answered with drop.
  lemma {:induction false} PassedIff(c: Config, st: State, valid: seq<Span>, steps: seq<Step>, n: nat, s: Span)
    requires n <= |steps| == |valid|
    ensures s in Passed(c, st, valid, steps, n) <==>
              exists k :: 0 <= k < n && valid[k] == s && Passes(c, st, steps, k)
  {
    hide Passes;
    if n > 0 {
      PassedIff(c, st, valid, steps, n - 1, s);
    }
  }

  lemma {:induction false} PassedPrefix(c: Config, st: State, valid: seq<Span>, steps: seq<Step>, span: Span,
                                        step: Step, n: nat)
    requires n <= |steps| == |valid|
    ensures Passed(c, st, valid + [span], steps + [step], n) == Passed(c, st, valid, steps, n)
  {
    if n > 0 {
      PassedPrefix(c, st, valid, steps, span, step, n - 1);
      assert (steps + [step])[..n - 1] == steps[..n - 1];
    }
  }

  lemma OneMoreQuestion(c: Config, st: State, valid: seq<Span>, steps: seq<Step>, readings: seq<Time>, span: Span,
                        step: Step)
    requires AreQuestions(valid, steps, readings)
    requires step.Decide? && step.traceId == span.data.traceId
    ensures AreQuestions(valid + [span], steps + [step], readings + [step.now])
    ensures Run(c, st, steps + [step], true) == Next(c, Run(c, st, steps, true), step, true)
    ensures Passed(c, st, valid + [span], steps + [step], |steps| + 1) ==
            Passed(c, st, valid, steps, |steps|) +
            if Reply(c, Run(c, st, steps, true), step, true).result != Drop then [span] else []
  {
    assert (steps + [step])[..|steps|] == steps;
    PassedPrefix(c, st, valid, steps, span, step, |steps|);
  }

  // The questions of a batch as they stand in a run among the steps of other calls:
  // the k-th one is step at[k].
  ghost predicate IsBatchIn(steps: seq<Step>, at: seq<nat>, valid: seq<Span>, readings: seq<Time>) {
    && |at| == |valid| == |readings|
    && (forall j, k :: 0 <= j < k < |at| ==> at[j] < at[k])
    && forall k :: 0 <= k < |at| ==>
         at[k] < |steps| && Asks(steps[at[k]], valid[k].data.traceId) && steps[at[k]].now == readings[k]
  }

  // All or none, in any run: of two spans of one trace in a batch, read less than a
  // time to live apart, both questions and all between about the trace are answered
  // with one call of the sampler if and only if nothing between them clears the
  // trace. In that case they get one decision: both are submitted or both dropped.
  lemma BatchAllOrNone(c: Config, steps: seq<Step>, from: Time, valid: seq<Span>, at: seq<nat>, readings: seq<Time>,
                       i: nat, k: nat)
    requires ClockInOrder(steps, from) && IsBatchIn(steps, at, valid, readings)
    requires i < k < |valid| && valid[i].data.traceId == valid[k].data.traceId
    requires readings[k] < readings[i] + c.ttl
    ensures var id := valid[i].data.traceId;
            && (!Forgotten(steps, id, at[i] + 1, at[k]) <==> !SamplerAsked(c, steps, id, at[i] + 1, at[k] + 1))
            && ReplyAt(c, INITIAL, steps, at[i], true).Answer? && ReplyAt(c, INITIAL, steps, at[k], true).Answer?
            && (!Forgotten(steps, id, at[i] + 1, at[k]) ==>
                  && ReplyAt(c, INITIAL, steps, at[k], true).result == ReplyAt(c, INITIAL, steps, at[i], true).result
                  && (Passes(c, INITIAL, steps, at[i]) <==> Passes(c, INITIAL, steps, at[k])))
  {
    hide ClockInOrder, Forgotten, SamplerAsked;
    SharedIffNotForgotten(c, steps, from, at[i], at[k]);
    AnswersAt(c, INITIAL, steps, at[i]);
    AnswersAt(c, INITIAL, steps, at[k]);
  }

  // A call that nothing interrupts asks its questions one after the other, and
  // nothing clears a trace meanwhile.
  lemma UninterruptedBatch(history: seq<Step>, valid: seq<Span>, steps: seq<Step>, readings: seq<Time>, id: TraceID)
    returns (at: seq<nat>)
    requires AreQuestions(valid, steps, readings)
    ensures |at| == |valid| && forall k :: 0 <= k < |at| ==> at[k] == |history| + k
    ensures IsBatchIn(history + steps, at, valid, readings)
    ensures !Forgotten(history + steps, id, |history|, |history| + |steps|)
  {
    at := seq(|valid|, (k: nat) => |history| + k);
    var run := history + steps;
    forall k | 0 <= k < |at|
      ensures at[k] < |run| && Asks(run[at[k]], valid[k].data.traceId) && run[at[k]].now == readings[k]
    {
      assert run[|history| + k] == steps[k];
    }
    QuestionsForgetNothing(history, valid, steps, readings, id);
  }

  lemma QuestionsForgetNothing(history: seq<Step>, valid: seq<Span>, steps: seq<Step>, readings: seq<Time>, id: TraceID)
    requires AreQuestions(valid, steps, readings)
    ensures !Forgotten(history + steps, id, |history|, |history| + |steps|)
  {
    forall m | |history| <= m < |history| + |steps| ensures !Forgets((history + steps)[m], id) {
      assert (history + steps)[m] == steps[m - |history|];
    }
  }

  lemma ForgottenWithin(steps: seq<Step>, id: TraceID, i: nat, j: nat, low: nat, high: nat)
    requires low <= i && j <= high && Forgotten(steps, id, i, j)
    ensures Forgotten(steps, id, low, high)
  {
  }

  // So its spans are all submitted or all dropped, if the batch is read within one
  // time to live.
  lemma UninterruptedAllOrNone(c: Config, history: seq<Step>, from: Time, spans: seq<Span>, clock: seq<Time>,
                               valid: seq<Span>, steps: seq<Step>, i: nat, k: nat)
    requires ClockInOrder(history, from)
    requires |clock| == |spans| && AreQuestions(valid, steps, Readings(spans, clock))
    requires Ascending(clock)
    requires |clock| > 0 ==> Latest(history, from) <= clock[0] && clock[|clock| - 1] < clock[0] + c.ttl
    requires i < k < |valid| && valid[i].data.traceId == valid[k].data.traceId
    ensures var st := Run(c, INITIAL, history, true);
            && ReplyAt(c, st, steps, i, true).result == ReplyAt(c, st, steps, k, true).result
            && (Passes(c, st, steps, i) <==> Passes(c, st, steps, k))
  {
    BatchInOrder(history, from, spans, clock, valid, steps);
    WithinOneTtl(c, spans, clock, valid, steps, i, k);
    SharedWhenUninterrupted(c, history, from, valid, steps, Readings(spans, clock), i, k);
    AnswerInHistory(c, history, steps, i);
    AnswerInHistory(c, history, steps, k);
  }

  lemma WithinOneTtl(c: Config, spans: seq<Span>, clock: seq<Time>, valid: seq<Span>, steps: seq<Step>, i: nat, k: nat)
    requires |clock| == |spans| && AreQuestions(valid, steps, Readings(spans, clock))
    requires Ascending(clock) && (|clock| > 0 ==> clock[|clock| - 1] < clock[0] + c.ttl)
    requires i < k < |valid|
    ensures steps[i].Decide? && steps[k].Decide?
    ensures Readings(spans, clock)[k] < Readings(spans, clock)[i] + c.ttl
  {
    var readings := Readings(spans, clock);
    ReadingsInOrder(spans, clock);
    assert readings[i] in readings && readings[k] in readings;
  }

  lemma SharedWhenUninterrupted(c: Config, history: seq<Step>, from: Time, valid: seq<Span>, steps: seq<Step>,
                                readings: seq<Time>, i: nat, k: nat)
    requires ClockInOrder(history + steps, from) && AreQuestions(valid, steps, readings)
    requires i < k < |valid| && valid[i].data.traceId == valid[k].data.traceId
    requires readings[k] < readings[i] + c.ttl
    ensures var run := history + steps;
            var a, b := ReplyAt(c, INITIAL, run, |history| + i, true), ReplyAt(c, INITIAL, run, |history| + k, true);
            && a.Answer? && b.Answer? && a.result == b.result
            && (Passes(c, INITIAL, run, |history| + i) <==> Passes(c, INITIAL, run, |history| + k))
  {
    hide *;
    var id := valid[i].data.traceId;
    var at := UninterruptedBatch(history, valid, steps, readings, id);
    if Forgotten(history + steps, id, at[i] + 1, at[k]) {
      ForgottenWithin(history + steps, id, at[i] + 1, at[k], |history|, |history| + |steps|);
    }
    BatchAllOrNone(c, history + steps, from, valid, at, readings, i, k);
  }

  lemma AnswerInHistory(c: Config, history: seq<Step>, steps: seq<Step>, i: nat)
    requires i < |steps| && steps[i].Decide?
    ensures var st := Run(c, INITIAL, history, true);
            && ReplyAt(c, INITIAL, history + steps, |history| + i, true) == ReplyAt(c, st, steps, i, true)
            && ReplyAt(c, st, steps, i, true).Answer?
            && (Passes(c, INITIAL, history + steps, |history| + i) <==> Passes(c, st, steps, i))
  {
    RunOn(c, history, steps, true);
    AnswersAt(c, Run(c, INITIAL, history, true), steps, i);
  }

  lemma AnswersAt(c: Config, st: State, steps: seq<Step>, i: nat)
    requires i < |steps| && steps[i].Decide?
    ensures ReplyAt(c, st, steps, i, true).Answer?
  {
  }
}

// The branch of the ingest path for a tail sampler: no decision yet, the spans
// are handed over to be buffered.
module TailIngest {
  import opened Model
  import opened KeyedLog
  import opened TailProtocol
  import Tail = TailSampler
  import opened IngestPipeline

  method IngestSpans(ts: Tail.TailSampler, spans: seq<Span>, clock: seq<Time>) returns (accepted: nat, dropped: nat)
    requires WellFormed(ts.View())
    requires |clock| == |spans| && forall i :: 0 <= i < |clock| ==> clock[i] > 0
    modifies ts
    ensures WellFormed(ts.View())
    ensures accepted + dropped == |spans| && accepted == |Keep(spans, HasIds)|
    ensures forall x :: x in spans ==>
      Places(ts.View(), x) == Places(old(ts.View()), x) +
        if x.data.traceId != 0 && x.data.spanId != 0 then multiset(spans)[x] else 0
  {
    hide Places, Next, WellFormed, Keep, Enabled, PlacedUpTo;
    accepted, dropped := 0, 0;
    ghost var st := ts.View();
    KeepGrows(spans, 0);
    NothingPlaced(spans, st);
    for i := 0 to |spans|
      invariant WellFormed(ts.View())
      invariant accepted + dropped == i && accepted == |Keep(spans[..i], HasIds)|
      invariant PlacedUpTo(spans, i, st, ts.View())
    {
      var span := spans[i];
      KeepGrows(spans, i);
      if span.data.traceId == 0 || span.data.spanId == 0 {
        dropped := dropped + 1;
        OneUnplaced(spans, i, st, ts.View());
        continue;
      }
      ghost var before := ts.View();
      ghost var victim := ts.AddSpan(span, clock[i]);
      OnePlaced(ts.Settings(), spans, i, st, before, clock[i], victim);
      accepted := accepted + 1;
    }
    assert spans[..|spans|] == spans;
    AllPlaced(spans, st, ts.View());
  }

  // Of the first i spans, those that carry both identifiers have found a place in now.
  ghost predicate PlacedUpTo(spans: seq<Span>, i: nat, st: State, now: State) {
    && i <= |spans|
    && forall x :: x in spans ==> Places(now, x) == Places(st, x) + multiset(Keep<Span>(spans[..i], HasIds))[x]
  }

  lemma NothingPlaced(spans: seq<Span>, st: State)
    ensures PlacedUpTo(spans, 0, st, st)
  {
    hide Places, Keep;
    KeepGrows(spans, 0);
    assert spans[..0] == [];
  }

  lemma OneUnplaced(spans: seq<Span>, i: nat, st: State, now: State)
    requires PlacedUpTo(spans, i, st, now)
    requires i < |spans| && (spans[i].data.traceId == 0 || spans[i].data.spanId == 0)
    ensures PlacedUpTo(spans, i + 1, st, now)
  {
    hide Places, Keep;
    KeepGrows(spans, i);
  }

  lemma OnePlaced(c: Config, spans: seq<Span>, i: nat, st: State, now: State, at: Time, victim: TraceID)
    requires PlacedUpTo(spans, i, st, now) && WellFormed(now)
    requires i < |spans| && spans[i].data.traceId != 0 && spans[i].data.spanId != 0
    ensures PlacedUpTo(spans, i + 1, st, Next(c, now, Add(spans[i], at, victim)))
  {
    hide Places, Keep, Next, WellFormed;
    KeepGrows(spans, i);
    forall x | x in spans
      ensures Places(Next(c, now, Add(spans[i], at, victim)), x) == Places(now, x) + if spans[i] == x then 1 else 0
    {
      NextPlaces(c, now, Add(spans[i], at, victim), x);
    }
  }

  lemma AllPlaced(spans: seq<Span>, st: State, now: State)
    requires PlacedUpTo(spans, |spans|, st, now)
    ensures forall x :: x in spans ==>
      Places(now, x) == Places(st, x) + if x.data.traceId != 0 && x.data.spanId != 0 then multiset(spans)[x] else 0
  {
    hide Places, Keep;
    assert spans[..|spans|] == spans;
    KeptCounts(spans);
  }
}
