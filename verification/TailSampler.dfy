// The tail sampler as a class; each critical section is a step of the protocol.
module TailSampler {
  import opened Model
  import opened Sequences
  import opened TailPolicies
  import opened TailProtocol

  class TailSampler {
    var buffer: map<TraceID, Buffered>
    var decided: map<TraceID, bool>
    const maxSize: int
    const policies: seq<Policy>
    var accepted: seq<Span>      // what the accept callback was given
    var rejected: seq<TraceID>   // what the reject callback was given
    ghost var flights: seq<Flight>
    ghost var discarded: seq<Span>
    ghost var verdicts: seq<TraceID>

    ghost function View(): State
      reads this
    {
      State(buffer, decided, flights, accepted, discarded, rejected, verdicts)
    }

    ghost function Settings(): Config { Config(maxSize, policies) }

    constructor (maxSize: int, policies: seq<Policy>)
      ensures View() == INITIAL && Settings() == Config(maxSize, policies)
    {
      this.maxSize, this.policies := maxSize, policies;
      buffer, decided, accepted, rejected := map[], map[], [], [];
      flights, discarded, verdicts := [], [], [];
    }

    // The map is ranged over in any order; every entry bears a real clock reading.
    method EvictOldest() returns (ghost victim: TraceID)
      requires WellFormed(View())
      modifies this
      ensures old(buffer) == map[] ==> View() == old(View())
      ensures old(buffer) != map[] ==> IsOldest(old(buffer), victim) && View() == Evict(old(View()), victim)
    {
      var oldest: TraceID, oldestTime: Time := 0, 0;
      var rest := buffer.Keys;
      while rest != {}
        invariant rest <= buffer.Keys
        invariant rest == buffer.Keys ==> oldestTime == 0
        invariant rest != buffer.Keys ==>
          && oldest in buffer && oldestTime == buffer[oldest].firstAt > 0
          && forall id :: id in buffer.Keys - rest ==> oldestTime <= buffer[id].firstAt
      {
        var id :| id in rest;
        rest := rest - {id};
        if oldestTime == 0 || buffer[id].firstAt < oldestTime {
          oldest, oldestTime := id, buffer[id].firstAt;
        }
      }
      victim := oldest;
      if oldest in buffer {
        discarded := discarded + buffer[oldest].spans;
        verdicts := verdicts + [oldest];
        buffer := buffer - {oldest};
        decided := decided[oldest := false];
        rejected := rejected + [oldest];
      }
    }

    method AddSpan(span: Span, now: Time) returns (ghost victim: TraceID)
      requires WellFormed(View()) && now > 0
      modifies this
      ensures WellFormed(View())
      ensures Enabled(Settings(), old(View()), Add(span, now, victim))
      ensures View() == Next(Settings(), old(View()), Add(span, now, victim))
    {
      ghost var before := View();
      victim := 0;
      if span.data.traceId !in decided {
        victim := BufferSpan(span, now);
      } else if decided[span.data.traceId] {
        accepted := accepted + [span];
      } else {
        discarded := discarded + [span];
      }
      NextWellFormed(Settings(), before, Add(span, now, victim));
    }

    method BufferSpan(span: Span, now: Time) returns (ghost victim: TraceID)
      requires WellFormed(View()) && span.data.traceId !in decided
      modifies this
      ensures MustEvict(Settings(), old(View()), span.data.traceId) ==> IsOldest(old(buffer), victim)
      ensures View() == NextAdd(Settings(), old(View()), span, now, victim)
    {
      var id := span.data.traceId;
      victim := 0;
      if id !in buffer {
        if |buffer| >= maxSize {
          victim := EvictOldest();
        }
        ghost var others := buffer;
        buffer := buffer[id := Buffered([], now)];
        assert [] + [span] == [span];
        assert buffer[id := Buffered([span], now)] == others[id := Buffered([span], now)];
      }
      buffer := buffer[id := buffer[id].(spans := buffer[id].spans + [span])];
    }

    // The first critical section of evaluateTrace.
    method TakeBuffer(id: TraceID) returns (ok: bool, spans: seq<Span>)
      modifies this
      ensures View() == Next(Settings(), old(View()), Take(id))
      ensures ok <==> id in old(buffer)
      ensures ok ==> flights == old(flights) + [Flight(id, spans)]
    {
      ok, spans := id in buffer, [];
      if ok {
        spans := buffer[id].spans;
        flights := flights + [Flight(id, spans)];
        buffer := buffer - {id};
      }
    }

    // What follows it: judge the spans, record the verdict, call back.
    method DecideTaken(id: TraceID, spans: seq<Span>, ghost flight: nat)
      requires flight < |flights| && flights[flight] == Flight(id, spans)
      modifies this
      ensures View() == Next(Settings(), old(View()), Decide(flight))
    {
      var duration := ApproximateDuration(spans);
      var keep := Judge(policies, spans, duration);
      flights := Cut(flights, flight);
      RecordDecision(id, keep);
      if keep {
        accepted := accepted + spans;
      } else {
        discarded := discarded + spans;
        rejected := rejected + [id];
      }
    }

    method RecordDecision(id: TraceID, keep: bool)
      modifies this
      ensures View() == Record(Settings(), old(View()), id, keep)
    {
      decided := decided[id := keep];
      verdicts := verdicts + [id];
      var limit := maxSize * 2;
      if |decided| > limit {
        decided := map[id := keep];
        verdicts := [id];
      }
    }

    method EvaluateTrace(id: TraceID)
      requires WellFormed(View())
      modifies this
      ensures WellFormed(View())
      ensures id !in old(buffer) ==> View() == old(View())
      ensures id in old(buffer) ==>
        View() == Next(Settings(), Next(Settings(), old(View()), Take(id)), Decide(|old(flights)|))
      ensures id in old(buffer) ==>
        && Landed(policies, old(View()), View(), Flight(id, old(buffer)[id].spans))
        && buffer == old(buffer) - {id} && flights == old(flights)
    {
      if id in buffer {
        EvaluationJudges(Settings(), View(), id);
      }
      NextWellFormed(Settings(), View(), Take(id));
      var ok, spans := TakeBuffer(id);
      if ok {
        NextWellFormed(Settings(), View(), Decide(|flights| - 1));
        DecideTaken(id, spans, |flights| - 1);
      }
    }

    // Flushes what is buffered: every buffered trace is judged on its spans, and
    // no span is lost on the way.
    method Stop(ghost tracked: set<Span>)
      requires WellFormed(View())
      modifies this
      ensures WellFormed(View())
      ensures buffer == map[] && flights == old(flights)
      ensures forall x :: x in tracked ==> Places(View(), x) == Places(old(View()), x)
      ensures forall x :: x in tracked ==>
        multiset(accepted)[x] == multiset(old(accepted))[x] + KeptCount(policies, old(buffer), x)
      ensures forall id ::
        multiset(rejected)[id] == multiset(old(rejected))[id] + RejectCount(policies, old(buffer), id)
    {
      hide Places, Next, FlightVerdict, Landed, WellFormed, KeptCount, RejectCount;
      ghost var was := buffer;
      var ids := buffer.Keys;
      while ids != {}
        invariant WellFormed(View()) && buffer.Keys == ids && flights == old(flights)
        invariant forall id :: id in buffer ==> id in was && buffer[id] == was[id]
        invariant forall x :: x in tracked ==> Places(View(), x) == Places(old(View()), x)
        invariant forall x :: x in tracked ==>
          multiset(accepted)[x] + KeptCount(policies, buffer, x) ==
          multiset(old(accepted))[x] + KeptCount(policies, was, x)
        invariant forall id :: multiset(rejected)[id] + RejectCount(policies, buffer, id) ==
                               multiset(old(rejected))[id] + RejectCount(policies, was, id)
      {
        var id :| id in ids;
        ids := ids - {id};
        ghost var before := View();
        EvaluateTrace(id);
        forall x | x in tracked
          ensures Places(View(), x) == Places(before, x)
          ensures multiset(accepted)[x] + KeptCount(policies, buffer, x) ==
                  multiset(before.accepted)[x] + KeptCount(policies, before.buffer, x)
        {
          FlushPlaces(Settings(), before, id, x);
          FlushKeeps(policies, before, View(), id, x);
        }
        forall other
          ensures multiset(rejected)[other] + RejectCount(policies, buffer, other) ==
                  multiset(before.rejected)[other] + RejectCount(policies, before.buffer, other)
        {
          FlushRejects(policies, before, View(), id, other);
        }
      }
      NothingLeft(policies, buffer, tracked);
    }
  }

  // How often a span is buffered for a trace that the policies keep.
  ghost function KeptCount(policies: seq<Policy>, buffer: map<TraceID, Buffered>, x: Span): nat {
    var id := x.data.traceId;
    if id in buffer && Kept(policies, buffer[id].spans) then multiset(buffer[id].spans)[x] else 0
  }

  // One for a trace that is buffered and that the policies do not keep.
  ghost function RejectCount(policies: seq<Policy>, buffer: map<TraceID, Buffered>, id: TraceID): nat {
    if id in buffer && !Kept(policies, buffer[id].spans) then 1 else 0
  }

  lemma NothingLeft(policies: seq<Policy>, buffer: map<TraceID, Buffered>, tracked: set<Span>)
    requires buffer == map[]
    ensures forall x :: x in tracked ==> KeptCount(policies, buffer, x) == 0
    ensures forall id :: RejectCount(policies, buffer, id) == 0
  {
  }

  lemma EvaluationJudges(c: Config, st: State, id: TraceID)
    requires id in st.buffer
    ensures var after := Next(c, Next(c, st, Take(id)), Decide(|st.flights|));
            && Landed(c.policies, st, after, Flight(id, st.buffer[id].spans))
            && after.buffer == st.buffer - {id} && after.flights == st.flights
  {
    var f := Flight(id, st.buffer[id].spans);
    LandingJudges(c, Next(c, st, Take(id)), |st.flights|);
    assert Cut(st.flights + [f], |st.flights|) == st.flights;
    hide NextDecide, Kept;
  }

  lemma FlushKeeps(policies: seq<Policy>, st: State, after: State, id: TraceID, x: Span)
    requires WellFormed(st) && id in st.buffer && after.buffer == st.buffer - {id}
    requires Landed(policies, st, after, Flight(id, st.buffer[id].spans))
    ensures multiset(after.accepted)[x] + KeptCount(policies, after.buffer, x) ==
            multiset(st.accepted)[x] + KeptCount(policies, st.buffer, x)
  {
    hide Kept;
    ForeignSpan(id, st.buffer[id].spans, x);
  }

  lemma FlushRejects(policies: seq<Policy>, st: State, after: State, id: TraceID, other: TraceID)
    requires id in st.buffer && after.buffer == st.buffer - {id}
    requires Landed(policies, st, after, Flight(id, st.buffer[id].spans))
    ensures multiset(after.rejected)[other] + RejectCount(policies, after.buffer, other) ==
            multiset(st.rejected)[other] + RejectCount(policies, st.buffer, other)
  {
    hide Kept;
  }

  lemma FlushPlaces(c: Config, st: State, id: TraceID, x: Span)
    requires WellFormed(st)
    ensures Places(Next(c, Next(c, st, Take(id)), Decide(|st.flights|)), x) == Places(st, x)
  {
    hide Places, Next;
    NextWellFormed(c, st, Take(id));
    NextPlaces(c, st, Take(id), x);
    NextPlaces(c, Next(c, st, Take(id)), Decide(|st.flights|), x);
  }
}
