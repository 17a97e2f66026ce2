// Grouping spans by trace until a quiet period ends. The lock makes each of the
// steps below atomic; between a take and its delivery the lock is free, and a
// timer may fire at any moment, also one that was stopped or reset too late.
module AssemblerProtocol {
  import opened Model
  import opened Sequences

  datatype Batch = Batch(traceId: TraceID, spans: seq<Span>)

  // taken lists every batch removed from pending, in the order of removal;
  // delivered lists the positions in taken handed to the completion callback.
  datatype State = State(pending: map<TraceID, seq<Span>>, taken: seq<Batch>, delivered: seq<nat>)

  datatype Step =
    | Add(span: Span)
    | Take(traceId: TraceID)  // a timer fires, or Stop reaches this trace
    | Deliver(batch: nat)

  const INITIAL := State(map[], [], [])

  function PendingFor(st: State, id: TraceID): seq<Span> {
    if id in st.pending then st.pending[id] else []
  }

  function Next(st: State, step: Step): State {
    match step
    case Add(span) =>
      var id := span.data.traceId;
      st.(pending := st.pending[id := PendingFor(st, id) + [span]])
    case Take(id) =>
      if id !in st.pending then st
      else st.(pending := st.pending - {id}, taken := st.taken + [Batch(id, st.pending[id])])
    case Deliver(k) =>
      if k < |st.taken| && k !in st.delivered then st.(delivered := st.delivered + [k]) else st
  }

  function Run(st: State, steps: seq<Step>): State {
    if steps == [] then st else Next(Run(st, steps[..|steps| - 1]), steps[|steps| - 1])
  }

  // The spans of one trace, in the order in which they were added.
  function Arrivals(steps: seq<Step>, id: TraceID): seq<Span> {
    if steps == [] then []
    else
      var last := steps[|steps| - 1];
      Arrivals(steps[..|steps| - 1], id) +
      if last.Add? && last.span.data.traceId == id then [last.span] else []
  }

  // The spans of one trace that have been taken, batch after batch.
  function TakenFor(taken: seq<Batch>, id: TraceID): seq<Span> {
    if taken == [] then []
    else
      var last := taken[|taken| - 1];
      TakenFor(taken[..|taken| - 1], id) + if last.traceId == id then last.spans else []
  }

  ghost predicate OwnSpans(id: TraceID, spans: seq<Span>) {
    spans != [] && forall s :: s in spans ==> s.data.traceId == id
  }

  ghost predicate Consistent(st: State) {
    && (forall id :: id in st.pending ==> OwnSpans(id, st.pending[id]))
    && (forall k :: 0 <= k < |st.taken| ==> OwnSpans(st.taken[k].traceId, st.taken[k].spans))
    && Distinct(st.delivered)
    && (forall i :: 0 <= i < |st.delivered| ==> st.delivered[i] < |st.taken|)
  }

  lemma {:induction false} ReachableConsistent(steps: seq<Step>)
    ensures Consistent(Run(INITIAL, steps))
  {
    if steps != [] {
      ReachableConsistent(steps[..|steps| - 1]);
    }
  }

  // Nothing is lost, duplicated, reordered or moved to another trace, whatever
  // the interleaving: the batches taken for a trace followed by what is pending
  // for it are exactly the spans added for it, in order of arrival.
  lemma {:induction false} Conservation(steps: seq<Step>, id: TraceID)
    ensures var st := Run(INITIAL, steps);
            TakenFor(st.taken, id) + PendingFor(st, id) == Arrivals(steps, id)
  {
    if steps != [] {
      var before := Run(INITIAL, steps[..|steps| - 1]);
      Conservation(steps[..|steps| - 1], id);
      NextConserves(before, steps[|steps| - 1], id);
    }
  }

  lemma NextConserves(st: State, step: Step, id: TraceID)
    ensures var after := Next(st, step);
            TakenFor(after.taken, id) + PendingFor(after, id) ==
            TakenFor(st.taken, id) + PendingFor(st, id) +
            if step.Add? && step.span.data.traceId == id then [step.span] else []
  {
    var after := Next(st, step);
    if step.Take? && step.traceId in st.pending {
      assert after.taken[..|st.taken|] == st.taken;
    } else {
      assert after.taken == st.taken;
    }
  }

  // Adding objects that are all different, each of them ends up in one place:
  // still pending under its own trace, or in one batch only.
  lemma OnePlace(steps: seq<Step>, s: Span)
    requires Distinct(Arrivals(steps, s.data.traceId))
    requires s in Arrivals(steps, s.data.traceId)
    ensures var st := Run(INITIAL, steps);
            && (s in PendingFor(st, s.data.traceId) <==> !exists k :: 0 <= k < |st.taken| && s in st.taken[k].spans)
            && (forall id :: id in st.pending && s in st.pending[id] ==> id == s.data.traceId)
            && (forall j, k :: 0 <= j < k < |st.taken| ==> !(s in st.taken[j].spans && s in st.taken[k].spans))
  {
    var st := Run(INITIAL, steps);
    var id := s.data.traceId;
    ReachableConsistent(steps);
    Conservation(steps, id);
    DistinctConcat(TakenFor(st.taken, id), PendingFor(st, id));
    TakenOnce(st.taken, s);
  }

  lemma {:induction false} TakenOnce(taken: seq<Batch>, s: Span)
    requires forall k :: 0 <= k < |taken| ==> OwnSpans(taken[k].traceId, taken[k].spans)
    ensures s in TakenFor(taken, s.data.traceId) <==> exists k :: 0 <= k < |taken| && s in taken[k].spans
    ensures Distinct(TakenFor(taken, s.data.traceId)) ==>
              forall j, k :: 0 <= j < k < |taken| ==> !(s in taken[j].spans && s in taken[k].spans)
  {
    if taken != [] {
      var init := taken[..|taken| - 1];
      var last := taken[|taken| - 1];
      var id := s.data.traceId;
      TakenOnce(init, s);
      assert taken == init + [last];
      assert s in last.spans ==> last.traceId == id;
      if Distinct(TakenFor(taken, id)) {
        DistinctConcat(TakenFor(init, id), if last.traceId == id then last.spans else []);
      }
    }
  }

  // Stop takes every trace that was pending when it began. With no span added
  // meanwhile, nothing is pending afterwards, whatever else interleaves.
  lemma {:induction false} StopEmpties(st: State, steps: seq<Step>)
    requires forall k :: 0 <= k < |steps| ==> !steps[k].Add?
    ensures var after := Run(st, steps);
            && after.pending.Keys <= st.pending.Keys
            && forall id :: Take(id) in steps ==> id !in after.pending
  {
    if steps != [] {
      StopEmpties(st, steps[..|steps| - 1]);
      assert steps == steps[..|steps| - 1] + [steps[|steps| - 1]];
    }
  }
}

module Assembler {
  import opened Model
  import opened Sequences
  import Protocol = AssemblerProtocol
  import opened TraceTree

  class Assembler {
    var pending: map<TraceID, seq<Span>>
    var completed: seq<Trace>  // the calls made to onComplete
    ghost var taken: seq<Protocol.Batch>
    ghost var delivered: seq<nat>

    ghost function View(): Protocol.State
      reads this
    {
      Protocol.State(pending, taken, delivered)
    }

    ghost predicate Valid()
      reads this
    {
      && Protocol.Consistent(View())
      && (forall id :: id in pending ==> Distinct(pending[id]))
      && |completed| == |delivered|
      && (forall k :: 0 <= k < |completed| ==> Summarises(completed[k], taken[delivered[k]].spans))
    }

    ghost function Footprint(): set<Span>
      reads this
    {
      FootprintOf(pending)
    }

    static ghost function FootprintOf(pending: map<TraceID, seq<Span>>): set<Span> {
      set id, s | id in pending && s in pending[id] :: s
    }

    constructor ()
      ensures Valid() && View() == Protocol.INITIAL && completed == []
    {
      pending, completed, taken, delivered := map[], [], [], [];
    }

    // Each decoded span is an object of its own, so none is added twice.
    method AddSpan(span: Span)
      requires Valid() && span !in Footprint()
      modifies this
      ensures Valid() && completed == old(completed)
      ensures View() == Protocol.Next(old(View()), Protocol.Add(span))
    {
      var id := span.data.traceId;
      var spans := if id in pending then pending[id] else [];
      assert forall s :: s in spans ==> s in Footprint();
      pending := pending[id := spans + [span]];
    }

    // The locked half of finalize.
    method TakePending(id: TraceID) returns (spans: seq<Span>)
      requires Valid() && id in pending
      modifies this
      ensures Valid() && completed == old(completed)
      ensures View() == Protocol.Next(old(View()), Protocol.Take(id))
      ensures spans == old(pending[id])
    {
      spans := pending[id];
      pending := pending - {id};
      taken := taken + [Protocol.Batch(id, spans)];
    }

    // The unlocked half: build the tree and hand it to the callback.
    method Complete(ghost batch: nat, spans: seq<Span>) returns (trace: Trace, ghost order: seq<Span>)
      requires Valid() && Distinct(spans)
      requires batch < |taken| && taken[batch].spans == spans && batch !in delivered
      modifies this, spans
      ensures Valid() && completed == old(completed) + [trace]
      ensures View() == Protocol.Next(old(View()), Protocol.Deliver(batch))
      ensures Summarises(trace, spans)
      ensures IsMarkedForest(spans, order, old(Marked(spans)))
    {
      hide IsMarkedForest, Summarises;
      var visited;
      trace, visited := BuildTree(spans);
      order := visited;
      completed := completed + [trace];
      delivered := delivered + [batch];
    }

    // What a timer runs, and Stop for each trace.
    method Finalize(id: TraceID) returns (trace: Option<Trace>, ghost order: seq<Span>)
      requires Valid()
      modifies this, Footprint()
      ensures Valid() && pending == old(pending) - {id}
      ensures id !in old(pending) ==> trace.None? && View() == old(View()) && completed == old(completed)
      ensures id in old(pending) ==>
        && View() == Protocol.Next(Protocol.Next(old(View()), Protocol.Take(id)), Protocol.Deliver(|old(taken)|))
        && trace.Some? && completed == old(completed) + [trace.value]
        && Summarises(trace.value, old(pending[id]))
        && IsMarkedForest(old(pending[id]), order, old(Marked(pending[id])))
    {
      hide IsMarkedForest, Summarises;
      trace, order := None, [];
      if id in pending {
        assert forall s :: s in pending[id] ==> s in Footprint();
        var spans := TakePending(id);
        var t;
        t, order := Complete(|taken| - 1, spans);
        trace := Some(t);
      }
    }

    static lemma SmallerFootprint(pending: map<TraceID, seq<Span>>, id: TraceID)
      ensures FootprintOf(pending - {id}) <= FootprintOf(pending)
    {
    }

    static ghost predicate Flushed(done: seq<Trace>, spans: seq<Span>) {
      exists k :: 0 <= k < |done| && Summarises(done[k], spans)
    }

    // Part of the traces in was are still pending; the others have been completed.
    static ghost predicate Flushing(was: map<TraceID, seq<Span>>, now: map<TraceID, seq<Span>>, done: seq<Trace>) {
      && now.Keys <= was.Keys
      && |done| + |now| == |was|
      && forall i :: i in was ==> if i in now then now[i] == was[i] else Flushed(done, was[i])
    }

    static lemma FlushedOneMore(was: map<TraceID, seq<Span>>, now: map<TraceID, seq<Span>>,
                                done: seq<Trace>, id: TraceID, trace: Trace)
      requires Flushing(was, now, done)
      requires id in now && Summarises(trace, now[id])
      ensures Flushing(was, now - {id}, done + [trace])
    {
      assert now.Keys == (now - {id}).Keys + {id};
      assert (done + [trace])[|done|] == trace;
      forall i | i in was && i !in now ensures Flushed(done + [trace], was[i]) {
        var k :| 0 <= k < |done| && Summarises(done[k], was[i]);
        assert (done + [trace])[k] == done[k];
      }
    }

    // Flushes what is pending, trace by trace.
    method Stop()
      requires Valid()
      modifies this, Footprint()
      ensures Valid() && pending == map[]
      ensures old(completed) <= completed && |completed| == |old(completed)| + |old(pending)|
      ensures forall id :: id in old(pending) ==> Flushed(completed[|old(completed)|..], old(pending)[id])
    {
      hide IsMarkedForest, Summarises, Protocol.Consistent, Protocol.Next, FootprintOf;
      ghost var was, earlier := pending, completed;
      ghost var done: seq<Trace> := [];
      var ids := pending.Keys;
      while ids != {}
        invariant Valid() && ids == pending.Keys && Footprint() <= old(Footprint())
        invariant completed == earlier + done
        invariant Flushing(was, pending, done)
        decreases |ids|
      {
        var id :| id in ids;
        ids := ids - {id};
        ghost var before := pending;
        SmallerFootprint(before, id);
        var trace, _ := Finalize(id);
        FlushedOneMore(was, before, done, id, trace.value);
        done := done + [trace.value];
      }
      assert completed[|earlier|..] == done;
    }
  }
}
