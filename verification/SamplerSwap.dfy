// Replacing the sampler while calls are on their way. A call reads the sampler under
// one lock and asks the decision cache under another.
module SamplerSwap {
  import opened Model
  import DC = DecisionCache

  // A sampler, known by a number.
  type Sampler = nat

  // held gives, for each call between its two locks, the sampler it has read;
  // origin gives, for each remembered decision, the sampler that made it.
  datatype State = State(current: Sampler, held: map<nat, Sampler>, cache: DC.State, origin: map<TraceID, Sampler>)

  // ifAsked is what the sampler the call has read would answer.
  datatype Step =
    | Read(call: nat)
    | Ask(call: nat, traceId: TraceID, now: Time, ifAsked: DC.Decision)
    | Swap(sampler: Sampler)
    | Clear(traceId: TraceID)
    | ClearAll

  function Start(s: Sampler): State {
    State(s, map[], DC.INITIAL, map[])
  }

  // A call that has read no sampler does not ask.
  predicate Asking(st: State, step: Step) {
    step.Ask? && step.call in st.held
  }

  // The steps of the cache that a step makes.
  function CacheSteps(st: State, step: Step): seq<DC.Step> {
    match step
    case Ask(call, id, now, ifAsked) => if call in st.held then [DC.Decide(id, now, ifAsked)] else []
    case Clear(id) => [DC.Clear(id)]
    case ClearAll => [DC.ClearAll]
    case Read(_) => []
    case Swap(_) => []
  }

  // The cache has no live entry for the trace, so that the sampler the call holds is asked.
  predicate Misses(c: DC.Config, st: State, step: Step)
    requires Asking(st, step)
  {
    !DC.Hit(DC.Sweep(c, st.cache, step.now), step.traceId, step.now)
  }

  function Next(c: DC.Config, st: State, step: Step): State {
    match step
    case Read(call) => st.(held := st.held[call := st.current])
    case Ask(call, id, now, _) =>
      if call !in st.held then st
      else st.(held := st.held - {call},
               cache := DC.Next(c, st.cache, CacheSteps(st, step)[0], true),
               origin := if Misses(c, st, step) then st.origin[id := st.held[call]] else st.origin)
    case Swap(s) => st.(current := s)
    case Clear(_) => st.(cache := DC.Next(c, st.cache, CacheSteps(st, step)[0], true))
    case ClearAll => st.(cache := DC.Next(c, st.cache, CacheSteps(st, step)[0], true))
  }

  // The sampler whose decision a question is answered with.
  function Source(c: DC.Config, st: State, step: Step): Option<Sampler>
    requires Asking(st, step)
  {
    if Misses(c, st, step) then Some(st.held[step.call])
    else if step.traceId in st.origin then Some(st.origin[step.traceId])
    else None
  }

  function Run(c: DC.Config, st: State, steps: seq<Step>): State {
    if steps == [] then st
    else Next(c, Run(c, st, steps[..|steps| - 1]), steps[|steps| - 1])
  }

  function CacheRun(c: DC.Config, st: State, steps: seq<Step>): seq<DC.Step> {
    if steps == [] then []
    else
      var init := steps[..|steps| - 1];
      CacheRun(c, st, init) + CacheSteps(Run(c, st, init), steps[|steps| - 1])
  }

  // The cache runs as the machine of its own, so that machine's laws hold here.
  lemma {:induction false} CacheIsRun(c: DC.Config, st: State, steps: seq<Step>)
    ensures Run(c, st, steps).cache == DC.Run(c, st.cache, CacheRun(c, st, steps), true)
  {
    if steps != [] {
      var init := steps[..|steps| - 1];
      CacheIsRun(c, st, init);
      CacheRunGrows(c, st.cache, CacheRun(c, st, init), Run(c, st, init), steps[|steps| - 1]);
    }
  }

  lemma CacheRunGrows(c: DC.Config, cache: DC.State, earlier: seq<DC.Step>, st: State, step: Step)
    requires st.cache == DC.Run(c, cache, earlier, true)
    ensures Next(c, st, step).cache == DC.Run(c, cache, earlier + CacheSteps(st, step), true)
  {
    hide DC.Next, Misses;
    var more := CacheSteps(st, step);
    if more == [] {
      assert earlier + more == earlier;
    } else {
      assert (earlier + more)[..|earlier|] == earlier;
    }
  }

  ghost predicate OriginsKnown(st: State) {
    forall id :: id in st.cache.entries ==> id in st.origin
  }

  // Every answer comes from some sampler.
  lemma {:induction false} SourceKnown(c: DC.Config, s: Sampler, steps: seq<Step>, step: Step)
    ensures OriginsKnown(Run(c, Start(s), steps))
    ensures var st := Run(c, Start(s), steps); Asking(st, step) ==> Source(c, st, step).Some?
  {
    if steps != [] {
      SourceKnown(c, s, steps[..|steps| - 1], steps[|steps| - 1]);
    }
  }

  predicate NoSwap(steps: seq<Step>) {
    forall k :: 0 <= k < |steps| ==> !steps[k].Swap?
  }

  // The call has read another sampler than s and has not asked yet.
  predicate Late(st: State, call: nat, s: Sampler) {
    call in st.held && st.held[call] != s
  }

  ghost predicate AskingAt(c: DC.Config, st: State, steps: seq<Step>, k: nat) {
    k < |steps| && Asking(Run(c, st, steps[..k]), steps[k])
  }

  ghost predicate AnsweredBy(c: DC.Config, st: State, steps: seq<Step>, k: nat, s: Sampler)
    requires AskingAt(c, st, steps, k)
  {
    Source(c, Run(c, st, steps[..k]), steps[k]) == Some(s)
  }

  // Question k is put by a late call and reaches the sampler that call holds.
  ghost predicate LateDecides(c: DC.Config, st: State, steps: seq<Step>, k: nat, s: Sampler) {
    && AskingAt(c, st, steps, k)
    && Late(Run(c, st, steps[..k]), steps[k].call, s)
    && Misses(c, Run(c, st, steps[..k]), steps[k])
  }

  // The state once the sampler has been replaced by s and the cache cleared, with
  // the steps of other calls between the two.
  function Swapped(c: DC.Config, st: State, s: Sampler, between: seq<Step>): State {
    Next(c, Run(c, Next(c, st, Swap(s)), between), ClearAll)
  }

  // No decision is remembered but those of s.
  ghost predicate OnlyFrom(st: State, s: Sampler) {
    forall id :: id in st.cache.entries ==> id in st.origin && st.origin[id] == s
  }

  lemma {:induction false} LateOnlyIfBefore(c: DC.Config, st: State, steps: seq<Step>, call: nat, s: Sampler)
    requires st.current == s && NoSwap(steps)
    ensures Run(c, st, steps).current == s
    ensures Late(Run(c, st, steps), call, s) ==> Late(st, call, s)
  {
    if steps != [] {
      LateOnlyIfBefore(c, st, steps[..|steps| - 1], call, s);
    }
  }

  // A call is late after a swap only if it had read the sampler before it.
  lemma LateReadBefore(c: DC.Config, st: State, s: Sampler, between: seq<Step>, after: seq<Step>, call: nat)
    requires NoSwap(between) && NoSwap(after)
    ensures Late(Run(c, Swapped(c, st, s, between), after), call, s) ==> Late(st, call, s)
  {
    LateOnlyIfBefore(c, Next(c, st, Swap(s)), between, call, s);
    LateOnlyIfBefore(c, Swapped(c, st, s, between), after, call, s);
  }

  lemma {:induction false} OnlyFromUntilLate(c: DC.Config, st: State, steps: seq<Step>, s: Sampler)
    requires st.cache.entries == map[]
    requires forall k :: 0 <= k < |steps| ==> !LateDecides(c, st, steps, k, s)
    ensures OnlyFrom(Run(c, st, steps), s)
  {
    if steps != [] {
      var n := |steps| - 1;
      var init := steps[..n];
      forall k | 0 <= k < |init| ensures !LateDecides(c, st, init, k, s) {
        assert init[..k] == steps[..k];
        assert !LateDecides(c, st, steps, k, s);
      }
      OnlyFromUntilLate(c, st, init, s);
      assert !LateDecides(c, st, steps, n, s);
    }
  }

  // After a swap to s has cleared the cache, and until the next swap: every question
  // is answered with a decision of s if and only if no call that read the sampler
  // before the swap has its question reach that sampler.
  lemma SwapExact(c: DC.Config, st: State, s: Sampler, between: seq<Step>, after: seq<Step>)
    requires NoSwap(between) && NoSwap(after)
    ensures var from := Swapped(c, st, s, between);
            (forall k: nat :: AskingAt(c, from, after, k) ==> AnsweredBy(c, from, after, k, s)) <==>
            (forall k :: 0 <= k < |after| ==> !LateDecides(c, from, after, k, s))
  {
    var from := Swapped(c, st, s, between);
    if forall k :: 0 <= k < |after| ==> !LateDecides(c, from, after, k, s) {
      forall k: nat | AskingAt(c, from, after, k) ensures AnsweredBy(c, from, after, k, s) {
        forall j | 0 <= j < k ensures !LateDecides(c, from, after[..k], j, s) {
          assert after[..k][..j] == after[..j];
          assert !LateDecides(c, from, after, j, s);
        }
        OnlyFromUntilLate(c, from, after[..k], s);
        assert !LateDecides(c, from, after, k, s);
      }
    } else {
      var k :| 0 <= k < |after| && LateDecides(c, from, after, k, s);
      assert AskingAt(c, from, after, k) && !AnsweredBy(c, from, after, k, s);
    }
  }

  // So a swap with no call on its way is clean.
  lemma CleanSwap(c: DC.Config, st: State, s: Sampler, between: seq<Step>, after: seq<Step>, k: nat)
    requires NoSwap(between) && NoSwap(after)
    requires forall call :: call in st.held ==> st.held[call] == s
    requires AskingAt(c, Swapped(c, st, s, between), after, k)
    ensures AnsweredBy(c, Swapped(c, st, s, between), after, k, s)
  {
    var from := Swapped(c, st, s, between);
    forall j | 0 <= j < |after| ensures !LateDecides(c, from, after, j, s) {
      if LateDecides(c, from, after, j, s) {
        LateReadBefore(c, st, s, between, after[..j], after[j].call);
      }
    }
    SwapExact(c, st, s, between, after);
  }

  // One that is not leaves the old sampler's decision behind: the late call's trace
  // is answered with it after the swap, also when a call that reads later asks.
  lemma LateCallOutlivesSwap(c: DC.Config, id: TraceID, now: Time, d: DC.Decision, e: DC.Decision)
    requires c.ttl > 0 && now > 0
    ensures var st := Run(c, Start(0), [Read(0)]);
            var from := Swapped(c, st, 1, []);
            var after := [Ask(0, id, now, d), Read(1), Ask(1, id, now, e)];
            AskingAt(c, from, after, 2) && AnsweredBy(c, from, after, 2, 0)
  {
    var st := Run(c, Start(0), [Read(0)]);
    assert [Read(0)][..0] == [];
    var from := Swapped(c, st, 1, []);
    var after := [Ask(0, id, now, d), Read(1), Ask(1, id, now, e)];
    assert after[..2] == [after[0], after[1]] && after[..2][..1] == [after[0]] && [after[0]][..0] == [];
    assert Run(c, from, [after[0]]) == Next(c, from, after[0]);
    assert Run(c, from, after[..2]) == Next(c, Next(c, from, after[0]), after[1]);
  }
}
