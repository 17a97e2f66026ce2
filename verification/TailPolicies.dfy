// Tail sampling: buffer the spans of a trace, then decide about all of them.
module TailPolicies {
  import opened Model

  // Each policy keeps, drops or abstains. The probabilistic one compares the
  // leading 64 bits of the trace identifier with a threshold.
  datatype Policy =
    | ErrorPolicy
    | LatencyPolicy(atLeast: int)
    | ProbabilisticPolicy(threshold: nat)

  datatype Opinion = Keep | Drop | Abstain

  function Prefix64(id: TraceID): nat { id / 0x1_0000_0000_0000_0000 }

  function Opine(p: Policy, spans: seq<Span>, duration: int): Opinion {
    match p
    case ErrorPolicy =>
      if exists s :: s in spans && s.data.status == StatusError then Keep else Abstain
    case LatencyPolicy(atLeast) =>
      if duration >= atLeast then Keep else Abstain
    case ProbabilisticPolicy(threshold) =>
      if spans == [] then Drop
      else if Prefix64(spans[0].data.traceId) < threshold then Keep
      else Drop
  }

  // The first policy with an opinion decides; with none, the trace is dropped.
  function Verdict(policies: seq<Policy>, spans: seq<Span>, duration: int): bool {
    if policies == [] then false
    else
      match Opine(policies[0], spans, duration)
      case Keep => true
      case Drop => false
      case Abstain => Verdict(policies[1..], spans, duration)
  }

  ghost predicate FirstOpinion(policies: seq<Policy>, spans: seq<Span>, duration: int, i: nat) {
    && i < |policies|
    && Opine(policies[i], spans, duration) != Abstain
    && forall j :: 0 <= j < i ==> Opine(policies[j], spans, duration) == Abstain
  }

  lemma {:induction false} VerdictIsFirstOpinion(policies: seq<Policy>, spans: seq<Span>, duration: int)
    ensures Verdict(policies, spans, duration) <==>
              exists i: nat :: FirstOpinion(policies, spans, duration, i) && Opine(policies[i], spans, duration) == Keep
  {
    if policies != [] && Opine(policies[0], spans, duration) == Abstain {
      VerdictIsFirstOpinion(policies[1..], spans, duration);
      if i: nat :| FirstOpinion(policies, spans, duration, i) && Opine(policies[i], spans, duration) == Keep {
        assert FirstOpinion(policies[1..], spans, duration, i - 1);
      }
      if i: nat :| FirstOpinion(policies[1..], spans, duration, i) && Opine(policies[1..][i], spans, duration) == Keep {
        assert FirstOpinion(policies, spans, duration, i + 1);
      }
    } else if policies != [] {
      assert FirstOpinion(policies, spans, duration, 0);
    }
  }

  // An error policy preceded by error and latency policies only never misses an
  // erroneous trace.
  lemma {:induction false} ErrorsKept(policies: seq<Policy>, e: nat, spans: seq<Span>, duration: int)
    requires e < |policies| && policies[e].ErrorPolicy?
    requires forall j :: 0 <= j < e ==> policies[j].ErrorPolicy? || policies[j].LatencyPolicy?
    requires HasError(spans)
    ensures Verdict(policies, spans, duration)
  {
    if e > 0 {
      if Opine(policies[0], spans, duration) == Abstain {
        ErrorsKept(policies[1..], e - 1, spans, duration);
      }
    }
  }

  method Judge(policies: seq<Policy>, spans: seq<Span>, duration: int) returns (keep: bool)
    ensures keep == Verdict(policies, spans, duration)
  {
    for i := 0 to |policies|
      invariant Verdict(policies, spans, duration) == Verdict(policies[i..], spans, duration)
    {
      var opinion := Opine(policies[i], spans, duration);
      if opinion != Abstain {
        return opinion == Keep;
      }
    }
    return false;
  }

  // The scan that evaluateTrace makes for the first start: a zero time counts as
  // not yet seen.
  function ScanStart(spans: seq<Span>): Time {
    if spans == [] then 0
    else
      var before := ScanStart(spans[..|spans| - 1]);
      var t := spans[|spans| - 1].data.start;
      if before == 0 || t < before then t else before
  }

  function ScanEnd(spans: seq<Span>): Time {
    if spans == [] then 0
    else
      var before := ScanEnd(spans[..|spans| - 1]);
      var t := spans[|spans| - 1].data.end;
      if before == 0 || t > before then t else before
  }

  function ScanDuration(spans: seq<Span>): int {
    if ScanStart(spans) != 0 && ScanEnd(spans) != 0 then ScanEnd(spans) - ScanStart(spans) else 0
  }

  method ApproximateDuration(spans: seq<Span>) returns (duration: int)
    ensures duration == ScanDuration(spans)
  {
    var minStart, maxEnd := 0, 0;
    for i := 0 to |spans|
      invariant minStart == ScanStart(spans[..i]) && maxEnd == ScanEnd(spans[..i])
    {
      assert spans[..i + 1][..i] == spans[..i];
      if minStart == 0 || spans[i].data.start < minStart {
        minStart := spans[i].data.start;
      }
      if maxEnd == 0 || spans[i].data.end > maxEnd {
        maxEnd := spans[i].data.end;
      }
    }
    assert spans[..|spans|] == spans;
    duration := 0;
    if minStart != 0 && maxEnd != 0 {
      duration := maxEnd - minStart;
    }
  }

  // The policies keep a trace with these spans: the first one that does not abstain,
  // on the duration as scanned, says so.
  ghost predicate Kept(policies: seq<Policy>, spans: seq<Span>) {
    exists i: nat :: FirstOpinion(policies, spans, ScanDuration(spans), i) &&
      Opine(policies[i], spans, ScanDuration(spans)) == Keep
  }

  ghost predicate HasError(spans: seq<Span>) {
    exists s :: s in spans && s.data.status == StatusError
  }

  // chance is where the first probabilistic policy stands, or the end of the list.
  ghost predicate IsFirstChance(policies: seq<Policy>, chance: nat) {
    && chance <= |policies| && (chance < |policies| ==> policies[chance].ProbabilisticPolicy?)
    && forall j :: 0 <= j < chance ==> !policies[j].ProbabilisticPolicy?
  }

  // What it takes to be kept: an error behind which an error policy looks, or a
  // duration that reaches the threshold of a latency policy, both before the first
  // probabilistic policy and in whatever order; or else the leading 64 bits of the
  // identifier below that policy's threshold. Policies behind it are never consulted.
  lemma KeptIff(policies: seq<Policy>, spans: seq<Span>, chance: nat)
    requires IsFirstChance(policies, chance)
    ensures Kept(policies, spans) <==>
              || (exists i :: 0 <= i < chance && policies[i].ErrorPolicy? && HasError(spans))
              || (exists i :: 0 <= i < chance && policies[i].LatencyPolicy? &&
                    policies[i].atLeast <= ScanDuration(spans))
              || (chance < |policies| && spans != [] &&
                  spans[0].data.traceId / 0x1_0000_0000_0000_0000 < policies[chance].threshold)
  {
    var d := ScanDuration(spans);
    hide ScanDuration;
    OpinionIff(policies, spans, d, chance);
  }

  lemma OpinionIff(policies: seq<Policy>, spans: seq<Span>, d: int, chance: nat)
    requires IsFirstChance(policies, chance)
    ensures (exists i: nat :: FirstOpinion(policies, spans, d, i) && Opine(policies[i], spans, d) == Keep) <==>
              || (exists i :: 0 <= i < chance && policies[i].ErrorPolicy? && HasError(spans))
              || (exists i :: 0 <= i < chance && policies[i].LatencyPolicy? && policies[i].atLeast <= d)
              || (chance < |policies| && spans != [] &&
                  spans[0].data.traceId / 0x1_0000_0000_0000_0000 < policies[chance].threshold)
  {
    if k :| 0 <= k < chance && Opine(policies[k], spans, d) != Abstain {
      var i := FirstOpinionUpTo(policies, spans, d, k);
      assert Opine(policies[i], spans, d) == Keep;
    } else if chance < |policies| {
      assert FirstOpinion(policies, spans, d, chance);
      assert forall i: nat :: FirstOpinion(policies, spans, d, i) ==> i == chance;
    }
  }

  lemma {:induction false} FirstOpinionUpTo(policies: seq<Policy>, spans: seq<Span>, d: int, k: nat) returns (i: nat)
    requires k < |policies| && Opine(policies[k], spans, d) != Abstain
    ensures i <= k && FirstOpinion(policies, spans, d, i)
  {
    hide Opine;
    if j: nat :| j < k && Opine(policies[j], spans, d) != Abstain {
      i := FirstOpinionUpTo(policies, spans, d, j);
    } else {
      i := k;
    }
  }

  // A trace of which every time is set and that takes as long as a latency policy asks
  // for, from its first start to its last end, is kept.
  lemma SlowKept(policies: seq<Policy>, l: nat, spans: seq<Span>, first: Time, last: Time)
    requires l < |policies| && policies[l].LatencyPolicy?
    requires forall j :: 0 <= j < l ==> !policies[j].ProbabilisticPolicy?
    requires forall s :: s in spans ==> 0 < s.data.start && 0 < s.data.end
    requires IsFirstStart(spans, first) && IsLastEnd(spans, last) && policies[l].atLeast <= last - first
    ensures Kept(policies, spans)
  {
    DurationExact(spans, first, last);
    var i := FirstOpinionUpTo(policies, spans, ScanDuration(spans), l);
  }

  ghost predicate IsFirstStart(spans: seq<Span>, t: Time) {
    && (exists s :: s in spans && s.data.start == t)
    && forall s :: s in spans ==> t <= s.data.start
  }

  ghost predicate IsLastEnd(spans: seq<Span>, t: Time) {
    && (exists s :: s in spans && s.data.end == t)
    && forall s :: s in spans ==> s.data.end <= t
  }

  // No time lies before Go's zero time.
  ghost predicate TimesFromZero(spans: seq<Span>) {
    forall s :: s in spans ==> 0 <= s.data.start && 0 <= s.data.end
  }

  ghost predicate SomeStartZero(spans: seq<Span>) {
    exists s :: s in spans && s.data.start == 0
  }

  ghost predicate AllEndsZero(spans: seq<Span>) {
    forall s :: s in spans ==> s.data.end == 0
  }

  lemma {:induction false} ScanEndIsLast(spans: seq<Span>)
    requires TimesFromZero(spans) && |spans| > 0
    ensures IsLastEnd(spans, ScanEnd(spans))
  {
    var init := spans[..|spans| - 1];
    var last := spans[|spans| - 1];
    assert spans == init + [last];
    if init != [] {
      ScanEndIsLast(init);
    }
    assert last in spans;
  }

  lemma {:induction false} ScanStartIsFirst(spans: seq<Span>)
    requires TimesFromZero(spans) && |spans| > 0
    ensures !SomeStartZero(spans) ==> IsFirstStart(spans, ScanStart(spans))
    ensures exists s :: s in spans && s.data.start == ScanStart(spans)
  {
    var init := spans[..|spans| - 1];
    var last := spans[|spans| - 1];
    assert spans == init + [last];
    if init != [] {
      ScanStartIsFirst(init);
    }
    assert last in spans;
  }

  // The scanned duration is the time from the first start to the last end if and
  // only if a zero start time comes with zero end times throughout and the other
  // way round; in particular when no time is zero.
  lemma DurationExact(spans: seq<Span>, first: Time, last: Time)
    requires TimesFromZero(spans) && |spans| > 0
    requires IsFirstStart(spans, first) && IsLastEnd(spans, last)
    ensures ScanDuration(spans) == last - first <==> (SomeStartZero(spans) <==> AllEndsZero(spans))
  {
    ScanEndIsLast(spans);
    ScanStartIsFirst(spans);
    if !SomeStartZero(spans) {
      assert ScanStart(spans) == first > 0;
    } else {
      assert first == 0;
    }
  }

  // Without zero times the order in which the spans arrived does not matter.
  lemma DurationOfAnyOrder(spans: seq<Span>, other: seq<Span>)
    requires forall s :: s in spans <==> s in other
    requires forall s :: s in spans ==> 0 < s.data.start && 0 < s.data.end
    ensures ScanDuration(spans) == ScanDuration(other)
  {
    if |spans| == 0 {
      assert forall i :: 0 <= i < |other| ==> other[i] in other;
    } else {
      assert spans[0] in spans && spans[0] in other;
      ScanEndIsLast(spans);
      ScanEndIsLast(other);
      ScanStartIsFirst(spans);
      ScanStartIsFirst(other);
    }
  }
}
