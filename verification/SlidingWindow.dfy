// Counting events over the last minute in a ring of sixty one-second buckets.
module WindowSpec {

  const SECONDS := 60

  // An amount added at a second, as the window's clock had it: never backwards.
  datatype Event = Event(sec: int, amount: int)

  function SumAt(log: seq<Event>, sec: int): int {
    SumIn(log, sec, sec + 1)
  }

  // What was added from second lo up to, but not including, second hi.
  function SumIn(log: seq<Event>, lo: int, hi: int): int {
    if log == [] then 0
    else
      var e := log[|log| - 1];
      SumIn(log[..|log| - 1], lo, hi) + if lo <= e.sec < hi then e.amount else 0
  }

  function Sum(s: seq<int>): int {
    if s == [] then 0 else Sum(s[..|s| - 1]) + s[|s| - 1]
  }

  lemma SumMore(s: seq<int>, x: int)
    ensures Sum(s + [x]) == Sum(s) + x
  {
    assert (s + [x])[..|s|] == s;
  }

  // The one second of the last minute that bucket i stands for.
  function SecondOf(last: int, i: int): int {
    last - (last - i) % SECONDS
  }

  lemma SecondUnique(last: int, sec: int)
    requires last - SECONDS < sec <= last
    ensures SecondOf(last, sec % SECONDS) == sec
  {
    var i := sec % SECONDS;
    assert sec == SECONDS * (sec / SECONDS) + i;
    assert (last - i) % SECONDS == (last - sec) % SECONDS by {
      assert last - i == last - sec + SECONDS * (sec / SECONDS);
    }
  }

  // Every bucket holds the sum of what was added in its second of the last minute.
  ghost predicate Represents(buckets: seq<int>, last: int, log: seq<Event>) {
    && |buckets| == SECONDS
    && (forall e :: e in log ==> e.sec <= last)
    && forall i :: 0 <= i < SECONDS ==> buckets[i] == SumAt(log, SecondOf(last, i))
  }

  lemma {:induction false} NothingBeyond(log: seq<Event>, lo: int, hi: int)
    requires forall e :: e in log ==> e.sec < lo
    ensures SumIn(log, lo, hi) == 0
  {
    if log != [] {
      assert log[|log| - 1] in log;
      NothingBeyond(log[..|log| - 1], lo, hi);
    }
  }

  // Clearing one bucket moves the window on by one second.
  lemma OneSecondOn(buckets: seq<int>, last: int, log: seq<Event>)
    requires Represents(buckets, last, log)
    ensures Represents(buckets[(last + 1) % SECONDS := 0], last + 1, log)
  {
    var next := (last + 1) % SECONDS;
    var moved := buckets[next := 0];
    forall i | 0 <= i < SECONDS ensures moved[i] == SumAt(log, SecondOf(last + 1, i)) {
      if i == next {
        SecondUnique(last + 1, last + 1);
        NothingBeyond(log, last + 1, last + 2);
      } else {
        var sec := SecondOf(last, i);
        assert last - SECONDS < sec <= last;
        StillThere(last, i);
      }
    }
  }

  lemma NextMinute(sec: int)
    ensures (sec + SECONDS) % SECONDS == sec % SECONDS
  {
  }

  lemma StillThere(last: int, i: int)
    requires 0 <= i < SECONDS && i != (last + 1) % SECONDS
    ensures SecondOf(last + 1, i) == SecondOf(last, i)
  {
    var sec := SecondOf(last, i);
    BucketOf(last, i);
    NextMinute(sec);
    assert sec + SECONDS != last + 1;
    SecondUnique(last + 1, sec);
  }

  // After a minute without events every bucket is empty.
  lemma MinuteOn(last: int, now: int, log: seq<Event>, zeros: seq<int>)
    requires forall e :: e in log ==> e.sec <= last
    requires last + SECONDS <= now
    requires |zeros| == SECONDS && forall i :: 0 <= i < SECONDS ==> zeros[i] == 0
    ensures Represents(zeros, now, log)
  {
    forall i | 0 <= i < SECONDS ensures SumAt(log, SecondOf(now, i)) == 0 {
      NothingBeyond(log, SecondOf(now, i), SecondOf(now, i) + 1);
    }
  }

  // An event of the current second goes into the current bucket.
  lemma Added(buckets: seq<int>, last: int, log: seq<Event>, e: Event)
    requires Represents(buckets, last, log) && last - SECONDS < e.sec <= last
    ensures var i := e.sec % SECONDS;
            Represents(buckets[i := buckets[i] + e.amount], last, log + [e])
  {
    var more := log + [e];
    assert more[..|log|] == log;
    SecondUnique(last, e.sec);
    forall i | 0 <= i < SECONDS
      ensures SumAt(more, SecondOf(last, i)) ==
              SumAt(log, SecondOf(last, i)) + if i == e.sec % SECONDS then e.amount else 0
    {
      if SecondOf(last, i) == e.sec {
        BucketOf(last, i);
      }
    }
  }

  lemma BucketOf(last: int, i: int)
    requires 0 <= i < SECONDS
    ensures SecondOf(last, i) % SECONDS == i
    ensures last - SECONDS < SecondOf(last, i) <= last
  {
    var q := (last - i) / SECONDS;
    assert last - i == SECONDS * q + (last - i) % SECONDS;
    assert SecondOf(last, i) == i + SECONDS * q;
  }

  // The buckets one by one.
  function BucketSums(log: seq<Event>, last: int, n: nat): seq<int> {
    if n == 0 then [] else BucketSums(log, last, n - 1) + [SumAt(log, SecondOf(last, n - 1))]
  }

  lemma SumAtMore(log: seq<Event>, e: Event, sec: int)
    ensures SumAt(log + [e], sec) == SumAt(log, sec) + if e.sec == sec then e.amount else 0
  {
    assert (log + [e])[..|log|] == log;
  }

  lemma {:induction false} BucketSumsMore(log: seq<Event>, e: Event, last: int, n: nat)
    requires n <= SECONDS
    ensures Sum(BucketSums(log + [e], last, n)) ==
            Sum(BucketSums(log, last, n)) +
            if last - SECONDS < e.sec <= last && e.sec % SECONDS < n then e.amount else 0
  {
    if n > 0 {
      SumAtMore(log, e, SecondOf(last, n - 1));
      SecondIff(last, n - 1, e.sec);
      hide Sum, SumAt, SecondOf;
      BucketSumsMore(log, e, last, n - 1);
      SumMore(BucketSums(log, last, n - 1), SumAt(log, SecondOf(last, n - 1)));
      SumMore(BucketSums(log + [e], last, n - 1), SumAt(log + [e], SecondOf(last, n - 1)));
    }
  }

  // A second of the last minute is in the bucket it leaves as a remainder.
  lemma SecondIff(last: int, i: int, sec: int)
    requires 0 <= i < SECONDS
    ensures SecondOf(last, i) == sec <==> last - SECONDS < sec <= last && sec % SECONDS == i
  {
    BucketOf(last, i);
    if last - SECONDS < sec <= last {
      SecondUnique(last, sec);
    }
  }

  lemma {:induction false} BucketSumsTotal(log: seq<Event>, last: int)
    ensures Sum(BucketSums(log, last, SECONDS)) == SumIn(log, last - SECONDS + 1, last + 1)
  {
    hide BucketSums, Sum;
    if log == [] {
      NoEvents(last, SECONDS);
    } else {
      BucketSumsTotal(log[..|log| - 1], last);
      BucketSumsMore(log[..|log| - 1], log[|log| - 1], last, SECONDS);
      assert log == log[..|log| - 1] + [log[|log| - 1]];
    }
  }

  lemma {:induction false} NoEvents(last: int, n: nat)
    ensures Sum(BucketSums([], last, n)) == 0
  {
    if n > 0 {
      NoEvents(last, n - 1);
    }
  }

  lemma {:induction false} BucketSumsAre(log: seq<Event>, last: int, n: nat)
    ensures |BucketSums(log, last, n)| == n
    ensures forall i :: 0 <= i < n ==> BucketSums(log, last, n)[i] == SumAt(log, SecondOf(last, i))
  {
    if n > 0 {
      BucketSumsAre(log, last, n - 1);
    }
  }

  // The buckets together hold what was added in the last minute.
  lemma TotalOfMinute(buckets: seq<int>, last: int, log: seq<Event>)
    requires Represents(buckets, last, log)
    ensures Sum(buckets) == SumIn(log, last - SECONDS + 1, last + 1)
  {
    BucketSumsTotal(log, last);
    BucketSumsAre(log, last, SECONDS);
    assert buckets == BucketSums(log, last, SECONDS);
  }

  // What advance does beyond its first use: clear the buckets of the seconds that
  // have gone by, or all of them.
  method Roll(buckets: array<int>, lastSec: int, nowSec: int, ghost log: seq<Event>)
    requires Represents(buckets[..], lastSec, log) && lastSec < nowSec
    modifies buckets
    ensures Represents(buckets[..], nowSec, log)
  {
    var diff := nowSec - lastSec;
    if diff >= SECONDS {
      for i := 0 to buckets.Length
        invariant forall j :: 0 <= j < i ==> buckets[j] == 0
      {
        buckets[i] := 0;
      }
      MinuteOn(lastSec, nowSec, log, buckets[..]);
      return;
    }
    for i := 1 to diff + 1
      invariant Represents(buckets[..], lastSec + i - 1, log)
    {
      OneSecondOn(buckets[..], lastSec + i - 1, log);
      var idx := (lastSec + i) % SECONDS;
      ghost var before := buckets[..];
      buckets[idx] := 0;
      assert buckets[..] == before[idx := 0];
    }
  }

  method SumBuckets(buckets: array<int>) returns (total: int)
    ensures total == Sum(buckets[..])
  {
    total := 0;
    for i := 0 to buckets.Length
      invariant total == Sum(buckets[..i])
    {
      assert buckets[..i + 1][..i] == buckets[..i];
      total := total + buckets[i];
    }
    assert buckets[..buckets.Length] == buckets[..];
  }
}

// The metrics package's window.
module MetricsWindow {
  import opened Model
  import opened WindowSpec

  class SlidingWindow {
    const buckets: array<int>
    var lastIdx: int
    var lastSec: int
    ghost var log: seq<Event>  // what was added, by the window's own clock

    ghost predicate Valid()
      reads this, buckets
    {
      && buckets.Length == SECONDS && lastSec >= 0
      && if lastSec == 0 then log == [] && forall i :: 0 <= i < SECONDS ==> buckets[i] == 0
         else lastIdx == lastSec % SECONDS && Represents(buckets[..], lastSec, log)
    }

    constructor ()
      ensures Valid() && fresh(buckets) && lastSec == 0
    {
      buckets := new int[SECONDS](_ => 0);
      lastIdx, lastSec, log := 0, 0, [];
    }

    // Brings the window up to the clock; a clock that went back changes nothing.
    method Advance(nowSec: int)
      requires Valid() && nowSec > 0
      modifies this, buckets
      ensures Valid() && log == old(log)
      ensures lastSec == Max(old(lastSec), nowSec)
    {
      if lastSec == 0 {
        MinuteOn(nowSec - SECONDS, nowSec, log, buckets[..]);
        lastIdx := nowSec % SECONDS;
        lastSec := nowSec;
        return;
      }
      if nowSec - lastSec <= 0 {
        return;
      }
      Roll(buckets, lastSec, nowSec, log);
      lastIdx := nowSec % SECONDS;
      lastSec := nowSec;
    }

    method Add(n: int, nowSec: int)
      requires Valid() && nowSec > 0
      modifies this, buckets
      ensures Valid() && lastSec == Max(old(lastSec), nowSec)
      ensures log == old(log) + [Event(lastSec, n)]
    {
      Advance(nowSec);
      Added(buckets[..], lastSec, log, Event(lastSec, n));
      ghost var before := buckets[..];
      buckets[lastIdx] := buckets[lastIdx] + n;
      assert buckets[..] == before[lastIdx := before[lastIdx] + n];
      log := log + [Event(lastSec, n)];
    }

    // The rate is exactly what was added in the last minute, over sixty.
    method Rate(nowSec: int) returns (rate: real)
      requires Valid() && nowSec > 0
      modifies this, buckets
      ensures Valid() && log == old(log) && lastSec == Max(old(lastSec), nowSec)
      ensures rate == SumIn(log, lastSec - 59, lastSec + 1) as real / 60.0
    {
      Advance(nowSec);
      var total := SumBuckets(buckets);
      TotalOfMinute(buckets[..], lastSec, log);
      rate := total as real / SECONDS as real;
    }

    method RawBuckets(nowSec: int) returns (raw: seq<int>, newest: int)
      requires Valid() && nowSec > 0
      modifies this, buckets
      ensures Valid() && log == old(log) && lastSec == Max(old(lastSec), nowSec)
      ensures newest == lastSec && Represents(raw, newest, log)
    {
      Advance(nowSec);
      raw, newest := buckets[..], lastSec;
    }
  }
}

// The sampler package's window. Its first use leaves the current index at zero, so
// the first second is counted in bucket zero, under the last full minute before it.
module SamplerWindow {
  import opened Model
  import opened WindowSpec

  // The second under which bucket zero holds what was added in second first.
  function Slot(first: int): int { first - first % SECONDS }

  function Shelved(log: seq<Event>, first: int): seq<Event> {
    if log == [] then []
    else
      var e := log[|log| - 1];
      Shelved(log[..|log| - 1], first) + [Event(if e.sec == first then Slot(first) else e.sec, e.amount)]
  }

  class SlidingWindow {
    const buckets: array<int>
    var lastIdx: int
    var lastSec: int
    ghost var first: int         // the second of the first use, or 0
    ghost var log: seq<Event>    // what was added, by the window's own clock

    ghost predicate Valid()
      reads this, buckets
    {
      && buckets.Length == SECONDS && first >= 0
      && if lastSec == 0 then
           first == 0 && lastIdx == 0 && log == [] && forall i :: 0 <= i < SECONDS ==> buckets[i] == 0
         else
           && 0 < first <= lastSec
           && lastIdx == (if lastSec == first then 0 else lastSec % SECONDS)
           && (forall e :: e in log ==> first <= e.sec <= lastSec)
           && Represents(buckets[..], lastSec, Shelved(log, first))
    }

    constructor ()
      ensures Valid() && fresh(buckets) && lastSec == 0
    {
      buckets := new int[SECONDS](_ => 0);
      lastIdx, lastSec, first, log := 0, 0, 0, [];
    }

    method Advance(nowSec: int)
      requires Valid() && nowSec > 0
      modifies this, buckets
      ensures Valid() && log == old(log)
      ensures lastSec == Max(old(lastSec), nowSec)
      ensures first == if old(lastSec) == 0 then nowSec else old(first)
    {
      if lastSec == 0 {
        MinuteOn(nowSec - SECONDS, nowSec, [], buckets[..]);
        lastSec, first := nowSec, nowSec;
        return;
      }
      if nowSec - lastSec <= 0 {
        return;
      }
      Roll(buckets, lastSec, nowSec, Shelved(log, first));
      lastIdx := nowSec % SECONDS;
      lastSec := nowSec;
    }

    method Add(n: int, nowSec: int)
      requires Valid() && nowSec > 0
      modifies this, buckets
      ensures Valid() && lastSec == Max(old(lastSec), nowSec)
      ensures first == if old(lastSec) == 0 then nowSec else old(first)
      ensures log == old(log) + [Event(lastSec, n)]
    {
      hide Represents, Slot, Shelved;
      Advance(nowSec);
      ghost var sec := if lastSec == first then Slot(first) else lastSec;
      SlotBucket(first);
      Added(buckets[..], lastSec, Shelved(log, first), Event(sec, n));
      ShelvedMore(log, Event(lastSec, n), first);
      ghost var before := buckets[..];
      buckets[lastIdx] := buckets[lastIdx] + n;
      assert buckets[..] == before[lastIdx := before[lastIdx] + n];
      log := log + [Event(lastSec, n)];
    }

    // The count behind the rate: exactly that of the last minute, except that the
    // first second is dropped early; see Shortfall.
    method Rate(nowSec: int) returns (rate: real)
      requires Valid() && nowSec > 0
      modifies this, buckets
      ensures Valid() && log == old(log) && lastSec == Max(old(lastSec), nowSec)
      ensures first == if old(lastSec) == 0 then nowSec else old(first)
      ensures rate == (SumIn(log, lastSec - 59, lastSec + 1) - Shortfall(log, first, lastSec)) as real / 60.0
    {
      Advance(nowSec);
      var total := SumBuckets(buckets);
      TotalOfMinute(buckets[..], lastSec, Shelved(log, first));
      ShelvedSum(log, first, lastSec);
      rate := total as real / SECONDS as real;
    }
  }

  lemma ShelvedMore(log: seq<Event>, e: Event, first: int)
    ensures Shelved(log + [e], first) ==
            Shelved(log, first) + [Event(if e.sec == first then Slot(first) else e.sec, e.amount)]
  {
    assert (log + [e])[..|log|] == log;
  }

  lemma SlotBucket(first: int)
    requires first > 0
    ensures Slot(first) % SECONDS == 0 && first - SECONDS < Slot(first) <= first
  {
    assert first == SECONDS * (first / SECONDS) + first % SECONDS;
  }

  // Some full minute has gone by since the first second.
  ghost predicate MinutePassed(first: int, last: int) {
    exists m: int :: first < SECONDS * m <= last
  }

  // What the window misses: the first second's events, while that second is still
  // in the last minute but a multiple of sixty seconds has passed since.
  ghost function Shortfall(log: seq<Event>, first: int, last: int): int {
    if last < first + SECONDS && MinutePassed(first, last) then SumAt(log, first) else 0
  }

  lemma MinutePassedIff(first: int, last: int)
    ensures MinutePassed(first, last) <==> Slot(first) + SECONDS <= last
  {
    var q := first / SECONDS;
    assert first == SECONDS * q + first % SECONDS;
    if Slot(first) + SECONDS <= last {
      assert first < SECONDS * (q + 1) <= last;
    }
    if m: int :| first < SECONDS * m <= last {
      assert m >= q + 1;
    }
  }

  lemma {:induction false} ShelvedSum(log: seq<Event>, first: int, last: int)
    requires 0 < first <= last && forall e :: e in log ==> first <= e.sec <= last
    ensures SumIn(Shelved(log, first), last - SECONDS + 1, last + 1) ==
            SumIn(log, last - SECONDS + 1, last + 1) - Shortfall(log, first, last)
  {
    MinutePassedIff(first, last);
    if log != [] {
      var e := log[|log| - 1];
      assert e in log;
      ShelvedSum(log[..|log| - 1], first, last);
      var shelved := Shelved(log[..|log| - 1], first);
      var slot := Event(if e.sec == first then Slot(first) else e.sec, e.amount);
      assert (shelved + [slot])[..|shelved|] == shelved;
      SlotBucket(first);
    }
  }

  // With amounts that are not negative the window never reports too much.
  lemma {:induction false} ShortfallNotNegative(log: seq<Event>, first: int, last: int)
    requires forall e :: e in log ==> e.amount >= 0
    ensures Shortfall(log, first, last) >= 0
  {
    SumNotNegative(log, first, first + 1);
  }

  lemma {:induction false} SumNotNegative(log: seq<Event>, lo: int, hi: int)
    requires forall e :: e in log ==> e.amount >= 0
    ensures SumIn(log, lo, hi) >= 0
  {
    if log != [] {
      assert log[|log| - 1] in log;
      SumNotNegative(log[..|log| - 1], lo, hi);
    }
  }
}

// Regrouping the sixty buckets into six, for the heat map.
module Heatmap {
  import opened WindowSpec

  const GROUP := 10
  const GROUPS := 6

  // The copies that RawBuckets returns for one service's two windows, and the
  // newest second of the rate window.
  datatype Reading = Reading(rate: seq<int>, errors: seq<int>, newest: int)

  datatype Cell = Cell(ts: int, spans: int, errors: int)

  // The bucket i seconds into the minute that ends with second newest.
  function IndexAt(newest: int, i: int): int {
    (newest - (SECONDS - 1 - i)) % SECONDS
  }

  // Go's remainder keeps the sign of the dividend; the code corrects it.
  method BucketIndex(newest: int, i: int) returns (idx: int)
    ensures idx == IndexAt(newest, i)
  {
    var sec := newest - (SECONDS - 1 - i);
    idx := if sec >= 0 then sec % SECONDS else -((-sec) % SECONDS);
    if idx < 0 {
      idx := idx + SECONDS;
    }
  }

  // Seconds lo to hi of the minute.
  function Stretch(raw: seq<int>, newest: int, lo: nat, hi: nat): int
    requires |raw| == SECONDS && lo <= hi
    decreases hi
  {
    if lo == hi then 0 else Stretch(raw, newest, lo, hi - 1) + raw[IndexAt(newest, hi - 1)]
  }

  // Group g, summed over the windows of one kind.
  function GroupTotal(readings: seq<Reading>, raw: Reading -> seq<int>, g: nat): int
    requires forall r :: r in readings ==> |raw(r)| == SECONDS
  {
    if readings == [] then 0
    else
      var r := readings[|readings| - 1];
      GroupTotal(readings[..|readings| - 1], raw, g) + Stretch(raw(r), r.newest, g * GROUP, (g + 1) * GROUP)
  }

  function RateOf(r: Reading): seq<int> { r.rate }

  function ErrorsOf(r: Reading): seq<int> { r.errors }

  // A stretch of a window's copy is what was added in those seconds.
  lemma {:induction false} StretchIsTime(raw: seq<int>, newest: int, log: seq<Event>, lo: nat, hi: nat)
    requires Represents(raw, newest, log)
    requires lo <= hi <= SECONDS
    ensures Stretch(raw, newest, lo, hi) == SumIn(log, newest - 59 + lo, newest - 59 + hi)
    decreases hi
  {
    if lo < hi {
      StretchIsTime(raw, newest, log, lo, hi - 1);
      var sec := newest - (SECONDS - 1 - (hi - 1));
      SecondUnique(newest, sec);
      SumSplit(log, newest - 59 + lo, sec, sec + 1);
    } else {
      EmptySpan(log, newest - 59 + lo);
    }
  }

  lemma {:induction false} SumSplit(log: seq<Event>, lo: int, mid: int, hi: int)
    requires lo <= mid <= hi
    ensures SumIn(log, lo, hi) == SumIn(log, lo, mid) + SumIn(log, mid, hi)
  {
    if log != [] {
      SumSplit(log[..|log| - 1], lo, mid, hi);
    }
  }

  lemma {:induction false} EmptySpan(log: seq<Event>, lo: int)
    ensures SumIn(log, lo, lo) == 0
  {
    if log != [] {
      EmptySpan(log[..|log| - 1], lo);
    }
  }

  lemma {:induction false} StretchSplit(raw: seq<int>, newest: int, lo: nat, mid: nat, hi: nat)
    requires |raw| == SECONDS && lo <= mid <= hi
    ensures Stretch(raw, newest, lo, hi) == Stretch(raw, newest, lo, mid) + Stretch(raw, newest, mid, hi)
    decreases hi
  {
    if mid < hi {
      StretchSplit(raw, newest, lo, mid, hi - 1);
    }
  }

  lemma {:induction false} StretchOfRun(raw: seq<int>, newest: int, lo: nat, hi: nat, from: nat)
    requires |raw| == SECONDS && lo <= hi && from + (hi - lo) <= SECONDS
    requires forall i :: lo <= i < hi ==> IndexAt(newest, i) == from + (i - lo)
    ensures Stretch(raw, newest, lo, hi) == Sum(raw[from..from + (hi - lo)])
    decreases hi
  {
    if lo < hi {
      StretchOfRun(raw, newest, lo, hi - 1, from);
      var run := raw[from..from + (hi - lo)];
      assert run[..|run| - 1] == raw[from..from + (hi - 1 - lo)];
    }
  }

  lemma {:induction false} SumConcat(a: seq<int>, b: seq<int>)
    ensures Sum(a + b) == Sum(a) + Sum(b)
  {
    if b == [] {
      assert a + b == a;
    } else {
      SumConcat(a, b[..|b| - 1]);
      assert (a + b)[..|a + b| - 1] == a + b[..|b| - 1];
    }
  }

  lemma WholeMinute(raw: seq<int>, newest: int)
    requires |raw| == SECONDS
    ensures Stretch(raw, newest, 0, SECONDS) == Sum(raw)
  {
    hide Stretch, Sum;
    var start := IndexAt(newest, 0);
    var wrap := SECONDS - start;
    assert 0 <= start < SECONDS;
    IndexRuns(newest);
    hide IndexAt;
    StretchSplit(raw, newest, 0, wrap, SECONDS);
    StretchOfRun(raw, newest, 0, wrap, start);
    StretchOfRun(raw, newest, wrap, SECONDS, 0);
    SumConcat(raw[..start], raw[start..]);
    assert raw[start..start + wrap] == raw[start..] && raw[0..0 + (SECONDS - wrap)] == raw[..start];
    assert raw[..start] + raw[start..] == raw;
  }

  // The six groups take up every bucket once, whatever the newest second is said
  // to be: nothing is lost and nothing counted twice.
  lemma GroupsCoverMinute(raw: seq<int>, newest: int)
    requires |raw| == SECONDS
    ensures Stretch(raw, newest, 0, 10) + Stretch(raw, newest, 10, 20) + Stretch(raw, newest, 20, 30) +
            Stretch(raw, newest, 30, 40) + Stretch(raw, newest, 40, 50) + Stretch(raw, newest, 50, 60) == Sum(raw)
  {
    hide Stretch, Sum;
    StretchSplit(raw, newest, 0, 10, 20);
    StretchSplit(raw, newest, 0, 20, 30);
    StretchSplit(raw, newest, 0, 30, 40);
    StretchSplit(raw, newest, 0, 40, 50);
    StretchSplit(raw, newest, 0, 50, 60);
    WholeMinute(raw, newest);
  }

  // Everything in the copies, of both kinds.
  function RateTotal(readings: seq<Reading>): int {
    if readings == [] then 0 else RateTotal(readings[..|readings| - 1]) + Sum(readings[|readings| - 1].rate)
  }

  function ErrorTotal(readings: seq<Reading>): int {
    if readings == [] then 0 else ErrorTotal(readings[..|readings| - 1]) + Sum(readings[|readings| - 1].errors)
  }

  // What the cells show adds up to all there is: spans to the rate windows, errors to
  // the error windows.
  lemma {:induction false} CellsAddUp(readings: seq<Reading>)
    requires forall r :: r in readings ==> |r.rate| == |r.errors| == SECONDS
    ensures GroupTotal(readings, RateOf, 0) + GroupTotal(readings, RateOf, 1) + GroupTotal(readings, RateOf, 2) +
            GroupTotal(readings, RateOf, 3) + GroupTotal(readings, RateOf, 4) + GroupTotal(readings, RateOf, 5) ==
            RateTotal(readings)
    ensures GroupTotal(readings, ErrorsOf, 0) + GroupTotal(readings, ErrorsOf, 1) + GroupTotal(readings, ErrorsOf, 2) +
            GroupTotal(readings, ErrorsOf, 3) + GroupTotal(readings, ErrorsOf, 4) + GroupTotal(readings, ErrorsOf, 5) ==
            ErrorTotal(readings)
  {
    hide Stretch, Sum;
    if readings != [] {
      var r := readings[|readings| - 1];
      CellsAddUp(readings[..|readings| - 1]);
      GroupsCoverMinute(r.rate, r.newest);
      GroupsCoverMinute(r.errors, r.newest);
    }
  }

  // Read in order of time, the buckets run from some position to the end of the
  // ring and on from its beginning.
  lemma IndexRuns(newest: int)
    ensures var start := IndexAt(newest, 0);
            && (forall i :: 0 <= i < SECONDS - start ==> IndexAt(newest, i) == start + i)
            && (forall i :: SECONDS - start <= i < SECONDS ==> IndexAt(newest, i) == i - (SECONDS - start))
  {
    var oldest := newest - (SECONDS - 1);
    var q := oldest / SECONDS;
    assert oldest == SECONDS * q + IndexAt(newest, 0);
    forall i | 0 <= i < SECONDS
      ensures IndexAt(newest, i) == if i < SECONDS - IndexAt(newest, 0) then IndexAt(newest, 0) + i
                                    else i - (SECONDS - IndexAt(newest, 0))
    {
      assert newest - (SECONDS - 1 - i) == SECONDS * q + (IndexAt(newest, 0) + i);
    }
  }

  // What the windows counted in the ten seconds of group g.
  function CountedIn(readings: seq<Reading>, logs: seq<seq<Event>>, g: nat): int
    requires |logs| == |readings|
  {
    if readings == [] then 0
    else
      var n := |readings| - 1;
      var from := readings[n].newest - 59 + g * GROUP;
      CountedIn(readings[..n], logs[..n], g) + SumIn(logs[n], from, from + GROUP)
  }

  // A count in a cell is what the windows counted in its ten seconds.
  lemma {:induction false} CellIsTime(readings: seq<Reading>, raw: Reading -> seq<int>, logs: seq<seq<Event>>, g: nat)
    requires |logs| == |readings| && g < GROUPS
    requires forall r :: r in readings ==> |raw(r)| == SECONDS
    requires forall n :: 0 <= n < |readings| ==> Represents(raw(readings[n]), readings[n].newest, logs[n])
    ensures GroupTotal(readings, raw, g) == CountedIn(readings, logs, g)
  {
    if readings != [] {
      var n := |readings| - 1;
      CellIsTime(readings[..n], raw, logs[..n], g);
      StretchIsTime(raw(readings[n]), readings[n].newest, logs[n], g * GROUP, (g + 1) * GROUP);
    }
  }

  // The error window is read on its own, and the second it has then reached is not
  // looked at. This is the second that position i really stands for when the error
  // window is k seconds ahead of the rate window: a whole number of minutes off.
  function HeldSecond(newest: int, k: int, i: int): int {
    newest - (SECONDS - 1) + i + SECONDS * ((k + SECONDS - 1 - i) / SECONDS)
  }

  lemma HeldSecondUnique(newest: int, k: int, i: int)
    ensures SecondOf(newest + k, IndexAt(newest, i)) == HeldSecond(newest, k, i)
  {
    var sec := HeldSecond(newest, k, i);
    var minutes := (k + SECONDS - 1 - i) / SECONDS;
    assert sec == newest + k - (k + SECONDS - 1 - i) % SECONDS;
    MinutesApart(newest - (SECONDS - 1) + i, minutes);
    SecondUnique(newest + k, sec);
  }

  lemma MinutesApart(sec: int, minutes: int)
    ensures (sec + SECONDS * minutes) % SECONDS == sec % SECONDS
  {
  }

  // The errors of seconds lo to hi as the heat map finds them.
  function Held(log: seq<Event>, newest: int, k: int, lo: nat, hi: nat): int
    requires lo <= hi
    decreases hi
  {
    if lo == hi then 0 else Held(log, newest, k, lo, hi - 1) + SumAt(log, HeldSecond(newest, k, hi - 1))
  }

  lemma {:induction false} StretchHolds(errors: seq<int>, newest: int, k: int, log: seq<Event>, lo: nat, hi: nat)
    requires Represents(errors, newest + k, log) && lo <= hi <= SECONDS
    ensures Stretch(errors, newest, lo, hi) == Held(log, newest, k, lo, hi)
    decreases hi
  {
    hide SumAt, HeldSecond;
    if lo < hi {
      StretchHolds(errors, newest, k, log, lo, hi - 1);
      HeldSecondUnique(newest, k, hi - 1);
    }
  }

  // Positions from k on, up to a minute further, hold the seconds they are taken for.
  lemma {:induction false} HeldInPlace(log: seq<Event>, newest: int, k: int, lo: nat, hi: nat)
    requires k <= lo <= hi <= k + SECONDS
    ensures Held(log, newest, k, lo, hi) == SumIn(log, newest - 59 + lo, newest - 59 + hi)
    decreases hi
  {
    if lo < hi {
      HeldInPlace(log, newest, k, lo, hi - 1);
      SumSplit(log, newest - 59 + lo, newest - 60 + hi, newest - 59 + hi);
    } else {
      EmptySpan(log, newest - 59 + lo);
    }
  }

  // The first k positions hold the k seconds after newest.
  lemma {:induction false} HeldLate(log: seq<Event>, newest: int, k: int, lo: nat, hi: nat)
    requires k - SECONDS <= lo <= hi <= k
    ensures Held(log, newest, k, lo, hi) == SumIn(log, newest + 1 + lo, newest + 1 + hi)
    decreases hi
  {
    if lo < hi {
      HeldLate(log, newest, k, lo, hi - 1);
      SumSplit(log, newest + 1 + lo, newest + hi, newest + 1 + hi);
    } else {
      EmptySpan(log, newest + 1 + lo);
    }
  }

  lemma {:induction false} HeldSplit(log: seq<Event>, newest: int, k: int, lo: nat, mid: nat, hi: nat)
    requires lo <= mid <= hi
    ensures Held(log, newest, k, lo, hi) == Held(log, newest, k, lo, mid) + Held(log, newest, k, mid, hi)
    decreases hi
  {
    if mid < hi {
      HeldSplit(log, newest, k, lo, mid, hi - 1);
    }
  }

  function Clamp(x: int, lo: nat, hi: nat): nat
    requires lo <= hi
  {
    if x < lo then lo else if x > hi then hi else x
  }

  // The errors of a stretch of a window that is k seconds ahead: those between
  // positions k and k + 60 are in place.
  lemma LateStretch(errors: seq<int>, newest: int, k: int, log: seq<Event>, lo: nat, hi: nat)
    requires Represents(errors, newest + k, log) && lo <= hi <= SECONDS
    ensures var a, b := Clamp(k, lo, hi), Clamp(k + SECONDS, lo, hi);
            Stretch(errors, newest, lo, hi) ==
            Held(log, newest, k, lo, a) + SumIn(log, newest - 59 + a, newest - 59 + b) + Held(log, newest, k, b, hi)
  {
    hide Represents, Stretch, Held, SumIn;
    var a, b := Clamp(k, lo, hi), Clamp(k + SECONDS, lo, hi);
    StretchHolds(errors, newest, k, log, lo, hi);
    HeldSplit(log, newest, k, lo, a, hi);
    HeldSplit(log, newest, k, a, b, hi);
    if a < b {
      HeldInPlace(log, newest, k, a, b);
    } else {
      HeldNothing(log, newest, k, a);
    }
  }

  lemma HeldNothing(log: seq<Event>, newest: int, k: int, a: nat)
    ensures Held(log, newest, k, a, a) == 0 == SumIn(log, newest - 59 + a, newest - 59 + a)
  {
    EmptySpan(log, newest - 59 + a);
  }

  // What seconds lo to hi of such a window show though it was counted at other times.
  function Strayed(log: seq<Event>, newest: int, k: int, lo: nat, hi: nat): int
    requires lo <= hi
  {
    Held(log, newest, k, lo, Clamp(k, lo, hi)) + Held(log, newest, k, Clamp(k + SECONDS, lo, hi), hi)
  }

  // What was counted in those seconds and is not shown.
  function Displaced(log: seq<Event>, newest: int, k: int, lo: nat, hi: nat): int
    requires lo <= hi
  {
    var from := newest - 59;
    SumIn(log, from + lo, from + Clamp(k, lo, hi)) + SumIn(log, from + Clamp(k + SECONDS, lo, hi), from + hi)
  }

  lemma LateStretchExact(errors: seq<int>, newest: int, k: int, log: seq<Event>, lo: nat, hi: nat)
    requires Represents(errors, newest + k, log) && lo <= hi <= SECONDS
    ensures Stretch(errors, newest, lo, hi) - SumIn(log, newest - 59 + lo, newest - 59 + hi) ==
            Strayed(log, newest, k, lo, hi) - Displaced(log, newest, k, lo, hi)
  {
    hide Represents, Stretch, Held, SumIn;
    LateStretch(errors, newest, k, log, lo, hi);
    var a, b := Clamp(k, lo, hi), Clamp(k + SECONDS, lo, hi);
    assert lo <= a <= b <= hi;
    hide Clamp;
    var oldest := newest - 59;
    SumSplit(log, oldest + lo, oldest + a, oldest + hi);
    SumSplit(log, oldest + a, oldest + b, oldest + hi);
  }

  // The same over all readings, each window with a lag of its own.
  function AllStrayed(readings: seq<Reading>, lags: seq<int>, logs: seq<seq<Event>>, g: nat): int
    requires |lags| == |logs| == |readings|
  {
    if readings == [] then 0
    else
      var n := |readings| - 1;
      AllStrayed(readings[..n], lags[..n], logs[..n], g) +
      Strayed(logs[n], readings[n].newest, lags[n], g * GROUP, (g + 1) * GROUP)
  }

  function AllDisplaced(readings: seq<Reading>, lags: seq<int>, logs: seq<seq<Event>>, g: nat): int
    requires |lags| == |logs| == |readings|
  {
    if readings == [] then 0
    else
      var n := |readings| - 1;
      AllDisplaced(readings[..n], lags[..n], logs[..n], g) +
      Displaced(logs[n], readings[n].newest, lags[n], g * GROUP, (g + 1) * GROUP)
  }

  // Every copy holds its window's last minute, as of lag seconds after the second by
  // which the heat map places it.
  ghost predicate Lagging(readings: seq<Reading>, raw: Reading -> seq<int>, lags: seq<int>, logs: seq<seq<Event>>) {
    && |lags| == |logs| == |readings|
    && (forall r :: r in readings ==> |raw(r)| == SECONDS)
    && forall n :: 0 <= n < |readings| ==> Represents(raw(readings[n]), readings[n].newest + lags[n], logs[n])
  }

  lemma LaggingBut(readings: seq<Reading>, raw: Reading -> seq<int>, lags: seq<int>, logs: seq<seq<Event>>)
    requires Lagging(readings, raw, lags, logs) && readings != []
    ensures var n := |readings| - 1;
            Lagging(readings[..n], raw, lags[..n], logs[..n]) &&
            Represents(raw(readings[n]), readings[n].newest + lags[n], logs[n])
  {
    hide Represents;
  }

  lemma OneMoreReading(readings: seq<Reading>, raw: Reading -> seq<int>, logs: seq<seq<Event>>, g: nat)
    requires |logs| == |readings| > 0 && forall r :: r in readings ==> |raw(r)| == SECONDS
    ensures var n := |readings| - 1;
            var newest, log, lo, hi := readings[n].newest, logs[n], g * GROUP, (g + 1) * GROUP;
            && GroupTotal(readings, raw, g) ==
               GroupTotal(readings[..n], raw, g) + Stretch(raw(readings[n]), newest, lo, hi)
            && CountedIn(readings, logs, g) ==
               CountedIn(readings[..n], logs[..n], g) + SumIn(log, newest - 59 + lo, newest - 59 + hi)
  {
    hide Stretch, SumIn;
  }

  lemma OneMoreLag(readings: seq<Reading>, lags: seq<int>, logs: seq<seq<Event>>, g: nat)
    requires |lags| == |logs| == |readings| > 0
    ensures var n := |readings| - 1;
            var newest, log, lo, hi := readings[n].newest, logs[n], g * GROUP, (g + 1) * GROUP;
            && AllStrayed(readings, lags, logs, g) ==
               AllStrayed(readings[..n], lags[..n], logs[..n], g) + Strayed(log, newest, lags[n], lo, hi)
            && AllDisplaced(readings, lags, logs, g) ==
               AllDisplaced(readings[..n], lags[..n], logs[..n], g) + Displaced(log, newest, lags[n], lo, hi)
  {
    hide Strayed, Displaced;
  }

  // A count in a cell is off by what strays into it less what that displaces. It is
  // what the windows counted in the cell's ten seconds if and only if the two agree.
  lemma {:induction false} LateCellExact(readings: seq<Reading>, raw: Reading -> seq<int>, lags: seq<int>,
                                         logs: seq<seq<Event>>, g: nat)
    requires Lagging(readings, raw, lags, logs) && g < GROUPS
    ensures GroupTotal(readings, raw, g) - CountedIn(readings, logs, g) ==
            AllStrayed(readings, lags, logs, g) - AllDisplaced(readings, lags, logs, g)
    ensures GroupTotal(readings, raw, g) == CountedIn(readings, logs, g) <==>
            AllStrayed(readings, lags, logs, g) == AllDisplaced(readings, lags, logs, g)
  {
    hide Stretch, Strayed, Displaced, SumIn, Represents;
    if readings != [] {
      var n := |readings| - 1;
      LaggingBut(readings, raw, lags, logs);
      OneMoreReading(readings, raw, logs, g);
      OneMoreLag(readings, lags, logs, g);
      hide *;
      LateCellExact(readings[..n], raw, lags[..n], logs[..n], g);
      LateStretchExact(raw(readings[n]), readings[n].newest, lags[n], logs[n], g * GROUP, (g + 1) * GROUP);
    }
  }

  // What each window counted in some seconds of its own, from from[n] on.
  function CountedFrom(logs: seq<seq<Event>>, from: seq<int>, lengths: seq<nat>): int
    requires |from| == |lengths| == |logs|
  {
    if logs == [] then 0
    else
      var n := |logs| - 1;
      CountedFrom(logs[..n], from[..n], lengths[..n]) + SumIn(logs[n], from[n], from[n] + lengths[n])
  }

  // Up to a minute behind, what strays into a cell are the seconds after newest, and
  // what they displace are the seconds a minute before those: of window n the first
  // lengths[n] seconds of the cell.
  lemma {:induction false} LateErrors(readings: seq<Reading>, lags: seq<int>, logs: seq<seq<Event>>, g: nat,
                                      late: seq<int>, oldest: seq<int>, lengths: seq<nat>)
    requires |lags| == |logs| == |readings| == |late| == |oldest| == |lengths| && g < GROUPS
    requires forall n :: 0 <= n < |lags| ==> 0 <= lags[n] <= SECONDS
    requires forall n :: 0 <= n < |late| ==> late[n] == readings[n].newest + 1 + g * GROUP
    requires forall n :: 0 <= n < |oldest| ==> oldest[n] == late[n] - SECONDS
    requires forall n :: 0 <= n < |lengths| ==> lengths[n] == Clamp(lags[n] - g * GROUP, 0, GROUP)
    ensures AllStrayed(readings, lags, logs, g) == CountedFrom(logs, late, lengths)
    ensures AllDisplaced(readings, lags, logs, g) == CountedFrom(logs, oldest, lengths)
  {
    hide Strayed, Displaced, SumIn;
    if readings != [] {
      var n := |readings| - 1;
      LateErrors(readings[..n], lags[..n], logs[..n], g, late[..n], oldest[..n], lengths[..n]);
      LateSeconds(readings[n].newest, lags[n], logs[n], g * GROUP, (g + 1) * GROUP);
    }
  }

  lemma LateSeconds(newest: int, k: nat, log: seq<Event>, lo: nat, hi: nat)
    requires lo <= hi <= SECONDS && k <= SECONDS
    ensures var length := Clamp(k - lo, 0, hi - lo);
            && Strayed(log, newest, k, lo, hi) == SumIn(log, newest + 1 + lo, newest + 1 + lo + length)
            && Displaced(log, newest, k, lo, hi) == SumIn(log, newest - 59 + lo, newest - 59 + lo + length)
  {
    hide Held, SumIn;
    var a := Clamp(k, lo, hi);
    assert lo <= a <= hi && Clamp(k + SECONDS, lo, hi) == hi;
    HeldNothing(log, newest, k, hi);
    if lo < a {
      HeldLate(log, newest, k, lo, a);
    } else {
      HeldNothing(log, newest, k, a);
      EmptySpan(log, newest + 1 + a);
    }
  }

  // The time a cell is labelled with, which goes by the first reading, and what the
  // windows counted in the ten seconds up to it.
  function TimestampOf(readings: seq<Reading>, g: nat): int
    requires readings != []
  {
    readings[0].newest - (GROUPS - 1 - g) * GROUP
  }

  function CountedUpTo(logs: seq<seq<Event>>, ts: int): int {
    if logs == [] then 0
    else
      var n := |logs| - 1;
      CountedUpTo(logs[..n], ts) + SumIn(logs[n], ts - 9, ts + 1)
  }

  // With a window read d seconds after the first, the seconds that come in beside
  // those of the label, and those that go out; d may be negative.
  function Gained(log: seq<Event>, ts: int, d: int): int {
    SumIn(log, ts + 1, ts + 1 + d) + SumIn(log, ts - 9 + d, ts - 9)
  }

  function Missed(log: seq<Event>, ts: int, d: int): int {
    SumIn(log, ts - 9, ts - 9 + d) + SumIn(log, ts + 1 + d, ts + 1)
  }

  function AllGained(readings: seq<Reading>, logs: seq<seq<Event>>, ts: int, first: int): int
    requires |logs| == |readings|
  {
    if readings == [] then 0
    else
      var n := |readings| - 1;
      AllGained(readings[..n], logs[..n], ts, first) + Gained(logs[n], ts, readings[n].newest - first)
  }

  function AllMissed(readings: seq<Reading>, logs: seq<seq<Event>>, ts: int, first: int): int
    requires |logs| == |readings|
  {
    if readings == [] then 0
    else
      var n := |readings| - 1;
      AllMissed(readings[..n], logs[..n], ts, first) + Missed(logs[n], ts, readings[n].newest - first)
  }

  lemma {:induction false} BackwardSpan(log: seq<Event>, lo: int, hi: int)
    requires hi <= lo
    ensures SumIn(log, lo, hi) == 0
  {
    if log != [] {
      BackwardSpan(log[..|log| - 1], lo, hi);
    }
  }

  lemma Shifted(log: seq<Event>, ts: int, d: int)
    ensures SumIn(log, ts - 9 + d, ts + 1 + d) - SumIn(log, ts - 9, ts + 1) == Gained(log, ts, d) - Missed(log, ts, d)
  {
    hide SumIn;
    if d >= 0 {
      SumSplit(log, ts - 9, ts + 1, ts + 1 + d);
      SumSplit(log, ts - 9, ts - 9 + d, ts + 1 + d);
      BackwardSpan(log, ts - 9 + d, ts - 9);
      BackwardSpan(log, ts + 1 + d, ts + 1);
    } else {
      SumSplit(log, ts - 9 + d, ts - 9, ts + 1);
      SumSplit(log, ts - 9 + d, ts + 1 + d, ts + 1);
      BackwardSpan(log, ts + 1, ts + 1 + d);
      BackwardSpan(log, ts - 9, ts - 9 + d);
    }
  }

  // Windows read in other seconds than the first: what their own seconds of group g
  // hold against the seconds of the label.
  lemma {:induction false} ShiftedReadings(readings: seq<Reading>, logs: seq<seq<Event>>, g: nat, first: int)
    requires |logs| == |readings|
    ensures var ts := first - (GROUPS - 1 - g) * GROUP;
            CountedIn(readings, logs, g) - CountedUpTo(logs, ts) ==
            AllGained(readings, logs, ts, first) - AllMissed(readings, logs, ts, first)
  {
    if readings != [] {
      var n := |readings| - 1;
      ShiftedReadings(readings[..n], logs[..n], g, first);
      hide SumIn, Gained, Missed;
      var ts, d := first - (GROUPS - 1 - g) * GROUP, readings[n].newest - first;
      assert readings[n].newest - 59 + g * GROUP == ts - 9 + d;
      Shifted(logs[n], ts, d);
    }
  }

  // By its label: a count in a cell is what was counted in the ten seconds up to the
  // cell's timestamp if and only if what strays in and what is gained adds up to what
  // is displaced and what is missed.
  lemma CellExact(readings: seq<Reading>, raw: Reading -> seq<int>, lags: seq<int>, logs: seq<seq<Event>>, g: nat)
    requires Lagging(readings, raw, lags, logs) && g < GROUPS && readings != []
    ensures var ts, first := TimestampOf(readings, g), readings[0].newest;
            GroupTotal(readings, raw, g) == CountedUpTo(logs, ts) <==>
            AllStrayed(readings, lags, logs, g) + AllGained(readings, logs, ts, first) ==
            AllDisplaced(readings, lags, logs, g) + AllMissed(readings, logs, ts, first)
  {
    hide Represents, GroupTotal, CountedIn, CountedUpTo, AllStrayed, AllDisplaced, AllGained, AllMissed;
    LateCellExact(readings, raw, lags, logs, g);
    ShiftedReadings(readings, logs, g, readings[0].newest);
  }

  // For spans there is no lag, so only the second in which each window is read counts.
  lemma TimestampExact(readings: seq<Reading>, raw: Reading -> seq<int>, logs: seq<seq<Event>>, g: nat)
    requires |logs| == |readings| && g < GROUPS && readings != []
    requires forall r :: r in readings ==> |raw(r)| == SECONDS
    requires forall n :: 0 <= n < |readings| ==> Represents(raw(readings[n]), readings[n].newest, logs[n])
    ensures var ts, first := TimestampOf(readings, g), readings[0].newest;
            GroupTotal(readings, raw, g) == CountedUpTo(logs, ts) <==>
            AllGained(readings, logs, ts, first) == AllMissed(readings, logs, ts, first)
  {
    CellIsTime(readings, raw, logs, g);
    ShiftedReadings(readings, logs, g, readings[0].newest);
  }

  method HeatmapData(readings: seq<Reading>) returns (cells: seq<Cell>)
    requires forall r :: r in readings ==> |r.rate| == |r.errors| == SECONDS && r.newest > 0
    ensures readings == [] ==> cells == []
    ensures readings != [] ==> |cells| == GROUPS
    ensures forall g :: 0 <= g < |cells| ==>
      cells[g] == Cell(TimestampOf(readings, g), GroupTotal(readings, RateOf, g), GroupTotal(readings, ErrorsOf, g))
  {
    hide Stretch;
    if |readings| == 0 {
      return [];
    }
    var spanTotals, errTotals := new int[GROUPS](_ => 0), new int[GROUPS](_ => 0);
    var lastSec := 0;
    for n := 0 to |readings|
      invariant lastSec == if n == 0 then 0 else readings[0].newest
      invariant forall g :: 0 <= g < GROUPS ==>
        spanTotals[g] == GroupTotal(readings[..n], RateOf, g) && errTotals[g] == GroupTotal(readings[..n], ErrorsOf, g)
    {
      assert readings[..n + 1][..n] == readings[..n] && readings[n] in readings && readings[0] in readings;
      if lastSec == 0 {
        lastSec := readings[n].newest;
      }
      AddReading(readings[n], spanTotals, errTotals);
    }
    assert readings[..|readings|] == readings;
    cells := [];
    for i := 0 to GROUPS
      invariant |cells| == i
      invariant forall g :: 0 <= g < i ==>
        cells[g] == Cell(lastSec - (GROUPS - 1 - g) * GROUP, spanTotals[g], errTotals[g])
    {
      cells := cells + [Cell(lastSec - (GROUPS - 1 - i) * GROUP, spanTotals[i], errTotals[i])];
    }
  }

  // The inner loop over the seconds of one reading.
  method AddReading(r: Reading, spanTotals: array<int>, errTotals: array<int>)
    requires spanTotals.Length == errTotals.Length == GROUPS && spanTotals != errTotals
    requires |r.rate| == |r.errors| == SECONDS
    modifies spanTotals, errTotals
    ensures forall g :: 0 <= g < GROUPS ==>
      && spanTotals[g] == old(spanTotals[g]) + Stretch(r.rate, r.newest, g * GROUP, (g + 1) * GROUP)
      && errTotals[g] == old(errTotals[g]) + Stretch(r.errors, r.newest, g * GROUP, (g + 1) * GROUP)
  {
    for i := 0 to SECONDS
      invariant forall g :: 0 <= g < GROUPS ==>
        && spanTotals[g] == old(spanTotals[g]) + Stretch(r.rate, r.newest, g * GROUP, Reached(g, i))
        && errTotals[g] == old(errTotals[g]) + Stretch(r.errors, r.newest, g * GROUP, Reached(g, i))
    {
      var idx := BucketIndex(r.newest, i);
      var group := i / GROUP;
      ReachedNext(i);
      spanTotals[group] := spanTotals[group] + r.rate[idx];
      errTotals[group] := errTotals[group] + r.errors[idx];
    }
  }

  // How far group g has got when the loop is at second i.
  function Reached(g: nat, i: nat): (hi: nat)
    ensures g * GROUP <= hi
  {
    if i <= g * GROUP then g * GROUP else if i < (g + 1) * GROUP then i else (g + 1) * GROUP
  }

  lemma ReachedNext(i: nat)
    requires i < SECONDS
    ensures 0 <= i / GROUP < GROUPS
    ensures Reached(i / GROUP, i) == i && Reached(i / GROUP, i + 1) == i + 1
    ensures forall g: nat :: g < GROUPS && g != i / GROUP ==> Reached(g, i + 1) == Reached(g, i)
  {
  }
}
