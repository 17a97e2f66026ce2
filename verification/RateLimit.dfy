// The token bucket that caps sampling at a number of traces per second.
module RateLimit {
  import opened Model

  datatype Bucket = Bucket(tokens: real, lastRefill: Time)

  function Seconds(from: Time, to: Time): real {
    (to - from) as real / 1000000000.0
  }

  function Lesser(x: real, y: real): real { if x < y then x else y }

  // The tokens that a stretch of time is worth.
  function Earned(rate: real, from: Time, to: Time): real {
    Seconds(from, to) * rate
  }

  lemma EarnedNotNegative(rate: real, from: Time, to: Time)
    requires rate >= 0.0 && from <= to
    ensures Earned(rate, from, to) >= 0.0
  {
    NotNegative(Seconds(from, to), rate);
  }

  lemma EarnedAdds(rate: real, a: Time, b: Time, c: Time)
    ensures Earned(rate, a, c) == Earned(rate, a, b) + Earned(rate, b, c)
  {
    assert Seconds(a, c) == Seconds(a, b) + Seconds(b, c);
    Distributes(Seconds(a, b), Seconds(b, c), rate);
  }

  lemma Distributes(x: real, y: real, z: real)
    ensures (x + y) * z == x * z + y * z
  {
  }

  lemma NotNegative(x: real, y: real)
    requires x >= 0.0 && y >= 0.0
    ensures x * y >= 0.0
  {
  }

  function Refilled(rate: real, b: Bucket, now: Time): real {
    Lesser(2.0 * rate, b.tokens + Earned(rate, b.lastRefill, now))
  }

  predicate Grants(rate: real, b: Bucket, now: Time) {
    Refilled(rate, b, now) >= 1.0
  }

  function Next(rate: real, b: Bucket, now: Time): Bucket {
    Bucket(Refilled(rate, b, now) - if Grants(rate, b, now) then 1.0 else 0.0, now)
  }

  class RateLimitSampler {
    const tracesPerSec: real
    const maxTokens: real
    var tokens: real
    var lastRefill: Time

    ghost predicate Valid()
      reads this
    {
      maxTokens == 2.0 * tracesPerSec && 0.0 <= tokens <= maxTokens
    }

    ghost function State(): Bucket
      reads this
    {
      Bucket(tokens, lastRefill)
    }

    constructor (rate: real, now: Time)
      requires rate >= 0.0
      ensures Valid() && tracesPerSec == rate && State() == Bucket(2.0 * rate, now)
    {
      tracesPerSec, maxTokens, tokens, lastRefill := rate, rate * 2.0, rate * 2.0, now;
    }

    // The clock is read under the lock, so calls see it in order.
    method ShouldSample(now: Time) returns (sampled: bool)
      requires Valid() && lastRefill <= now
      modifies this
      ensures Valid() && State() == Next(tracesPerSec, old(State()), now)
      ensures sampled <==> Grants(tracesPerSec, old(State()), now)
    {
      var elapsed := Seconds(lastRefill, now);
      EarnedNotNegative(tracesPerSec, lastRefill, now);
      tokens := Lesser(maxTokens, tokens + elapsed * tracesPerSec);
      lastRefill := now;
      sampled := tokens >= 1.0;
      if sampled {
        tokens := tokens - 1.0;
      }
    }
  }

  // The bucket after the first n calls.
  function After(rate: real, start: Time, calls: seq<Time>, n: nat): Bucket
    requires n <= |calls|
  {
    if n == 0 then Bucket(2.0 * rate, start) else Next(rate, After(rate, start, calls, n - 1), calls[n - 1])
  }

  predicate Granted(rate: real, start: Time, calls: seq<Time>, k: nat)
    requires k < |calls|
  {
    Grants(rate, After(rate, start, calls, k), calls[k])
  }

  // How many of the calls lo to hi, the latter excluded, were granted.
  function GrantCount(rate: real, start: Time, calls: seq<Time>, lo: nat, hi: nat): nat
    requires lo <= hi <= |calls|
    decreases hi
  {
    if lo == hi then 0
    else GrantCount(rate, start, calls, lo, hi - 1) + if Granted(rate, start, calls, hi - 1) then 1 else 0
  }

  ghost predicate InOrder(start: Time, calls: seq<Time>) {
    && (forall k :: 0 <= k < |calls| ==> start <= calls[k])
    && forall j, k :: 0 <= j < k < |calls| ==> calls[j] <= calls[k]
  }

  // At all times the bucket is neither overdrawn nor overfull.
  lemma {:induction false} TokensInRange(rate: real, start: Time, calls: seq<Time>, n: nat)
    requires rate >= 0.0 && InOrder(start, calls) && n <= |calls|
    ensures 0.0 <= After(rate, start, calls, n).tokens <= 2.0 * rate
    ensures After(rate, start, calls, n).lastRefill == if n == 0 then start else calls[n - 1]
  {
    if n > 0 {
      hide Earned;
      TokensInRange(rate, start, calls, n - 1);
      EarnedNotNegative(rate, After(rate, start, calls, n - 1).lastRefill, calls[n - 1]);
    }
  }

  // What is left in the bucket and what was granted came from a full bucket and
  // the time gone by.
  lemma {:induction false} TokenBalance(rate: real, start: Time, calls: seq<Time>, lo: nat, hi: nat)
    requires rate >= 0.0 && InOrder(start, calls) && lo < hi <= |calls|
    ensures After(rate, start, calls, hi).tokens + GrantCount(rate, start, calls, lo, hi) as real <=
            2.0 * rate + Earned(rate, calls[lo], calls[hi - 1])
    decreases hi
  {
    hide Earned;
    TokensInRange(rate, start, calls, hi - 1);
    if lo < hi - 1 {
      TokenBalance(rate, start, calls, lo, hi - 1);
      EarnedAdds(rate, calls[lo], calls[hi - 2], calls[hi - 1]);
    } else {
      EarnedNotNegative(rate, calls[lo], calls[lo]);
      assert GrantCount(rate, start, calls, lo, hi - 1) == 0;
    }
  }

  // Between any two calls, both included, no more is granted than a full bucket
  // and the rate over the time between them allow.
  lemma GrantBound(rate: real, start: Time, calls: seq<Time>, lo: nat, hi: nat)
    requires rate >= 0.0 && InOrder(start, calls) && lo < hi <= |calls|
    ensures GrantCount(rate, start, calls, lo, hi) as real <= 2.0 * rate + Earned(rate, calls[lo], calls[hi - 1])
  {
    TokensInRange(rate, start, calls, hi);
    TokenBalance(rate, start, calls, lo, hi);
  }

  // A bucket too small for one token never grants; any other grants the first call.
  lemma EverGrants(rate: real, start: Time, calls: seq<Time>)
    requires rate >= 0.0 && InOrder(start, calls) && |calls| > 0
    ensures 2.0 * rate < 1.0 <==> forall k :: 0 <= k < |calls| ==> !Granted(rate, start, calls, k)
  {
    hide Earned;
    EarnedNotNegative(rate, start, calls[0]);
    assert Granted(rate, start, calls, 0) <==> 2.0 * rate >= 1.0 by {
      assert After(rate, start, calls, 0) == Bucket(2.0 * rate, start);
    }
  }

  // A call is granted when the time since the one before is worth a token.
  lemma GrantedAfterPause(rate: real, start: Time, calls: seq<Time>, k: nat)
    requires rate >= 0.0 && InOrder(start, calls) && 0 < k < |calls|
    requires 2.0 * rate >= 1.0 && Earned(rate, calls[k - 1], calls[k]) >= 1.0
    ensures Granted(rate, start, calls, k)
  {
    hide Earned;
    TokensInRange(rate, start, calls, k);
  }

  // The tokens there are for call k, before it is granted or refused.
  function TokensFor(rate: real, start: Time, calls: seq<Time>, k: nat): real
    requires k < |calls|
  {
    Refilled(rate, After(rate, start, calls, k), calls[k])
  }

  // They are what the tightest stretch of calls leaves: a full bucket and the time
  // from call m to call k, less the grants between. From some call on the bucket has
  // not been full again, and there it is no less.
  lemma {:induction false} TokensExact(rate: real, start: Time, calls: seq<Time>, k: nat) returns (full: nat)
    requires rate >= 0.0 && InOrder(start, calls) && k < |calls|
    ensures full <= k
    ensures TokensFor(rate, start, calls, k) + GrantCount(rate, start, calls, full, k) as real ==
            2.0 * rate + Earned(rate, calls[full], calls[k])
    ensures forall m: nat :: m <= k ==>
              TokensFor(rate, start, calls, k) + GrantCount(rate, start, calls, m, k) as real <=
              2.0 * rate + Earned(rate, calls[m], calls[k])
  {
    hide Earned;
    EarnedNotNegative(rate, calls[k], calls[k]);
    EarnedNothing(rate, calls[k]);
    if k == 0 {
      full := 0;
      EarnedNotNegative(rate, start, calls[0]);
    } else {
      full := TokensExact(rate, start, calls, k - 1);
      TokensInRange(rate, start, calls, k);
      forall m: nat | m < k
        ensures Earned(rate, calls[m], calls[k]) ==
                Earned(rate, calls[m], calls[k - 1]) + Earned(rate, calls[k - 1], calls[k])
      {
        EarnedAdds(rate, calls[m], calls[k - 1], calls[k]);
      }
      if TokensFor(rate, start, calls, k) == 2.0 * rate {
        full := k;
      }
    }
  }

  lemma EarnedNothing(rate: real, t: Time)
    ensures Earned(rate, t, t) == 0.0
  {
  }

  // With one grant more for call k, calls m to k stay within a full bucket and the
  // rate over the time between them.
  ghost predicate Affords(rate: real, start: Time, calls: seq<Time>, m: nat, k: nat)
    requires m <= k < |calls|
  {
    GrantCount(rate, start, calls, m, k) as real + 1.0 <=
    2.0 * rate + (calls[k] - calls[m]) as real / 1000000000.0 * rate
  }

  lemma AffordsEarned(rate: real, start: Time, calls: seq<Time>, m: nat, k: nat)
    requires m <= k < |calls|
    ensures Affords(rate, start, calls, m, k) <==>
              GrantCount(rate, start, calls, m, k) as real + 1.0 <= 2.0 * rate + Earned(rate, calls[m], calls[k])
  {
    hide GrantCount;
    assert Earned(rate, calls[m], calls[k]) == (calls[k] - calls[m]) as real / 1000000000.0 * rate;
  }

  // A call is granted if and only if every stretch of calls that ends with it can
  // afford the grant.
  lemma GrantedIff(rate: real, start: Time, calls: seq<Time>, k: nat)
    requires rate >= 0.0 && InOrder(start, calls) && k < |calls|
    ensures Granted(rate, start, calls, k) <==> forall m: nat :: m <= k ==> Affords(rate, start, calls, m, k)
  {
    var full := TokensExact(rate, start, calls, k);
    assert Granted(rate, start, calls, k) <==> TokensFor(rate, start, calls, k) >= 1.0;
    hide Earned, GrantCount, After, Affords, Granted, TokensFor;
    AffordsEarned(rate, start, calls, full, k);
    forall m: nat | m <= k && Granted(rate, start, calls, k) ensures Affords(rate, start, calls, m, k) {
      AffordsEarned(rate, start, calls, m, k);
    }
  }

  lemma {:induction false} AllCounted(rate: real, start: Time, calls: seq<Time>, m: nat, k: nat)
    requires m <= k <= |calls|
    ensures GrantCount(rate, start, calls, m, k) <= k - m
    ensures (forall j :: m <= j < k ==> Granted(rate, start, calls, j)) ==>
              GrantCount(rate, start, calls, m, k) == k - m
    decreases k
  {
    if m < k {
      AllCounted(rate, start, calls, m, k - 1);
    }
  }

  // So the first n calls, if they come at one instant, are all granted if and only if
  // a full bucket has a token for each.
  lemma BurstIff(rate: real, start: Time, calls: seq<Time>, n: nat)
    requires rate >= 0.0 && InOrder(start, calls) && n <= |calls|
    requires forall k :: 0 <= k < n ==> calls[k] == calls[0]
    ensures (forall k :: 0 <= k < n ==> Granted(rate, start, calls, k)) <==> n as real <= 2.0 * rate
  {
    hide Granted, GrantCount, Affords;
    if n as real <= 2.0 * rate {
      forall k | 0 <= k < n ensures Granted(rate, start, calls, k) {
        GrantedIff(rate, start, calls, k);
        forall m: nat | m <= k ensures Affords(rate, start, calls, m, k) {
          AllCounted(rate, start, calls, m, k);
          AffordsAtOnce(rate, start, calls, m, k);
        }
      }
    } else if forall k :: 0 <= k < n ==> Granted(rate, start, calls, k) {
      GrantedIff(rate, start, calls, n - 1);
      AllCounted(rate, start, calls, 0, n - 1);
      assert Affords(rate, start, calls, 0, n - 1);
      AffordsAtOnce(rate, start, calls, 0, n - 1);
    }
  }

  lemma AffordsAtOnce(rate: real, start: Time, calls: seq<Time>, m: nat, k: nat)
    requires m <= k < |calls| && calls[m] == calls[k]
    ensures Affords(rate, start, calls, m, k) <==> GrantCount(rate, start, calls, m, k) as real + 1.0 <= 2.0 * rate
  {
    hide GrantCount;
    AffordsEarned(rate, start, calls, m, k);
    EarnedNothing(rate, calls[k]);
  }
}
