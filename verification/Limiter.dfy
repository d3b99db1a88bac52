/** The per-connection token bucket of bin/yip-rendezvous/src/conn_tunnel.rs, over real numbers (no rounding). */
module Limiter {
  import opened Prelude

  datatype Bucket = Bucket(capacity: real, tokens: real, rate: real, last: real)

  predicate Valid(b: Bucket) {
    0.0 <= b.tokens <= b.capacity && 0.0 <= b.rate
  }

  function New(capacity: real, rate: real, now: real): Bucket {
    Bucket(capacity, capacity, rate, now)
  }

  /** Tokens earned over a span of time. */
  function Earned(rate: real, from: real, to: real): real {
    rate * (to - from)
  }

  /** Tokens at `now`, before any are spent; a clock behind `last` adds nothing. */
  function Refilled(b: Bucket, now: real): real {
    var elapsed := if now >= b.last then now - b.last else 0.0;
    if b.tokens + elapsed * b.rate <= b.capacity then b.tokens + elapsed * b.rate else b.capacity
  }

  function Acquire(b: Bucket, cost: real, now: real): (Bucket, bool) {
    var tokens := Refilled(b, now);
    if tokens >= cost then (b.(tokens := tokens - cost, last := now), true) else (b.(tokens := tokens, last := now), false)
  }

  class FrameRateLimiter {
    const capacity: real
    const rate: real
    var tokens: real
    var last: real

    function Abs(): Bucket
      reads this
    {
      Bucket(capacity, tokens, rate, last)
    }

    constructor (capacity: real, rate: real, now: real)
      ensures Abs() == New(capacity, rate, now)
    {
      this.capacity, this.rate, tokens, last := capacity, rate, capacity, now;
    }

    method AcquireTokens(cost: real, now: real) returns (granted: bool)
      modifies this
      ensures (Abs(), granted) == Acquire(old(Abs()), cost, now)
    {
      var elapsed := if now >= last then now - last else 0.0;
      last := now;
      tokens := tokens + elapsed * rate;
      if tokens > capacity {
        tokens := capacity;
      }
      if tokens >= cost {
        tokens := tokens - cost;
        return true;
      }
      return false;
    }
  }

  // ---- Runs of unit-cost frames ----------------------------------------------------------------------------------

  function Run(b: Bucket, times: seq<real>): Bucket {
    if times == [] then b else Acquire(Run(b, times[..|times| - 1]), 1.0, times[|times| - 1]).0
  }

  predicate Grants(b: Bucket, times: seq<real>, k: nat)
    requires k < |times|
  {
    Acquire(Run(b, times[..k]), 1.0, times[k]).1
  }

  /** Frames let through among those from number `i` on. */
  function Granted(b: Bucket, times: seq<real>, i: nat): nat
    requires i <= |times|
    decreases times
  {
    if i == |times| then 0
    else Granted(b, times[..|times| - 1], i) + if Grants(b, times, |times| - 1) then 1 else 0
  }

  predicate InOrder(b: Bucket, times: seq<real>) {
    && (forall i :: 0 <= i < |times| ==> b.last <= times[i])
    && (forall i, j :: 0 <= i < j < |times| ==> times[i] <= times[j])
  }

  lemma RefillIsBounded(b: Bucket, now: real)
    requires Valid(b) && b.last <= now
    ensures 0.0 <= Refilled(b, now) <= b.capacity
    ensures Refilled(b, now) <= b.tokens + Earned(b.rate, b.last, now)
  {
    assert (now - b.last) * b.rate >= 0.0;
  }

  lemma {:induction false} RunStaysValid(b: Bucket, times: seq<real>)
    requires Valid(b) && InOrder(b, times)
    ensures var r := Run(b, times);
            Valid(r) && r.capacity == b.capacity && r.rate == b.rate && r.last == if times == [] then b.last else times[|times| - 1]
  {
    if times != [] {
      RunStaysValid(b, times[..|times| - 1]);
      RefillIsBounded(Run(b, times[..|times| - 1]), times[|times| - 1]);
    }
  }

  lemma AddSpans(rate: real, a: real, b: real, c: real)
    ensures Earned(rate, a, a) == 0.0
    ensures Earned(rate, a, b) + Earned(rate, b, c) == Earned(rate, a, c)
  {
  }

  /** One call keeps the account: what was granted plus what is left is covered by the capacity and the refills since `from`. */
  lemma CallIsPaidFor(r: Bucket, now: real, from: real, granted: real)
    requires Valid(r) && r.last <= now
    requires granted + r.tokens <= r.capacity + Earned(r.rate, from, r.last)
    ensures var (r', g) := Acquire(r, 1.0, now);
            granted + (if g then 1.0 else 0.0) + r'.tokens <= r.capacity + Earned(r.rate, from, now)
  {
    RefillIsBounded(r, now);
    AddSpans(r.rate, from, r.last, now);
  }

  lemma FirstCallIsPaidFor(r: Bucket, now: real)
    requires Valid(r) && r.last <= now
    ensures var (r', g) := Acquire(r, 1.0, now); (if g then 1.0 else 0.0) + r'.tokens <= r.capacity
  {
    RefillIsBounded(r, now);
  }

  lemma {:induction false} GrantsArePaidFor(b: Bucket, times: seq<real>, i: nat)
    requires Valid(b) && InOrder(b, times) && i < |times|
    ensures Granted(b, times, i) as real + Run(b, times).tokens <= b.capacity + Earned(b.rate, times[i], times[|times| - 1])
    decreases times
  {
    hide Refilled, Earned;
    var before, now := times[..|times| - 1], times[|times| - 1];
    RunStaysValid(b, before);
    if i == |times| - 1 {
      FirstCallIsPaidFor(Run(b, before), now);
      AddSpans(b.rate, now, now, now);
      assert Granted(b, before, i) == 0;
    } else {
      GrantsArePaidFor(b, before, i);
      CallIsPaidFor(Run(b, before), now, times[i], Granted(b, before, i) as real);
    }
  }

  /** Rate bound: in any window of a run, the frames let through number at most capacity plus rate times its length. */
  lemma WindowIsRateLimited(b: Bucket, times: seq<real>, i: nat)
    requires Valid(b) && InOrder(b, times) && i < |times|
    ensures Granted(b, times, i) as real <= b.capacity + Earned(b.rate, times[i], times[|times| - 1])
  {
    GrantsArePaidFor(b, times, i);
    RunStaysValid(b, times);
  }

  predicate EarnsOne(rate: real, from: real, to: real) {
    Earned(rate, from, to) >= 1.0
  }

  lemma FullBucketGrants(r: Bucket, now: real)
    requires Valid(r) && r.capacity >= 1.0 && r.last <= now
    requires r.tokens == r.capacity || (r.tokens == r.capacity - 1.0 && EarnsOne(r.rate, r.last, now))
    ensures Acquire(r, 1.0, now).1 && Acquire(r, 1.0, now).0.tokens == r.capacity - 1.0
  {
    assert (now - r.last) * r.rate == r.rate * (now - r.last) >= 0.0;
  }

  /** Conversely, a sender that keeps its frames `1 / rate` apart is never throttled. */
  lemma {:induction false} PacedSenderIsNeverThrottled(b: Bucket, times: seq<real>)
    requires Valid(b) && b.tokens == b.capacity >= 1.0 && InOrder(b, times) && times != []
    requires forall k :: 0 < k < |times| ==> EarnsOne(b.rate, times[k - 1], times[k])
    ensures Granted(b, times, 0) == |times| && Run(b, times).tokens == b.capacity - 1.0
    decreases times
  {
    hide Refilled, EarnsOne;
    var before, now := times[..|times| - 1], times[|times| - 1];
    RunStaysValid(b, before);
    if before == [] {
      assert Granted(b, before, 0) == 0;
    } else {
      PacedSenderIsNeverThrottled(b, before);
      assert EarnsOne(b.rate, times[|times| - 2], now);
    }
    FullBucketGrants(Run(b, before), now);
  }

  // ---- Exactly which frames are refused --------------------------------------------------------------------------

  /** What the window that opens with frame `i` still allows when frame `k` comes: capacity and refill, less the grants. */
  function Allowance(b: Bucket, times: seq<real>, i: nat, k: nat): real
    requires i <= k < |times|
  {
    b.capacity + Earned(b.rate, times[i], times[k]) - Granted(b, times[..k], i) as real
  }

  /** The tokens at frame `k`, before it takes one. */
  function TokensAt(b: Bucket, times: seq<real>, k: nat): real
    requires k < |times|
  {
    Refilled(Run(b, times[..k]), times[k])
  }

  /** Going from one frame to the next moves every allowance by the same amount: the refill, less the frame just granted. */
  lemma {:induction false} AllowanceMoves(b: Bucket, times: seq<real>, i: nat, k: nat)
    requires i <= k && k + 1 < |times|
    ensures Allowance(b, times, i, k + 1) ==
            Allowance(b, times, i, k) + Earned(b.rate, times[k], times[k + 1]) - if Grants(b, times, k) then 1.0 else 0.0
  {
    AddSpans(b.rate, times[i], times[k], times[k + 1]);
    assert times[..k + 1][..k] == times[..k] && times[..k + 1][k] == times[k];
    hide Run, Earned, Acquire;
  }

  lemma RefillEarns(r: Bucket, now: real)
    requires r.last <= now
    ensures
      var t := r.tokens + Earned(r.rate, r.last, now);
      Refilled(r, now) == if t <= r.capacity then t else r.capacity
  {
    assert (now - r.last) * r.rate == r.rate * (now - r.last);
  }

  lemma NextRefill(r: Bucket, now: real, later: real)
    requires now <= later
    ensures
      var (r', granted) := Acquire(r, 1.0, now);
      var t := Refilled(r, now) + Earned(r.rate, now, later) - if granted then 1.0 else 0.0;
      Refilled(r', later) == if t <= r.capacity then t else r.capacity
  {
    RefillEarns(Acquire(r, 1.0, now).0, later);
    hide Refilled, Earned;
  }

  lemma {:induction false} TokensMove(b: Bucket, times: seq<real>, k: nat)
    requires Valid(b) && InOrder(b, times) && k + 1 < |times|
    ensures
      var refilled := TokensAt(b, times, k) + Earned(b.rate, times[k], times[k + 1]) - if Grants(b, times, k) then 1.0 else 0.0;
      TokensAt(b, times, k + 1) == if refilled <= b.capacity then refilled else b.capacity
  {
    var r := Run(b, times[..k]);
    RunStaysValid(b, times[..k]);
    assert times[..k + 1][..k] == times[..k] && times[..k + 1][k] == times[k];
    assert Run(b, times[..k + 1]) == Acquire(r, 1.0, times[k]).0;
    NextRefill(r, times[k], times[k + 1]);
    hide Run, Refilled, Acquire, Earned;
  }

  lemma {:induction false} FirstTokens(b: Bucket, times: seq<real>)
    requires Valid(b) && b.tokens == b.capacity && InOrder(b, times) && times != []
    ensures TokensAt(b, times, 0) == b.capacity
  {
    RefillIsBounded(b, times[0]);
    assert (times[0] - b.last) * b.rate >= 0.0;
    assert times[..0] == [];
  }

  lemma {:induction false} OwnAllowance(b: Bucket, times: seq<real>, k: nat)
    requires k < |times|
    ensures Allowance(b, times, k, k) == b.capacity
  {
    AddSpans(b.rate, times[k], times[k], times[k]);
    assert |times[..k]| == k;
    hide Earned;
  }

  /** A bucket that starts full holds, at every frame, the least of the allowances of all windows that end there. */
  lemma {:induction false} TokensAreLeastAllowance(b: Bucket, times: seq<real>, k: nat)
    requires Valid(b) && b.tokens == b.capacity && InOrder(b, times) && k < |times|
    ensures forall i :: 0 <= i <= k ==> TokensAt(b, times, k) <= Allowance(b, times, i, k)
    ensures exists i :: 0 <= i <= k && TokensAt(b, times, k) == Allowance(b, times, i, k)
  {
    OwnAllowance(b, times, k);
    if k == 0 {
      FirstTokens(b, times);
      assert TokensAt(b, times, 0) == Allowance(b, times, 0, 0);
    } else {
      hide TokensAt, Allowance, Grants, Valid, InOrder, Earned;
      TokensAreLeastAllowance(b, times, k - 1);
      TokensMove(b, times, k - 1);
      forall i | 0 <= i < k
        ensures Allowance(b, times, i, k) ==
                Allowance(b, times, i, k - 1) + Earned(b.rate, times[k - 1], times[k]) - if Grants(b, times, k - 1) then 1.0 else 0.0
        ensures TokensAt(b, times, k) <= Allowance(b, times, i, k)
      {
        AllowanceMoves(b, times, i, k - 1);
      }
      var i :| 0 <= i <= k - 1 && TokensAt(b, times, k - 1) == Allowance(b, times, i, k - 1);
      AllowanceMoves(b, times, i, k - 1);
      assert TokensAt(b, times, k) == Allowance(b, times, i, k) || TokensAt(b, times, k) == Allowance(b, times, k, k);
    }
  }

  /** The frame would take the window from frame `i` on over capacity plus rate times its length. */
  predicate OverLimit(b: Bucket, times: seq<real>, i: nat, k: nat)
    requires i <= k < |times|
  {
    Granted(b, times[..k], i) as real + 1.0 > b.capacity + Earned(b.rate, times[i], times[k])
  }

  /** The exact law: from a full bucket, a frame is refused iff granting it would take some window over its limit. */
  lemma {:induction false} RefusedIffOverLimit(b: Bucket, times: seq<real>, k: nat)
    requires Valid(b) && b.tokens == b.capacity && InOrder(b, times) && k < |times|
    ensures !Grants(b, times, k) <==> exists i :: 0 <= i <= k && OverLimit(b, times, i, k)
  {
    TokensAreLeastAllowance(b, times, k);
    assert Grants(b, times, k) <==> TokensAt(b, times, k) >= 1.0;
    assert forall i :: 0 <= i <= k ==> (OverLimit(b, times, i, k) <==> Allowance(b, times, i, k) < 1.0);
    hide Grants, TokensAt, Allowance, OverLimit;
  }

  lemma {:induction false} GrantedAtMost(b: Bucket, times: seq<real>, i: nat)
    requires i <= |times|
    ensures Granted(b, times, i) <= |times| - i
    decreases times
  {
    hide Grants;
    if i < |times| {
      GrantedAtMost(b, times[..|times| - 1], i);
    }
  }

  /** A burst of up to `capacity` frames passes whole. */
  lemma {:induction false} BurstIsGranted(b: Bucket, times: seq<real>, k: nat)
    requires Valid(b) && b.tokens == b.capacity && InOrder(b, times) && |times| as real <= b.capacity && k < |times|
    ensures Grants(b, times, k)
  {
    RefusedIffOverLimit(b, times, k);
    forall i | 0 <= i <= k
      ensures !OverLimit(b, times, i, k)
    {
      GrantedAtMost(b, times[..k], i);
      EarnedIsPositive(b.rate, times[i], times[k]);
      hide Earned;
    }
  }

  lemma EarnedIsPositive(rate: real, from: real, to: real)
    requires rate >= 0.0 && from <= to
    ensures Earned(rate, from, to) >= 0.0
  {
  }

  /** A clock that steps back earns nothing, and time counts from its new reading. */
  lemma StepBackEarnsNothing(b: Bucket, cost: real, now: real)
    requires Valid(b) && now < b.last
    ensures Acquire(b, cost, now).1 <==> b.tokens >= cost
    ensures Acquire(b, cost, now).0 == b.(tokens := if b.tokens >= cost then b.tokens - cost else b.tokens, last := now)
  {
  }
}
