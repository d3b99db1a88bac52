/**
 The anti-replay guard of bin/yip-rendezvous/src/reality_replay.rs: sixteen lock shards, each a ring of 21 minute
 buckets. The specification it is held to is the plain history of accepted seals.
 */
module Replay {
  import opened Prelude

  const Window: nat := 20
  const Ring: nat := 21
  const Shards: nat := 16
  /** The minute no bucket can really have. */
  const Never: nat := U64_MAX

  type Seal = s: Bytes | |s| == 32 witness seq(32, _ => 0)

  datatype Bucket = Bucket(minute: nat, seals: set<Seal>)
  datatype Verdict = Fresh | Replayed
  datatype Guard = Guard(startMin: nat, maxBucket: nat, shards: seq<seq<Bucket>>, overflow: nat)

  predicate ShapedShards(shards: seq<seq<Bucket>>) {
    |shards| == Shards && forall i :: 0 <= i < Shards ==> |shards[i]| == Ring
  }

  predicate Shaped(g: Guard) {
    ShapedShards(g.shards)
  }

  function New(startMin: nat, maxBucket: nat): (g: Guard)
    ensures Shaped(g)
  {
    Guard(startMin, maxBucket, seq(Shards, _ => seq(Ring, _ => Bucket(Never, {}))), 0)
  }

  /** `seal[0] & (SHARDS - 1)`; the shard count is a power of two. */
  function ShardOf(seal: Seal): (i: nat)
    ensures i < Shards
  {
    seal[0] % 16
  }

  function SlotOf(minute: nat): (j: nat)
    ensures j < Ring
  {
    minute % 21
  }

  function Rotate(ring: seq<Bucket>, now: nat): seq<Bucket>
    requires |ring| == Ring
  {
    if ring[SlotOf(now)].minute != now then ring[SlotOf(now) := Bucket(now, {})] else ring
  }

  predicate Remembers(b: Bucket, seal: Seal, now: nat) {
    b.minute != Never && SatSub(now, b.minute) <= Window && seal in b.seals
  }

  predicate Seen(ring: seq<Bucket>, seal: Seal, now: nat) {
    exists j :: 0 <= j < |ring| && Remembers(ring[j], seal, now)
  }

  datatype Call = Call(seal: Seal, ts: nat, now: nat)

  function Verdicts(g: Guard, c: Call): Verdict
    requires Shaped(g)
  {
    var ring := Rotate(g.shards[ShardOf(c.seal)], c.now);
    if c.ts < g.startMin || Seen(ring, c.seal, c.now) || |ring[SlotOf(c.now)].seals| >= g.maxBucket
    then Replayed else Fresh
  }

  /** `fetch_add(1)` on 64 bits. */
  function Next(n: nat): nat {
    (n + 1) % (U64_MAX + 1)
  }

  /** The current bucket, with the seal put in. */
  function Inserted(ring: seq<Bucket>, c: Call): seq<Bucket>
    requires |ring| == Ring
  {
    var b := ring[SlotOf(c.now)];
    ring[SlotOf(c.now) := b.(seals := b.seals + {c.seal})]
  }

  function RingAfter(ring: seq<Bucket>, c: Call, verdict: Verdict): seq<Bucket>
    requires |ring| == Ring
  {
    if verdict == Fresh then Inserted(Rotate(ring, c.now), c) else Rotate(ring, c.now)
  }

  function Check(g: Guard, c: Call): (g': Guard)
    requires Shaped(g)
    ensures Shaped(g')
  {
    if c.ts < g.startMin then g else
      var i := ShardOf(c.seal);
      var rotated := Rotate(g.shards[i], c.now);
      g.(shards := g.shards[i := RingAfter(g.shards[i], c, Verdicts(g, c))],
         overflow := if !Seen(rotated, c.seal, c.now) && |rotated[SlotOf(c.now)].seals| >= g.maxBucket
                     then Next(g.overflow) else g.overflow)
  }

  class ReplayGuard {
    const startMin: nat
    const maxBucket: nat
    const buckets: array2<Bucket>
    var overflow: nat

    predicate Valid()
    {
      buckets.Length0 == Shards && buckets.Length1 == Ring
    }

    function Row(i: nat): (ring: seq<Bucket>)
      requires Valid() && i < Shards
      reads buckets
    {
      seq(Ring, j requires 0 <= j < Ring reads buckets => buckets[i, j])
    }

    function Abs(): (g: Guard)
      requires Valid()
      reads this, buckets
      ensures Shaped(g)
    {
      Guard(startMin, maxBucket, seq(Shards, i requires 0 <= i < Shards reads buckets => Row(i)), overflow)
    }

    constructor (startMin: nat, maxBucket: nat)
      ensures Valid() && fresh(buckets)
      ensures Abs() == New(startMin, maxBucket)
    {
      this.startMin, this.maxBucket, overflow := startMin, maxBucket, 0;
      buckets := new Bucket[Shards, Ring]((_, _) => Bucket(Never, {}));
      new;
      assert forall i :: 0 <= i < Shards ==> Row(i) == New(startMin, maxBucket).shards[i];
    }

    /** One cell written, in terms of the rings. */
    method Put(i: nat, slot: nat, bucket: Bucket)
      requires Valid() && i < Shards && slot < Ring
      modifies buckets
      ensures Abs() == old(Abs()).(shards := old(Abs()).shards[i := old(Row(i))[slot := bucket]])
    {
      buckets[i, slot] := bucket;
      forall k | 0 <= k < Shards
        ensures Row(k) == if k == i then old(Row(i))[slot := bucket] else old(Row(k))
      {
        assert forall j :: 0 <= j < Ring ==> Row(k)[j] == buckets[k, j] && old(Row(k))[j] == old(buckets[k, j]);
      }
    }

    method CheckSeal(seal: Seal, ts: nat, now: nat) returns (verdict: Verdict)
      requires Valid()
      modifies this, buckets
      ensures verdict == Verdicts(old(Abs()), Call(seal, ts, now))
      ensures Abs() == Check(old(Abs()), Call(seal, ts, now))
    {
      if ts < startMin {
        return Replayed;
      }
      ghost var before := Abs();
      var i, slot := ShardOf(seal), SlotOf(now);
      assert before.shards[i] == Row(i) && Row(i)[slot] == buckets[i, slot];
      if buckets[i, slot].minute != now {
        Put(i, slot, Bucket(now, {}));
      }
      ghost var ring := Rotate(before.shards[i], now);
      assert Abs() == before.(shards := before.shards[i := ring]);
      assert Row(i) == Abs().shards[i] == ring;
      for j := 0 to Ring
        invariant forall k :: 0 <= k < j ==> !Remembers(ring[k], seal, now)
      {
        assert Row(i)[j] == buckets[i, j];
        if Remembers(buckets[i, j], seal, now) {
          return Replayed;
        }
      }
      var bucket := buckets[i, slot];
      assert Row(i)[slot] == bucket;
      if |bucket.seals| >= maxBucket {
        label count:
        overflow := (overflow + 1) % (U64_MAX + 1);
        assert Abs().shards == old@count(Abs()).shards;
        return Replayed;
      }
      Put(i, slot, bucket.(seals := bucket.seals + {seal}));
      return Fresh;
    }
  }

  // ---- The history it stands for ---------------------------------------------------------------------------------

  function Run(startMin: nat, maxBucket: nat, cs: seq<Call>): (g: Guard)
    ensures Shaped(g) && g.startMin == startMin && g.maxBucket == maxBucket
  {
    if cs == [] then New(startMin, maxBucket) else Check(Run(startMin, maxBucket, cs[..|cs| - 1]), cs[|cs| - 1])
  }

  /** One acceptance: which seal, at which arrival minute. */
  datatype Entry = Entry(seal: Seal, minute: nat)

  function Accepted(startMin: nat, maxBucket: nat, cs: seq<Call>): set<Entry> {
    if cs == [] then {} else
      var before, c := cs[..|cs| - 1], cs[|cs| - 1];
      Accepted(startMin, maxBucket, before) +
      if Verdicts(Run(startMin, maxBucket, before), c) == Fresh then {Entry(c.seal, c.now)} else {}
  }

  /** Call `k` was answered `Fresh`, and is the acceptance `e`. */
  predicate AcceptedBy(startMin: nat, maxBucket: nat, cs: seq<Call>, k: nat, e: Entry)
    requires k < |cs|
  {
    cs[k].seal == e.seal && cs[k].now == e.minute && Verdicts(Run(startMin, maxBucket, cs[..k]), cs[k]) == Fresh
  }

  /** The history holds nothing else: an entry is there because some call was answered `Fresh`. */
  lemma {:induction false} AcceptedIffFresh(startMin: nat, maxBucket: nat, cs: seq<Call>, e: Entry)
    ensures e in Accepted(startMin, maxBucket, cs) <==> exists k :: 0 <= k < |cs| && AcceptedBy(startMin, maxBucket, cs, k, e)
  {
    if cs != [] {
      var before := cs[..|cs| - 1];
      forall k | 0 <= k < |before|
        ensures AcceptedBy(startMin, maxBucket, before, k, e) <==> AcceptedBy(startMin, maxBucket, cs, k, e)
      {
        assert before[..k] == cs[..k];
      }
      AcceptedIffFresh(startMin, maxBucket, before, e);
      assert e in Accepted(startMin, maxBucket, cs) <==>
        e in Accepted(startMin, maxBucket, before) || AcceptedBy(startMin, maxBucket, cs, |cs| - 1, e);
      hide AcceptedBy, Accepted;
    }
  }

  predicate Monotone(cs: seq<Call>) {
    && (forall i :: 0 <= i < |cs| ==> cs[i].now < Never)
    && (forall i, j :: 0 <= i < j < |cs| ==> cs[i].now <= cs[j].now)
  }

  /** Minute `m` lives only in slot `m mod 21`, and its bucket holds exactly the seals accepted then in that shard. */
  ghost predicate BucketAgrees(b: Bucket, i: nat, j: nat, history: set<Entry>, last: nat) {
    || (b.minute == Never && b.seals == {})
    || (b.minute <= last && SlotOf(b.minute) == j
        && forall s: Seal :: s in b.seals <==> ShardOf(s) == i && Entry(s, b.minute) in history)
  }

  ghost predicate Agrees(shards: seq<seq<Bucket>>, history: set<Entry>, last: nat)
    requires ShapedShards(shards)
  {
    && last < Never
    && (forall i, j :: 0 <= i < Shards && 0 <= j < Ring ==> BucketAgrees(shards[i][j], i, j, history, last))
    && (forall e :: e in history ==> e.minute <= last)
    && (forall e :: e in history && last - e.minute <= Window ==>
          shards[ShardOf(e.seal)][SlotOf(e.minute)].minute == e.minute)
  }

  /** Time passing changes nothing that is still within the window. */
  lemma LaterAgrees(shards: seq<seq<Bucket>>, history: set<Entry>, last: nat, now: nat)
    requires ShapedShards(shards) && Agrees(shards, history, last) && last <= now < Never
    ensures Agrees(shards, history, now)
  {
  }

  /** Rotating the current slot never throws away a bucket that still matters. */
  lemma RotationAgrees(shards: seq<seq<Bucket>>, history: set<Entry>, i: nat, now: nat)
    requires ShapedShards(shards) && i < Shards && Agrees(shards, history, now)
    ensures Agrees(shards[i := Rotate(shards[i], now)], history, now)
  {
    var shards' := shards[i := Rotate(shards[i], now)];
    forall i', j | 0 <= i' < Shards && 0 <= j < Ring
      ensures BucketAgrees(shards'[i'][j], i', j, history, now)
    {
      assert BucketAgrees(shards[i'][j], i', j, history, now);
    }
    forall e | e in history && now - e.minute <= Window
      ensures shards'[ShardOf(e.seal)][SlotOf(e.minute)].minute == e.minute
    {
      assert shards[ShardOf(e.seal)][SlotOf(e.minute)].minute == e.minute;
    }
  }

  lemma InsertionAgrees(shards: seq<seq<Bucket>>, history: set<Entry>, c: Call)
    requires ShapedShards(shards) && Agrees(shards, history, c.now)
    requires shards[ShardOf(c.seal)][SlotOf(c.now)].minute == c.now
    ensures Agrees(shards[ShardOf(c.seal) := Inserted(shards[ShardOf(c.seal)], c)], history + {Entry(c.seal, c.now)}, c.now)
  {
    var i := ShardOf(c.seal);
    var shards' := shards[i := Inserted(shards[i], c)];
    forall i', j' | 0 <= i' < Shards && 0 <= j' < Ring
      ensures BucketAgrees(shards'[i'][j'], i', j', history + {Entry(c.seal, c.now)}, c.now)
    {
      assert BucketAgrees(shards[i'][j'], i', j', history, c.now);
    }
  }

  lemma CheckAgrees(g: Guard, history: set<Entry>, last: nat, c: Call)
    requires Shaped(g) && Agrees(g.shards, history, last) && last <= c.now < Never
    ensures Agrees(Check(g, c).shards, history + if Verdicts(g, c) == Fresh then {Entry(c.seal, c.now)} else {}, c.now)
  {
    var i := ShardOf(c.seal);
    var rotated := g.shards[i := Rotate(g.shards[i], c.now)];
    LaterAgrees(g.shards, history, last, c.now);
    RotationAgrees(g.shards, history, i, c.now);
    assert history + {} == history;
    if Verdicts(g, c) == Fresh {
      InsertionAgrees(rotated, history, c);
      assert rotated[i := Inserted(rotated[i], c)] == g.shards[i := Inserted(rotated[i], c)];
    }
    CheckedShards(g, c);
    hide Agrees, Check, Verdicts;
  }

  lemma CheckedShards(g: Guard, c: Call)
    requires Shaped(g)
    ensures
      var i := ShardOf(c.seal);
      var ring := Rotate(g.shards[i], c.now);
      Check(g, c).shards == if c.ts < g.startMin then g.shards
                            else g.shards[i := if Verdicts(g, c) == Fresh then Inserted(ring, c) else ring]
    ensures c.ts < g.startMin ==> Verdicts(g, c) == Replayed
  {
  }

  function LastMinute(cs: seq<Call>): nat {
    if cs == [] then 0 else cs[|cs| - 1].now
  }

  lemma {:induction false} RunAgrees(startMin: nat, maxBucket: nat, cs: seq<Call>)
    requires Monotone(cs)
    ensures Agrees(Run(startMin, maxBucket, cs).shards, Accepted(startMin, maxBucket, cs), LastMinute(cs))
  {
    if cs == [] {
      var g := New(startMin, maxBucket);
      assert forall i, j :: 0 <= i < Shards && 0 <= j < Ring ==> BucketAgrees(g.shards[i][j], i, j, {}, 0);
    } else {
      var before, c := cs[..|cs| - 1], cs[|cs| - 1];
      RunAgrees(startMin, maxBucket, before);
      CheckAgrees(Run(startMin, maxBucket, before), Accepted(startMin, maxBucket, before), LastMinute(before), c);
    }
  }

  /** The seals accepted in one shard in one minute. */
  function AcceptedAt(history: set<Entry>, shard: nat, minute: nat): set<Seal> {
    set e | e in history && e.minute == minute && ShardOf(e.seal) == shard :: e.seal
  }

  /** The seal was accepted at most 20 minutes ago. */
  ghost predicate InHistory(history: set<Entry>, c: Call) {
    exists e :: e in history && e.seal == c.seal && c.now - e.minute <= 20
  }

  /** The same question asked of the history alone. */
  ghost predicate HistoryRefuses(startMin: nat, maxBucket: nat, history: set<Entry>, c: Call) {
    || c.ts < startMin
    || InHistory(history, c)
    || |AcceptedAt(history, ShardOf(c.seal), c.now)| >= maxBucket
  }

  lemma SeenIffInHistory(shards: seq<seq<Bucket>>, history: set<Entry>, c: Call)
    requires ShapedShards(shards) && Agrees(shards, history, c.now)
    ensures Seen(shards[ShardOf(c.seal)], c.seal, c.now) <==> InHistory(history, c)
  {
    var ring := shards[ShardOf(c.seal)];
    if Seen(ring, c.seal, c.now) {
      var j :| 0 <= j < Ring && Remembers(ring[j], c.seal, c.now);
      assert BucketAgrees(ring[j], ShardOf(c.seal), j, history, c.now);
      assert Entry(c.seal, ring[j].minute) in history;
    }
    forall e | e in history && e.seal == c.seal && c.now - e.minute <= Window
      ensures Seen(ring, c.seal, c.now)
    {
      var b := ring[SlotOf(e.minute)];
      assert BucketAgrees(b, ShardOf(c.seal), SlotOf(e.minute), history, c.now);
      assert Remembers(b, c.seal, c.now);
    }
  }

  /** After any run under a clock that does not go back, the rotated ring says what the history says. */
  lemma RingIsHistory(startMin: nat, maxBucket: nat, cs: seq<Call>, c: Call)
    requires Monotone(cs + [c])
    ensures
      var history := Accepted(startMin, maxBucket, cs);
      var ring := Rotate(Run(startMin, maxBucket, cs).shards[ShardOf(c.seal)], c.now);
      && (Seen(ring, c.seal, c.now) <==> InHistory(history, c))
      && ring[SlotOf(c.now)].seals == AcceptedAt(history, ShardOf(c.seal), c.now)
  {
    var g, history := Run(startMin, maxBucket, cs), Accepted(startMin, maxBucket, cs);
    assert forall i :: 0 <= i < |cs| ==> (cs + [c])[i] == cs[i];
    assert (cs + [c])[|cs|] == c;
    RunAgrees(startMin, maxBucket, cs);
    LaterAgrees(g.shards, history, LastMinute(cs), c.now);
    var i, j := ShardOf(c.seal), SlotOf(c.now);
    RotationAgrees(g.shards, history, i, c.now);
    var rotated := g.shards[i := Rotate(g.shards[i], c.now)];
    SeenIffInHistory(rotated, history, c);
    assert BucketAgrees(rotated[i][j], i, j, history, c.now);
    assert rotated[i][j].seals == AcceptedAt(history, i, c.now);
  }

  /** Refinement: the ring refuses exactly what the history refuses. */
  lemma RingRefinesHistory(startMin: nat, maxBucket: nat, cs: seq<Call>, c: Call)
    requires Monotone(cs + [c])
    ensures Verdicts(Run(startMin, maxBucket, cs), c) == Replayed <==>
            HistoryRefuses(startMin, maxBucket, Accepted(startMin, maxBucket, cs), c)
  {
    RingIsHistory(startMin, maxBucket, cs, c);
    hide Run, Accepted, Rotate, Seen, InHistory, AcceptedAt;
  }

  /** The call is refused for no reason but a full bucket. */
  ghost predicate OnlyFull(startMin: nat, maxBucket: nat, history: set<Entry>, c: Call) {
    c.ts >= startMin && !InHistory(history, c) && |AcceptedAt(history, ShardOf(c.seal), c.now)| >= maxBucket
  }

  /** How many such calls a run holds, modulo 2^64. */
  ghost function Overflowed(startMin: nat, maxBucket: nat, cs: seq<Call>): nat {
    if cs == [] then 0 else
      var before := cs[..|cs| - 1];
      var n := Overflowed(startMin, maxBucket, before);
      if OnlyFull(startMin, maxBucket, Accepted(startMin, maxBucket, before), cs[|cs| - 1]) then Next(n) else n
  }

  lemma MonotonePrefix(cs: seq<Call>)
    requires Monotone(cs) && cs != []
    ensures Monotone(cs[..|cs| - 1]) && cs == cs[..|cs| - 1] + [cs[|cs| - 1]]
  {
  }

  /** `overflow` counts, modulo 2^64, the calls that were refused only because their bucket was full. */
  lemma {:induction false} OverflowCountsFullBuckets(startMin: nat, maxBucket: nat, cs: seq<Call>)
    requires Monotone(cs)
    ensures Run(startMin, maxBucket, cs).overflow == Overflowed(startMin, maxBucket, cs)
  {
    if cs != [] {
      var before, c := cs[..|cs| - 1], cs[|cs| - 1];
      hide Monotone, Accepted, Check, OnlyFull, Next;
      MonotonePrefix(cs);
      OverflowCountsFullBuckets(startMin, maxBucket, before);
      OverflowStep(startMin, maxBucket, before, c);
    }
  }

  lemma {:induction false} OverflowStep(startMin: nat, maxBucket: nat, cs: seq<Call>, c: Call)
    requires Monotone(cs + [c])
    ensures
      var g := Run(startMin, maxBucket, cs);
      Check(g, c).overflow ==
      if OnlyFull(startMin, maxBucket, Accepted(startMin, maxBucket, cs), c) then Next(g.overflow) else g.overflow
  {
    RingIsHistory(startMin, maxBucket, cs, c);
    OverflowAfter(Run(startMin, maxBucket, cs), c);
    hide Monotone, Accepted, Check, Rotate, Seen, InHistory, AcceptedAt;
  }

  lemma OverflowAfter(g: Guard, c: Call)
    requires Shaped(g)
    ensures
      var ring := Rotate(g.shards[ShardOf(c.seal)], c.now);
      Check(g, c).overflow ==
      if c.ts >= g.startMin && !Seen(ring, c.seal, c.now) && |ring[SlotOf(c.now)].seals| >= g.maxBucket
      then Next(g.overflow) else g.overflow
  {
  }

  /** The shard is the seal's first byte under the mask `SHARDS - 1`. */
  lemma {:induction false} ShardIsMasked(seal: Seal)
    ensures ShardOf(seal) == And(seal[0], 15)
  {
    var b := seal[0];
    var b1 := b / 2;
    var b2 := b1 / 2;
    var b3 := b2 / 2;
    AndBit(b3, 0);
    AndBit(b2, 1);
    AndBit(b1, 3);
    AndBit(b, 7);
    assert And(b3 / 2, 0) == 0;
    hide And;
    var low := b % 2 + 2 * (b1 % 2) + 4 * (b2 % 2) + 8 * (b3 % 2);
    assert b == 16 * (b3 / 2) + low;
  }

  lemma {:induction false} AndBit(a: nat, half: nat)
    ensures And(a, 2 * half + 1) == a % 2 + 2 * And(a / 2, half)
  {
    assert (2 * half + 1) % 2 == 1 && (2 * half + 1) / 2 == half;
  }

  predicate Bounded(ring: seq<Bucket>, maxBucket: nat) {
    forall j :: 0 <= j < |ring| ==> |ring[j].seals| <= maxBucket
  }

  /** No bucket ever holds more than `max_bucket` seals, whatever the clock does. */
  lemma {:induction false} BucketsStayBounded(startMin: nat, maxBucket: nat, cs: seq<Call>)
    ensures forall i :: 0 <= i < Shards ==> Bounded(Run(startMin, maxBucket, cs).shards[i], maxBucket)
  {
    if cs != [] {
      BucketsStayBounded(startMin, maxBucket, cs[..|cs| - 1]);
      var before, c := Run(startMin, maxBucket, cs[..|cs| - 1]), cs[|cs| - 1];
      var ring := before.shards[ShardOf(c.seal)];
      assert Bounded(ring, maxBucket);
      assert c.ts >= startMin ==> Bounded(RingAfter(ring, c, Verdicts(before, c)), maxBucket);
    }
  }
}
