/**
 The replay guard behind the stateless skew gate (`decide_authed` and `REALITY_SKEW_MIN` of
 bin/yip-rendezvous/src/tls_front.rs): a seal with a fixed timestamp is accepted at most once, ever.
 */
module RealityGate {
  import opened Prelude
  import opened Replay

  /** `REALITY_SKEW_MIN`; tls_front.rs asserts at compile time that the guard's window is at least twice this. */
  const Skew: nat := 10

  /** `ts_min.abs_diff(now_min) <= skew_min`. */
  predicate InSkew(c: Call) {
    c.ts <= c.now + Skew && c.now <= c.ts + Skew
  }

  /** A hello as the front sees it: whether it is authentic and for a name with an acceptor, and what it would ask the guard. */
  datatype Hello = Hello(authed: bool, call: Call)

  predicate Reaches(h: Hello) {
    h.authed && InSkew(h.call)
  }

  /** The calls the guard sees, in order. */
  function Calls(hs: seq<Hello>): seq<Call> {
    if hs == [] then [] else
      var h := hs[|hs| - 1];
      Calls(hs[..|hs| - 1]) + if Reaches(h) then [h.call] else []
  }

  datatype Decision = Accept | Splice

  /** `decide_authed`, on the guard as it stands after everything before hello `k`. */
  function Decide(startMin: nat, maxBucket: nat, hs: seq<Hello>, k: nat): Decision
    requires k < |hs|
  {
    if Reaches(hs[k]) && Verdicts(Run(startMin, maxBucket, Calls(hs[..k])), hs[k].call) == Fresh then Accept else Splice
  }

  predicate MonotoneArrivals(hs: seq<Hello>) {
    && (forall i :: 0 <= i < |hs| ==> hs[i].call.now < Never)
    && (forall i, j :: 0 <= i < j < |hs| ==> hs[i].call.now <= hs[j].call.now)
  }

  lemma {:induction false} CallsAreMonotone(hs: seq<Hello>)
    requires MonotoneArrivals(hs)
    ensures Monotone(Calls(hs))
    ensures forall i :: 0 <= i < |Calls(hs)| ==> hs != [] && Calls(hs)[i].now <= hs[|hs| - 1].call.now
  {
    if hs != [] {
      CallsAreMonotone(hs[..|hs| - 1]);
    }
  }

  lemma {:induction false} CallsExtend(hs: seq<Hello>, k: nat)
    requires k <= |hs|
    ensures Calls(hs[..k]) <= Calls(hs)
    decreases hs
  {
    if k == |hs| {
      assert hs[..k] == hs;
    } else {
      assert hs[..|hs| - 1][..k] == hs[..k];
      CallsExtend(hs[..|hs| - 1], k);
    }
  }

  lemma {:induction false} AcceptedGrows(startMin: nat, maxBucket: nat, cs: seq<Call>, k: nat)
    requires k <= |cs|
    ensures Accepted(startMin, maxBucket, cs[..k]) <= Accepted(startMin, maxBucket, cs)
    decreases cs
  {
    if k == |cs| {
      assert cs[..k] == cs;
    } else {
      assert cs[..|cs| - 1][..k] == cs[..k];
      AcceptedGrows(startMin, maxBucket, cs[..|cs| - 1], k);
    }
  }

  lemma AcceptedHelloIsRemembered(startMin: nat, maxBucket: nat, hs: seq<Hello>, i: nat)
    requires i < |hs| && Decide(startMin, maxBucket, hs, i) == Accept
    ensures Entry(hs[i].call.seal, hs[i].call.now) in Accepted(startMin, maxBucket, Calls(hs))
  {
    var upTo := hs[..i + 1];
    assert upTo[..i] == hs[..i] && upTo[i] == hs[i];
    var cs := Calls(upTo);
    assert cs[..|cs| - 1] == Calls(hs[..i]) && cs[|cs| - 1] == hs[i].call;
    CallsExtend(hs, i + 1);
    AcceptedGrows(startMin, maxBucket, Calls(hs), |cs|);
    assert Calls(hs)[..|cs|] == cs;
  }

  lemma NextCallIsMonotone(hs: seq<Hello>, j: nat)
    requires MonotoneArrivals(hs) && j < |hs|
    ensures Monotone(Calls(hs[..j]) + [hs[j].call])
  {
    CallsAreMonotone(hs[..j]);
    hide Calls;
  }

  /** End to end: over any run of arrivals in time order, a seal with its one timestamp is accepted at most once, ever. */
  lemma SealAcceptedAtMostOnce(startMin: nat, maxBucket: nat, hs: seq<Hello>, i: nat, j: nat)
    requires MonotoneArrivals(hs) && i < j < |hs|
    requires hs[i].call.seal == hs[j].call.seal && hs[i].call.ts == hs[j].call.ts
    requires Decide(startMin, maxBucket, hs, i) == Accept
    ensures Decide(startMin, maxBucket, hs, j) == Splice
  {
    var before, c := hs[..j], hs[j].call;
    if Reaches(hs[j]) {
      var cs := Calls(before);
      NextCallIsMonotone(hs, j);
      assert before[..i] == hs[..i];
      AcceptedHelloIsRemembered(startMin, maxBucket, before, i);
      hide Calls, Run, Accepted, Verdicts, Monotone;
      RingRefinesHistory(startMin, maxBucket, cs, c);
      var e := Entry(c.seal, hs[i].call.now);
      assert c.now - e.minute <= Window;
    }
  }

  /** What the guard remembers is exactly the accepted hellos. */
  lemma AcceptedEntryIff(startMin: nat, maxBucket: nat, hs: seq<Hello>, e: Entry)
    ensures e in Accepted(startMin, maxBucket, Calls(hs)) <==>
            exists i :: 0 <= i < |hs| && AcceptedAs(startMin, maxBucket, hs, i, e)
  {
    var cs := Calls(hs);
    AcceptedIffFresh(startMin, maxBucket, cs, e);
    if e in Accepted(startMin, maxBucket, cs) {
      var n :| 0 <= n < |cs| && AcceptedBy(startMin, maxBucket, cs, n, e);
      var i := HelloOfCall(hs, n);
      CallOfHello(hs, i);
      assert AcceptedAs(startMin, maxBucket, hs, i, e);
    }
    if exists i :: 0 <= i < |hs| && AcceptedAs(startMin, maxBucket, hs, i, e) {
      var i :| 0 <= i < |hs| && AcceptedAs(startMin, maxBucket, hs, i, e);
      AcceptedHelloIsRemembered(startMin, maxBucket, hs, i);
    }
  }

  predicate AcceptedAs(startMin: nat, maxBucket: nat, hs: seq<Hello>, i: nat, e: Entry)
    requires i < |hs|
  {
    hs[i].call.seal == e.seal && hs[i].call.now == e.minute && Decide(startMin, maxBucket, hs, i) == Accept
  }

  /** The seals accepted before hello `j` in its minute and shard. */
  function SealsThisMinute(startMin: nat, maxBucket: nat, hs: seq<Hello>, j: nat): set<Seal>
    requires j < |hs|
  {
    set i | 0 <= i < j && Decide(startMin, maxBucket, hs, i) == Accept && hs[i].call.now == hs[j].call.now
            && ShardOf(hs[i].call.seal) == ShardOf(hs[j].call.seal) :: hs[i].call.seal
  }

  /** Hello `i` was accepted with the seal of hello `j`, at most 20 minutes before it. */
  predicate RepeatsRecent(startMin: nat, maxBucket: nat, hs: seq<Hello>, i: nat, j: nat)
    requires i < |hs| && j < |hs|
  {
    Decide(startMin, maxBucket, hs, i) == Accept && hs[i].call.seal == hs[j].call.seal && hs[j].call.now - hs[i].call.now <= 20
  }

  lemma EntryOfPrefix(startMin: nat, maxBucket: nat, hs: seq<Hello>, j: nat, e: Entry)
    requires j < |hs|
    ensures e in Accepted(startMin, maxBucket, Calls(hs[..j])) <==>
            exists i :: 0 <= i < j && AcceptedAs(startMin, maxBucket, hs, i, e)
  {
    AcceptedEntryIff(startMin, maxBucket, hs[..j], e);
    PrefixDecides(startMin, maxBucket, hs, j);
    assert forall i :: 0 <= i < j ==> (AcceptedAs(startMin, maxBucket, hs[..j], i, e) <==> AcceptedAs(startMin, maxBucket, hs, i, e));
    hide Accepted, Calls, AcceptedAs, Decide;
  }

  lemma {:induction false} RecentInHistory(startMin: nat, maxBucket: nat, hs: seq<Hello>, j: nat)
    requires j < |hs|
    ensures InHistory(Accepted(startMin, maxBucket, Calls(hs[..j])), hs[j].call) <==>
            exists i :: 0 <= i < j && RepeatsRecent(startMin, maxBucket, hs, i, j)
  {
    var history, c := Accepted(startMin, maxBucket, Calls(hs[..j])), hs[j].call;
    hide Accepted, Calls, Decide;
    if InHistory(history, c) {
      var e :| e in history && e.seal == c.seal && c.now - e.minute <= 20;
      EntryOfPrefix(startMin, maxBucket, hs, j, e);
      var i :| 0 <= i < j && AcceptedAs(startMin, maxBucket, hs, i, e);
      assert RepeatsRecent(startMin, maxBucket, hs, i, j);
    }
    if exists i :: 0 <= i < j && RepeatsRecent(startMin, maxBucket, hs, i, j) {
      var i :| 0 <= i < j && RepeatsRecent(startMin, maxBucket, hs, i, j);
      var e := Entry(c.seal, hs[i].call.now);
      assert AcceptedAs(startMin, maxBucket, hs, i, e);
      EntryOfPrefix(startMin, maxBucket, hs, j, e);
    }
  }

  lemma {:induction false} SealInMinute(startMin: nat, maxBucket: nat, hs: seq<Hello>, j: nat, seal: Seal)
    requires j < |hs|
    ensures seal in SealsThisMinute(startMin, maxBucket, hs, j) <==>
            && ShardOf(seal) == ShardOf(hs[j].call.seal)
            && exists i :: 0 <= i < j && AcceptedAs(startMin, maxBucket, hs, i, Entry(seal, hs[j].call.now))
  {
    hide Decide;
    var e := Entry(seal, hs[j].call.now);
    if seal in SealsThisMinute(startMin, maxBucket, hs, j) {
      var i :| 0 <= i < j && Decide(startMin, maxBucket, hs, i) == Accept && hs[i].call.now == e.minute && hs[i].call.seal == seal
               && ShardOf(hs[i].call.seal) == ShardOf(hs[j].call.seal);
      assert AcceptedAs(startMin, maxBucket, hs, i, e);
    }
  }

  lemma {:induction false} MinuteInHistory(startMin: nat, maxBucket: nat, hs: seq<Hello>, j: nat)
    requires j < |hs|
    ensures AcceptedAt(Accepted(startMin, maxBucket, Calls(hs[..j])), ShardOf(hs[j].call.seal), hs[j].call.now) ==
            SealsThisMinute(startMin, maxBucket, hs, j)
  {
    var history, c := Accepted(startMin, maxBucket, Calls(hs[..j])), hs[j].call;
    hide Accepted, Calls, Decide, SealsThisMinute;
    forall seal: Seal
      ensures seal in AcceptedAt(history, ShardOf(c.seal), c.now) <==> seal in SealsThisMinute(startMin, maxBucket, hs, j)
    {
      SealInMinute(startMin, maxBucket, hs, j, seal);
      EntryOfPrefix(startMin, maxBucket, hs, j, Entry(seal, c.now));
      EntryInMinute(history, ShardOf(c.seal), c.now, seal);
    }
  }

  lemma EntryInMinute(history: set<Entry>, shard: nat, minute: nat, seal: Seal)
    ensures seal in AcceptedAt(history, shard, minute) <==> ShardOf(seal) == shard && Entry(seal, minute) in history
  {
  }

  /**
   The decision on every hello, over any run of arrivals in time order: accepted iff it is authentic, stamped within 10
   minutes either way and not before the start, its seal was not accepted in the last 20 minutes, and there is room.
   */
  lemma AcceptIff(startMin: nat, maxBucket: nat, hs: seq<Hello>, j: nat)
    requires MonotoneArrivals(hs) && j < |hs|
    ensures Decide(startMin, maxBucket, hs, j) == Accept <==>
            && hs[j].authed
            && hs[j].call.ts <= hs[j].call.now + 10 && hs[j].call.now <= hs[j].call.ts + 10 && hs[j].call.ts >= startMin
            && !(exists i :: 0 <= i < j && RepeatsRecent(startMin, maxBucket, hs, i, j))
            && |SealsThisMinute(startMin, maxBucket, hs, j)| < maxBucket
  {
    NextCallIsMonotone(hs, j);
    RingRefinesHistory(startMin, maxBucket, Calls(hs[..j]), hs[j].call);
    RecentInHistory(startMin, maxBucket, hs, j);
    MinuteInHistory(startMin, maxBucket, hs, j);
    hide Calls, Run, Accepted, Verdicts, Monotone, InHistory, AcceptedAt, RepeatsRecent, SealsThisMinute;
  }

  // ---- Without trusting the clock ---------------------------------------------------------------------------------

  /** The call clears the bucket of minute `m` in the seal's shard: it lands in the same slot at another minute. */
  predicate Recycles(startMin: nat, c: Call, seal: Seal, m: nat) {
    c.ts >= startMin && ShardOf(c.seal) == ShardOf(seal) && SlotOf(c.now) == SlotOf(m) && c.now != m
  }

  predicate Holds(ring: seq<Bucket>, seal: Seal, j: nat) {
    j < |ring| && seal in ring[j].seals
  }

  ghost predicate Gone(g: Guard, seal: Seal)
    requires Shaped(g)
  {
    forall j :: !Holds(g.shards[ShardOf(seal)], seal, j)
  }

  /** The seal sits in the bucket of minute `m` and in no other bucket of its shard. */
  ghost predicate Kept(g: Guard, seal: Seal, m: nat)
    requires Shaped(g)
  {
    var ring := g.shards[ShardOf(seal)];
    ring[SlotOf(m)].minute == m && forall j :: Holds(ring, seal, j) <==> j == SlotOf(m)
  }

  /** What one call does to the ring of a shard: only the current slot changes. */
  lemma RingAfterCall(g: Guard, c: Call, i: nat)
    requires Shaped(g) && i < Shards
    ensures Shaped(Check(g, c))
    ensures
      var ring, ring', slot := g.shards[i], Check(g, c).shards[i], SlotOf(c.now);
      if c.ts >= g.startMin && ShardOf(c.seal) == i
      then && ring'[slot].minute == c.now
           && ring'[slot].seals == (if ring[slot].minute != c.now then {} else ring[slot].seals) +
                                   (if Verdicts(g, c) == Fresh then {c.seal} else {})
           && forall j: nat :: j < Ring && j != slot ==> ring'[j] == ring[j]
      else ring' == ring
    ensures c.ts < g.startMin ==> Verdicts(g, c) == Replayed
  {
  }

  lemma StepWhileKept(g: Guard, seal: Seal, m: nat, c: Call)
    requires Shaped(g) && Kept(g, seal, m) && !(c.seal == seal && Verdicts(g, c) == Fresh)
    ensures if Recycles(g.startMin, c, seal, m) then Gone(Check(g, c), seal) else Kept(Check(g, c), seal, m)
  {
    var i := ShardOf(seal);
    var ring, ring' := g.shards[i], Check(g, c).shards[i];
    RingAfterCall(g, c, i);
    hide Check, Verdicts;
    forall j: nat
      ensures Holds(ring', seal, j) <==> Holds(ring, seal, j) && !Recycles(g.startMin, c, seal, m)
    {
      assert Holds(ring, seal, j) <==> j == SlotOf(m);
    }
  }

  lemma StepWhileGone(g: Guard, seal: Seal, c: Call)
    requires Shaped(g) && Gone(g, seal)
    ensures if c.seal == seal && Verdicts(g, c) == Fresh then Kept(Check(g, c), seal, c.now) else Gone(Check(g, c), seal)
  {
    var i := ShardOf(seal);
    var ring, ring' := g.shards[i], Check(g, c).shards[i];
    RingAfterCall(g, c, i);
    hide Check, Verdicts;
    forall j: nat
      ensures Holds(ring', seal, j) <==> c.seal == seal && Verdicts(g, c) == Fresh && j == SlotOf(c.now)
    {
      assert !Holds(ring, seal, j);
    }
  }

  /** Call `i` of the run accepts the seal. */
  predicate AcceptsAt(startMin: nat, maxBucket: nat, cs: seq<Call>, seal: Seal, i: nat)
    requires i < |cs|
  {
    cs[i].seal == seal && Verdicts(Run(startMin, maxBucket, cs[..i]), cs[i]) == Fresh
  }

  lemma AcceptsAtPrefix(startMin: nat, maxBucket: nat, cs: seq<Call>, seal: Seal, i: nat)
    requires i < |cs| - 1
    ensures AcceptsAt(startMin, maxBucket, cs[..|cs| - 1], seal, i) <==> AcceptsAt(startMin, maxBucket, cs, seal, i)
  {
    assert cs[..|cs| - 1][..i] == cs[..i];
  }

  lemma {:induction false} WhereTheSealIs(startMin: nat, maxBucket: nat, cs: seq<Call>, seal: Seal, k: nat)
    requires k < |cs| && forall i :: 0 <= i < |cs| ==> (AcceptsAt(startMin, maxBucket, cs, seal, i) <==> i == k)
    ensures var g := Run(startMin, maxBucket, cs);
            if exists i :: k < i < |cs| && Recycles(startMin, cs[i], seal, cs[k].now)
            then Gone(g, seal) else Kept(g, seal, cs[k].now)
  {
    var before, c := cs[..|cs| - 1], cs[|cs| - 1];
    var g := Run(startMin, maxBucket, before);
    forall i | 0 <= i < |before|
      ensures AcceptsAt(startMin, maxBucket, before, seal, i) <==> i == k
    {
      AcceptsAtPrefix(startMin, maxBucket, cs, seal, i);
    }
    assert AcceptsAt(startMin, maxBucket, cs, seal, |cs| - 1) <==> k == |cs| - 1;
    if k == |cs| - 1 {
      NeverAcceptedIsGone(startMin, maxBucket, before, seal);
      StepWhileGone(g, seal, c);
    } else {
      WhereTheSealIs(startMin, maxBucket, before, seal, k);
      if exists i :: k < i < |before| && Recycles(startMin, before[i], seal, before[k].now) {
        var i :| k < i < |before| && Recycles(startMin, before[i], seal, before[k].now);
        assert Recycles(startMin, cs[i], seal, cs[k].now);
        StepWhileGone(g, seal, c);
      } else {
        StepWhileKept(g, seal, cs[k].now, c);
        assert forall i :: k < i < |before| ==> cs[i] == before[i];
      }
    }
  }

  lemma {:induction false} NeverAcceptedIsGone(startMin: nat, maxBucket: nat, cs: seq<Call>, seal: Seal)
    requires forall i :: 0 <= i < |cs| ==> !AcceptsAt(startMin, maxBucket, cs, seal, i)
    ensures Gone(Run(startMin, maxBucket, cs), seal)
  {
    if cs != [] {
      var before, c := cs[..|cs| - 1], cs[|cs| - 1];
      forall i | 0 <= i < |before|
        ensures !AcceptsAt(startMin, maxBucket, before, seal, i)
      {
        AcceptsAtPrefix(startMin, maxBucket, cs, seal, i);
      }
      NeverAcceptedIsGone(startMin, maxBucket, before, seal);
      assert !AcceptsAt(startMin, maxBucket, cs, seal, |cs| - 1);
      StepWhileGone(Run(startMin, maxBucket, before), seal, c);
    }
  }

  /**
   The exact condition, for any clock at all: a seal accepted once before, at minute `m`, and presented again within the
   window is refused if and only if no call since (this one included) has recycled the bucket of `m` in its shard.
   */
  lemma RefusedIffBucketKept(startMin: nat, maxBucket: nat, cs: seq<Call>, k: nat, c: Call)
    requires k < |cs|
    requires forall i :: 0 <= i < |cs| ==> (AcceptsAt(startMin, maxBucket, cs, c.seal, i) <==> i == k)
    requires cs[k].now < Never && c.now <= cs[k].now + Window && c.ts >= startMin
    requires |Rotate(Run(startMin, maxBucket, cs).shards[ShardOf(c.seal)], c.now)[SlotOf(c.now)].seals| < maxBucket
    ensures Verdicts(Run(startMin, maxBucket, cs), c) == Replayed <==>
            && !Recycles(startMin, c, c.seal, cs[k].now)
            && !exists i :: k < i < |cs| && Recycles(startMin, cs[i], c.seal, cs[k].now)
  {
    var g, m := Run(startMin, maxBucket, cs), cs[k].now;
    var ring := g.shards[ShardOf(c.seal)];
    var rotated := Rotate(ring, c.now);
    WhereTheSealIs(startMin, maxBucket, cs, c.seal, k);
    assert forall j: nat :: j < Ring && c.seal in rotated[j].seals ==> Holds(ring, c.seal, j) && rotated[j] == ring[j];
    if Kept(g, c.seal, m) && !Recycles(startMin, c, c.seal, m) {
      assert Holds(ring, c.seal, SlotOf(m));
      assert Remembers(rotated[SlotOf(m)], c.seal, c.now);
    }
  }

  // ---- The same, end to end --------------------------------------------------------------------------------------

  /** Where the guard's calls and the hellos correspond: a hello that reaches the guard is its next call. */
  lemma CallOfHello(hs: seq<Hello>, k: nat)
    requires k < |hs| && Reaches(hs[k])
    ensures |Calls(hs[..k])| < |Calls(hs)| && Calls(hs)[|Calls(hs[..k])|] == hs[k].call
    ensures Calls(hs)[..|Calls(hs[..k])|] == Calls(hs[..k])
  {
    CallsExtend(hs, k + 1);
    assert hs[..k + 1][..k] == hs[..k];
  }

  lemma {:induction false} HelloOfCall(hs: seq<Hello>, n: nat) returns (k: nat)
    requires n < |Calls(hs)|
    ensures k < |hs| && Reaches(hs[k]) && |Calls(hs[..k])| == n
  {
    var before := hs[..|hs| - 1];
    if n < |Calls(before)| {
      k := HelloOfCall(before, n);
      assert before[..k] == hs[..k];
    } else {
      k := |hs| - 1;
    }
  }

  lemma AcceptedHelloIsAcceptedCall(startMin: nat, maxBucket: nat, hs: seq<Hello>, k: nat, seal: Seal)
    requires k < |hs| && Reaches(hs[k]) && |Calls(hs[..k])| < |Calls(hs)|
    ensures AcceptsAt(startMin, maxBucket, Calls(hs), seal, |Calls(hs[..k])|) <==>
            hs[k].call.seal == seal && Decide(startMin, maxBucket, hs, k) == Accept
  {
    CallOfHello(hs, k);
    hide Calls, Run, Verdicts;
  }

  /** Hello `k` recycles the bucket in which hello `i` was remembered. */
  predicate RecycledBy(startMin: nat, hs: seq<Hello>, i: nat, k: nat)
    requires i < |hs| && k < |hs|
  {
    Reaches(hs[k]) && Recycles(startMin, hs[k].call, hs[i].call.seal, hs[i].call.now)
  }

  /** The bucket a hello would go into has no room, on the guard as it stands. */
  predicate Full(startMin: nat, maxBucket: nat, hs: seq<Hello>, k: nat)
    requires k < |hs|
  {
    var c := hs[k].call;
    |Rotate(Run(startMin, maxBucket, Calls(hs[..k])).shards[ShardOf(c.seal)], c.now)[SlotOf(c.now)].seals| >= maxBucket
  }

  lemma OnlyAcceptedCall(startMin: nat, maxBucket: nat, hs: seq<Hello>, i: nat, seal: Seal)
    requires i < |hs| && hs[i].call.seal == seal && Decide(startMin, maxBucket, hs, i) == Accept
    requires forall k :: 0 <= k < |hs| && hs[k].call.seal == seal && Decide(startMin, maxBucket, hs, k) == Accept ==> k == i
    ensures |Calls(hs[..i])| < |Calls(hs)|
    ensures forall n :: 0 <= n < |Calls(hs)| ==>
              (AcceptsAt(startMin, maxBucket, Calls(hs), seal, n) <==> n == |Calls(hs[..i])|)
  {
    CallOfHello(hs, i);
    AcceptedHelloIsAcceptedCall(startMin, maxBucket, hs, i, seal);
    forall n | 0 <= n < |Calls(hs)|
      ensures AcceptsAt(startMin, maxBucket, Calls(hs), seal, n) <==> n == |Calls(hs[..i])|
    {
      var k := HelloOfCall(hs, n);
      AcceptedHelloIsAcceptedCall(startMin, maxBucket, hs, k, seal);
    }
  }

  lemma LaterHelloIsLaterCall(hs: seq<Hello>, i: nat, k: nat)
    requires i < |hs| && k < |hs| && Reaches(hs[i])
    ensures |Calls(hs[..i])| < |Calls(hs[..k])| <==> i < k
  {
    if i < k {
      CallsExtend(hs[..k], i + 1);
      assert hs[..k][..i + 1] == hs[..i + 1] && hs[..i + 1][..i] == hs[..i];
    } else {
      CallsExtend(hs[..i], k);
      assert hs[..i][..k] == hs[..k];
    }
  }

  lemma RecycledCalls(startMin: nat, hs: seq<Hello>, i: nat)
    requires i < |hs| && Reaches(hs[i])
    ensures
      var cs, n := Calls(hs), |Calls(hs[..i])|;
      (exists m :: n < m < |cs| && Recycles(startMin, cs[m], hs[i].call.seal, hs[i].call.now)) <==>
      (exists k :: i < k < |hs| && RecycledBy(startMin, hs, i, k))
  {
    var cs, n := Calls(hs), |Calls(hs[..i])|;
    if exists m :: n < m < |cs| && Recycles(startMin, cs[m], hs[i].call.seal, hs[i].call.now) {
      var m :| n < m < |cs| && Recycles(startMin, cs[m], hs[i].call.seal, hs[i].call.now);
      var k := HelloOfCall(hs, m);
      CallOfHello(hs, k);
      LaterHelloIsLaterCall(hs, i, k);
      assert RecycledBy(startMin, hs, i, k);
    }
    if exists k :: i < k < |hs| && RecycledBy(startMin, hs, i, k) {
      var k :| i < k < |hs| && RecycledBy(startMin, hs, i, k);
      CallOfHello(hs, k);
      LaterHelloIsLaterCall(hs, i, k);
      assert Recycles(startMin, cs[|Calls(hs[..k])|], hs[i].call.seal, hs[i].call.now);
    }
  }

  /**
   For any clock at all: the next hello with a seal and timestamp accepted once before is accepted too, if and only if it
   reaches the guard, the bucket that remembered the first has been recycled since, and its own bucket is not full.
   */
  lemma SecondAcceptIffRecycled(startMin: nat, maxBucket: nat, hs: seq<Hello>, i: nat, j: nat)
    requires i < j < |hs| && hs[j].call.seal == hs[i].call.seal && hs[j].call.ts == hs[i].call.ts && hs[i].call.now < Never
    requires Decide(startMin, maxBucket, hs, i) == Accept
    requires forall k :: 0 <= k < j && hs[k].call.seal == hs[i].call.seal && Decide(startMin, maxBucket, hs, k) == Accept ==> k == i
    ensures Decide(startMin, maxBucket, hs, j) == Accept <==>
            && Reaches(hs[j]) && !Full(startMin, maxBucket, hs, j)
            && exists k :: i < k <= j && RecycledBy(startMin, hs, i, k)
  {
    if Reaches(hs[j]) && !Full(startMin, maxBucket, hs, j) {
      var before, c := hs[..j], hs[j].call;
      PrefixDecides(startMin, maxBucket, hs, j);
      OnlyAcceptedCall(startMin, maxBucket, before, i, c.seal);
      assert before[..i] == hs[..i];
      CallOfHello(before, i);
      RecycledCalls(startMin, before, i);
      RefusedIffBucketKept(startMin, maxBucket, Calls(before), |Calls(before[..i])|, c);
      RecycledInPrefix(startMin, hs, i, j);
      hide Calls, Run, Verdicts, Recycles, RecycledBy;
    }
  }

  lemma PrefixDecides(startMin: nat, maxBucket: nat, hs: seq<Hello>, j: nat)
    requires j <= |hs|
    ensures forall k :: 0 <= k < j ==> Decide(startMin, maxBucket, hs[..j], k) == Decide(startMin, maxBucket, hs, k)
  {
    forall k | 0 <= k < j
      ensures Decide(startMin, maxBucket, hs[..j], k) == Decide(startMin, maxBucket, hs, k)
    {
      assert hs[..j][..k] == hs[..k];
    }
  }

  lemma RecycledInPrefix(startMin: nat, hs: seq<Hello>, i: nat, j: nat)
    requires i < j < |hs| && Reaches(hs[j]) && hs[j].call.seal == hs[i].call.seal
    ensures (exists k :: i < k <= j && RecycledBy(startMin, hs, i, k)) <==>
            (exists k :: i < k < |hs[..j]| && RecycledBy(startMin, hs[..j], i, k))
            || Recycles(startMin, hs[j].call, hs[j].call.seal, hs[i].call.now)
  {
    assert forall k :: i < k < j ==> (RecycledBy(startMin, hs[..j], i, k) <==> RecycledBy(startMin, hs, i, k));
    assert RecycledBy(startMin, hs, i, j) <==> Recycles(startMin, hs[j].call, hs[j].call.seal, hs[i].call.now);
    hide Recycles, RecycledBy;
  }

  /** A seal held nowhere, arriving at a minute whose slot is still another minute's, is accepted. */
  lemma StaleSlotAccepts(g: Guard, c: Call)
    requires Shaped(g) && Gone(g, c.seal) && c.ts >= g.startMin && g.maxBucket > 0
    requires g.shards[ShardOf(c.seal)][SlotOf(c.now)].minute != c.now
    ensures Verdicts(g, c) == Fresh
    ensures Check(g, c).shards[ShardOf(c.seal)][SlotOf(c.now)].minute == c.now
  {
    var ring := g.shards[ShardOf(c.seal)];
    var rotated := Rotate(ring, c.now);
    forall j: nat | j < Ring
      ensures c.seal !in rotated[j].seals
    {
      assert !Holds(ring, c.seal, j);
    }
  }

  /** So a clock that jumps ahead and back lets one seal in twice, both times inside the skew gate. */
  lemma ClockStepAdmitsASealTwice(seal: Seal, other: Seal) returns (cs: seq<Call>)
    requires other != seal && ShardOf(other) == ShardOf(seal)
    ensures |cs| == 3 && cs[0] == cs[2] && cs[0].seal == seal
    ensures forall k :: 0 <= k < 3 ==> InSkew(cs[k]) && Verdicts(Run(0, 8, cs[..k]), cs[k]) == Fresh
  {
    var first, jump := Call(seal, 100, 100), Call(other, 121, 121);
    cs := [first, jump, first];
    assert cs[..0] == [] && cs[..1] == [first] && cs[..2] == [first, jump];
    assert [first, jump][..1] == [first] && [first][..0] == [];
    var g0 := Run(0, 8, []);
    var g1 := Run(0, 8, [first]);
    var g2 := Run(0, 8, [first, jump]);
    assert g1 == Check(g0, first) && g2 == Check(g1, jump);
    hide Verdicts, Check, Run;
    StaleSlotAccepts(g0, first);
    StepWhileGone(g0, seal, first);
    StepWhileGone(g0, other, first);
    StaleSlotAccepts(g1, jump);
    StepWhileKept(g1, seal, 100, jump);
    StaleSlotAccepts(g2, first);
  }
}
