/**
 The reader of a tunnel with its own token bucket: `drain_frames` asks the bucket for one token per decoded frame, at the
 times the frames come up.
 */
module Tunnel {
  import opened Prelude
  import opened Framing
  import L = Limiter

  /** The bucket's verdicts, frame by frame, for frames that come up at these times. */
  function Metered(decode: Bytes -> Option<Message>, b: L.Bucket, times: seq<real>): Oracle {
    Oracle(decode, (n: nat) => n < |times| && L.Grants(b, times, n))
  }

  lemma GrantsInPrefix(b: L.Bucket, times: seq<real>, m: nat, n: nat)
    requires n < m <= |times|
    ensures L.Grants(b, times[..m], n) == L.Grants(b, times, n)
  {
    assert times[..m][..n] == times[..n];
  }

  /** How many of the first `n` frames get a token. */
  function Allowed(o: Oracle, n: nat): nat {
    if n == 0 then 0 else Allowed(o, n - 1) + if o.allow(n - 1) then 1 else 0
  }

  lemma {:induction false} MeteredCounts(decode: Bytes -> Option<Message>, b: L.Bucket, times: seq<real>, n: nat)
    requires n <= |times|
    ensures Allowed(Metered(decode, b, times), n) == L.Granted(b, times[..n], 0)
  {
    if n > 0 {
      MeteredCounts(decode, b, times, n - 1);
      assert times[..n][..n - 1] == times[..n - 1];
      GrantsInPrefix(b, times, n, n - 1);
    }
  }

  lemma {:induction false} AllAllowed(o: Oracle, n: nat)
    ensures Allowed(o, n) <= n
    ensures Allowed(o, n) == n ==> forall k :: 0 <= k < n ==> o.allow(k)
  {
    if n > 0 {
      AllAllowed(o, n - 1);
    }
  }

  /** A sender that keeps its frames a token apart has every message routed, in order, and is never disconnected. */
  lemma {:induction false} PacedTunnelRoutesEverything(decode: Bytes -> Option<Message>, b: L.Bucket, times: seq<real>,
                                                       envs: seq<Bytes>, messages: seq<Message>)
    requires L.Valid(b) && b.tokens == b.capacity >= 1.0 && L.InOrder(b, times) && times != []
    requires forall k :: 0 < k < |times| ==> L.EarnsOne(b.rate, times[k - 1], times[k])
    requires Frameable(envs) && |envs| == |messages| == |times|
    requires forall i :: 0 <= i < |envs| ==> decode(envs[i]) == Some(messages[i])
    ensures
      var r := Drain(Metered(decode, b, times), Start(Stream(envs)));
      r.ok && r.routed == messages && r.buf == []
  {
    var o := Metered(decode, b, times);
    L.PacedSenderIsNeverThrottled(b, times);
    MeteredCounts(decode, b, times, |times|);
    assert times[..|times|] == times;
    AllAllowed(o, |times|);
    FramingRoundTrip(o, envs, messages, Start(Stream(envs)));
    assert [] + messages == messages;
    hide Drain, Stream;
  }

  lemma {:induction false} RoutedWereAllowed(o: Oracle, r: Reader, envs: seq<Bytes>)
    requires |r.routed| <= Allowed(o, r.frames)
    ensures |Process(o, r, envs).routed| <= Allowed(o, r.frames + |envs|)
    decreases envs
  {
    AllowedGrows(o, r.frames, r.frames + |envs|);
    if r.ok && envs != [] {
      var r' := OnEnvelope(o, r, envs[0]);
      AllowedGrows(o, r'.frames + |envs| - 1, r.frames + |envs|);
      RoutedWereAllowed(o, r', envs[1..]);
    }
  }

  lemma {:induction false} AllowedGrows(o: Oracle, m: nat, n: nat)
    requires m <= n
    ensures Allowed(o, m) <= Allowed(o, n)
    decreases n
  {
    if m < n {
      AllowedGrows(o, m, n - 1);
    }
  }

  /** Whatever a sender does, what is routed for it is bounded by the bucket: capacity plus rate times the time taken. */
  lemma {:induction false} RoutedIsRateLimited(decode: Bytes -> Option<Message>, b: L.Bucket, times: seq<real>, envs: seq<Bytes>, tail: Bytes)
    requires L.Valid(b) && L.InOrder(b, times) && times != [] && |envs| == |times|
    requires Frameable(envs) && Split(tail).Incomplete?
    ensures |Drain(Metered(decode, b, times), Start(Stream(envs) + tail)).routed| as real
            <= b.capacity + L.Earned(b.rate, times[0], times[|times| - 1])
  {
    var o, r := Metered(decode, b, times), Start(Stream(envs) + tail);
    DrainProcessesFrames(o, r, envs, tail);
    RoutedWereAllowed(o, r, envs);
    MeteredCounts(decode, b, times, |times|);
    assert times[..|times|] == times;
    L.WindowIsRateLimited(b, times, 0);
    hide Drain, Process, Stream, Allowed;
  }
}
