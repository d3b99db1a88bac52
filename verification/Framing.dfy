/**
 Length-prefixed frames on a TLS byte stream (`frame_obf`, `drain_frames`). Deobfuscating and decoding an envelope is one
 opaque function; the rate limiter is an oracle that says of each decoded frame whether it got a token.
 */
module Framing {
  import opened Prelude
  import opened Wire

  const FrameCap: nat := 2048
  const MaxViolations: nat := 2000
  const FloodLength: nat := 2001

  type Message(==, !new)

  /** `[u16 BE len][envelope]`; a length that does not fit is written as `u16::MAX`. */
  function Framed(env: Bytes): Bytes {
    U16(Min(|env|, U16_MAX)) + env
  }

  /** What the front of a buffer holds. */
  datatype Front = Incomplete | BadLength | Complete(env: Bytes, rest: Bytes)

  function Split(buf: Bytes): Front {
    if |buf| < 2 then Incomplete else
      var len := FromU16(buf[0], buf[1]);
      if len == 0 || len > FrameCap then BadLength
      else if |buf| < 2 + len then Incomplete
      else Complete(buf[2..2 + len], buf[2 + len..])
  }

  /** A framed envelope is read back, whatever follows it, exactly when it has 1 to 2048 bytes. */
  lemma FramedIsReadBackIff(env: Bytes, rest: Bytes)
    ensures Split(Framed(env) + rest) == Complete(env, rest) <==> 1 <= |env| <= 2048
  {
    var buf := Framed(env) + rest;
    assert buf[0] == Framed(env)[0] && buf[1] == Framed(env)[1];
    if 1 <= |env| <= FrameCap {
      assert buf[2..2 + |env|] == env;
      assert buf[2 + |env|..] == rest;
    }
  }

  /** What a buffer starts with, case by case: a whole frame. */
  lemma {:induction false} WholeFrameForm(buf: Bytes, env: Bytes, rest: Bytes)
    ensures Split(buf) == Complete(env, rest) <==> 1 <= |env| <= 2048 && buf == BigEndian(|env|, 2) + env + rest
  {
    if Split(buf) == Complete(env, rest) {
      CompleteIsFramed(buf);
    }
    if 1 <= |env| <= 2048 {
      BigEndianIsU16(|env|);
      assert Framed(env) == BigEndian(|env|, 2) + env;
      FramedIsReadBackIff(env, rest);
    }
    hide Split, BigEndian, Framed;
  }

  lemma CompleteIsFramed(buf: Bytes)
    requires Split(buf).Complete?
    ensures 1 <= |Split(buf).env| <= 2048 && buf == Framed(Split(buf).env) + Split(buf).rest
  {
    U16OfFromU16(buf[0], buf[1]);
    var end := 2 + FromU16(buf[0], buf[1]);
    assert buf == [buf[0], buf[1]] + buf[2..end] + buf[end..];
  }

  /** A length that cannot be one, or less than a whole frame. */
  lemma {:induction false} OtherForms(buf: Bytes)
    ensures Split(buf).BadLength? <==> exists n: nat :: DeclaresLength(buf, n) && (n == 0 || n > 2048)
    ensures Split(buf).Incomplete? <==> |buf| < 2 || exists n: nat :: DeclaresLength(buf, n) && 1 <= n <= 2048 && |buf| < 2 + n
  {
    if |buf| >= 2 {
      var n := FromU16(buf[0], buf[1]);
      OneLength(buf);
      assert DeclaresLength(buf, n);
      hide DeclaresLength;
      assert Split(buf).BadLength? <==> n == 0 || n > 2048;
      assert Split(buf).Incomplete? <==> 1 <= n <= 2048 && |buf| < 2 + n;
      hide Split;
    }
  }

  lemma {:induction false} OneLength(buf: Bytes)
    requires |buf| >= 2
    ensures forall m: nat :: DeclaresLength(buf, m) <==> m == FromU16(buf[0], buf[1])
  {
    var n := FromU16(buf[0], buf[1]);
    U16OfFromU16(buf[0], buf[1]);
    BigEndianIsU16(n);
    assert buf[..2] == [buf[0], buf[1]];
    forall m: nat | DeclaresLength(buf, m)
      ensures m == n
    {
      BigEndianIsU16(m);
      assert U16(m) == U16(n);
    }
  }

  predicate DeclaresLength(buf: Bytes, n: nat) {
    |buf| >= 2 && n <= U16_MAX && buf[..2] == BigEndian(n, 2)
  }

  lemma SplitAppend(buf: Bytes, more: Bytes)
    ensures Split(buf).BadLength? ==> Split(buf + more).BadLength?
    ensures Split(buf).Complete? ==> Split(buf + more) == Complete(Split(buf).env, Split(buf).rest + more)
  {
    if Split(buf).Complete? {
      var end := 2 + FromU16(buf[0], buf[1]);
      assert (buf + more)[2..end] == buf[2..end];
      assert (buf + more)[end..] == buf[end..] + more;
    }
  }

  datatype Oracle = Oracle(decode: Bytes -> Option<Message>, allow: nat -> bool)

  /** Where a tunnel's reader stands. */
  datatype Reader = Reader(buf: Bytes, frames: nat, violations: nat, routed: seq<Message>, ok: bool)

  /** What happens to one whole envelope. */
  function OnEnvelope(o: Oracle, r: Reader, env: Bytes): Reader {
    match o.decode(env)
    case None => r.(ok := false)
    case Some(message) =>
      if o.allow(r.frames) then r.(frames := r.frames + 1, violations := 0, routed := r.routed + [message])
      else
        var violations := SatAdd(r.violations, 1, U32_MAX);
        r.(frames := r.frames + 1, violations := violations, ok := violations <= MaxViolations)
  }

  /** `drain_frames`. */
  function Drain(o: Oracle, r: Reader): Reader
    decreases |r.buf|
  {
    if !r.ok then r else
      match Split(r.buf)
      case Incomplete => r
      case BadLength => r.(ok := false)
      case Complete(env, rest) => Drain(o, OnEnvelope(o, r.(buf := rest), env))
  }

  /** One turn of the loop, seen from outside. */
  lemma DrainTurns(o: Oracle, r: Reader)
    requires r.ok
    ensures Split(r.buf).Incomplete? ==> Drain(o, r) == r
    ensures Split(r.buf).BadLength? ==> Drain(o, r) == r.(ok := false)
    ensures Split(r.buf).Complete? ==> Drain(o, r) == Drain(o, OnEnvelope(o, r.(buf := Split(r.buf).rest), Split(r.buf).env))
  {
  }

  lemma DrainStops(o: Oracle, r: Reader)
    requires !r.ok
    ensures Drain(o, r) == r
  {
  }

  /** More bytes behind a buffer only add to what draining it does. */
  lemma {:induction false} DrainAppend(o: Oracle, r: Reader, more: Bytes)
    ensures
      var d := Drain(o, r);
      Drain(o, r.(buf := r.buf + more)) == Drain(o, d.(buf := d.buf + more))
    decreases |r.buf|
  {
    if r.ok {
      SplitAppend(r.buf, more);
      match Split(r.buf) {
        case Incomplete =>
        case BadLength =>
        case Complete(env, rest) =>
          DrainAppend(o, OnEnvelope(o, r.(buf := rest), env), more);
          assert OnEnvelope(o, r.(buf := rest), env).(buf := rest + more) == OnEnvelope(o, r.(buf := rest + more), env);
      }
    }
  }

  class FrameReader {
    const oracle: Oracle
    var buf: Bytes
    var frames: nat
    var violations: nat
    var routed: seq<Message>

    function Abs(ok: bool): Reader
      reads this
    {
      Reader(buf, frames, violations, routed, ok)
    }

    constructor (oracle: Oracle, prefix: Bytes)
      ensures this.oracle == oracle && Abs(true) == Reader(prefix, 0, 0, [], true)
    {
      this.oracle, buf, frames, violations, routed := oracle, prefix, 0, 0, [];
    }

    /** One turn of the loop of `drain_frames`: either it returns `ok`, or it has dealt with one frame. */
    method DrainOne() returns (again: bool, ok: bool)
      modifies this
      ensures again ==> |buf| < |old(buf)| && Drain(oracle, Abs(true)) == Drain(oracle, old(Abs(true)))
      ensures !again ==> Abs(ok) == Drain(oracle, old(Abs(true)))
    {
      hide Drain;
      DrainTurns(oracle, Abs(true));
      if |buf| < 2 {
        return false, true;
      }
      var len := FromU16(buf[0], buf[1]);
      if len == 0 || len > FrameCap {
        return false, false;
      }
      if |buf| < 2 + len {
        return false, true;
      }
      var env := buf[2..2 + len];
      buf := buf[2 + len..];
      DrainStops(oracle, Abs(false));
      var message := oracle.decode(env);
      if message == None {
        return false, false;
      }
      var allowed := oracle.allow(frames);
      frames := frames + 1;
      if !allowed {
        violations := SatAdd(violations, 1, U32_MAX);
        DrainStops(oracle, Abs(false));
        return violations <= MaxViolations, false;
      }
      violations := 0;
      routed := routed + [message.value];
      return true, true;
    }

    method DrainFrames() returns (ok: bool)
      modifies this
      ensures Abs(ok) == Drain(oracle, old(Abs(true)))
    {
      var again := true;
      ok := true;
      while again
        invariant again ==> Drain(oracle, Abs(true)) == Drain(oracle, old(Abs(true)))
        invariant !again ==> Abs(ok) == Drain(oracle, old(Abs(true)))
        decreases again, |buf|
      {
        again, ok := DrainOne();
      }
    }

    /** The read loop of `run_tunnel`: stops at the first failed drain and leaves the chunks behind it unread. */
    method Pump(chunks: seq<Bytes>) returns (ok: bool, read: nat)
      modifies this
      ensures read <= |chunks| && (ok ==> read == |chunks|)
      ensures Abs(ok).(buf := buf + Concat(chunks[read..])) ==
              Drain(oracle, old(Abs(true)).(buf := old(buf) + Concat(chunks)))
    {
      ghost var whole := Drain(oracle, Abs(true).(buf := buf + Concat(chunks)));
      DrainAppend(oracle, Abs(true), Concat(chunks));
      DrainTwice(oracle, Abs(true));
      ok := DrainFrames();
      read := 0;
      assert chunks[0..] == chunks;
      while ok && read < |chunks|
        invariant read <= |chunks|
        invariant Drain(oracle, Abs(ok).(buf := buf + Concat(chunks[read..]))) == whole
        invariant ok ==> Drain(oracle, Abs(ok)) == Abs(ok)
        decreases |chunks| - read
      {
        assert chunks[read..][1..] == chunks[read + 1..];
        DrainChunk(oracle, Abs(true), chunks[read], Concat(chunks[read + 1..]));
        buf := buf + chunks[read];
        ok := DrainFrames();
        read := read + 1;
      }
      if ok {
        assert chunks[read..] == [];
        assert buf + Concat(chunks[read..]) == buf;
      }
    }
  }

  lemma DrainChunk(o: Oracle, r: Reader, chunk: Bytes, left: Bytes)
    ensures
      var d := Drain(o, r.(buf := r.buf + chunk));
      && Drain(o, r.(buf := r.buf + (chunk + left))) == Drain(o, d.(buf := d.buf + left))
      && Drain(o, d) == d
  {
    assert r.buf + (chunk + left) == r.buf + chunk + left;
    DrainAppend(o, r.(buf := r.buf + chunk), left);
    DrainTwice(o, r.(buf := r.buf + chunk));
  }

  lemma {:induction false} DrainTwice(o: Oracle, r: Reader)
    ensures Drain(o, Drain(o, r)) == Drain(o, r)
    decreases |r.buf|
  {
    if r.ok && Split(r.buf).Complete? {
      DrainTwice(o, OnEnvelope(o, r.(buf := Split(r.buf).rest), Split(r.buf).env));
    }
  }

  // ---- The stream as a list of envelopes -------------------------------------------------------------------------

  predicate Frameable(envs: seq<Bytes>) {
    forall i :: 0 <= i < |envs| ==> 1 <= |envs[i]| <= FrameCap
  }

  function Stream(envs: seq<Bytes>): Bytes {
    if envs == [] then [] else Framed(envs[0]) + Stream(envs[1..])
  }

  /** The reader's work with no bytes in sight: one envelope after the other, stopping at the first failure. */
  function Process(o: Oracle, r: Reader, envs: seq<Bytes>): Reader
    decreases envs
  {
    if !r.ok || envs == [] then r else Process(o, OnEnvelope(o, r, envs[0]), envs[1..])
  }

  /**
   Draining a stream of frames is processing their envelopes in order, to the same end, unless a length that cannot be one
   follows them; on success exactly the unfinished tail is left for the next read.
   */
  lemma {:induction false} DrainProcessesFrames(o: Oracle, r: Reader, envs: seq<Bytes>, tail: Bytes)
    requires Frameable(envs) && !Split(tail).Complete? && r.ok && r.buf == Stream(envs) + tail
    ensures Drain(o, r).ok <==> Process(o, r, envs).ok && Split(tail).Incomplete?
    ensures Drain(o, r).(buf := [], ok := true) == Process(o, r, envs).(buf := [], ok := true)
    ensures Drain(o, r).ok ==> Drain(o, r).buf == tail
    decreases envs
  {
    hide Drain;
    DrainTurns(o, r);
    if envs == [] {
      assert r.buf == tail;
    } else {
      var rest := Stream(envs[1..]) + tail;
      assert r.buf == Framed(envs[0]) + rest;
      FramedIsReadBackIff(envs[0], rest);
      EnvelopeKeepsBuffer(o, r, envs[0], rest);
      hide Framed, Split, OnEnvelope;
      var r' := OnEnvelope(o, r.(buf := rest), envs[0]);
      ProcessIgnoresBuffer(o, r', OnEnvelope(o, r, envs[0]), envs[1..]);
      if r'.ok {
        DrainProcessesFrames(o, r', envs[1..], tail);
      } else {
        DrainStops(o, r');
      }
    }
  }

  lemma EnvelopeKeepsBuffer(o: Oracle, r: Reader, env: Bytes, rest: Bytes)
    ensures OnEnvelope(o, r.(buf := rest), env) == OnEnvelope(o, r, env).(buf := rest)
  {
  }

  lemma {:induction false} ProcessIgnoresBuffer(o: Oracle, a: Reader, b: Reader, envs: seq<Bytes>)
    requires a == b.(buf := a.buf)
    ensures Process(o, a, envs) == Process(o, b, envs).(buf := a.buf)
    decreases envs
  {
    if a.ok && envs != [] {
      ProcessIgnoresBuffer(o, OnEnvelope(o, a, envs[0]), OnEnvelope(o, b, envs[0]), envs[1..]);
    }
  }

  function Start(buf: Bytes): Reader {
    Reader(buf, 0, 0, [], true)
  }

  /** Round trip: framing any list of decodable messages and draining with a token for each gives the list back. */
  lemma {:induction false} FramingRoundTrip(o: Oracle, envs: seq<Bytes>, messages: seq<Message>, r: Reader)
    requires Frameable(envs) && |envs| == |messages|
    requires forall i :: 0 <= i < |envs| ==> o.decode(envs[i]) == Some(messages[i])
    requires forall n :: r.frames <= n < r.frames + |envs| ==> o.allow(n)
    requires r.ok && r.buf == Stream(envs)
    ensures Drain(o, r).ok && Drain(o, r).routed == r.routed + messages && Drain(o, r).buf == []
    decreases envs
  {
    hide Drain;
    DrainTurns(o, r);
    if envs == [] {
      assert r.routed + messages == r.routed;
    } else {
      FramedIsReadBackIff(envs[0], Stream(envs[1..]));
      var r' := OnEnvelope(o, r.(buf := Stream(envs[1..])), envs[0]);
      FramingRoundTrip(o, envs[1..], messages[1..], r');
      assert r.routed + [messages[0]] + messages[1..] == r.routed + messages;
    }
  }

  // ---- Flooding --------------------------------------------------------------------------------------------------

  /** The 2001 frames from number `k` on were all refused a token. */
  ghost predicate Throttled(o: Oracle, k: nat, n: nat) {
    forall i :: k <= i < k + n ==> !o.allow(i)
  }

  ghost predicate Flooded(o: Oracle, frames: nat) {
    exists k: nat :: k + FloodLength <= frames && Throttled(o, k, FloodLength)
  }

  /** `violations` counts the frames refused since the last one let through. */
  ghost predicate CountsViolations(o: Oracle, r: Reader) {
    && r.ok && r.violations <= r.frames && r.violations <= MaxViolations
    && Throttled(o, r.frames - r.violations, r.violations)
    && (r.violations < r.frames ==> o.allow(r.frames - r.violations - 1))
    && !Flooded(o, r.frames)
  }

  lemma DecodableFrameCounts(o: Oracle, r: Reader, env: Bytes)
    requires CountsViolations(o, r) && o.decode(env).Some?
    ensures OnEnvelope(o, r, env).ok <==> !Flooded(o, r.frames + 1)
    ensures OnEnvelope(o, r, env).ok ==> CountsViolations(o, OnEnvelope(o, r, env))
  {
    var r' := OnEnvelope(o, r, env);
    assert forall i :: r.frames - r.violations <= i < r.frames ==> !o.allow(i);
    if !o.allow(r.frames) && r.violations == MaxViolations {
      assert Throttled(o, r.frames - r.violations, FloodLength);
    }
  }

  /** Among well-formed frames, the tunnel is torn down exactly when 2001 in a row have been throttled. */
  lemma {:induction false} FailsIffFlooded(o: Oracle, r: Reader, envs: seq<Bytes>)
    requires CountsViolations(o, r)
    requires forall i :: 0 <= i < |envs| ==> o.decode(envs[i]).Some?
    ensures Process(o, r, envs).ok <==> !Flooded(o, r.frames + |envs|)
    decreases envs
  {
    if envs != [] {
      DecodableFrameCounts(o, r, envs[0]);
      var r' := OnEnvelope(o, r, envs[0]);
      if r'.ok {
        FailsIffFlooded(o, r', envs[1..]);
      } else {
        var k: nat :| k + FloodLength <= r.frames + 1 && Throttled(o, k, FloodLength);
        assert Flooded(o, r.frames + |envs|);
      }
    }
  }

  /** The same, of the bytes: a stream of well-formed frames survives draining iff it holds no such run. */
  lemma StreamFailsIffFlooded(o: Oracle, envs: seq<Bytes>, tail: Bytes)
    requires Frameable(envs) && Split(tail).Incomplete?
    requires forall i :: 0 <= i < |envs| ==> o.decode(envs[i]).Some?
    ensures Drain(o, Start(Stream(envs) + tail)).ok <==> !Flooded(o, |envs|)
  {
    var r := Start(Stream(envs) + tail);
    DrainProcessesFrames(o, r, envs, tail);
    FailsIffFlooded(o, r, envs);
    hide Drain, Process;
  }
}
