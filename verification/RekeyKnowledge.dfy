/**
 What the initiator of a rekey can know. It sees its own epochs, the rounds it began, the sessions it has heard under and
 its clock, not the responder. Having heard under the current session is not only enough to begin the next round safely:
 no weaker test on what it sees would do.
 */
module RekeyKnowledge {
  import opened Prelude
  import E = Epoch
  import opened Rekey

  /** The initiator cannot tell the two states apart. */
  predicate SameView(y: System, z: System) {
    y.initiator == z.initiator && y.rounds == z.rounds && y.heard == z.heard && y.interval == z.interval && y.clock == z.clock
  }

  /** The event is a frame of session `s` reaching the responder. */
  predicate Reports(v: Event, s: E.SessionId) {
    v.ToResponder? && v.session == s
  }

  /** The same run, but for all the frames of session `s` lost on the way to the responder. */
  function Muted(vs: seq<Event>, s: E.SessionId): seq<Event> {
    if vs == [] then [] else
      Muted(vs[..|vs| - 1], s) + if Reports(vs[|vs| - 1], s) then [] else [vs[|vs| - 1]]
  }

  /** The responder has not taken up session `s`, and so has sent nothing under it. */
  ghost predicate NotTakenUp(y: System, s: E.SessionId) {
    y.responder.current.session != s && s !in y.fromResponder
  }

  /** In `y` the responder has switched to the initiator's session `s`; in `z` it still holds it as `next`. */
  ghost predicate Apart(y: System, z: System, s: E.SessionId) {
    && y.initiator.current.session == s && y.initiator.rekey == None && y.accepted == y.rounds
    && y.responder.current.session == s && y.responder.next == None
    && z.responder.next.Some? && z.responder.next.value.plane.session == s && z.responder.next.value.round == y.accepted
    && z.responder.current.session in z.fromResponder && z.fromResponder == y.fromResponder - {s}
  }

  /** `y` is the run as it was, `z` with session `s` muted: they differ only at the responder. */
  ghost predicate Shadows(y: System, z: System, s: E.SessionId) {
    && z == y.(responder := z.responder, fromResponder := z.fromResponder)
    && (Apart(y, z, s) || (y == z && NotTakenUp(y, s)))
  }

  lemma MutedFrameKeepsShadow(y: System, z: System, s: E.SessionId, outcome: E.Outcome)
    requires Inv(y) && Shadows(y, z, s)
    ensures Shadows(Step(y, ToResponder(s, outcome)), z, s)
  {
    if y == z && E.ConfirmsNext(y.responder, E.Frame(s, outcome)) && s in y.fromInitiator {
      assert !Confirmed(y);
    }
  }

  lemma StepKeepsShadow(y: System, z: System, s: E.SessionId, v: Event)
    requires Inv(y) && Shadows(y, z, s) && !Reports(v, s)
    requires v.Begins? ==> Heard(y)
    requires s !in Step(y, v).heard
    ensures Shadows(Step(y, v), Step(z, v), s)
  {
    if y != z {
      ApartStays(y, z, s, v);
    }
  }

  lemma ApartStays(y: System, z: System, s: E.SessionId, v: Event)
    requires Inv(y) && z == y.(responder := z.responder, fromResponder := z.fromResponder) && Apart(y, z, s)
    requires !Reports(v, s) && (v.Begins? ==> Heard(y)) && s !in Step(y, v).heard
    ensures Step(z, v) == Step(y, v).(responder := Step(z, v).responder, fromResponder := Step(z, v).fromResponder)
    ensures Apart(Step(y, v), Step(z, v), s)
  {
  }

  lemma HeardGrows(y: System, v: Event)
    ensures y.heard <= Step(y, v).heard
  {
  }

  lemma {:induction false} CautiousOneMore(interval: nat, now: nat, vs: seq<Event>, v: Event)
    requires Cautious(interval, now, vs) && (v.Begins? ==> Heard(Run(interval, now, vs)))
    ensures Cautious(interval, now, vs + [v])
  {
    hide Heard, Run;
    forall k | 0 <= k < |vs + [v]| && (vs + [v])[k].Begins?
      ensures Heard(Before(interval, now, vs + [v], k))
    {
      assert (vs + [v])[..k] == vs[..k];
      if k < |vs| {
        assert Heard(Before(interval, now, vs, k));
      } else {
        assert vs[..k] == vs;
      }
    }
  }

  /** Muting a session the initiator never heard under gives another cautious run, and the initiator sees no difference. */
  lemma {:induction false} MutedRunShadows(interval: nat, now: nat, vs: seq<Event>, s: E.SessionId)
    requires Cautious(interval, now, vs) && s !in Run(interval, now, vs).heard
    ensures Cautious(interval, now, Muted(vs, s))
    ensures Shadows(Run(interval, now, vs), Run(interval, now, Muted(vs, s)), s)
  {
    if vs != [] {
      var before, v := vs[..|vs| - 1], vs[|vs| - 1];
      var y, muted := Run(interval, now, before), Muted(before, s);
      PrefixIsCautious(interval, now, vs);
      HeardGrows(y, v);
      MutedRunShadows(interval, now, before, s);
      CautiousIsDisciplined(interval, now, before);
      EveryRunKeepsInv(interval, now, before);
      hide Inv, Step, Cautious, Disciplined;
      if Reports(v, s) {
        MutedFrameKeepsShadow(y, Run(interval, now, muted), s, v.outcome);
        assert muted + [] == muted;
      } else {
        StepKeepsShadow(y, Run(interval, now, muted), s, v);
        CautiousOneMore(interval, now, muted, v);
        RunOneMore(interval, now, muted, v);
      }
    }
  }

  /** An initiator that has not heard under its session cannot rule out that the next round cuts it off. */
  lemma {:induction false} UnheardMayCutOff(interval: nat, now: nat, vs: seq<Event>, payload: Bytes) returns (ws: seq<Event>)
    requires Cautious(interval, now, vs) && Due(Run(interval, now, vs)) && !Heard(Run(interval, now, vs))
    ensures Cautious(interval, now, ws) && SameView(Run(interval, now, ws), Run(interval, now, vs))
    ensures !ReachesResponder(NextRound(Run(interval, now, ws)), payload)
  {
    var s := Run(interval, now, vs).initiator.current.session;
    ws := Muted(vs, s);
    MutedRunShadows(interval, now, vs, s);
    CautiousIsDisciplined(interval, now, ws);
    EveryRunKeepsInv(interval, now, ws);
    EarlyRoundCutsOffIff(interval, now, ws, payload);
    UnheardIsUnconfirmed(Run(interval, now, vs), Run(interval, now, ws), s);
  }

  lemma UnheardIsUnconfirmed(y: System, z: System, s: E.SessionId)
    requires Shadows(y, z, s) && y.initiator.current.session == s
    ensures !Confirmed(z)
  {
  }

  ghost predicate Alike(interval: nat, now: nat, vs: seq<Event>, ws: seq<Event>) {
    Cautious(interval, now, ws) && SameView(Run(interval, now, ws), Run(interval, now, vs))
  }

  /**
   The exact test: when a round is due, the initiator has heard under its session if and only if beginning the round is
   safe in every run it cannot tell from this one.
   */
  lemma {:induction false} SafeToBeginIffHeard(interval: nat, now: nat, vs: seq<Event>, payload: Bytes)
    requires Cautious(interval, now, vs) && Due(Run(interval, now, vs))
    ensures Heard(Run(interval, now, vs)) <==>
            forall ws :: Alike(interval, now, vs, ws) ==> ReachesResponder(NextRound(Run(interval, now, ws)), payload)
  {
    if Heard(Run(interval, now, vs)) {
      forall ws | Alike(interval, now, vs, ws)
        ensures ReachesResponder(NextRound(Run(interval, now, ws)), payload)
      {
        HeardIsSafe(interval, now, ws, payload);
      }
    } else {
      var ws := UnheardMayCutOff(interval, now, vs, payload);
      assert Alike(interval, now, vs, ws);
    }
  }

  lemma {:induction false} HeardIsSafe(interval: nat, now: nat, vs: seq<Event>, payload: Bytes)
    requires Cautious(interval, now, vs) && Due(Run(interval, now, vs)) && Heard(Run(interval, now, vs))
    ensures ReachesResponder(NextRound(Run(interval, now, vs)), payload)
  {
    CautiousIsDisciplined(interval, now, vs);
    HeardWasSent(interval, now, vs);
    InboundFrameConfirms(interval, now, vs);
    EarlyRoundCutsOffIff(interval, now, vs, payload);
  }
}
