/**
 Two epoch sets and a network that loses, duplicates and reorders: one side initiates rekeys (`drive_rekey_schedule` and
 `rekey_resp_core` of bin/yipd/src/peer_manager/rekey.rs), the other answers (`rekey_init_core`). Whatever was ever sent
 may arrive any number of times, in any order, or never.
 */
module Rekey {
  import opened Prelude
  import opened Epoch

  datatype Resp = Resp(round: Round, session: SessionId)

  datatype System = System(
    initiator: Epochs,
    responder: Epochs,
    rounds: Round,                 // the newest round begun; Inits carry increasing timestamps, so a round is its timestamp
    accepted: Round,               // last_accepted_init_ts of the responder
    sessions: nat,                 // sessions minted so far; the next one is new
    resps: set<Resp>,              // every Resp ever sent
    fromInitiator: set<SessionId>, // sessions the initiator ever sealed a frame under
    fromResponder: set<SessionId>,
    heard: set<SessionId>,         // sessions under which the initiator has opened a frame
    superseded: SessionId,         // the session the initiator's current one replaced
    interval: nat,                 // rekey_interval_ms
    clock: nat)

  /** Both sides hold session 0 from the cold start, whose Init was round 0 and whose Resp the initiator has heard. */
  function Established(interval: nat, now: nat): System {
    System(New(Plane(0, 0), now), New(Plane(0, 0), now), 0, 0, 1, {Resp(0, 0)}, {0}, {0}, {0}, 0, interval, now)
  }

  datatype Event =
    | Begins                                         // a tick that starts a new round, if one is due
    | Abandons                                       // timeout, or a Resp that does not parse
    | InitArrives(round: Round)
    | RespArrives(resp: Resp)
    | ToResponder(session: SessionId, outcome: Outcome)
    | ToInitiator(session: SessionId, outcome: Outcome)
    | TicksInitiator
    | TicksResponder
    | Passes(ms: nat)

  /** The answer to an Init: resend for the round behind `next`, drop what is not newer, else mint and install. */
  function OnInit(y: System, round: Round): System {
    if round > y.rounds || CachedRespFor(y.responder, round).Some? || round <= y.accepted then y
    else y.(responder := InstallNext(y.responder, Plane(y.sessions, 0), round, y.sessions),
            accepted := round,
            sessions := y.sessions + 1,
            resps := y.resps + {Resp(round, y.sessions)})
  }

  /** `rekey.take()`, then `read_response`: only a Resp for the round in flight completes it. */
  function OnResp(y: System, resp: Resp): System {
    if resp !in y.resps || y.initiator.rekey == None then y
    else if y.initiator.rekey.value.round != resp.round then y.(initiator := y.initiator.(rekey := None))
    else y.(initiator := PromoteFromRekey(y.initiator, Plane(resp.session, 0), y.clock),
            fromInitiator := y.fromInitiator + {resp.session},
            superseded := y.initiator.current.session)
  }

  /** The initiator's current session has aged enough and no round is in flight. */
  predicate Due(y: System) {
    NeedsRekey(y.initiator, y.clock, true, y.interval)
  }

  function Step(y: System, v: Event): System {
    match v
    case Begins =>
      if !Due(y) then y
      else y.(initiator := y.initiator.(rekey := Some(InFlight(y.rounds + 1, 0))), rounds := y.rounds + 1)
    case Abandons => y.(initiator := y.initiator.(rekey := None))
    case InitArrives(round) => OnInit(y, round)
    case RespArrives(resp) => OnResp(y, resp)
    case ToResponder(session, outcome) =>
      if session !in y.fromInitiator then y else
        var r := InboundOpen(y.responder, Frame(session, outcome), y.clock);
        y.(responder := r, fromResponder := y.fromResponder + {r.current.session})
    case ToInitiator(session, outcome) =>
      if session !in y.fromResponder then y
      else y.(initiator := InboundOpen(y.initiator, Frame(session, outcome), y.clock),
              heard := if InboundOutcome(y.initiator, Frame(session, outcome)) == Nothing then y.heard else y.heard + {session})
    case TicksInitiator => y.(initiator := RetireIfDue(y.initiator, y.clock))
    case TicksResponder => y.(responder := RetireIfDue(y.responder, y.clock))
    case Passes(ms) => y.(clock := y.clock + ms)
  }

  function Run(interval: nat, now: nat, vs: seq<Event>): System {
    if vs == [] then Established(interval, now) else Step(Run(interval, now, vs[..|vs| - 1]), vs[|vs| - 1])
  }

  /** The responder has switched to the initiator's session. */
  predicate Confirmed(y: System) {
    y.responder.current.session == y.initiator.current.session
  }

  /** A round is begun only once the previous one has been confirmed. */
  ghost predicate Disciplined(interval: nat, now: nat, vs: seq<Event>) {
    forall k :: 0 <= k < |vs| && vs[k].Begins? ==> Confirmed(Run(interval, now, vs[..k]))
  }

  // ---- The invariant ---------------------------------------------------------------------------------------------

  /** Rounds and sessions are minted once: a round has one session, and nothing names a session not yet minted. */
  ghost predicate Minted(y: System) {
    && y.accepted <= y.rounds
    && (forall a :: a in y.resps ==> a.round <= y.accepted && a.session < y.sessions)
    && (forall a, b :: a in y.resps && b in y.resps && (a.round == b.round || a.session == b.session) ==> a == b)
    && (forall s :: s in y.fromInitiator || s in y.fromResponder ==> s < y.sessions)
    && y.initiator.current.session in y.fromInitiator
    && y.responder.current.session in y.fromResponder
    && (y.responder.previous.Some? ==> y.responder.previous.value.session in y.fromResponder)
  }

  ghost predicate InitiatorSide(y: System) {
    && y.initiator.next == None
    && (y.initiator.rekey.Some? ==>
          && y.initiator.rekey.value.round == y.rounds
          && Confirmed(y)
          && forall a :: a in y.resps && a.round == y.rounds ==> a.session !in y.fromInitiator)
    && (y.initiator.previous.Some? ==> y.initiator.previous.value.session == y.superseded)
  }

  /** `next` is the newest accepted round; the initiator uses it only as its current session. */
  ghost predicate ResponderSide(y: System) {
    && (y.responder.next.Some? ==>
          var n := y.responder.next.value;
          && n.round == y.accepted && Resp(n.round, n.plane.session) in y.resps
          && n.cachedResp == n.plane.session
          && n.plane.session !in y.fromResponder
          && (n.plane.session in y.fromInitiator ==> n.plane.session == y.initiator.current.session))
    && (forall a :: a in y.resps && a.round == y.accepted && a.session !in y.fromInitiator ==>
          y.responder.next.Some? && y.responder.next.value.plane.session == a.session)
    && (y.initiator.current.session in y.fromResponder ==> Confirmed(y))
  }

  /** While unconfirmed, the responder's `next` is the initiator's current session and its current the one replaced. */
  ghost predicate InStep(y: System) {
    !Confirmed(y) ==>
      && y.accepted == y.rounds
      && y.responder.next.Some? && y.responder.next.value.plane.session == y.initiator.current.session
      && y.responder.current.session == y.superseded
      && (y.initiator.previous.Some? || y.clock >= y.initiator.retireMs)
  }

  ghost predicate Inv(y: System) {
    Minted(y) && InitiatorSide(y) && ResponderSide(y) && InStep(y)
  }

  lemma InitKeepsInv(y: System, round: Round)
    requires Inv(y)
    ensures Inv(OnInit(y, round))
  {
    if OnInit(y, round) != y {
      assert Confirmed(y);
    }
  }

  lemma RespKeepsInv(y: System, resp: Resp)
    requires Inv(y)
    ensures Inv(OnResp(y, resp))
  {
  }

  lemma FrameKeepsInv(y: System, session: SessionId, outcome: Outcome)
    requires Inv(y)
    ensures Inv(Step(y, ToResponder(session, outcome)))
    ensures Inv(Step(y, ToInitiator(session, outcome)))
  {
  }

  lemma StepKeepsInv(y: System, v: Event)
    requires Inv(y) && (v.Begins? ==> Confirmed(y))
    ensures Inv(Step(y, v))
  {
    match v {
      case InitArrives(round) => InitKeepsInv(y, round);
      case RespArrives(resp) => RespKeepsInv(y, resp);
      case ToResponder(session, outcome) => FrameKeepsInv(y, session, outcome);
      case ToInitiator(session, outcome) => FrameKeepsInv(y, session, outcome);
      case Begins =>
      case Abandons =>
      case TicksInitiator =>
      case TicksResponder =>
      case Passes(ms) =>
    }
  }

  lemma {:induction false} EveryRunKeepsInv(interval: nat, now: nat, vs: seq<Event>)
    requires Disciplined(interval, now, vs)
    ensures Inv(Run(interval, now, vs))
  {
    if vs != [] {
      var before := vs[..|vs| - 1];
      assert forall k :: 0 <= k <= |before| ==> before[..k] == vs[..k];
      EveryRunKeepsInv(interval, now, before);
      StepKeepsInv(Run(interval, now, before), vs[|vs| - 1]);
    }
  }

  // ---- What it means ---------------------------------------------------------------------------------------------

  /** What the initiator sends now, the responder opens now. */
  predicate ReachesResponder(y: System, payload: Bytes) {
    InboundOutcome(y.responder, Frame(y.initiator.current.session, Delivers(payload))) == Delivers(payload)
  }

  predicate ReachesInitiator(y: System, payload: Bytes) {
    InboundOutcome(y.initiator, Frame(y.responder.current.session, Delivers(payload))) == Delivers(payload)
  }

  /** When the initiator's current session took over. */
  function SwitchedAt(interval: nat, now: nat, vs: seq<Event>): nat {
    if vs == [] then now else
      var y, v := Run(interval, now, vs[..|vs| - 1]), vs[|vs| - 1];
      if v.RespArrives? && Completes(y, v.resp) then y.clock else SwitchedAt(interval, now, vs[..|vs| - 1])
  }

  /** The Resp was sent, and for the round in flight. */
  predicate Completes(y: System, resp: Resp) {
    resp in y.resps && y.initiator.rekey.Some? && y.initiator.rekey.value.round == resp.round
  }

  /** The initiator's own times count from the switch. */
  lemma {:induction false} TimesCountFromTheSwitch(interval: nat, now: nat, vs: seq<Event>)
    requires Disciplined(interval, now, vs)
    ensures
      var y, t := Run(interval, now, vs), SwitchedAt(interval, now, vs);
      && y.initiator.createdMs == t && 0 in y.fromResponder && y.interval == interval
      && (y.initiator.current.session == 0 || y.initiator.retireMs == SatAdd(t, 15_000, U64_MAX))
  {
    if vs != [] {
      var before := vs[..|vs| - 1];
      assert forall k :: 0 <= k <= |before| ==> before[..k] == vs[..k];
      TimesCountFromTheSwitch(interval, now, before);
      EveryRunKeepsInv(interval, now, before);
    }
  }

  /** A round is due exactly when none is in flight and an interval has passed since the switch. */
  lemma {:induction false} RoundIsDueIff(interval: nat, now: nat, vs: seq<Event>)
    requires Disciplined(interval, now, vs) && interval > 0
    ensures
      var y := Run(interval, now, vs);
      Due(y) <==> y.initiator.rekey == None && y.clock >= SwitchedAt(interval, now, vs) + interval
  {
    TimesCountFromTheSwitch(interval, now, vs);
    hide Run, SwitchedAt;
  }

  /**
   No black hole: in every reachable state the responder opens what the initiator sends; and the initiator opens what the
   responder sends, for at least 15 s after a switch even if the responder does not follow.
   */
  lemma {:induction false} RekeyNeverBlackHoles(interval: nat, now: nat, vs: seq<Event>, payload: Bytes)
    requires Disciplined(interval, now, vs)
    ensures
      var y := Run(interval, now, vs);
      && ReachesResponder(y, payload)
      && (Confirmed(y) || y.clock < SatAdd(SwitchedAt(interval, now, vs), 15_000, U64_MAX) ==> ReachesInitiator(y, payload))
  {
    EveryRunKeepsInv(interval, now, vs);
    TimesCountFromTheSwitch(interval, now, vs);
    hide Run, SwitchedAt;
  }

  /** The initiator's session is the responder's current or next; the responder's is the initiator's or the one it replaced. */
  lemma {:induction false} SidesStayInStep(interval: nat, now: nat, vs: seq<Event>)
    requires Disciplined(interval, now, vs)
    ensures
      var i, r := Run(interval, now, vs).initiator, Run(interval, now, vs).responder;
      && (i.current.session == r.current.session || (r.next.Some? && i.current.session == r.next.value.plane.session))
      && (r.current.session == i.current.session || r.current.session == Run(interval, now, vs).superseded)
      && (i.previous.Some? ==> i.previous.value.session == Run(interval, now, vs).superseded)
  {
    EveryRunKeepsInv(interval, now, vs);
  }

  /** Every Resp the initiator can still accept names exactly the session the responder holds as `next`. */
  lemma {:induction false} AcceptableRespNamesNext(interval: nat, now: nat, vs: seq<Event>, resp: Resp)
    requires Disciplined(interval, now, vs)
    requires resp in Run(interval, now, vs).resps && Run(interval, now, vs).initiator.rekey.Some?
    requires Run(interval, now, vs).initiator.rekey.value.round == resp.round
    ensures Run(interval, now, vs).responder.next.Some?
    ensures Run(interval, now, vs).responder.next.value.plane.session == resp.session
    ensures CachedRespFor(Run(interval, now, vs).responder, resp.round) == Some(resp.session)
  {
    EveryRunKeepsInv(interval, now, vs);
  }

  /** How the initiator can tell: a frame from the responder under its current session is the confirmation. */
  lemma {:induction false} InboundFrameConfirms(interval: nat, now: nat, vs: seq<Event>)
    requires Disciplined(interval, now, vs)
    requires Run(interval, now, vs).initiator.current.session in Run(interval, now, vs).fromResponder
    ensures Confirmed(Run(interval, now, vs))
  {
    EveryRunKeepsInv(interval, now, vs);
  }

  // ---- A test the initiator can make -----------------------------------------------------------------------------

  /** The initiator has opened a frame under its current session. */
  predicate Heard(y: System) {
    y.initiator.current.session in y.heard
  }

  /** The state before event `k` of a run. */
  function Before(interval: nat, now: nat, vs: seq<Event>, k: nat): System
    requires k <= |vs|
  {
    Run(interval, now, vs[..k])
  }

  /** Rounds are begun only after hearing under the current session, which the initiator sees for itself. */
  ghost predicate Cautious(interval: nat, now: nat, vs: seq<Event>) {
    forall k :: 0 <= k < |vs| && vs[k].Begins? ==> Heard(Before(interval, now, vs, k))
  }

  lemma {:induction false} PrefixIsCautious(interval: nat, now: nat, vs: seq<Event>)
    requires Cautious(interval, now, vs) && vs != []
    ensures Cautious(interval, now, vs[..|vs| - 1])
    ensures vs[|vs| - 1].Begins? ==> Heard(Run(interval, now, vs[..|vs| - 1]))
  {
    var before := vs[..|vs| - 1];
    forall k | 0 <= k < |before| && before[k].Begins?
      ensures Heard(Before(interval, now, before, k))
    {
      assert before[..k] == vs[..k];
      assert Heard(Before(interval, now, vs, k));
    }
    assert vs[|vs| - 1].Begins? ==> Heard(Before(interval, now, vs, |vs| - 1));
  }

  lemma {:induction false} HeardWasSent(interval: nat, now: nat, vs: seq<Event>)
    ensures Run(interval, now, vs).heard <= Run(interval, now, vs).fromResponder
  {
    if vs != [] {
      HeardWasSent(interval, now, vs[..|vs| - 1]);
    }
  }

  lemma {:induction false} DisciplinedOneMore(interval: nat, now: nat, vs: seq<Event>)
    requires vs != [] && Disciplined(interval, now, vs[..|vs| - 1])
    requires vs[|vs| - 1].Begins? ==> Confirmed(Run(interval, now, vs[..|vs| - 1]))
    ensures Disciplined(interval, now, vs)
  {
    hide Confirmed, Run;
    assert forall k :: 0 <= k < |vs| ==> vs[..|vs| - 1][..k] == vs[..k];
  }

  /** Waiting to hear is discipline enough. */
  lemma {:induction false} CautiousIsDisciplined(interval: nat, now: nat, vs: seq<Event>)
    requires Cautious(interval, now, vs)
    ensures Disciplined(interval, now, vs)
  {
    if vs != [] {
      var before := vs[..|vs| - 1];
      PrefixIsCautious(interval, now, vs);
      CautiousIsDisciplined(interval, now, before);
      if vs[|vs| - 1].Begins? {
        HeardWasSent(interval, now, before);
        InboundFrameConfirms(interval, now, before);
      }
      DisciplinedOneMore(interval, now, vs);
    }
  }

  /** So a cautious initiator is never cut off. */
  lemma {:induction false} CautiousNeverBlackHoles(interval: nat, now: nat, vs: seq<Event>, payload: Bytes)
    requires Cautious(interval, now, vs)
    ensures
      var y := Run(interval, now, vs);
      && ReachesResponder(y, payload)
      && (Confirmed(y) || y.clock < SatAdd(SwitchedAt(interval, now, vs), 15_000, U64_MAX) ==> ReachesInitiator(y, payload))
  {
    CautiousIsDisciplined(interval, now, vs);
    RekeyNeverBlackHoles(interval, now, vs, payload);
  }

  // ---- Beginning a round too early -------------------------------------------------------------------------------

  /** The state once a new round's Init has arrived. */
  function NextRound(y: System): System {
    Step(Step(y, Begins), InitArrives(y.rounds + 1))
  }

  lemma FreshInitIsInstalled(y: System)
    requires Inv(y) && Due(y)
    ensures NextRound(y).initiator.current == y.initiator.current
    ensures NextRound(y).responder == InstallNext(y.responder, Plane(y.sessions, 0), y.rounds + 1, y.sessions)
  {
  }

  lemma NextRoundCutsOffIff(y: System, payload: Bytes)
    requires Inv(y) && Due(y)
    ensures ReachesResponder(NextRound(y), payload) <==> Confirmed(y)
  {
    FreshInitIsInstalled(y);
    hide Step, NextRound, Due;
  }

  /**
   Exactly when the discipline is needed: from a reachable state in which a round is due, a new round whose Init arrives
   cuts the initiator off if and only if the previous switch was still unconfirmed.
   */
  lemma {:induction false} EarlyRoundCutsOffIff(interval: nat, now: nat, vs: seq<Event>, payload: Bytes)
    requires Disciplined(interval, now, vs) && Due(Run(interval, now, vs))
    ensures ReachesResponder(NextRound(Run(interval, now, vs)), payload) <==> Confirmed(Run(interval, now, vs))
  {
    EveryRunKeepsInv(interval, now, vs);
    NextRoundCutsOffIff(Run(interval, now, vs), payload);
  }

  lemma RunOneMore(interval: nat, now: nat, vs: seq<Event>, v: Event)
    ensures Run(interval, now, vs + [v]) == Step(Run(interval, now, vs), v)
  {
    assert (vs + [v])[..|vs|] == vs;
  }

  /** The shortest such run, at the scheduled times: one switch the responder never hears of, then the next round. */
  lemma UnconfirmedRoundBlackHoles(interval: nat, now: nat, payload: Bytes) returns (vs: seq<Event>)
    ensures vs == [] + [Passes(interval)] + [Begins] + [InitArrives(1)] + [RespArrives(Resp(1, 1))]
                  + [Passes(interval)] + [Begins] + [InitArrives(2)]
    ensures !ReachesResponder(Run(interval, now, vs), payload)
  {
    var v1 := [] + [Passes(interval)];
    var v2 := v1 + [Begins];
    var v3 := v2 + [InitArrives(1)];
    var v4 := v3 + [RespArrives(Resp(1, 1))];
    var v5 := v4 + [Passes(interval)];
    var v6 := v5 + [Begins];
    vs := v6 + [InitArrives(2)];
    RunOneMore(interval, now, [], Passes(interval));
    RunOneMore(interval, now, v1, Begins);
    RunOneMore(interval, now, v2, InitArrives(1));
    RunOneMore(interval, now, v3, RespArrives(Resp(1, 1)));
    RunOneMore(interval, now, v4, Passes(interval));
    RunOneMore(interval, now, v5, Begins);
    RunOneMore(interval, now, v6, InitArrives(2));
  }
}
