/**
 The session-epoch set of bin/yipd/src/epoch.rs. A data plane is reduced to the session it belongs to and the address it
 sends to; it opens exactly the frames sealed under its own session.
 */
module Epoch {
  import opened Prelude

  const GraceMs: nat := 15_000

  type SessionId = nat
  type Address = nat
  /** The initiator ephemeral that identifies a rekey round. */
  type Round = nat

  /** What the caller must do with a datagram; `Nothing` also for an authentic frame that completes no packet. */
  datatype Outcome = Nothing | Delivers(payload: Bytes)
  datatype Frame = Frame(session: SessionId, outcome: Outcome)
  datatype Plane = Plane(session: SessionId, peer: Address)

  function Open(p: Plane, frame: Frame): Outcome {
    if frame.session == p.session then frame.outcome else Nothing
  }

  datatype Next = Next(plane: Plane, round: Round, cachedResp: SessionId)
  datatype InFlight = InFlight(round: Round, target: Address)

  datatype Epochs = Epochs(
    current: Plane, createdMs: nat,
    next: Option<Next>,
    previous: Option<Plane>, retireMs: nat,
    rekey: Option<InFlight>,
    epoch: nat)

  function New(current: Plane, now: nat): Epochs {
    Epochs(current, now, None, None, 0, None, 1)
  }

  function SetPeerAddr(e: Epochs, addr: Address): Epochs {
    e.(current := e.current.(peer := addr),
       next := match e.next case Some(n) => Some(n.(plane := n.plane.(peer := addr))) case None => None,
       previous := match e.previous case Some(p) => Some(p.(peer := addr)) case None => None,
       rekey := match e.rekey case Some(rk) => Some(rk.(target := addr)) case None => None)
  }

  /** The switch both sides make: `plane` becomes current, the superseded epoch is kept for the grace period. */
  function Supersede(e: Epochs, plane: Plane, now: nat): Epochs {
    e.(current := plane, createdMs := now,
       previous := Some(e.current), retireMs := SatAdd(now, GraceMs, U64_MAX),
       epoch := SatAdd(e.epoch, 1, U64_MAX))
  }

  predicate ConfirmsNext(e: Epochs, frame: Frame) {
    Open(e.current, frame) == Nothing && e.next.Some? && Open(e.next.value.plane, frame) != Nothing
  }

  function InboundOutcome(e: Epochs, frame: Frame): Outcome {
    if Open(e.current, frame) != Nothing then Open(e.current, frame)
    else if ConfirmsNext(e, frame) then Open(e.next.value.plane, frame)
    else if e.previous.Some? then Open(e.previous.value, frame)
    else Nothing
  }

  function InboundOpen(e: Epochs, frame: Frame, now: nat): Epochs {
    if ConfirmsNext(e, frame) then Supersede(e, e.next.value.plane, now).(next := None) else e
  }

  function PromoteFromRekey(e: Epochs, plane: Plane, now: nat): Epochs {
    Supersede(e, plane, now).(rekey := None)
  }

  function InstallNext(e: Epochs, plane: Plane, round: Round, resp: SessionId): Epochs {
    e.(next := Some(Next(plane, round, resp)))
  }

  function CachedRespFor(e: Epochs, round: Round): Option<SessionId> {
    if e.next.Some? && e.next.value.round == round then Some(e.next.value.cachedResp) else None
  }

  function RetireIfDue(e: Epochs, now: nat): Epochs {
    if e.previous.Some? && now >= e.retireMs then e.(previous := None) else e
  }

  /** The rekey schedule: the side that does not start by rights waits twice as long (saturating). */
  predicate NeedsRekey(e: Epochs, now: nat, winner: bool, interval: nat) {
    e.rekey == None && SatSub(now, e.createdMs) >= if winner then interval else Min(2 * interval, U64_MAX)
  }

  // ---- Whole runs of one epoch set -------------------------------------------------------------------------------

  datatype Event =
    | Opens(frame: Frame, now: nat)
    | Starts(inFlight: InFlight)
    | Completes(session: SessionId, now: nat)  // a Resp for the round in flight: the new plane sends to its target
    | Abandons
    | Installs(plane: Plane, round: Round)
    | Ticks(now: nat)
    | Roams(addr: Address)

  function Step(e: Epochs, v: Event): Epochs {
    match v
    case Opens(frame, now) => InboundOpen(e, frame, now)
    case Starts(inFlight) => e.(rekey := Some(inFlight))
    case Completes(session, now) =>
      if e.rekey.Some? then PromoteFromRekey(e, Plane(session, e.rekey.value.target), now) else e
    case Abandons => e.(rekey := None)
    case Installs(plane, round) => InstallNext(e, plane, round, plane.session)
    case Ticks(now) => RetireIfDue(e, now)
    case Roams(addr) => SetPeerAddr(e, addr)
  }

  function Run(first: Plane, born: nat, vs: seq<Event>): Epochs {
    if vs == [] then New(first, born) else Step(Run(first, born, vs[..|vs| - 1]), vs[|vs| - 1])
  }

  /** The sessions that have been current, in order: the first one and one for every promotion. */
  function Lineage(first: Plane, born: nat, vs: seq<Event>): seq<SessionId> {
    if vs == [] then [first.session] else
      var before, v := Run(first, born, vs[..|vs| - 1]), vs[|vs| - 1];
      Lineage(first, born, vs[..|vs| - 1]) +
      if v.Opens? && ConfirmsNext(before, v.frame) then [before.next.value.plane.session]
      else if v.Completes? && before.rekey.Some? then [v.session]
      else []
  }

  /** When the current session took over: the time of the last promoting event, or of birth. */
  function SwitchedAt(first: Plane, born: nat, vs: seq<Event>): nat {
    if vs == [] then born else
      var before, v := Run(first, born, vs[..|vs| - 1]), vs[|vs| - 1];
      if v.Opens? && ConfirmsNext(before, v.frame) then v.now
      else if v.Completes? && before.rekey.Some? then v.now
      else SwitchedAt(first, born, vs[..|vs| - 1])
  }

  /**
   Over every run: `previous` is the immediate predecessor of `current` and is held until 15 s after the switch; the
   current session's age counts from the switch; the epoch number counts the promotions.
   */
  lemma {:induction false} EveryRunKeepsLineage(first: Plane, born: nat, vs: seq<Event>)
    ensures
      var e, l, t := Run(first, born, vs), Lineage(first, born, vs), SwitchedAt(first, born, vs);
      && l != [] && l[|l| - 1] == e.current.session && e.createdMs == t
      && (e.previous.Some? ==> |l| >= 2 && l[|l| - 2] == e.previous.value.session && e.retireMs == SatAdd(t, 15_000, U64_MAX))
      && e.epoch == Min(|l|, U64_MAX)
  {
    if vs != [] {
      EveryRunKeepsLineage(first, born, vs[..|vs| - 1]);
    }
  }

  /** A superseded epoch outlives no tick 15 s or more after the switch, and is dropped by nothing else. */
  lemma {:induction false} TicksRetireExactlyAtTheDeadline(first: Plane, born: nat, vs: seq<Event>, v: Event)
    requires Run(first, born, vs).previous.Some?
    ensures Run(first, born, vs + [v]).previous == None <==>
            v.Ticks? && v.now >= SatAdd(SwitchedAt(first, born, vs), 15_000, U64_MAX)
  {
    EveryRunKeepsLineage(first, born, vs);
    assert (vs + [v])[..|vs|] == vs;
  }

  /**
   Both schedules, in time since the switch: with no round in flight, the side that starts by rights may start one after
   an interval, the other side after two (or never, if two do not fit the clock's 64 bits and it has not run that long).
   */
  lemma {:induction false} DueAfterTheInterval(first: Plane, born: nat, vs: seq<Event>, now: nat, interval: nat)
    requires 0 < interval <= U64_MAX
    ensures
      var e, t := Run(first, born, vs), SwitchedAt(first, born, vs);
      && (NeedsRekey(e, now, true, interval) <==> e.rekey == None && now >= t + interval)
      && (NeedsRekey(e, now, false, interval) <==> e.rekey == None && now >= t + Min(interval + interval, U64_MAX))
  {
    EveryRunKeepsLineage(first, born, vs);
    hide Run, SwitchedAt;
  }

  // ---- Roaming ---------------------------------------------------------------------------------------------------

  predicate AllAt(e: Epochs, addr: Address) {
    && e.current.peer == addr
    && (e.next.Some? ==> e.next.value.plane.peer == addr)
    && (e.previous.Some? ==> e.previous.value.peer == addr)
    && (e.rekey.Some? ==> e.rekey.value.target == addr)
  }

  /** The event brings in no other address of its own. */
  predicate NamesOnly(v: Event, addr: Address) {
    match v
    case Starts(inFlight) => inFlight.target == addr
    case Installs(plane, round) => plane.peer == addr
    case Roams(a) => a == addr
    case _ => true
  }

  /** A roam sticks: whatever is promoted or completed afterwards still sends to the new address. */
  lemma {:induction false} RoamIsNotUndone(first: Plane, born: nat, vs: seq<Event>, k: nat, addr: Address)
    requires k < |vs| && vs[k] == Roams(addr)
    requires forall i :: k < i < |vs| ==> NamesOnly(vs[i], addr)
    ensures AllAt(Run(first, born, vs), addr)
  {
    if k < |vs| - 1 {
      RoamIsNotUndone(first, born, vs[..|vs| - 1], k, addr);
    }
  }

  /** The same but for addresses. */
  predicate SameSessions(e: Epochs, e': Epochs) {
    && e'.current.session == e.current.session && e'.createdMs == e.createdMs
    && (e'.next.Some? <==> e.next.Some?)
    && (e.next.Some? ==>
          && e'.next.value.plane.session == e.next.value.plane.session
          && e'.next.value.round == e.next.value.round && e'.next.value.cachedResp == e.next.value.cachedResp)
    && (e'.previous.Some? <==> e.previous.Some?)
    && (e.previous.Some? ==> e'.previous.value.session == e.previous.value.session)
    && e'.retireMs == e.retireMs
    && (e'.rekey.Some? <==> e.rekey.Some?)
    && (e.rekey.Some? ==> e'.rekey.value.round == e.rekey.value.round)
    && e'.epoch == e.epoch
  }

  /** The same run of a peer that stays where it is. */
  function Stationary(vs: seq<Event>): seq<Event> {
    if vs == [] then [] else Stationary(vs[..|vs| - 1]) + if vs[|vs| - 1].Roams? then [] else [vs[|vs| - 1]]
  }

  lemma StepKeepsSameSessions(e: Epochs, e': Epochs, v: Event)
    requires SameSessions(e, e')
    ensures v.Roams? ==> SameSessions(Step(e, v), e')
    ensures SameSessions(Step(e, v), Step(e', v))
  {
  }

  /** Roaming changes addresses and nothing else: leaving the roams out of a run leaves the same sessions, rounds and times. */
  lemma {:induction false} RoamingIsTransparent(first: Plane, born: nat, vs: seq<Event>)
    ensures SameSessions(Run(first, born, vs), Run(first, born, Stationary(vs)))
    ensures forall frame :: InboundOutcome(Run(first, born, vs), frame) == InboundOutcome(Run(first, born, Stationary(vs)), frame)
  {
    if vs != [] {
      var before, v := vs[..|vs| - 1], vs[|vs| - 1];
      RoamingIsTransparent(first, born, before);
      StepKeepsSameSessions(Run(first, born, before), Run(first, born, Stationary(before)), v);
      if v.Roams? {
        assert Stationary(vs) == Stationary(before);
      } else {
        assert Stationary(vs)[..|Stationary(before)|] == Stationary(before);
      }
      hide Step;
    }
  }
}
