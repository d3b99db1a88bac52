/**
 The coordinator and one signer, joined by connections that may lose messages but deliver each at most once. A nonce slot
 is in flight to the coordinator, queued there, or in flight back in a signing request. The signer may restart at any
 time, and whoever else is connected may register offers and answer sessions under any name, this signer's included: the
 coordinator takes the name from the message.
 */
module NonceFlow {
  import opened Prelude
  import Roast
  import RoastRuns
  import RoastBreaks
  import Signer
  import CertTbs

  type Slot = Roast.Slot
  type Offer = Roast.Offer

  datatype System = System(
    coordinator: Roast.State,
    vault: Signer.Vault,
    offered: set<Slot>,     // published or replenished, not yet at the coordinator
    requested: set<Slot>)   // named by a signing request not yet at the signer

  datatype Event =
    | Publishes(batch: seq<Signer.Drawn>)
    | OffersArrive(offers: seq<Offer>)
    | Spawns(dispatched: bool)
    | RequestArrives(request: Signer.Request, drawn: Signer.Drawn)
    | ShareArrives(sid: Roast.SessionId, share: Roast.Share, replenish: Option<Offer>)
    | Restarts(boot: nat)
    | Foreign(event: Roast.Event)  // from any other connection, under any name
    | Lost(slots: set<Slot>)

  function Slots(offers: seq<Offer>): set<Slot> {
    set o | o in offers :: o.slot
  }

  predicate Distinct(offers: seq<Offer>) {
    forall i, j :: 0 <= i < j < |offers| ==> offers[i].slot != offers[j].slot
  }

  /** The signer's own messages are delivered at most once. */
  predicate Enabled(y: System, e: Event) {
    match e
    case OffersArrive(offers) => Slots(offers) <= y.offered && Distinct(offers)
    case RequestArrives(request, drawn) => request.slot in y.requested && CertTbs.Encodable(request.tbs)
    case ShareArrives(sid, share, replenish) => replenish.Some? ==> replenish.value.slot in y.offered
    case Foreign(event) => !event.Spawns?
    case _ => true
  }

  function Step(f: Roast.Frost, c: Signer.Config, me: Roast.SignerId, y: System, e: Event): System {
    if !Enabled(y, e) then y else
      match e
      case Publishes(drawn) =>
        y.(vault := Signer.Issue(y.vault, drawn), offered := y.offered + Slots(Signer.Offers(y.vault, drawn)))
      case OffersArrive(offers) =>
        y.(coordinator := Roast.Register(y.coordinator, me, offers), offered := y.offered - Slots(offers))
      case Spawns(dispatched) =>
        var s := y.coordinator;
        y.(coordinator := Roast.Spawn(s),
           requested := if Roast.CanSpawn(s) && me in Roast.SpawnOutput(s).slots && dispatched
                        then y.requested + {Roast.SpawnOutput(s).slots[me]} else y.requested)
      case RequestArrives(request, drawn) =>
        var (vault, reply) := Signer.Handle(c, y.vault, request, drawn);
        y.(vault := vault, requested := y.requested - {request.slot},
           offered := if reply.Signed? then y.offered + {reply.replenish.slot} else y.offered)
      case ShareArrives(sid, share, replenish) =>
        y.(coordinator := Roast.Receive(f, y.coordinator, sid, me, share, replenish),
           offered := if replenish.Some? then y.offered - {replenish.value.slot} else y.offered)
      case Restarts(boot) => y.(vault := Signer.NewVault(boot))
      case Foreign(event) => y.(coordinator := Roast.Step(f, y.coordinator, event))
      case Lost(slots) => y.(offered := y.offered - slots, requested := y.requested - slots)
  }

  function Run(f: Roast.Frost, c: Signer.Config, me: Roast.SignerId, threshold: nat, boot: nat, es: seq<Event>): System {
    if es == [] then System(Roast.Fresh(threshold, []), Signer.NewVault(boot), {}, {})
    else Step(f, c, me, Run(f, c, me, threshold, boot, es[..|es| - 1]), es[|es| - 1])
  }

  /** The request gets as far as the vault. */
  predicate ChecksPass(c: Signer.Config, r: Signer.Request)
    requires CertTbs.Encodable(r.tbs)
  {
    r.package.message == CertTbs.Canonical(r.tbs) && Signer.WithinPolicy(c, r.tbs)
  }

  /** This boot has issued the slot. */
  predicate Issued(v: Signer.Vault, x: Slot) {
    x.bootEpoch == v.boot && 1 <= x.sequence < v.next
  }

  // ---- Any requests at all: the vault's own account --------------------------------------------------------------

  /** What the signer itself goes through. */
  function VaultTrace(f: Roast.Frost, c: Signer.Config, me: Roast.SignerId, threshold: nat, boot: nat, es: seq<Event>): (trace: seq<Signer.Event>)
    ensures Signer.AllAsked(trace)
  {
    if es == [] then [] else
      VaultTrace(f, c, me, threshold, boot, es[..|es| - 1]) +
      VaultEvents(Run(f, c, me, threshold, boot, es[..|es| - 1]), es[|es| - 1])
  }

  function VaultEvents(y: System, e: Event): (trace: seq<Signer.Event>)
    ensures Signer.AllAsked(trace) && |trace| <= 1
  {
    if !Enabled(y, e) then [] else
      match e
      case Publishes(drawn) => [Signer.Batches(drawn)]
      case RequestArrives(request, drawn) => [Signer.Asks(request, drawn)]
      case Restarts(boot) => [Signer.Restarts(boot)]
      case _ => []
  }

  lemma StepFollowsTrace(f: Roast.Frost, c: Signer.Config, me: Roast.SignerId, boot: nat, y: System, e: Event, trace: seq<Signer.Event>)
    requires Signer.AllAsked(trace) && y.vault == Signer.Run(c, boot, trace)
    ensures Signer.AllAsked(trace + VaultEvents(y, e))
    ensures Step(f, c, me, y, e).vault == Signer.Run(c, boot, trace + VaultEvents(y, e))
  {
    if VaultEvents(y, e) == [] {
      assert trace + [] == trace;
    } else {
      assert (trace + VaultEvents(y, e))[..|trace|] == trace;
    }
  }

  lemma {:induction false} VaultFollowsTrace(f: Roast.Frost, c: Signer.Config, me: Roast.SignerId, threshold: nat, boot: nat, es: seq<Event>)
    ensures Run(f, c, me, threshold, boot, es).vault == Signer.Run(c, boot, VaultTrace(f, c, me, threshold, boot, es))
  {
    if es != [] {
      var before := es[..|es| - 1];
      VaultFollowsTrace(f, c, me, threshold, boot, before);
      StepFollowsTrace(f, c, me, boot, Run(f, c, me, threshold, boot, before), es[|es| - 1], VaultTrace(f, c, me, threshold, boot, before));
      hide Step, VaultEvents, Signer.Run;
    }
  }

  /**
   The exact condition, whatever others do: a request that passes the checks is refused for its nonce if and only if this
   boot did not issue the slot or has spent it already.
   */
  lemma {:induction false} RefusedIffUnissuedOrSpent(f: Roast.Frost, c: Signer.Config, me: Roast.SignerId, threshold: nat, boot: nat, es: seq<Event>,
                                                     request: Signer.Request, drawn: Signer.Drawn)
    requires CertTbs.Encodable(request.tbs)
    ensures
      var v := Run(f, c, me, threshold, boot, es).vault;
      Signer.Handle(c, v, request, drawn).1 == Signer.Rejected(Signer.NonceUnavailable) <==>
      ChecksPass(c, request) &&
      (!Issued(v, request.slot) || request.slot in Signer.Taken(c, boot, VaultTrace(f, c, me, threshold, boot, es)))
  {
    VaultFollowsTrace(f, c, me, threshold, boot, es);
    Signer.IssuedIsActiveOrTaken(c, boot, VaultTrace(f, c, me, threshold, boot, es));
    hide Run, VaultTrace, Signer.Run, Signer.Taken, CertTbs.Canonical, Signer.Issue;
  }

  // ---- A slot nobody else names is in one place at a time --------------------------------------------------------

  /** Another connection, speaking in this signer's name, puts the slot on its queue. */
  predicate Names(me: Roast.SignerId, e: Event, x: Slot) {
    e.Foreign? &&
    match e.event
    case Registers(id, offers) => id == me && x in Slots(offers)
    case Receives(_, id, _, replenish) => id == me && replenish.Some? && replenish.value.slot == x
    case _ => false
  }

  ghost predicate NobodyElseNames(me: Roast.SignerId, es: seq<Event>, x: Slot) {
    forall k :: 0 <= k < |es| ==> !Names(me, es[k], x)
  }

  /** The boot epochs the signer has had. */
  function Boots(boot: nat, es: seq<Event>): set<nat> {
    if es == [] then {boot} else
      Boots(boot, es[..|es| - 1]) + if es[|es| - 1].Restarts? then {es[|es| - 1].boot} else {}
  }

  /** Every restart draws a boot epoch not drawn before. */
  ghost predicate NewBoots(boot: nat, es: seq<Event>) {
    es != [] ==>
      && NewBoots(boot, es[..|es| - 1])
      && (es[|es| - 1].Restarts? ==> es[|es| - 1].boot !in Boots(boot, es[..|es| - 1]))
  }

  predicate AtMostOnce(offers: seq<Offer>, x: Slot) {
    forall i, j :: 0 <= i < j < |offers| ==> !(offers[i].slot == x && offers[j].slot == x)
  }

  predicate Placed(me: Roast.SignerId, y: System, x: Slot) {
    x in Slots(Roast.Queue(y.coordinator, me)) || x in y.offered || x in y.requested
  }

  /** In at most one place; and while it is anywhere, either its boot is over or its nonce is still there to be spent. */
  ghost predicate Tracked(me: Roast.SignerId, y: System, boots: set<nat>, x: Slot) {
    var queue := Roast.Queue(y.coordinator, me);
    && Signer.ValidVault(y.vault) && y.vault.boot in boots
    && AtMostOnce(queue, x)
    && !(x in Slots(queue) && x in y.offered) && !(x in Slots(queue) && x in y.requested) && !(x in y.offered && x in y.requested)
    && (Placed(me, y, x) ==> x.bootEpoch in boots && (x.bootEpoch == y.vault.boot ==> x in y.vault.active))
  }

  lemma QueueGrows(queue: seq<Offer>, more: seq<Offer>, x: Slot)
    requires AtMostOnce(queue, x) && AtMostOnce(more, x) && !(x in Slots(queue) && x in Slots(more))
    ensures AtMostOnce(queue + more, x)
    ensures x in Slots(queue + more) <==> x in Slots(queue) || x in Slots(more)
  {
    var all := queue + more;
    forall i, j | 0 <= i < j < |all|
      ensures !(all[i].slot == x && all[j].slot == x)
    {
      if i < |queue| <= j {
        assert queue[i] in queue && more[j - |queue|] in more;
      }
    }
    assert forall o :: o in all <==> o in queue || o in more;
  }

  lemma QueueShrinks(front: Offer, rest: seq<Offer>, x: Slot)
    requires AtMostOnce([front] + rest, x)
    ensures AtMostOnce(rest, x)
    ensures x in Slots([front] + rest) <==> x == front.slot || x in Slots(rest)
    ensures !(x == front.slot && x in Slots(rest))
  {
    var all := [front] + rest;
    assert all[0] == front;
    assert forall i :: 0 <= i < |rest| ==> rest[i] == all[i + 1] && !(front.slot == x && rest[i].slot == x);
    assert forall o :: o in all <==> o == front || o in rest;
  }

  lemma IssuedSlotsAreNew(me: Roast.SignerId, y: System, boots: set<nat>, x: Slot, drawn: seq<Signer.Drawn>)
    requires Tracked(me, y, boots, x)
    ensures Tracked(me, y.(vault := Signer.Issue(y.vault, drawn), offered := y.offered + Slots(Signer.Offers(y.vault, drawn))), boots, x)
  {
    Signer.IssueAdds(y.vault, drawn);
    if x in Slots(Signer.Offers(y.vault, drawn)) {
      var o :| o in Signer.Offers(y.vault, drawn) && o.slot == x;
      assert x !in y.vault.active;
    }
    hide Signer.Issue, Signer.Offers, Roast.Queue;
  }

  lemma ArrivalIsTracked(me: Roast.SignerId, y: System, boots: set<nat>, x: Slot, s': Roast.State, arrived: seq<Offer>)
    requires Tracked(me, y, boots, x) && AtMostOnce(arrived, x) && (x in Slots(arrived) ==> x in y.offered)
    requires Roast.Queue(s', me) == Roast.Queue(y.coordinator, me) || Roast.Queue(s', me) == Roast.Queue(y.coordinator, me) + arrived
    ensures Tracked(me, y.(coordinator := s', offered := y.offered - Slots(arrived)), boots, x)
  {
    QueueGrows(Roast.Queue(y.coordinator, me), arrived, x);
  }

  /** A queue that others have added to, without naming the slot. */
  lemma ForeignIsTracked(me: Roast.SignerId, y: System, boots: set<nat>, x: Slot, s': Roast.State, added: seq<Offer>)
    requires Tracked(me, y, boots, x) && x !in Slots(added)
    requires Roast.Queue(s', me) == Roast.Queue(y.coordinator, me) || Roast.Queue(s', me) == Roast.Queue(y.coordinator, me) + added
    ensures Tracked(me, y.(coordinator := s'), boots, x)
  {
    assert forall i :: 0 <= i < |added| ==> added[i] in added && added[i].slot != x;
    QueueGrows(Roast.Queue(y.coordinator, me), added, x);
  }

  lemma HandOverIsTracked(me: Roast.SignerId, y: System, boots: set<nat>, x: Slot, s': Roast.State, front: Offer, dispatched: bool)
    requires Tracked(me, y, boots, x) && Roast.Queue(y.coordinator, me) == [front] + Roast.Queue(s', me)
    ensures Tracked(me, y.(coordinator := s', requested := if dispatched then y.requested + {front.slot} else y.requested), boots, x)
  {
    hide Roast.Queue;
    QueueShrinks(front, Roast.Queue(s', me), x);
  }

  lemma SpawnIsTracked(f: Roast.Frost, c: Signer.Config, me: Roast.SignerId, y: System, boots: set<nat>, x: Slot, dispatched: bool)
    requires Tracked(me, y, boots, x)
    ensures Tracked(me, Step(f, c, me, y, Spawns(dispatched)), boots, x)
  {
    var s := y.coordinator;
    if Roast.CanSpawn(s) {
      RoastRuns.SpawnMovesFront(s, me);
      if me in Roast.SpawnOutput(s).slots {
        HandOverIsTracked(me, y, boots, x, Roast.SpawnState(s), RoastRuns.HandedOutBy(s, Roast.Event.Spawns, me)[0], dispatched);
        hide Tracked;
      }
    }
    hide Roast.SpawnState, Roast.Earliest, Roast.Queue;
  }

  lemma RequestIsTracked(f: Roast.Frost, c: Signer.Config, me: Roast.SignerId, y: System, boots: set<nat>, x: Slot, request: Signer.Request, drawn: Signer.Drawn)
    requires Tracked(me, y, boots, x) && Enabled(y, RequestArrives(request, drawn))
    ensures Tracked(me, Step(f, c, me, y, RequestArrives(request, drawn)), boots, x)
  {
    Signer.IssueAdds(y.vault.(active := y.vault.active - {request.slot}), [drawn]);
    hide Roast.Queue, Signer.Issue, CertTbs.Canonical;
  }

  /** What a foreign event adds to this signer's queue. */
  function AddedBy(me: Roast.SignerId, e: Roast.Event): seq<Offer> {
    match e
    case Registers(id, offers) => if id == me then offers else []
    case Receives(_, id, _, replenish) => if id == me && replenish.Some? then [replenish.value] else []
    case _ => []
  }

  lemma ForeignAdds(f: Roast.Frost, me: Roast.SignerId, s: Roast.State, e: Roast.Event)
    requires !e.Spawns?
    ensures Roast.Queue(Roast.Step(f, s, e), me) == Roast.Queue(s, me) || Roast.Queue(Roast.Step(f, s, e), me) == Roast.Queue(s, me) + AddedBy(me, e)
  {
  }

  lemma StepIsTracked(f: Roast.Frost, c: Signer.Config, me: Roast.SignerId, y: System, boots: set<nat>, x: Slot, e: Event)
    requires Tracked(me, y, boots, x) && !Names(me, e, x) && (e.Restarts? ==> e.boot !in boots)
    ensures Tracked(me, Step(f, c, me, y, e), boots + if e.Restarts? then {e.boot} else {}, x)
  {
    assert boots + {} == boots;
    if Enabled(y, e) {
      match e {
        case Publishes(drawn) => IssuedSlotsAreNew(me, y, boots, x, drawn);
        case OffersArrive(offers) =>
          ArrivalIsTracked(me, y, boots, x, Roast.Register(y.coordinator, me, offers), offers);
        case Spawns(dispatched) => SpawnIsTracked(f, c, me, y, boots, x, dispatched);
        case RequestArrives(request, drawn) => RequestIsTracked(f, c, me, y, boots, x, request, drawn);
        case ShareArrives(sid, share, replenish) => ShareIsTracked(f, me, y, boots, x, sid, share, replenish);
        case Restarts(boot) =>
        case Foreign(event) =>
          ForeignAdds(f, me, y.coordinator, event);
          ForeignIsTracked(me, y, boots, x, Roast.Step(f, y.coordinator, event), AddedBy(me, event));
        case Lost(slots) =>
      }
    }
  }

  lemma ShareIsTracked(f: Roast.Frost, me: Roast.SignerId, y: System, boots: set<nat>, x: Slot, sid: Roast.SessionId, share: Roast.Share, replenish: Option<Offer>)
    requires Tracked(me, y, boots, x) && (replenish.Some? ==> replenish.value.slot in y.offered)
    ensures Tracked(me, y.(coordinator := Roast.Receive(f, y.coordinator, sid, me, share, replenish),
                           offered := if replenish.Some? then y.offered - {replenish.value.slot} else y.offered), boots, x)
  {
    var arrived := if replenish.Some? then [replenish.value] else [];
    assert Slots(arrived) == if replenish.Some? then {replenish.value.slot} else {};
    assert Roast.Queue(y.coordinator, me) + [] == Roast.Queue(y.coordinator, me);
    ArrivalIsTracked(me, y, boots, x, Roast.Receive(f, y.coordinator, sid, me, share, replenish), arrived);
    hide Tracked;
  }

  /** Over every run with restarts and foreign messages: a slot nobody else names stays tracked. */
  lemma {:induction false} QueuedSlotsAreTracked(f: Roast.Frost, c: Signer.Config, me: Roast.SignerId, threshold: nat, boot: nat, es: seq<Event>, x: Slot)
    requires NewBoots(boot, es) && NobodyElseNames(me, es, x)
    ensures Tracked(me, Run(f, c, me, threshold, boot, es), Boots(boot, es), x)
  {
    if es != [] {
      var before := es[..|es| - 1];
      QueuedSlotsAreTracked(f, c, me, threshold, boot, before, x);
      StepIsTracked(f, c, me, Run(f, c, me, threshold, boot, before), Boots(boot, before), x, es[|es| - 1]);
      hide Step, Tracked, Names;
    }
  }

  /**
   A request delivered once, for a slot nobody else has named, is refused for its nonce if and only if the slot is not one
   the current boot has issued.
   */
  lemma {:induction false} RefusedIffNotOfThisBoot(f: Roast.Frost, c: Signer.Config, me: Roast.SignerId, threshold: nat, boot: nat, es: seq<Event>,
                                                   request: Signer.Request, drawn: Signer.Drawn)
    requires NewBoots(boot, es) && NobodyElseNames(me, es, request.slot)
    requires Enabled(Run(f, c, me, threshold, boot, es), RequestArrives(request, drawn))
    ensures
      var v := Run(f, c, me, threshold, boot, es).vault;
      Signer.Handle(c, v, request, drawn).1 == Signer.Rejected(Signer.NonceUnavailable) <==>
      ChecksPass(c, request) && !Issued(v, request.slot)
  {
    QueuedSlotsAreTracked(f, c, me, threshold, boot, es, request.slot);
    hide Run, CertTbs.Canonical, Signer.Issue;
  }

  lemma {:induction false} OneBoot(f: Roast.Frost, c: Signer.Config, me: Roast.SignerId, threshold: nat, boot: nat, es: seq<Event>)
    requires forall k :: 0 <= k < |es| ==> !es[k].Restarts?
    ensures NewBoots(boot, es) && Boots(boot, es) == {boot}
  {
    if es != [] {
      OneBoot(f, c, me, threshold, boot, es[..|es| - 1]);
    }
  }

  /** So without a restart such a request is never refused for its nonce. */
  lemma {:induction false} RequestsFindTheirNonce(f: Roast.Frost, c: Signer.Config, me: Roast.SignerId, threshold: nat, boot: nat, es: seq<Event>,
                                                  request: Signer.Request, drawn: Signer.Drawn)
    requires forall k :: 0 <= k < |es| ==> !es[k].Restarts?
    requires NobodyElseNames(me, es, request.slot)
    requires Enabled(Run(f, c, me, threshold, boot, es), RequestArrives(request, drawn))
    ensures Signer.Handle(c, Run(f, c, me, threshold, boot, es).vault, request, drawn).1
            != Signer.Rejected(Signer.NonceUnavailable)
  {
    OneBoot(f, c, me, threshold, boot, es);
    QueuedSlotsAreTracked(f, c, me, threshold, boot, es, request.slot);
    hide Run, CertTbs.Canonical, Signer.Issue, Boots, NewBoots;
  }

  // ---- What goes wrong otherwise ---------------------------------------------------------------------------------

  lemma RunOneMore(f: Roast.Frost, c: Signer.Config, me: Roast.SignerId, threshold: nat, boot: nat, es: seq<Event>, e: Event)
    ensures Run(f, c, me, threshold, boot, es + [e]) == Step(f, c, me, Run(f, c, me, threshold, boot, es), e)
  {
    assert (es + [e])[..|es|] == es;
  }

  /** Signers 1 and 2 are the pool, both with offers queued: signer 1's front slot is the one requested. */
  lemma FrontIsRequested(f: Roast.Frost, c: Signer.Config, y: System)
    requires y.coordinator.threshold == 2 && y.coordinator.responsive == {1, 2} && y.coordinator.banished == {}
    requires Roast.Queue(y.coordinator, 1) != [] && Roast.Queue(y.coordinator, 2) != []
    ensures Roast.Queue(y.coordinator, 1)[0].slot in Step(f, c, 1, y, Spawns(true)).requested
    ensures Step(f, c, 1, y, Spawns(true)).vault == y.vault
  {
    RoastBreaks.PairIsEligible(y.coordinator, 1, 2);
    hide Roast.Eligible, Roast.Spawn, Roast.SpawnOutput, Roast.Queue;
    RoastBreaks.PairSpawns(y.coordinator, 1, 2);
    hide Roast.CanSpawn;
  }

  lemma WrongBootIsRefused(c: Signer.Config, v: Signer.Vault, request: Signer.Request, drawn: Signer.Drawn)
    requires CertTbs.Encodable(request.tbs) && ChecksPass(c, request) && request.slot.bootEpoch != v.boot
    ensures Signer.Handle(c, v, request, drawn) == (v, Signer.Rejected(Signer.NonceUnavailable))
  {
  }

  /** Offers outlive the boot that made them: after a restart the coordinator asks for a slot that is gone. */
  lemma RestartStrandsOffers(f: Roast.Frost, c: Signer.Config, boot: nat, boot': nat, drawn: Signer.Drawn, other: Offer,
                             request: Signer.Request, replacement: Signer.Drawn)
    returns (es: seq<Event>)
    requires boot != boot'
    requires CertTbs.Encodable(request.tbs) && ChecksPass(c, request) && request.slot == Roast.Slot(boot, 1)
    ensures
      var offer := Roast.Offer(Roast.Slot(boot, 1), drawn.commitment);
      es == [] + [Publishes([drawn])] + [OffersArrive([offer])] + [Foreign(Roast.Registers(2, [other]))] + [Restarts(boot')] + [Spawns(true)]
    ensures
      var y := Run(f, c, 1, 2, boot, es);
      && Enabled(y, RequestArrives(request, replacement))
      && Signer.Handle(c, y.vault, request, replacement).1 == Signer.Rejected(Signer.NonceUnavailable)
  {
    var offer := Roast.Offer(Roast.Slot(boot, 1), drawn.commitment);
    var e1 := [] + [Publishes([drawn])];
    var e2 := e1 + [OffersArrive([offer])];
    var e3 := e2 + [Foreign(Roast.Registers(2, [other]))];
    var e4 := e3 + [Restarts(boot')];
    es := e4 + [Spawns(true)];
    RunOneMore(f, c, 1, 2, boot, [], Publishes([drawn]));
    RunOneMore(f, c, 1, 2, boot, e1, OffersArrive([offer]));
    RunOneMore(f, c, 1, 2, boot, e2, Foreign(Roast.Registers(2, [other])));
    RunOneMore(f, c, 1, 2, boot, e3, Restarts(boot'));
    RunOneMore(f, c, 1, 2, boot, e4, Spawns(true));
    PublishedArrives(f, c, boot, drawn, other);
    var y3, y4 := Run(f, c, 1, 2, boot, e3), Run(f, c, 1, 2, boot, e4);
    assert y4 == y3.(vault := Signer.NewVault(boot'));
    hide Step, Run;
    FrontIsRequested(f, c, y4);
    WrongBootIsRefused(c, Run(f, c, 1, 2, boot, es).vault, request, replacement);
  }

  lemma PublishedArrives(f: Roast.Frost, c: Signer.Config, boot: nat, drawn: Signer.Drawn, other: Offer)
    ensures
      var offer := Roast.Offer(Roast.Slot(boot, 1), drawn.commitment);
      var y := Run(f, c, 1, 2, boot, []);
      var s := Step(f, c, 1, Step(f, c, 1, Step(f, c, 1, y, Publishes([drawn])), OffersArrive([offer])),
                    Foreign(Roast.Registers(2, [other]))).coordinator;
      && s.threshold == 2 && s.responsive == {1, 2} && s.banished == {}
      && Roast.Queue(s, 1) == [offer] && Roast.Queue(s, 2) == [other]
  {
    var offer := Roast.Offer(Roast.Slot(boot, 1), drawn.commitment);
    var y := System(Roast.Fresh(2, []), Signer.NewVault(boot), {}, {});
    assert Signer.Offers(y.vault, [drawn]) == [offer];
    assert offer in [offer];
    assert [] + [offer] == [offer] && [] + [other] == [other];
  }

  lemma ForeignArrives(f: Roast.Frost, c: Signer.Config, boot: nat, foreign: Offer, other: Offer)
    ensures
      var y := Run(f, c, 1, 2, boot, []);
      var y' := Step(f, c, 1, Step(f, c, 1, y, Foreign(Roast.Registers(1, [foreign]))), Foreign(Roast.Registers(2, [other])));
      var s := y'.coordinator;
      && y'.vault.boot == boot
      && s.threshold == 2 && s.responsive == {1, 2} && s.banished == {}
      && Roast.Queue(s, 1) == [foreign] && Roast.Queue(s, 2) == [other]
  {
    assert [] + [foreign] == [foreign] && [] + [other] == [other];
  }

  /** An offer another connection registers in this signer's name is asked of this signer, which never made it. */
  lemma ForeignOfferIsRequested(f: Roast.Frost, c: Signer.Config, boot: nat, foreign: Offer, other: Offer,
                                request: Signer.Request, replacement: Signer.Drawn)
    returns (es: seq<Event>)
    requires foreign.slot.bootEpoch != boot
    requires CertTbs.Encodable(request.tbs) && ChecksPass(c, request) && request.slot == foreign.slot
    ensures es == [] + [Foreign(Roast.Registers(1, [foreign]))] + [Foreign(Roast.Registers(2, [other]))] + [Spawns(true)]
    ensures
      var y := Run(f, c, 1, 2, boot, es);
      && Enabled(y, RequestArrives(request, replacement))
      && Signer.Handle(c, y.vault, request, replacement).1 == Signer.Rejected(Signer.NonceUnavailable)
  {
    var e1 := [] + [Foreign(Roast.Registers(1, [foreign]))];
    var e2 := e1 + [Foreign(Roast.Registers(2, [other]))];
    es := e2 + [Spawns(true)];
    RunOneMore(f, c, 1, 2, boot, [], Foreign(Roast.Registers(1, [foreign])));
    RunOneMore(f, c, 1, 2, boot, e1, Foreign(Roast.Registers(2, [other])));
    RunOneMore(f, c, 1, 2, boot, e2, Spawns(true));
    ForeignArrives(f, c, boot, foreign, other);
    hide Step, Run;
    FrontIsRequested(f, c, Run(f, c, 1, 2, boot, e2));
    WrongBootIsRefused(c, Run(f, c, 1, 2, boot, es).vault, request, replacement);
  }
}
