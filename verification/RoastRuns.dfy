/** What every run of the coordinator keeps, whatever the signers send and in whatever order. */
module RoastRuns {
  import opened Prelude
  import opened Roast

  ghost predicate ValidSession(f: Frost, threshold: nat, x: Session) {
    && |x.participants| == threshold
    && x.package.commitments.Keys == x.participants
    && x.collected.Keys <= x.participants
    && forall id :: id in x.collected ==> f.verify(id, x.collected[id], x.package)
  }

  /** A signer with a queue is responsive, busy or banished; busy excludes the other two. */
  ghost predicate ValidPools(s: State) {
    && s.responsive !! s.busy.Keys
    && s.banished !! s.busy.Keys
    && forall id :: id in s.queues ==> id in s.responsive || id in s.busy || id in s.banished
  }

  /** Session ids are handed out one after the other and every session is well formed. */
  ghost predicate Numbered(f: Frost, threshold: nat, sessions: map<SessionId, Session>, nextId: nat) {
    && 1 <= nextId
    && (forall sid :: sid in sessions <==> 1 <= sid < nextId)
    && (forall sid :: sid in sessions ==> ValidSession(f, threshold, sessions[sid]))
  }

  ghost predicate ValidSessions(f: Frost, s: State) {
    Numbered(f, s.threshold, s.sessions, s.nextId)
  }

  ghost predicate ValidBusy(s: State) {
    forall id :: id in s.busy ==> s.busy[id] in s.sessions && id in s.sessions[s.busy[id]].participants
  }

  ghost predicate Valid(f: Frost, s: State) {
    ValidPools(s) && ValidSessions(f, s) && ValidBusy(s)
  }

  lemma RegisterKeepsValid(f: Frost, s: State, id: SignerId, offers: seq<Offer>)
    requires Valid(f, s)
    ensures Valid(f, Register(s, id, offers))
  {
  }

  lemma OpeningOnlyAdds(s: State, ids: set<SignerId>, package: Package)
    requires ids <= Eligible(s)
    ensures var s' := OpenSession(s, ids, package);
            && s'.sessions == s.sessions[s.nextId := Session(ids, package, map[])]
            && s'.nextId == s.nextId + 1 && s'.threshold == s.threshold && s'.banished == s.banished
  {
  }

  lemma OpeningKeepsPools(s: State, ids: set<SignerId>, package: Package)
    requires ValidPools(s) && ids <= Eligible(s)
    ensures ValidPools(OpenSession(s, ids, package))
  {
    assert OpenSession(s, ids, package).busy.Keys == s.busy.Keys + ids;
  }

  lemma OpeningKeepsSessions(f: Frost, s: State, ids: set<SignerId>, package: Package)
    requires ValidSessions(f, s) && ids <= Eligible(s) && |ids| == s.threshold && package.commitments.Keys == ids
    ensures ValidSessions(f, OpenSession(s, ids, package))
  {
    OpeningOnlyAdds(s, ids, package);
    NumberNext(f, s.threshold, s.sessions, s.nextId, Session(ids, package, map[]));
    hide OpenSession, Eligible, Numbered;
  }

  lemma NumberNext(f: Frost, threshold: nat, sessions: map<SessionId, Session>, nextId: nat, x: Session)
    requires Numbered(f, threshold, sessions, nextId) && ValidSession(f, threshold, x)
    ensures Numbered(f, threshold, sessions[nextId := x], nextId + 1)
  {
    hide ValidSession;
  }

  lemma OpeningKeepsBusy(f: Frost, s: State, ids: set<SignerId>, package: Package)
    requires ValidBusy(s) && ValidSessions(f, s) && ids <= Eligible(s)
    ensures ValidBusy(OpenSession(s, ids, package))
  {
    var s' := OpenSession(s, ids, package);
    forall id | id in s'.busy
      ensures s'.busy[id] in s'.sessions && id in s'.sessions[s'.busy[id]].participants
    {
      if id !in ids {
        assert s'.busy[id] == s.busy[id];
      }
    }
  }

  lemma SpawnKeepsValid(f: Frost, s: State)
    requires Valid(f, s) && CanSpawn(s)
    ensures Valid(f, SpawnState(s))
  {
    OpeningKeepsPools(s, Chosen(s), SpawnOutput(s).package);
    OpeningKeepsSessions(f, s, Chosen(s), SpawnOutput(s).package);
    OpeningKeepsBusy(f, s, Chosen(s), SpawnOutput(s).package);
  }

  lemma ReceiveKeepsValid(f: Frost, s: State, sid: SessionId, id: SignerId, share: Share, replenish: Option<Offer>)
    requires Valid(f, s)
    ensures Valid(f, Receive(f, s, sid, id, share, replenish))
  {
    if Accepted(f, s, sid, id, share) {
      var s' := Receive(f, s, sid, id, share, replenish);
      assert ValidSession(f, s.threshold, s.sessions[sid]);
      assert ValidSession(f, s.threshold, s'.sessions[sid]);
      assert s'.queues.Keys <= s.queues.Keys + {id};
    }
  }

  lemma StepKeepsValid(f: Frost, s: State, e: Event)
    requires Valid(f, s)
    ensures Valid(f, Step(f, s, e))
    ensures Step(f, s, e).threshold == s.threshold
  {
    match e {
      case Registers(id, offers) => RegisterKeepsValid(f, s, id, offers);
      case SetsMessage(message) =>
      case Spawns => if CanSpawn(s) { SpawnKeepsValid(f, s); }
      case Receives(sid, id, share, replenish) => ReceiveKeepsValid(f, s, sid, id, share, replenish);
    }
  }

  /** Safety over every run: pools disjoint, sessions of exactly `threshold` signers, only verified shares from participants. */
  lemma {:induction false} EveryRunIsValid(f: Frost, threshold: nat, es: seq<Event>)
    ensures Valid(f, Run(f, threshold, es))
    ensures Run(f, threshold, es).threshold == threshold
  {
    if es != [] {
      EveryRunIsValid(f, threshold, es[..|es| - 1]);
      StepKeepsValid(f, Run(f, threshold, es[..|es| - 1]), es[|es| - 1]);
    }
  }

  /** In any reachable state, aggregation is attempted exactly when the share completes the participant set. */
  lemma {:induction false} AggregatesIffComplete(f: Frost, threshold: nat, es: seq<Event>, sid: SessionId, id: SignerId, share: Share)
    ensures
      var s := Run(f, threshold, es);
      Aggregates(f, s, sid, id, share) <==>
      Accepted(f, s, sid, id, share) && Collected(s, sid, id, share).Keys == s.sessions[sid].participants
  {
    var s := Run(f, threshold, es);
    EveryRunIsValid(f, threshold, es);
    if Accepted(f, s, sid, id, share) {
      var c := Collected(s, sid, id, share);
      assert |c| == |c.Keys|;
      SubsetSize(c.Keys, s.sessions[sid].participants);
    }
  }

  /**
   The answer to every share, in any reachable state. An accepted one is answered with nothing until the shares of all
   participants are in, and then with what aggregating exactly those over the session's own package gives.
   */
  lemma {:induction false} EveryShareIsAnswered(f: Frost, threshold: nat, es: seq<Event>, sid: SessionId, id: SignerId, share: Share)
    ensures
      var s := Run(f, threshold, es);
      var r := ReceiveOutcome(f, s, sid, id, share);
      && (sid !in s.sessions ==> r == Ok(None))
      && (sid in s.sessions ==>
            var x := s.sessions[sid];
            var collected := x.collected[id := share];
            && (id !in x.participants ==> r == Ok(None))
            && (r == Err(UnknownIdentifier) <==> id in x.participants && id !in f.known)
            && (r == Err(InvalidShare) <==> id in x.participants && id in f.known && !f.verify(id, share, x.package))
            && (id in x.participants && id in f.known && f.verify(id, share, x.package) ==>
                  if collected.Keys != x.participants then r == Ok(None)
                  else if f.aggregate(x.package, collected).Some? then r == Ok(f.aggregate(x.package, collected))
                  else r == Err(AggregationFailed)))
  {
    AggregatesIffComplete(f, threshold, es, sid, id, share);
    hide Run;
  }

  // ---- What a later state remembers of an earlier one -----------------------------------------------------------

  /** `s'` comes after `s`: sessions keep their participants and package and only gain shares; bans are for ever. */
  ghost predicate Later(s: State, s': State) {
    && s.nextId <= s'.nextId
    && s.banished <= s'.banished
    && (forall sid :: sid in s.sessions ==>
          && sid in s'.sessions
          && s'.sessions[sid].participants == s.sessions[sid].participants
          && s'.sessions[sid].package == s.sessions[sid].package
          && s.sessions[sid].collected.Keys <= s'.sessions[sid].collected.Keys)
    && (forall sid, id :: sid in s'.sessions && sid !in s.sessions && id in s.banished ==>
          id !in s'.sessions[sid].participants)
  }

  lemma OpeningIsLater(f: Frost, s: State, ids: set<SignerId>, package: Package)
    requires ValidSessions(f, s) && ids <= Eligible(s)
    ensures Later(s, OpenSession(s, ids, package))
  {
    OpeningOnlyAdds(s, ids, package);
    assert forall id :: id in ids ==> id !in s.banished;
    hide OpenSession, Enlist, Eligible;
  }

  lemma ReceiveIsLater(f: Frost, s: State, sid: SessionId, id: SignerId, share: Share, replenish: Option<Offer>)
    ensures Later(s, Receive(f, s, sid, id, share, replenish))
  {
  }

  lemma StepIsLater(f: Frost, s: State, e: Event)
    requires ValidSessions(f, s)
    ensures Later(s, Step(f, s, e))
  {
    match e {
      case Registers(id, offers) =>
      case SetsMessage(message) =>
      case Spawns =>
        if CanSpawn(s) {
          OpeningIsLater(f, s, Chosen(s), SpawnOutput(s).package);
        }
      case Receives(sid, id, share, replenish) => ReceiveIsLater(f, s, sid, id, share, replenish);
    }
  }

  /** Packages never change under a client's feet, and a banished signer is in no session spawned after its ban. */
  lemma {:induction false} RunsOnlyGrow(f: Frost, threshold: nat, es: seq<Event>, k: nat)
    requires k <= |es|
    ensures Later(Run(f, threshold, es[..k]), Run(f, threshold, es))
    decreases |es| - k
  {
    if k == |es| {
      assert es[..k] == es;
    } else {
      RunsOnlyGrow(f, threshold, es, k + 1);
      assert es[..k + 1][..k] == es[..k];
      EveryRunIsValid(f, threshold, es[..k]);
      StepIsLater(f, Run(f, threshold, es[..k]), es[k]);
      LaterIsTransitive(Run(f, threshold, es[..k]), Run(f, threshold, es[..k + 1]), Run(f, threshold, es));
    }
  }

  lemma LaterIsTransitive(a: State, b: State, c: State)
    requires Later(a, b) && Later(b, c)
    ensures Later(a, c)
  {
    forall sid, id | sid in c.sessions && sid !in a.sessions && id in a.banished
      ensures id !in c.sessions[sid].participants
    {
      if sid in b.sessions {
        assert c.sessions[sid].participants == b.sessions[sid].participants;
      }
    }
  }

  // ---- Queues are first in, first out ---------------------------------------------------------------------------

  /** The offers of `id` that this event puts on the coordinator's queue. */
  function PushedBy(f: Frost, s: State, e: Event, id: SignerId): seq<Offer> {
    match e
    case Registers(who, offers) => if who == id && id !in s.banished then offers else []
    case Receives(sid, who, share, replenish) =>
      if who == id && replenish.Some? && Accepted(f, s, sid, id, share) then [replenish.value] else []
    case _ => []
  }

  /** The offer of `id` that this event hands out: its slot in the slot map, its commitment in the package. */
  function HandedOutBy(s: State, e: Event, id: SignerId): seq<Offer> {
    if e.Spawns? && CanSpawn(s) && id in SpawnOutput(s).slots
    then [Offer(SpawnOutput(s).slots[id], SpawnOutput(s).package.commitments[id])]
    else []
  }

  function Pushed(f: Frost, threshold: nat, es: seq<Event>, id: SignerId): seq<Offer> {
    if es == [] then [] else
      var before := es[..|es| - 1];
      Pushed(f, threshold, before, id) + PushedBy(f, Run(f, threshold, before), es[|es| - 1], id)
  }

  function HandedOut(f: Frost, threshold: nat, es: seq<Event>, id: SignerId): seq<Offer> {
    if es == [] then [] else
      var before := es[..|es| - 1];
      HandedOut(f, threshold, before, id) + HandedOutBy(Run(f, threshold, before), es[|es| - 1], id)
  }

  lemma SpawnMovesFront(s: State, id: SignerId)
    requires CanSpawn(s)
    ensures Queue(s, id) == HandedOutBy(s, Spawns, id) + Queue(SpawnState(s), id)
  {
    hide Earliest;
    if id in Chosen(s) {
      assert s.queues[id] == [s.queues[id][0]] + s.queues[id][1..];
    } else {
      assert Queue(SpawnState(s), id) == Queue(s, id);
    }
  }

  lemma StepMovesFront(f: Frost, s: State, e: Event, id: SignerId)
    ensures Queue(s, id) + PushedBy(f, s, e, id) == HandedOutBy(s, e, id) + Queue(Step(f, s, e), id)
  {
    if e.Spawns? && CanSpawn(s) {
      SpawnMovesFront(s, id);
      hide SpawnState, HandedOutBy;
    } else {
      assert HandedOutBy(s, e, id) == [];
      assert Queue(s, id) + PushedBy(f, s, e, id) == Queue(Step(f, s, e), id);
    }
  }

  /** Conservation: over every run, what a signer offered is exactly what was handed out, in order, then what is queued. */
  lemma {:induction false} OffersAreConserved(f: Frost, threshold: nat, es: seq<Event>, id: SignerId)
    ensures Pushed(f, threshold, es, id) == HandedOut(f, threshold, es, id) + Queue(Run(f, threshold, es), id)
  {
    if es != [] {
      var before, e := es[..|es| - 1], es[|es| - 1];
      var s := Run(f, threshold, before);
      OffersAreConserved(f, threshold, before, id);
      StepMovesFront(f, s, e, id);
      Reassociate(HandedOut(f, threshold, before, id), Queue(s, id), PushedBy(f, s, e, id),
                  HandedOutBy(s, e, id), Queue(Step(f, s, e), id));
    }
  }

  lemma Reassociate<T>(out: seq<T>, queue: seq<T>, pushed: seq<T>, popped: seq<T>, queue': seq<T>)
    requires queue + pushed == popped + queue'
    ensures out + queue + pushed == out + popped + queue'
  {
    assert out + queue + pushed == out + (queue + pushed);
    assert out + popped + queue' == out + (popped + queue');
  }
}
