/**
 The ROAST coordinator of bin/yip-ca/src/roast_coordinator.rs: the state it keeps, and each of its operations as a
 function from the state before to the state after. `RoastCoordinator` (its own file) is the object that updates the
 fields in place; `RoastRuns` and `RoastRobustness` are about whole runs.
 */
module Roast {
  import opened Prelude

  /** FROST identifiers are totally ordered; `BTreeSet` iterates them in that order. */
  type SignerId = nat
  type SessionId = nat

  type Commitment(==, !new)
  type Share(==, !new)
  type Signature(==, !new)

  datatype Slot = Slot(bootEpoch: nat, sequence: nat)
  /** One preprocessed nonce on offer: the slot that names it and its public commitment. */
  datatype Offer = Offer(slot: Slot, commitment: Commitment)
  datatype Package = Package(commitments: map<SignerId, Commitment>, message: Bytes)

  /** The FROST library, seen from outside: who has a verifying share, share verification, aggregation. */
  datatype Frost = Frost(
    known: set<SignerId>,
    verify: (SignerId, Share, Package) -> bool,
    aggregate: (Package, map<SignerId, Share>) -> Option<Signature>)

  datatype Session = Session(participants: set<SignerId>, package: Package, collected: map<SignerId, Share>)

  datatype State = State(
    threshold: nat,
    message: Bytes,
    responsive: set<SignerId>,
    queues: map<SignerId, seq<Offer>>,
    sessions: map<SessionId, Session>,
    busy: map<SignerId, SessionId>,
    banished: set<SignerId>,
    nextId: nat)

  function Fresh(threshold: nat, message: Bytes): State {
    State(threshold, message, {}, map[], map[], map[], {}, 1)
  }

  /** `entry(id).or_default()`: the queue of a signer, empty if it never offered anything. */
  function Queue(s: State, id: SignerId): seq<Offer> {
    if id in s.queues then s.queues[id] else []
  }

  function Register(s: State, id: SignerId, offers: seq<Offer>): State {
    if id in s.banished then s
    else s.(queues := s.queues[id := Queue(s, id) + offers],
            responsive := if id in s.busy then s.responsive else s.responsive + {id})
  }

  // ---- Spawning -------------------------------------------------------------------------------------------------

  function Eligible(s: State): set<SignerId> {
    set id | id in s.responsive && id !in s.banished && Queue(s, id) != []
  }

  predicate IsLeast(m: nat, ids: set<nat>) {
    m in ids && forall x :: x in ids ==> m <= x
  }

  lemma {:induction false} LeastExists(ids: set<nat>)
    requires ids != {}
    ensures exists m :: IsLeast(m, ids)
    decreases ids
  {
    var x :| x in ids;
    if ids == {x} {
      assert IsLeast(x, ids);
    } else {
      LeastExists(ids - {x});
      var m :| IsLeast(m, ids - {x});
      assert forall y :: y in ids ==> y == x || y in ids - {x};
      assert if x < m then IsLeast(x, ids) else IsLeast(m, ids);
    }
  }

  function Least(ids: set<nat>): (m: nat)
    requires ids != {}
    ensures IsLeast(m, ids)
  {
    LeastExists(ids);
    var m :| IsLeast(m, ids);
    m
  }

  /** `chosen` is what iterating `ids` in order and stopping after `k` of them yields. */
  ghost predicate TakesInOrder(ids: set<nat>, k: nat, chosen: set<nat>) {
    && chosen <= ids
    && |chosen| == Min(k, |ids|)
    && forall x, y :: x in chosen && y in ids && y !in chosen ==> x < y
  }

  function Earliest(ids: set<nat>, k: nat): (chosen: set<nat>)
    ensures TakesInOrder(ids, k, chosen)
    decreases k
  {
    if k == 0 || ids == {} then {} else
      var m := Least(ids);
      var rest := Earliest(ids - {m}, k - 1);
      assert ids - ({m} + rest) == ids - {m} - rest;
      {m} + rest
  }

  /** What a successful `try_spawn_session` hands back. */
  datatype Spawned = Spawned(sid: SessionId, package: Package, slots: map<SignerId, Slot>)

  predicate CanSpawn(s: State) {
    |Eligible(s)| >= s.threshold
  }

  function Chosen(s: State): (ids: set<SignerId>)
    ensures ids <= Eligible(s)
  {
    Earliest(Eligible(s), s.threshold)
  }

  function FrontCommitments(s: State, ids: set<SignerId>): map<SignerId, Commitment>
    requires ids <= Eligible(s)
  {
    map id | id in ids :: s.queues[id][0].commitment
  }

  function FrontSlots(s: State, ids: set<SignerId>): map<SignerId, Slot>
    requires ids <= Eligible(s)
  {
    map id | id in ids :: s.queues[id][0].slot
  }

  /** The queues after one offer has come off the front of each of `ids`. */
  function Popped(queues: map<SignerId, seq<Offer>>, ids: set<SignerId>): map<SignerId, seq<Offer>>
    requires forall id :: id in ids ==> id in queues && queues[id] != []
  {
    map id | id in queues :: if id in ids then queues[id][1..] else queues[id]
  }

  function Assigned(ids: set<SignerId>, sid: SessionId): map<SignerId, SessionId> {
    map id | id in ids :: sid
  }

  /** The signers in `ids` handed over to session `sid`: no longer responsive, busy, their queues one shorter. */
  function Enlist(s: State, ids: set<SignerId>, sid: SessionId): State
    requires ids <= Eligible(s)
  {
    s.(responsive := s.responsive - ids, queues := Popped(s.queues, ids), busy := s.busy + Assigned(ids, sid))
  }

  function SpawnOutput(s: State): Spawned
    requires CanSpawn(s)
  {
    Spawned(s.nextId, Package(FrontCommitments(s, Chosen(s)), s.message), FrontSlots(s, Chosen(s)))
  }

  /** A session over `ids` opened under the next session id. */
  function OpenSession(s: State, ids: set<SignerId>, package: Package): State
    requires ids <= Eligible(s)
  {
    Enlist(s, ids, s.nextId).(sessions := s.sessions[s.nextId := Session(ids, package, map[])], nextId := s.nextId + 1)
  }

  function SpawnState(s: State): State
    requires CanSpawn(s)
  {
    OpenSession(s, Chosen(s), SpawnOutput(s).package)
  }

  function Spawn(s: State): State {
    if CanSpawn(s) then SpawnState(s) else s
  }

  // ---- Receiving a share ----------------------------------------------------------------------------------------

  datatype Error = UnknownIdentifier | InvalidShare | AggregationFailed
  datatype Outcome = Ok(signature: Option<Signature>) | Err(error: Error)

  /** The share reaches verification: the session is active, the signer takes part in it and has a verifying share. */
  predicate Addressed(f: Frost, s: State, sid: SessionId, id: SignerId) {
    sid in s.sessions && id in s.sessions[sid].participants && id in f.known
  }

  predicate Accepted(f: Frost, s: State, sid: SessionId, id: SignerId, share: Share) {
    Addressed(f, s, sid, id) && f.verify(id, share, s.sessions[sid].package)
  }

  function Collected(s: State, sid: SessionId, id: SignerId, share: Share): map<SignerId, Share>
    requires sid in s.sessions
  {
    s.sessions[sid].collected[id := share]
  }

  /** The accepted share is the one that makes `collected_shares.len() == threshold`. */
  predicate Aggregates(f: Frost, s: State, sid: SessionId, id: SignerId, share: Share) {
    Accepted(f, s, sid, id, share) && |Collected(s, sid, id, share)| == s.threshold
  }

  function ReceiveOutcome(f: Frost, s: State, sid: SessionId, id: SignerId, share: Share): Outcome {
    if sid !in s.sessions || id !in s.sessions[sid].participants then Ok(None)
    else if id !in f.known then Err(UnknownIdentifier)
    else if !f.verify(id, share, s.sessions[sid].package) then Err(InvalidShare)
    else if |Collected(s, sid, id, share)| != s.threshold then Ok(None)
    else match f.aggregate(s.sessions[sid].package, Collected(s, sid, id, share))
         case Some(signature) => Ok(Some(signature))
         case None => Err(AggregationFailed)
  }

  function Replenished(s: State, id: SignerId, replenish: Option<Offer>): map<SignerId, seq<Offer>> {
    match replenish
    case Some(offer) => s.queues[id := Queue(s, id) + [offer]]
    case None => s.queues
  }

  function Receive(f: Frost, s: State, sid: SessionId, id: SignerId, share: Share, replenish: Option<Offer>): State {
    if Accepted(f, s, sid, id, share) then
      s.(queues := Replenished(s, id, replenish),
         busy := s.busy - {id},
         responsive := s.responsive + {id},
         sessions := s.sessions[sid := s.sessions[sid].(collected := Collected(s, sid, id, share))])
    else if Addressed(f, s, sid, id) then
      s.(banished := s.banished + {id}, busy := s.busy - {id})
    else s
  }

  // ---- Runs -----------------------------------------------------------------------------------------------------

  datatype Event =
    | Registers(id: SignerId, offers: seq<Offer>)
    | SetsMessage(message: Bytes)
    | Spawns
    | Receives(sid: SessionId, id: SignerId, share: Share, replenish: Option<Offer>)

  function Step(f: Frost, s: State, e: Event): State {
    match e
    case Registers(id, offers) => Register(s, id, offers)
    case SetsMessage(message) => s.(message := message)
    case Spawns => Spawn(s)
    case Receives(sid, id, share, replenish) => Receive(f, s, sid, id, share, replenish)
  }

  /** The state after any finite run from a fresh coordinator. */
  function Run(f: Frost, threshold: nat, es: seq<Event>): State {
    if es == [] then Fresh(threshold, [])
    else Step(f, Run(f, threshold, es[..|es| - 1]), es[|es| - 1])
  }
}
