/** The coordinator object: the fields of roast_coordinator.rs updated in place, each method proved to take its step. */
module RoastCoordinator {
  import opened Prelude
  import opened Roast

  class Coordinator {
    const frost: Frost
    const threshold: nat
    var message: Bytes
    var responsive: set<SignerId>
    var queues: map<SignerId, seq<Offer>>
    var sessions: map<SessionId, Session>
    var busy: map<SignerId, SessionId>
    var banished: set<SignerId>
    var nextId: nat

    function Abs(): State
      reads this
    {
      State(threshold, message, responsive, queues, sessions, busy, banished, nextId)
    }

    constructor (frost: Frost, threshold: nat, message: Bytes)
      ensures this.frost == frost
      ensures Abs() == Fresh(threshold, message)
    {
      this.frost, this.threshold, this.message := frost, threshold, message;
      responsive, queues, sessions, busy, banished, nextId := {}, map[], map[], map[], {}, 1;
    }

    method RegisterCommitments(id: SignerId, offers: seq<Offer>)
      modifies this
      ensures Abs() == Register(old(Abs()), id, offers)
    {
      if id in banished {
        return;
      }
      queues := queues[id := Queue(Abs(), id) + offers];
      if id !in busy {
        responsive := responsive + {id};
      }
    }

    /** The identifiers `iter().filter(..).take(threshold)` yields. */
    method TakeEligible() returns (ids: set<SignerId>)
      ensures ids == Chosen(Abs())
      ensures |ids| >= threshold <==> CanSpawn(Abs())
    {
      ids := {};
      var unseen := responsive;
      while unseen != {} && |ids| < threshold
        invariant ids <= Eligible(Abs()) && unseen <= responsive && |ids| <= threshold
        invariant forall y :: y in Eligible(Abs()) && y !in ids ==> y in unseen
        invariant forall x, y :: x in ids && y in unseen ==> x < y
        decreases unseen
      {
        var id := Least(unseen);
        unseen := unseen - {id};
        if id !in banished && id in queues && queues[id] != [] {
          ids := ids + {id};
        }
      }
      SubsetSize(ids, Eligible(Abs()));
      if |ids| < threshold {
        assert Eligible(Abs()) - ids == {};
      }
      TakeIsUnique(Eligible(Abs()), threshold, ids, Chosen(Abs()));
    }

    /** `session_id` overflows by panicking, so the caller must not have used up 2^128 of them. */
    method TrySpawnSession() returns (r: Option<Spawned>)
      requires nextId < U128_MAX
      modifies this
      ensures Abs() == Spawn(old(Abs()))
      ensures r == if old(CanSpawn(Abs())) then Some(old(SpawnOutput(Abs()))) else None
    {
      var eligible := TakeEligible();
      if |eligible| < threshold {
        return None;
      }
      var sid := nextId;
      var commitments, slots := PopFronts(eligible, sid);
      nextId := nextId + 1;
      var package := Package(commitments, message);
      sessions := sessions[sid := Session(eligible, package, map[])];
      r := Some(Spawned(sid, package, slots));
    }

    /** The loop of `try_spawn_session`: takes each chosen signer out of the pool and one offer off its queue. */
    method PopFronts(ids: set<SignerId>, sid: SessionId)
      returns (commitments: map<SignerId, Commitment>, slots: map<SignerId, Slot>)
      requires ids <= Eligible(Abs())
      modifies this`responsive, this`queues, this`busy
      ensures Abs() == Enlist(old(Abs()), ids, sid)
      ensures commitments == FrontCommitments(old(Abs()), ids) && slots == FrontSlots(old(Abs()), ids)
    {
      ghost var before := Abs();
      commitments, slots := map[], map[];
      var left, done := ids, {};
      EnlistNobody(before, sid);
      while left != {}
        invariant left !! done && left + done == ids
        invariant Abs() == Enlist(before, done, sid)
        invariant commitments == FrontCommitments(before, done)
        invariant slots == FrontSlots(before, done)
        decreases left
      {
        var id := Least(left);
        EnlistOne(before, done, id, sid);
        FrontOne(before, done, id);
        responsive := responsive - {id};
        busy := busy[id := sid];
        var front := queues[id][0];
        queues := queues[id := queues[id][1..]];
        commitments := commitments[id := front.commitment];
        slots := slots[id := front.slot];
        left, done := left - {id}, done + {id};
      }
    }

    /** A verified share: replenish, free the signer, file the share. */
    method Collect(sid: SessionId, id: SignerId, share: Share, replenish: Option<Offer>)
      requires Accepted(frost, Abs(), sid, id, share)
      modifies this
      ensures Abs() == Receive(frost, old(Abs()), sid, id, share, replenish)
    {
      if replenish.Some? {
        queues := queues[id := Queue(Abs(), id) + [replenish.value]];
      }
      busy := busy - {id};
      responsive := responsive + {id};
      sessions := sessions[sid := sessions[sid].(collected := sessions[sid].collected[id := share])];
    }

    method ReceiveShare(sid: SessionId, id: SignerId, share: Share, replenish: Option<Offer>) returns (r: Outcome)
      modifies this
      ensures Abs() == Receive(frost, old(Abs()), sid, id, share, replenish)
      ensures r == ReceiveOutcome(frost, old(Abs()), sid, id, share)
    {
      if sid !in sessions || id !in sessions[sid].participants {
        return Ok(None);
      }
      if id !in frost.known {
        return Err(UnknownIdentifier);
      }
      var session := sessions[sid];
      if !frost.verify(id, share, session.package) {
        banished := banished + {id};
        busy := busy - {id};
        return Err(InvalidShare);
      }
      Collect(sid, id, share, replenish);
      session := sessions[sid];
      if |session.collected| == threshold {
        match frost.aggregate(session.package, session.collected) {
          case Some(signature) => return Ok(Some(signature));
          case None => return Err(AggregationFailed);
        }
      }
      return Ok(None);
    }
  }

  lemma EnlistNobody(s: State, sid: SessionId)
    ensures Enlist(s, {}, sid) == s && FrontCommitments(s, {}) == map[] && FrontSlots(s, {}) == map[]
  {
    assert Popped(s.queues, {}) == s.queues;
    assert s.busy + Assigned({}, sid) == s.busy;
  }

  lemma PopOne(queues: map<SignerId, seq<Offer>>, done: set<SignerId>, id: SignerId)
    requires id !in done && forall i :: i in done + {id} ==> i in queues && queues[i] != []
    ensures id in Popped(queues, done) && Popped(queues, done)[id] == queues[id]
    ensures Popped(queues, done + {id}) == Popped(queues, done)[id := queues[id][1..]]
  {
  }

  lemma AssignOne(busy: map<SignerId, SessionId>, done: set<SignerId>, id: SignerId, sid: SessionId)
    ensures busy + Assigned(done + {id}, sid) == (busy + Assigned(done, sid))[id := sid]
  {
  }

  lemma FrontOne(s: State, done: set<SignerId>, id: SignerId)
    requires done <= Eligible(s) && id in Eligible(s) - done
    ensures FrontCommitments(s, done + {id}) == FrontCommitments(s, done)[id := s.queues[id][0].commitment]
    ensures FrontSlots(s, done + {id}) == FrontSlots(s, done)[id := s.queues[id][0].slot]
  {
  }

  /** One turn of the popping loop. */
  lemma EnlistOne(s: State, done: set<SignerId>, id: SignerId, sid: SessionId)
    requires done <= Eligible(s) && id in Eligible(s) - done
    ensures
      var before, after := Enlist(s, done, sid), Enlist(s, done + {id}, sid);
      && id in before.queues && before.queues[id] == s.queues[id] && before.queues[id] != []
      && after == before.(responsive := before.responsive - {id},
                          queues := before.queues[id := before.queues[id][1..]],
                          busy := before.busy[id := sid])
  {
    PopOne(s.queues, done, id);
    AssignOne(s.busy, done, id, sid);
    assert s.responsive - (done + {id}) == s.responsive - done - {id};
    hide Popped, Assigned;
  }

  /** Iteration order leaves no choice: two sets taken in order from the same set are the same. */
  lemma TakeIsUnique(ids: set<nat>, k: nat, a: set<nat>, b: set<nat>)
    requires TakesInOrder(ids, k, a) && TakesInOrder(ids, k, b)
    ensures a == b
  {
    if a <= b {
      SubsetSize(a, b);
    } else if b <= a {
      SubsetSize(b, a);
    }
  }
}
