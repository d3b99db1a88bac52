/**
 ROAST's robustness argument for this coordinator. A participant that has not (validly) answered a session is owed to
 that session; if no signer answers a session twice, nobody is owed to two sessions, so `f` faulty signers can hold up
 at most `f` sessions while the honest ones keep being free to open the next.
 */
module RoastRobustness {
  import opened Prelude
  import opened Roast
  import opened RoastRuns

  predicate Owes(s: State, id: SignerId, sid: SessionId) {
    sid in s.sessions && id in s.sessions[sid].participants && id !in s.sessions[sid].collected
  }

  /** Nobody owes two sessions; a signer that owes one and is not banished is recorded as busy with it, and conversely. */
  ghost predicate Exclusive(s: State) {
    && (forall id, a, b :: Owes(s, id, a) && Owes(s, id, b) ==> a == b)
    && (forall id, a :: Owes(s, id, a) && id !in s.banished ==> id in s.busy && s.busy[id] == a)
    && (forall id :: id in s.busy ==> Owes(s, id, s.busy[id]))
  }

  lemma OpeningAddsDebts(s: State, ids: set<SignerId>, package: Package, id: SignerId, sid: SessionId)
    requires ids <= Eligible(s)
    ensures Owes(OpenSession(s, ids, package), id, sid) <==> if sid == s.nextId then id in ids else Owes(s, id, sid)
  {
  }

  /** New debts to a new session, by signers that had none, and the busy map extended to match. */
  lemma AddedDebtsStayExclusive(s: State, s': State, ids: set<SignerId>)
    requires Exclusive(s) && s.nextId !in s.sessions
    requires s'.banished == s.banished && s'.busy == s.busy + Assigned(ids, s.nextId)
    requires forall id :: id in ids ==> id !in s.busy && id !in s.banished
    requires forall id, sid :: Owes(s', id, sid) <==> if sid == s.nextId then id in ids else Owes(s, id, sid)
    ensures Exclusive(s')
  {
    assert forall id :: !Owes(s, id, s.nextId);
    hide Owes;
    assert forall id, sid :: id in ids ==> !Owes(s, id, sid);
    assert forall id :: id in ids ==> id in s'.busy && s'.busy[id] == s.nextId;
    assert forall id :: id in s.busy && id !in ids ==> id in s'.busy && s'.busy[id] == s.busy[id];
  }

  lemma OpeningKeepsExclusive(f: Frost, s: State, ids: set<SignerId>, package: Package)
    requires Valid(f, s) && Exclusive(s) && ids <= Eligible(s)
    ensures Exclusive(OpenSession(s, ids, package))
  {
    var s' := OpenSession(s, ids, package);
    forall id, sid
      ensures Owes(s', id, sid) <==> if sid == s.nextId then id in ids else Owes(s, id, sid)
    {
      OpeningAddsDebts(s, ids, package, id, sid);
    }
    assert forall id :: id in ids ==> id !in s.busy && id !in s.banished;
    hide Owes, Exclusive;
    AddedDebtsStayExclusive(s, s', ids);
  }

  /** The test `receive_share` leaves out: a valid share must not come from a signer busy elsewhere. */
  predicate NotBusyElsewhere(s: State, id: SignerId, sid: SessionId) {
    id in s.busy ==> s.busy[id] == sid
  }

  lemma ReceiveKeepsExclusive(f: Frost, s: State, sid: SessionId, id: SignerId, share: Share, replenish: Option<Offer>)
    requires Valid(f, s) && Exclusive(s)
    requires Accepted(f, s, sid, id, share) ==> NotBusyElsewhere(s, id, sid)
    ensures Exclusive(Receive(f, s, sid, id, share, replenish))
  {
    var s' := Receive(f, s, sid, id, share, replenish);
    if Accepted(f, s, sid, id, share) {
      assert forall i, a :: Owes(s', i, a) <==> Owes(s, i, a) && !(i == id && a == sid);
    } else {
      assert forall i, a :: Owes(s', i, a) <==> Owes(s, i, a);
    }
  }

  /**
   Exactly when the robustness invariant survives an accepted share: `receive_share` does not look at
   `signer_to_session`, and the invariant breaks precisely for a share whose signer is busy with another session.
   */
  lemma AcceptedShareKeepsExclusiveIff(f: Frost, s: State, sid: SessionId, id: SignerId, share: Share, replenish: Option<Offer>)
    requires Valid(f, s) && Exclusive(s) && Accepted(f, s, sid, id, share)
    ensures Exclusive(Receive(f, s, sid, id, share, replenish)) <==> NotBusyElsewhere(s, id, sid)
  {
    if NotBusyElsewhere(s, id, sid) {
      ReceiveKeepsExclusive(f, s, sid, id, share, replenish);
    } else {
      assert Owes(Receive(f, s, sid, id, share, replenish), id, s.busy[id]);
    }
  }

  // ---- Runs in which no signer answers a session twice ----------------------------------------------------------

  predicate Answers(e: Event, id: SignerId, sid: SessionId) {
    e.Receives? && e.id == id && e.sid == sid
  }

  ghost predicate AnswersOnce(es: seq<Event>) {
    forall i, j, id, sid :: 0 <= i < j < |es| && Answers(es[i], id, sid) ==> !Answers(es[j], id, sid)
  }

  lemma NewlyCollectedMeansAnswered(f: Frost, s: State, e: Event, sid: SessionId, id: SignerId)
    requires Valid(f, s) && sid in Step(f, s, e).sessions && id in Step(f, s, e).sessions[sid].collected
    ensures (sid in s.sessions && id in s.sessions[sid].collected) || Answers(e, id, sid)
  {
  }

  lemma {:induction false} CollectedMeansAnswered(f: Frost, threshold: nat, es: seq<Event>, sid: SessionId, id: SignerId)
    requires sid in Run(f, threshold, es).sessions && id in Run(f, threshold, es).sessions[sid].collected
    ensures exists i :: 0 <= i < |es| && Answers(es[i], id, sid)
  {
    hide Step, Valid;
    var before, e := es[..|es| - 1], es[|es| - 1];
    var s := Run(f, threshold, before);
    EveryRunIsValid(f, threshold, before);
    NewlyCollectedMeansAnswered(f, s, e, sid, id);
    if !Answers(e, id, sid) {
      CollectedMeansAnswered(f, threshold, before, sid, id);
      var i :| 0 <= i < |before| && Answers(before[i], id, sid);
      assert Answers(es[i], id, sid);
    }
  }

  lemma StepKeepsExclusive(f: Frost, s: State, e: Event)
    requires Valid(f, s) && Exclusive(s) && !Misplaced(f, s, e)
    ensures Exclusive(Step(f, s, e))
  {
    match e {
      case Registers(id, offers) => SameDebtsStayExclusive(s, Step(f, s, e));
      case SetsMessage(message) => SameDebtsStayExclusive(s, Step(f, s, e));
      case Spawns =>
        if CanSpawn(s) {
          OpeningKeepsExclusive(f, s, Chosen(s), SpawnOutput(s).package);
        }
      case Receives(sid, id, share, replenish) => ReceiveKeepsExclusive(f, s, sid, id, share, replenish);
    }
  }

  /** The event is an accepted share whose signer is recorded as busy with another session. */
  predicate Misplaced(f: Frost, s: State, e: Event) {
    e.Receives? && Accepted(f, s, e.sid, e.id, e.share) && !NotBusyElsewhere(s, e.id, e.sid)
  }

  /** The state before event `k` of a run. */
  function Before(f: Frost, threshold: nat, es: seq<Event>, k: nat): State
    requires k <= |es|
  {
    Run(f, threshold, es[..k])
  }

  ghost predicate ExclusiveThroughout(f: Frost, threshold: nat, es: seq<Event>) {
    forall k :: 0 <= k <= |es| ==> Exclusive(Before(f, threshold, es, k))
  }

  ghost predicate NoneMisplaced(f: Frost, threshold: nat, es: seq<Event>) {
    forall k :: 0 <= k < |es| ==> !Misplaced(f, Before(f, threshold, es, k), es[k])
  }

  lemma {:induction false} BeforeInPrefix(f: Frost, threshold: nat, es: seq<Event>, k: nat)
    requires k < |es|
    ensures Before(f, threshold, es[..|es| - 1], k) == Before(f, threshold, es, k)
  {
    assert es[..|es| - 1][..k] == es[..k];
  }

  lemma {:induction false} ThroughoutOneMore(f: Frost, threshold: nat, es: seq<Event>)
    requires es != []
    ensures ExclusiveThroughout(f, threshold, es) <==>
            ExclusiveThroughout(f, threshold, es[..|es| - 1]) && Exclusive(Run(f, threshold, es))
    ensures NoneMisplaced(f, threshold, es) <==>
            NoneMisplaced(f, threshold, es[..|es| - 1]) && !Misplaced(f, Run(f, threshold, es[..|es| - 1]), es[|es| - 1])
  {
    hide Exclusive, Misplaced, Run;
    var before := es[..|es| - 1];
    assert Before(f, threshold, es, |es|) == Run(f, threshold, es) by {
      assert es[..|es|] == es;
    }
    forall k | 0 <= k < |es|
      ensures Before(f, threshold, before, k) == Before(f, threshold, es, k)
    {
      BeforeInPrefix(f, threshold, es, k);
    }
    assert Before(f, threshold, es, |es| - 1) == Run(f, threshold, before);
    hide Before;
  }

  /** Over whole runs: the debts stay exclusive throughout if and only if no share was misplaced when it came. */
  lemma {:induction false} ExclusiveThroughoutIff(f: Frost, threshold: nat, es: seq<Event>)
    ensures ExclusiveThroughout(f, threshold, es) <==> NoneMisplaced(f, threshold, es)
  {
    if es == [] {
      assert Before(f, threshold, es, 0) == Run(f, threshold, []);
    } else {
      var before := es[..|es| - 1];
      assert Before(f, threshold, before, |before|) == Run(f, threshold, before) by {
        assert before[..|before|] == before;
      }
      assert ExclusiveThroughout(f, threshold, before) ==> Exclusive(Before(f, threshold, before, |before|));
      hide Exclusive, Misplaced, Step, Valid, Before, NoneMisplaced, ExclusiveThroughout;
      ThroughoutOneMore(f, threshold, es);
      ExclusiveThroughoutIff(f, threshold, before);
      EveryRunIsValid(f, threshold, before);
      if Exclusive(Run(f, threshold, before)) {
        ExclusiveStepIff(f, Run(f, threshold, before), es[|es| - 1]);
      }
    }
  }

  lemma ExclusiveStepIff(f: Frost, s: State, e: Event)
    requires Valid(f, s) && Exclusive(s)
    ensures Exclusive(Step(f, s, e)) <==> !Misplaced(f, s, e)
  {
    if Misplaced(f, s, e) {
      AcceptedShareKeepsExclusiveIff(f, s, e.sid, e.id, e.share, e.replenish);
    } else {
      StepKeepsExclusive(f, s, e);
    }
  }

  /** Over every run in which no signer answers a session twice, different sessions are owed by disjoint sets of signers. */
  lemma {:induction false} SingleAnswersAreExclusive(f: Frost, threshold: nat, es: seq<Event>)
    requires AnswersOnce(es)
    ensures Exclusive(Run(f, threshold, es))
  {
    if es != [] {
      var before, e := es[..|es| - 1], es[|es| - 1];
      var s := Run(f, threshold, before);
      SingleAnswersAreExclusive(f, threshold, before);
      EveryRunIsValid(f, threshold, before);
      if Misplaced(f, s, e) {
        FirstAnswerIsOwed(f, threshold, es);
      }
      StepKeepsExclusive(f, s, e);
    }
  }

  lemma SameDebtsStayExclusive(s: State, s': State)
    requires Exclusive(s) && s'.sessions == s.sessions && s'.busy == s.busy && s'.banished == s.banished
    ensures Exclusive(s')
  {
    assert forall id, sid :: Owes(s', id, sid) <==> Owes(s, id, sid);
  }

  lemma FirstAnswerIsOwed(f: Frost, threshold: nat, es: seq<Event>)
    requires es != [] && AnswersOnce(es) && es[|es| - 1].Receives?
    requires
      var s, e := Run(f, threshold, es[..|es| - 1]), es[|es| - 1];
      Exclusive(s) && e.sid in s.sessions && e.id in s.sessions[e.sid].participants
    ensures
      var s, e := Run(f, threshold, es[..|es| - 1]), es[|es| - 1];
      Owes(s, e.id, e.sid) && NotBusyElsewhere(s, e.id, e.sid)
  {
    var before, e := es[..|es| - 1], es[|es| - 1];
    var s := Run(f, threshold, before);
    assert forall i :: 0 <= i < |before| ==> !Answers(before[i], e.id, e.sid) by {
      assert Answers(es[|es| - 1], e.id, e.sid);
      assert forall i :: 0 <= i < |before| ==> before[i] == es[i];
    }
    if e.id in s.sessions[e.sid].collected {
      CollectedMeansAnswered(f, threshold, before, e.sid, e.id);
    }
    assert Owes(s, e.id, e.sid);
    assert e.id in s.busy ==> Owes(s, e.id, s.busy[e.id]);
  }

  // ---- Faulty signers -------------------------------------------------------------------------------------------

  predicate Complete(s: State, sid: SessionId) {
    sid in s.sessions && s.sessions[sid].collected.Keys == s.sessions[sid].participants
  }

  function Incomplete(s: State): set<SessionId> {
    set sid | sid in s.sessions && !Complete(s, sid)
  }

  /** All honest shares are in: whoever still owes a session is faulty. */
  ghost predicate OnlyFaultyOwe(s: State, faulty: set<SignerId>) {
    forall id, sid :: Owes(s, id, sid) ==> id in faulty
  }

  /** With `f` faulty signers, at most `f` sessions stay incomplete once all honest shares have arrived. */
  lemma {:induction false} FaultySignersStallFewSessions(f: Frost, threshold: nat, es: seq<Event>, faulty: set<SignerId>)
    requires AnswersOnce(es) && OnlyFaultyOwe(Run(f, threshold, es), faulty)
    ensures |Incomplete(Run(f, threshold, es))| <= |faulty|
  {
    var s := Run(f, threshold, es);
    SingleAnswersAreExclusive(f, threshold, es);
    EveryRunIsValid(f, threshold, es);
    forall sid | sid in Incomplete(s)
      ensures exists id :: id in faulty && Owes(s, id, sid)
    {
      assert ValidSession(f, threshold, s.sessions[sid]);
      assert !(s.sessions[sid].participants <= s.sessions[sid].collected.Keys);
      var id :| id in s.sessions[sid].participants && id !in s.sessions[sid].collected;
      assert Owes(s, id, sid);
    }
    Pigeonhole(Incomplete(s), faulty, (sid, id) => Owes(s, id, sid));
  }

  /**
   The event is a share in the name of a signer that is not faulty, for a session it takes part in, and does not verify.
   The coordinator believes the name in the message, so the signer need not have sent it.
   */
  predicate Blames(f: Frost, s: State, e: Event, faulty: set<SignerId>) {
    e.Receives? && e.id !in faulty && Addressed(f, s, e.sid, e.id) && !f.verify(e.id, e.share, s.sessions[e.sid].package)
  }

  ghost predicate NobodyBlamed(f: Frost, threshold: nat, es: seq<Event>, faulty: set<SignerId>) {
    forall k :: 0 <= k < |es| ==> !Blames(f, Before(f, threshold, es, k), es[k], faulty)
  }

  lemma {:induction false} BlamedOneMore(f: Frost, threshold: nat, es: seq<Event>, faulty: set<SignerId>)
    requires es != []
    ensures NobodyBlamed(f, threshold, es, faulty) <==>
            NobodyBlamed(f, threshold, es[..|es| - 1], faulty) && !Blames(f, Run(f, threshold, es[..|es| - 1]), es[|es| - 1], faulty)
  {
    hide Blames, Run;
    forall k | 0 <= k < |es|
      ensures Before(f, threshold, es[..|es| - 1], k) == Before(f, threshold, es, k)
    {
      BeforeInPrefix(f, threshold, es, k);
    }
    assert Before(f, threshold, es, |es| - 1) == Run(f, threshold, es[..|es| - 1]);
    hide Before;
  }

  lemma StepBanishes(f: Frost, s: State, e: Event, faulty: set<SignerId>)
    requires s.banished <= faulty
    ensures Step(f, s, e).banished <= faulty <==> !Blames(f, s, e, faulty)
  {
    if Blames(f, s, e, faulty) {
      assert e.id in Step(f, s, e).banished;
    } else if e.Spawns? && CanSpawn(s) {
      OpeningOnlyAdds(s, Chosen(s), SpawnOutput(s).package);
    }
  }

  /** Exactly when only faulty signers are banished: no share that fails to verify came in anybody else's name. */
  lemma {:induction false} OnlyFaultyAreBanishedIff(f: Frost, threshold: nat, es: seq<Event>, faulty: set<SignerId>)
    ensures Run(f, threshold, es).banished <= faulty <==> NobodyBlamed(f, threshold, es, faulty)
  {
    if es != [] {
      var before, e := es[..|es| - 1], es[|es| - 1];
      var s := Run(f, threshold, before);
      hide Blames, Step, NobodyBlamed;
      BlamedOneMore(f, threshold, es, faulty);
      OnlyFaultyAreBanishedIff(f, threshold, before, faulty);
      BansLast(f, threshold, es);
      if s.banished <= faulty {
        StepBanishes(f, s, e, faulty);
      }
    }
  }

  lemma BansLast(f: Frost, threshold: nat, es: seq<Event>)
    requires es != []
    ensures Run(f, threshold, es[..|es| - 1]).banished <= Run(f, threshold, es).banished
  {
    RunsOnlyGrow(f, threshold, es, |es| - 1);
  }

  /** If `threshold` honest signers have offers queued and all honest shares are in, the next session can be spawned. */
  lemma {:induction false} HonestSignersCanSpawn(f: Frost, threshold: nat, es: seq<Event>, faulty: set<SignerId>, honest: set<SignerId>)
    requires AnswersOnce(es) && NobodyBlamed(f, threshold, es, faulty)
    requires OnlyFaultyOwe(Run(f, threshold, es), faulty)
    requires honest !! faulty && |honest| >= threshold
    requires forall id :: id in honest ==> Queue(Run(f, threshold, es), id) != []
    ensures CanSpawn(Run(f, threshold, es))
  {
    var s := Run(f, threshold, es);
    EveryRunIsValid(f, threshold, es);
    SingleAnswersAreExclusive(f, threshold, es);
    OnlyFaultyAreBanishedIff(f, threshold, es, faulty);
    assert honest <= Eligible(s);
    SubsetSize(honest, Eligible(s));
  }

  /** Robustness: of the first `f + 1` sessions, one completes as soon as all honest shares have arrived. */
  lemma {:induction false} SomeSessionCompletes(f: Frost, threshold: nat, es: seq<Event>, faulty: set<SignerId>) returns (sid: SessionId)
    requires AnswersOnce(es) && OnlyFaultyOwe(Run(f, threshold, es), faulty)
    requires Run(f, threshold, es).nextId > |faulty| + 1
    ensures 1 <= sid <= |faulty| + 1 && Complete(Run(f, threshold, es), sid)
  {
    var s := Run(f, threshold, es);
    EveryRunIsValid(f, threshold, es);
    FaultySignersStallFewSessions(f, threshold, es, faulty);
    var first := Range(1, |faulty| + 2);
    if first <= Incomplete(s) {
      SubsetSize(first, Incomplete(s));
      assert false;
    }
    sid :| sid in first && sid !in Incomplete(s);
  }

  /** A complete session was aggregated: some step of the run tried it, on the full set of verified shares. */
  lemma {:induction false} CompleteMeansAggregated(f: Frost, threshold: nat, es: seq<Event>, sid: SessionId) returns (k: nat)
    requires threshold >= 1 && Complete(Run(f, threshold, es), sid)
    ensures k < |es| && es[k].Receives? && es[k].sid == sid
    ensures Aggregates(f, Run(f, threshold, es[..k]), sid, es[k].id, es[k].share)
    ensures Run(f, threshold, es[..k]).sessions[sid].package == Run(f, threshold, es).sessions[sid].package
  {
    var before, e := es[..|es| - 1], es[|es| - 1];
    var s := Run(f, threshold, before);
    if Complete(s, sid) {
      k := CompleteMeansAggregated(f, threshold, before, sid);
      assert before[..k] == es[..k];
    } else {
      k := |es| - 1;
      LastShareCompletes(f, threshold, es, sid);
      AggregatesIffComplete(f, threshold, before, sid, e.id, e.share);
    }
    RunsOnlyGrow(f, threshold, es, k);
  }

  lemma LastShareCompletes(f: Frost, threshold: nat, es: seq<Event>, sid: SessionId)
    requires threshold >= 1 && es != []
    requires !Complete(Run(f, threshold, es[..|es| - 1]), sid) && Complete(Run(f, threshold, es), sid)
    ensures
      var s, e := Run(f, threshold, es[..|es| - 1]), es[|es| - 1];
      && e.Receives? && e.sid == sid && Accepted(f, s, sid, e.id, e.share)
      && Collected(s, sid, e.id, e.share).Keys == s.sessions[sid].participants
  {
    var before, e := es[..|es| - 1], es[|es| - 1];
    var s := Run(f, threshold, before);
    if e.Spawns? && CanSpawn(s) {
      assert Run(f, threshold, es) == OpenSession(s, Chosen(s), SpawnOutput(s).package);
      EveryRunIsValid(f, threshold, es);
    }
  }

  /** FROST's own guarantee: verified shares from all the package's signers aggregate. */
  ghost predicate VerifiedSharesAggregate(f: Frost) {
    forall p: Package, shares: map<SignerId, Share> ::
      shares.Keys == p.commitments.Keys && (forall id :: id in shares ==> f.verify(id, shares[id], p)) ==>
      f.aggregate(p, shares).Some?
  }

  /** So some session among the first `f + 1` was signed, over whatever message it was opened for. */
  lemma {:induction false} SomeSessionIsSigned(f: Frost, threshold: nat, es: seq<Event>, faulty: set<SignerId>)
    returns (sid: SessionId, k: nat, signature: Signature)
    requires threshold >= 1 && AnswersOnce(es) && OnlyFaultyOwe(Run(f, threshold, es), faulty)
    requires Run(f, threshold, es).nextId > |faulty| + 1
    requires VerifiedSharesAggregate(f)
    ensures 1 <= sid <= |faulty| + 1
    ensures k < |es| && es[k].Receives? && es[k].sid == sid
    ensures ReceiveOutcome(f, Run(f, threshold, es[..k]), sid, es[k].id, es[k].share) == Ok(Some(signature))
    ensures sid in Run(f, threshold, es).sessions
    ensures exists shares :: f.aggregate(Run(f, threshold, es).sessions[sid].package, shares) == Some(signature)
  {
    sid := SomeSessionCompletes(f, threshold, es, faulty);
    k := CompleteMeansAggregated(f, threshold, es, sid);
    var s, e := Run(f, threshold, es[..k]), es[k];
    EveryRunIsValid(f, threshold, es[..k]);
    AggregatesIffComplete(f, threshold, es[..k], sid, e.id, e.share);
    assert ValidSession(f, threshold, s.sessions[sid]);
    var shares := Collected(s, sid, e.id, e.share);
    assert forall id :: id in shares ==> f.verify(id, shares[id], s.sessions[sid].package);
    signature := f.aggregate(s.sessions[sid].package, shares).value;
  }
}
