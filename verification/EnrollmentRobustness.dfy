/**
 Robustness as an enrolling client sees it. bin/yip-ca/src/serve.rs opens one session per enrollment and polls only that
 one, so a client depends on its own session; what ROAST gives is that few clients can be held up.
 */
module EnrollmentRobustness {
  import opened Prelude
  import Roast
  import opened RoastRuns
  import opened RoastRobustness
  import opened Enrollment

  /** The run the shared coordinator goes through: each turn of a spawn loop is a new message and an attempt. */
  function Trace(f: Roast.Frost, m: Messages, threshold: nat, es: seq<Event>): seq<Roast.Event> {
    if es == [] then [] else
      Trace(f, m, threshold, es[..|es| - 1]) + TraceOf(m, Run(f, m, threshold, es[..|es| - 1]), es[|es| - 1])
  }

  function TraceOf(m: Messages, y: System, e: Event): seq<Roast.Event> {
    match e
    case TriesToSpawn(client) => if client in y.tickets then [] else [Roast.SetsMessage(m(client)), Roast.Event.Spawns]
    case Polls(client) => []
    case FromSigner(event) => if SignerSide(event) then [event] else []
  }

  lemma RunTwoMore(f: Roast.Frost, threshold: nat, es: seq<Roast.Event>, d: Roast.Event, e: Roast.Event)
    ensures Roast.Run(f, threshold, es + [d, e]) == Roast.Step(f, Roast.Step(f, Roast.Run(f, threshold, es), d), e)
    ensures Roast.Run(f, threshold, es + [d]) == Roast.Step(f, Roast.Run(f, threshold, es), d)
    ensures es + [] == es
  {
    assert (es + [d, e])[..|es| + 1] == es + [d];
    assert (es + [d])[..|es|] == es;
  }

  lemma {:induction false} StepFollowsTrace(f: Roast.Frost, m: Messages, threshold: nat, y: System, e: Event, trace: seq<Roast.Event>)
    requires y.coordinator == Roast.Run(f, threshold, trace)
    ensures Step(f, m, y, e).coordinator == Roast.Run(f, threshold, trace + TraceOf(m, y, e))
  {
    hide Roast.Run, Roast.SpawnState, Roast.SpawnOutput;
    match e {
      case TriesToSpawn(client) =>
        RunTwoMore(f, threshold, trace, Roast.SetsMessage(m(client)), Roast.Event.Spawns);
      case Polls(client) =>
        assert trace + [] == trace;
      case FromSigner(event) =>
        RunTwoMore(f, threshold, trace, event, event);
    }
  }

  lemma {:induction false} CoordinatorFollowsTrace(f: Roast.Frost, m: Messages, threshold: nat, es: seq<Event>)
    ensures Run(f, m, threshold, es).coordinator == Roast.Run(f, threshold, Trace(f, m, threshold, es))
  {
    if es != [] {
      var before := es[..|es| - 1];
      CoordinatorFollowsTrace(f, m, threshold, before);
      StepFollowsTrace(f, m, threshold, Run(f, m, threshold, before), es[|es| - 1], Trace(f, m, threshold, before));
      hide Roast.Run, Step, TraceOf;
    }
  }

  /** The clients whose one session still lacks a share. */
  function Waiting(y: System): set<ClientId> {
    set c | c in y.tickets && !Complete(y.coordinator, y.tickets[c])
  }

  /** Every client waits on a session of its own. */
  lemma WaitingIsIncomplete(m: Messages, y: System)
    requires OwnTickets(m, y)
    ensures |Waiting(y)| <= |Incomplete(y.coordinator)|
  {
    forall c | c in Waiting(y)
      ensures exists sid :: sid in Incomplete(y.coordinator) && Holds(y, c, sid)
    {
      assert Serves(m, y.coordinator, c, y.tickets[c]);
      assert y.tickets[c] in Incomplete(y.coordinator) && Holds(y, c, y.tickets[c]);
    }
    Pigeonhole(Waiting(y), Incomplete(y.coordinator), (c, sid) => Holds(y, c, sid));
  }

  predicate Holds(y: System, c: ClientId, sid: Roast.SessionId) {
    c in y.tickets && y.tickets[c] == sid
  }

  /** Once only faulty signers owe anything, at most `f` clients are held up, however many are enrolling. */
  lemma {:induction false} FewClientsWait(f: Roast.Frost, m: Messages, threshold: nat, es: seq<Event>, faulty: set<Roast.SignerId>)
    requires AnswersOnce(Trace(f, m, threshold, es)) && OnlyFaultyOwe(Run(f, m, threshold, es).coordinator, faulty)
    ensures |Waiting(Run(f, m, threshold, es))| <= |faulty|
  {
    hide Run, Trace, Roast.Run, Waiting, Incomplete, AnswersOnce, OnlyFaultyOwe;
    CoordinatorFollowsTrace(f, m, threshold, es);
    EnrollmentsDoNotMix(f, m, threshold, es);
    FaultySignersStallFewSessions(f, threshold, Trace(f, m, threshold, es), faulty);
    WaitingIsIncomplete(m, Run(f, m, threshold, es));
  }

  /** The client's own session has every share, and they aggregate. */
  predicate Signable(f: Roast.Frost, y: System, client: ClientId) {
    && client in y.tickets && Complete(y.coordinator, y.tickets[client])
    && var x := y.coordinator.sessions[y.tickets[client]]; f.aggregate(x.package, x.collected).Some?
  }

  predicate Served(y: System, client: ClientId) {
    exists i :: i in y.issued && i.client == client
  }

  /** One poll: it issues exactly for a signable session, and to nobody else. */
  lemma PollServesIff(f: Roast.Frost, y: System, client: ClientId, who: ClientId)
    requires Valid(f, y.coordinator)
    ensures Served(Poll(f, y, client), who) <==> Served(y, who) || (who == client && Signable(f, y, client))
    ensures client in Waiting(y) ==> Poll(f, y, client) == y
  {
    if client in y.tickets && y.tickets[client] in y.coordinator.sessions {
      var x := y.coordinator.sessions[y.tickets[client]];
      assert ValidSession(f, y.coordinator.threshold, x);
      assert |x.collected| == |x.collected.Keys|;
      SubsetSize(x.collected.Keys, x.participants);
      var y' := Poll(f, y, client);
      if Signable(f, y, client) {
        var i := Issued(client, y.tickets[client], x.package, x.collected, f.aggregate(x.package, x.collected).value);
        assert i in y'.issued && i.client == client;
      }
      assert forall i :: i in y.issued ==> i in y'.issued;
    }
  }

  /** Event `k` is a poll of the client that finds its own session complete and aggregating. */
  predicate ServedAt(f: Roast.Frost, m: Messages, threshold: nat, es: seq<Event>, k: nat, client: ClientId)
    requires k < |es|
  {
    es[k] == Polls(client) && Signable(f, Run(f, m, threshold, es[..k]), client)
  }

  lemma {:induction false} ServedAtPrefix(f: Roast.Frost, m: Messages, threshold: nat, es: seq<Event>, k: nat, client: ClientId)
    requires k < |es| - 1
    ensures ServedAt(f, m, threshold, es[..|es| - 1], k, client) <==> ServedAt(f, m, threshold, es, k, client)
  {
    assert es[..|es| - 1][..k] == es[..k];
  }

  lemma {:induction false} ServedLast(f: Roast.Frost, m: Messages, threshold: nat, es: seq<Event>, client: ClientId)
    requires es != []
    ensures Served(Run(f, m, threshold, es), client) <==>
            Served(Run(f, m, threshold, es[..|es| - 1]), client) || ServedAt(f, m, threshold, es, |es| - 1, client)
  {
    EnrollmentsDoNotMix(f, m, threshold, es[..|es| - 1]);
    StepServesIff(f, m, Run(f, m, threshold, es[..|es| - 1]), es[|es| - 1], client);
    hide Step, Served, Signable, Valid, Unmixed;
  }

  predicate EverServed(f: Roast.Frost, m: Messages, threshold: nat, es: seq<Event>, client: ClientId) {
    exists k :: 0 <= k < |es| && ServedAt(f, m, threshold, es, k, client)
  }

  lemma {:induction false} EverServedOneMore(f: Roast.Frost, m: Messages, threshold: nat, es: seq<Event>, client: ClientId)
    requires es != []
    ensures EverServed(f, m, threshold, es, client) <==>
            EverServed(f, m, threshold, es[..|es| - 1], client) || ServedAt(f, m, threshold, es, |es| - 1, client)
  {
    var before := es[..|es| - 1];
    hide ServedAt;
    if EverServed(f, m, threshold, before, client) {
      var k :| 0 <= k < |before| && ServedAt(f, m, threshold, before, k, client);
      ServedAtPrefix(f, m, threshold, es, k, client);
    }
    if EverServed(f, m, threshold, es, client) {
      var k :| 0 <= k < |es| && ServedAt(f, m, threshold, es, k, client);
      if k < |es| - 1 {
        ServedAtPrefix(f, m, threshold, es, k, client);
      }
    }
  }

  /** Over every run, a client gets its certificate iff one of its polls finds its own session complete and aggregating. */
  lemma {:induction false} CertificateIffOwnSessionCompletes(f: Roast.Frost, m: Messages, threshold: nat, es: seq<Event>, client: ClientId)
    ensures Served(Run(f, m, threshold, es), client) <==> EverServed(f, m, threshold, es, client)
  {
    if es != [] {
      CertificateIffOwnSessionCompletes(f, m, threshold, es[..|es| - 1], client);
      ServedLast(f, m, threshold, es, client);
      EverServedOneMore(f, m, threshold, es, client);
      hide Served, ServedAt, Run, EverServed;
    }
  }

  lemma StepServesIff(f: Roast.Frost, m: Messages, y: System, e: Event, client: ClientId)
    requires Valid(f, y.coordinator)
    ensures Served(Step(f, m, y, e), client) <==> Served(y, client) || (e == Polls(client) && Signable(f, y, client))
  {
    if e.Polls? {
      PollServesIff(f, y, e.client, client);
      hide Poll;
    }
  }

  /**
   Robust enrollment: once only faulty signers owe anything, all clients past their spawn but at most `f` are served by
   their next poll; those few get nothing from polling.
   */
  lemma {:induction false} AllButFewClientsAreServed(f: Roast.Frost, m: Messages, threshold: nat, es: seq<Event>, faulty: set<Roast.SignerId>)
    requires AnswersOnce(Trace(f, m, threshold, es)) && OnlyFaultyOwe(Run(f, m, threshold, es).coordinator, faulty)
    requires VerifiedSharesAggregate(f)
    ensures
      var y := Run(f, m, threshold, es);
      && |Waiting(y)| <= |faulty|
      && forall c :: c in y.tickets ==> if c in Waiting(y) then Poll(f, y, c) == y else Served(Poll(f, y, c), c)
  {
    var y := Run(f, m, threshold, es);
    FewClientsWait(f, m, threshold, es, faulty);
    EnrollmentsDoNotMix(f, m, threshold, es);
    hide Run;
    forall c | c in y.tickets
      ensures if c in Waiting(y) then Poll(f, y, c) == y else Served(Poll(f, y, c), c)
    {
      PollServesIff(f, y, c, c);
      if c !in Waiting(y) {
        CompleteIsSignable(f, y, c);
      }
    }
  }

  lemma CompleteIsSignable(f: Roast.Frost, y: System, c: ClientId)
    requires VerifiedSharesAggregate(f) && Valid(f, y.coordinator)
    requires c in y.tickets && Complete(y.coordinator, y.tickets[c])
    ensures Signable(f, y, c)
  {
    var x := y.coordinator.sessions[y.tickets[c]];
    assert ValidSession(f, y.coordinator.threshold, x);
  }

  // ---- One silent participant ------------------------------------------------------------------------------------

  predicate AnsweredBy(e: Event, id: Roast.SignerId, sid: Roast.SessionId) {
    e.FromSigner? && Answers(e.event, id, sid)
  }

  ghost predicate Silent(es: seq<Event>, id: Roast.SignerId, sid: Roast.SessionId) {
    forall k :: 0 <= k < |es| ==> !AnsweredBy(es[k], id, sid)
  }

  lemma {:induction false} SilentInTrace(f: Roast.Frost, m: Messages, threshold: nat, es: seq<Event>, id: Roast.SignerId, sid: Roast.SessionId)
    requires Silent(es, id, sid)
    ensures forall n :: 0 <= n < |Trace(f, m, threshold, es)| ==> !Answers(Trace(f, m, threshold, es)[n], id, sid)
  {
    if es != [] {
      SilentInTrace(f, m, threshold, es[..|es| - 1], id, sid);
      assert !AnsweredBy(es[|es| - 1], id, sid);
    }
  }

  lemma {:induction false} SilentIsNotCollected(f: Roast.Frost, m: Messages, threshold: nat, es: seq<Event>, id: Roast.SignerId, sid: Roast.SessionId)
    requires Silent(es, id, sid) && sid in Run(f, m, threshold, es).coordinator.sessions
    ensures id !in Run(f, m, threshold, es).coordinator.sessions[sid].collected
  {
    CoordinatorFollowsTrace(f, m, threshold, es);
    SilentInTrace(f, m, threshold, es, id, sid);
    hide Run, Trace, Roast.Run;
    if id in Run(f, m, threshold, es).coordinator.sessions[sid].collected {
      CollectedMeansAnswered(f, threshold, Trace(f, m, threshold, es), sid, id);
    }
  }

  /** The client has no session yet, or one this signer takes part in. */
  predicate MayDependOn(y: System, client: ClientId, id: Roast.SignerId, sid: Roast.SessionId) {
    client in y.tickets ==>
      y.tickets[client] == sid && sid in y.coordinator.sessions && id in y.coordinator.sessions[sid].participants
  }

  lemma DependedBefore(f: Roast.Frost, m: Messages, y: System, e: Event, client: ClientId, id: Roast.SignerId, sid: Roast.SessionId)
    requires Valid(f, y.coordinator) && OwnTickets(m, y) && MayDependOn(Step(f, m, y, e), client, id, sid)
    ensures MayDependOn(y, client, id, sid)
  {
    if client in y.tickets {
      assert Serves(m, y.coordinator, client, y.tickets[client]);
      StepKeepsSession(f, m, y, e, y.tickets[client]);
    }
  }

  lemma StepKeepsSession(f: Roast.Frost, m: Messages, y: System, e: Event, sid: Roast.SessionId)
    requires Valid(f, y.coordinator) && sid in y.coordinator.sessions
    ensures sid in Step(f, m, y, e).coordinator.sessions
    ensures Step(f, m, y, e).coordinator.sessions[sid].participants == y.coordinator.sessions[sid].participants
  {
    match e {
      case TriesToSpawn(client) =>
        var s := y.coordinator.(message := m(client));
        StepIsLater(f, s, Roast.Event.Spawns);
      case Polls(client) =>
      case FromSigner(event) => StepIsLater(f, y.coordinator, event);
    }
  }

  /** A client is never served while one participant of its session stays silent, whatever all other sessions do. */
  lemma {:induction false} SilentParticipantHoldsUpItsClient(f: Roast.Frost, m: Messages, threshold: nat, es: seq<Event>,
                                                             client: ClientId, id: Roast.SignerId, sid: Roast.SessionId)
    requires Silent(es, id, sid) && MayDependOn(Run(f, m, threshold, es), client, id, sid)
    ensures !Served(Run(f, m, threshold, es), client)
  {
    if es != [] {
      var before, e := es[..|es| - 1], es[|es| - 1];
      var y := Run(f, m, threshold, before);
      EnrollmentsDoNotMix(f, m, threshold, before);
      DependedBefore(f, m, y, e, client, id, sid);
      assert Silent(before, id, sid);
      SilentParticipantHoldsUpItsClient(f, m, threshold, before, client, id, sid);
      StepServesIff(f, m, y, e, client);
      if client in y.tickets {
        SilentIsNotCollected(f, m, threshold, before, id, sid);
      }
      hide Step, Served, Valid, Unmixed;
    }
  }
}
