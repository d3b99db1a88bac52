/**
 Concurrent enrollments on one shared coordinator, as the lock-protected steps of bin/yip-ca/src/serve.rs: every client
 overwrites the coordinator's `message` before it tries to spawn, and later polls the session it was given.
 */
module Enrollment {
  import opened Prelude
  import opened CertTbs
  import opened Roast
  import opened RoastRuns

  type ClientId = nat

  /** A certificate sent back: whose fields it carries, and the session, package and shares its signature came from. */
  datatype Issued = Issued(client: ClientId, sid: SessionId, package: Package, shares: map<SignerId, Share>, signature: Signature)
  datatype Dispatch = Dispatch(client: ClientId, sid: SessionId, package: Package)

  datatype System = System(
    coordinator: State,
    tickets: map<ClientId, SessionId>,  // session_info of each client past its spawn
    dispatched: set<Dispatch>,          // signing requests put on signer channels, which carry the client's TBS
    issued: set<Issued>)

  datatype Event =
    | TriesToSpawn(client: ClientId)
    | Polls(client: ClientId)
    | FromSigner(event: Roast.Event)

  /** The canonical bytes each client asks to have signed. */
  type Messages = ClientId -> Bytes

  /** Signer connections register commitments and deliver shares; only client tasks touch the message or spawn. */
  predicate SignerSide(e: Roast.Event) {
    e.Registers? || e.Receives?
  }

  /** One turn of the spawn loop under the lock: `message = msg; try_spawn_session()`. */
  function TrySpawn(m: Messages, y: System, client: ClientId): System {
    if client in y.tickets then y else
      var s := y.coordinator.(message := m(client));
      if !CanSpawn(s) then y.(coordinator := s)
      else
        var out := SpawnOutput(s);
        y.(coordinator := SpawnState(s),
           tickets := y.tickets[client := out.sid],
           dispatched := y.dispatched + {Dispatch(client, out.sid, out.package)})
  }

  /** One turn of the polling loop: aggregate once enough shares are in, and put the result in the client's certificate. */
  function Poll(f: Frost, y: System, client: ClientId): System {
    if client !in y.tickets || y.tickets[client] !in y.coordinator.sessions then y else
      var sid := y.tickets[client];
      var x := y.coordinator.sessions[sid];
      if |x.collected| < y.coordinator.threshold then y
      else match f.aggregate(x.package, x.collected)
           case None => y
           case Some(signature) => y.(issued := y.issued + {Issued(client, sid, x.package, x.collected, signature)})
  }

  function Step(f: Frost, m: Messages, y: System, e: Event): System {
    match e
    case TriesToSpawn(client) => TrySpawn(m, y, client)
    case Polls(client) => Poll(f, y, client)
    case FromSigner(event) =>
      if SignerSide(event) then y.(coordinator := Roast.Step(f, y.coordinator, event)) else y
  }

  function Run(f: Frost, m: Messages, threshold: nat, es: seq<Event>): System {
    if es == [] then System(Fresh(threshold, []), map[], {}, {})
    else Step(f, m, Run(f, m, threshold, es[..|es| - 1]), es[|es| - 1])
  }

  // ---- Nobody gets somebody else's signature ---------------------------------------------------------------------

  /** Session `sid` was opened for this client's certificate and no other. */
  ghost predicate Serves(m: Messages, s: State, client: ClientId, sid: SessionId) {
    sid in s.sessions && s.sessions[sid].package.message == m(client)
  }

  /** Every client past its spawn holds a session of its own, over its own bytes. */
  ghost predicate OwnTickets(m: Messages, y: System) {
    && (forall c :: c in y.tickets ==> Serves(m, y.coordinator, c, y.tickets[c]))
    && (forall c, d :: c in y.tickets && d in y.tickets && y.tickets[c] == y.tickets[d] ==> c == d)
  }

  /** Signed over the client's own bytes, by all participants of the client's own session, every share verified. */
  ghost predicate OwnSignature(f: Frost, m: Messages, y: System, i: Issued) {
    && i.client in y.tickets && y.tickets[i.client] == i.sid
    && i.package.message == m(i.client)
    && i.shares.Keys == i.package.commitments.Keys
    && (forall id :: id in i.shares ==> f.verify(id, i.shares[id], i.package))
    && f.aggregate(i.package, i.shares) == Some(i.signature)
  }

  ghost predicate Unmixed(f: Frost, m: Messages, y: System) {
    && OwnTickets(m, y)
    && (forall d :: d in y.dispatched ==> d.package.message == m(d.client))
    && (forall i :: i in y.issued ==> OwnSignature(f, m, y, i))
  }

  /** Coordinator steps that leave old sessions' packages alone leave the clients alone. */
  lemma LaterStaysUnmixed(f: Frost, m: Messages, y: System, s': State)
    requires Unmixed(f, m, y) && Later(y.coordinator, s')
    ensures Unmixed(f, m, y.(coordinator := s'))
  {
    var y' := y.(coordinator := s');
    assert OwnTickets(m, y');
    assert forall i :: i in y.issued ==> OwnSignature(f, m, y', i);
  }

  lemma NewTicketStaysUnmixed(f: Frost, m: Messages, y: System, client: ClientId, d: Dispatch)
    requires Unmixed(f, m, y) && client !in y.tickets && Serves(m, y.coordinator, client, d.sid)
    requires forall c :: c in y.tickets ==> y.tickets[c] != d.sid
    requires d.client == client && d.package.message == m(client)
    ensures Unmixed(f, m, y.(tickets := y.tickets[client := d.sid], dispatched := y.dispatched + {d}))
  {
    var y' := y.(tickets := y.tickets[client := d.sid], dispatched := y.dispatched + {d});
    assert OwnTickets(m, y');
    assert forall i :: i in y.issued ==> OwnSignature(f, m, y, i) && OwnSignature(f, m, y', i);
  }

  lemma SpawnStaysUnmixed(f: Frost, m: Messages, y: System, client: ClientId)
    requires Unmixed(f, m, y) && ValidSessions(f, y.coordinator)
    ensures Unmixed(f, m, TrySpawn(m, y, client))
  {
    var s := y.coordinator.(message := m(client));
    LaterStaysUnmixed(f, m, y, s);
    if client !in y.tickets && CanSpawn(s) {
      var out := SpawnOutput(s);
      OpeningIsLater(f, s, Chosen(s), out.package);
      LaterStaysUnmixed(f, m, y.(coordinator := s), SpawnState(s));
      assert forall c :: c in y.tickets ==> Serves(m, s, c, y.tickets[c]);
      NewTicketStaysUnmixed(f, m, y.(coordinator := SpawnState(s)), client, Dispatch(client, out.sid, out.package));
    }
  }

  lemma NewCertificateStaysUnmixed(f: Frost, m: Messages, y: System, i: Issued)
    requires Unmixed(f, m, y) && OwnSignature(f, m, y, i)
    ensures Unmixed(f, m, y.(issued := y.issued + {i}))
  {
    var y' := y.(issued := y.issued + {i});
    assert OwnTickets(m, y');
    assert forall j :: j in y'.issued ==> OwnSignature(f, m, y, j) && OwnSignature(f, m, y', j);
  }

  lemma PollStaysUnmixed(f: Frost, m: Messages, y: System, client: ClientId)
    requires Unmixed(f, m, y) && ValidSessions(f, y.coordinator)
    ensures Unmixed(f, m, Poll(f, y, client))
  {
    var y' := Poll(f, y, client);
    if y' != y {
      var sid := y.tickets[client];
      var x := y.coordinator.sessions[sid];
      assert ValidSession(f, y.coordinator.threshold, x);
      assert |x.collected| == |x.collected.Keys|;
      SubsetSize(x.collected.Keys, x.participants);
      var i := Issued(client, sid, x.package, x.collected, f.aggregate(x.package, x.collected).value);
      assert Serves(m, y.coordinator, client, sid);
      NewCertificateStaysUnmixed(f, m, y, i);
    }
  }

  /** The shared coordinator goes through a run of its own. */
  lemma CoordinatorStaysValid(f: Frost, m: Messages, y: System, e: Event)
    requires Valid(f, y.coordinator)
    ensures Valid(f, Step(f, m, y, e).coordinator)
  {
    match e {
      case TriesToSpawn(client) =>
        var s := y.coordinator.(message := m(client));
        StepKeepsValid(f, y.coordinator, SetsMessage(m(client)));
        StepKeepsValid(f, s, Spawns);
      case Polls(client) =>
      case FromSigner(event) => StepKeepsValid(f, y.coordinator, event);
    }
  }

  lemma StepStaysUnmixed(f: Frost, m: Messages, y: System, e: Event)
    requires Unmixed(f, m, y) && ValidSessions(f, y.coordinator)
    ensures Unmixed(f, m, Step(f, m, y, e))
  {
    match e {
      case TriesToSpawn(client) => SpawnStaysUnmixed(f, m, y, client);
      case Polls(client) => PollStaysUnmixed(f, m, y, client);
      case FromSigner(event) =>
        StepIsLater(f, y.coordinator, event);
        LaterStaysUnmixed(f, m, y, Roast.Step(f, y.coordinator, event));
    }
  }

  /** Over every interleaving of any number of clients and signers, no enrollment is mixed up with another. */
  lemma {:induction false} EnrollmentsDoNotMix(f: Frost, m: Messages, threshold: nat, es: seq<Event>)
    ensures Valid(f, Run(f, m, threshold, es).coordinator) && Unmixed(f, m, Run(f, m, threshold, es))
  {
    if es != [] {
      var y := Run(f, m, threshold, es[..|es| - 1]);
      EnrollmentsDoNotMix(f, m, threshold, es[..|es| - 1]);
      CoordinatorStaysValid(f, m, y, es[|es| - 1]);
      StepStaysUnmixed(f, m, y, es[|es| - 1]);
    }
  }

  /** A certificate `to_canonical_bytes` accepts. */
  type Wish = t: Tbs | Encodable(t) witness Fields(0, seq(32, _ => 0), seq(32, _ => 0), seq(16, _ => 0), 0, 0, [])

  /** A certificate's signed bytes are those of the client's own fields, and of nobody who asked for anything else. */
  lemma {:induction false} IssuedCertificateIsTheClientsOwn(f: Frost, wishes: ClientId -> Wish, threshold: nat, es: seq<Event>, i: Issued, other: ClientId)
    requires i in Run(f, c => Canonical(wishes(c)), threshold, es).issued
    ensures OwnSignature(f, c => Canonical(wishes(c)), Run(f, c => Canonical(wishes(c)), threshold, es), i)
    ensures i.package.message == Canonical(wishes(other)) <==> wishes(other) == wishes(i.client)
  {
    EnrollmentsDoNotMix(f, c => Canonical(wishes(c)), threshold, es);
    if i.package.message == Canonical(wishes(other)) {
      CanonicalIsInjective(wishes(other), wishes(i.client));
    }
  }
}
