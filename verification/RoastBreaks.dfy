/**
 Runs that show what the coordinator does not enforce: two or three signers, threshold 2, distinct offers, and shares that
 need only verify under the package they were made for.
 */
module RoastBreaks {
  import opened Prelude
  import opened Roast
  import opened RoastRuns
  import opened RoastRobustness

  lemma RunOneMore(f: Frost, threshold: nat, es: seq<Event>, e: Event)
    ensures Run(f, threshold, es + [e]) == Step(f, Run(f, threshold, es), e)
  {
    assert (es + [e])[..|es|] == es;
  }

  lemma PairIsEligible(s: State, i: SignerId, j: SignerId)
    requires s.responsive == {i, j} && s.banished == {} && Queue(s, i) != [] && Queue(s, j) != []
    ensures Eligible(s) == {i, j}
  {
  }

  lemma PairIsChosen(s: State, i: SignerId, j: SignerId)
    requires s.threshold == 2 && i != j && Eligible(s) == {i, j}
    ensures CanSpawn(s) && Chosen(s) == {i, j}
  {
    SubsetSize(Chosen(s), {i, j});
  }

  lemma PairFronts(s: State, i: SignerId, j: SignerId)
    requires i != j && Eligible(s) == {i, j}
    ensures FrontCommitments(s, {i, j}) == map[i := Queue(s, i)[0].commitment, j := Queue(s, j)[0].commitment]
    ensures FrontSlots(s, {i, j}) == map[i := Queue(s, i)[0].slot, j := Queue(s, j)[0].slot]
  {
    assert i in Eligible(s) && j in Eligible(s);
  }

  lemma PairEnlists(s: State, i: SignerId, j: SignerId, package: Package)
    requires i != j && Eligible(s) == {i, j}
    ensures
      var s' := OpenSession(s, {i, j}, package);
      && s'.threshold == s.threshold && s'.message == s.message && s'.banished == s.banished && s'.nextId == s.nextId + 1
      && s'.responsive == s.responsive - {i, j}
      && s'.busy == s.busy[i := s.nextId][j := s.nextId]
      && s'.sessions == s.sessions[s.nextId := Session({i, j}, package, map[])]
      && forall x :: Queue(s', x) == if x in {i, j} then Queue(s, x)[1..] else Queue(s, x)
  {
    assert i in Eligible(s) && j in Eligible(s);
    assert s.busy + Assigned({i, j}, s.nextId) == s.busy[i := s.nextId][j := s.nextId];
  }

  /** A spawn with exactly two eligible signers and threshold 2: what it does, field by field. */
  lemma PairSpawns(s: State, i: SignerId, j: SignerId)
    requires s.threshold == 2 && i != j && Eligible(s) == {i, j}
    ensures CanSpawn(s) && SpawnOutput(s).slots == map[i := Queue(s, i)[0].slot, j := Queue(s, j)[0].slot]
    ensures
      var s' := Spawn(s);
      && s'.threshold == s.threshold && s'.message == s.message && s'.banished == s.banished && s'.nextId == s.nextId + 1
      && s'.responsive == s.responsive - {i, j}
      && s'.busy == s.busy[i := s.nextId][j := s.nextId]
      && s'.sessions == s.sessions[s.nextId := Session({i, j}, PairPackage(s, i, j), map[])]
      && forall x :: Queue(s', x) == if x in {i, j} then Queue(s, x)[1..] else Queue(s, x)
  {
    assert i in Eligible(s) && j in Eligible(s);
    PairIsChosen(s, i, j);
    PairFronts(s, i, j);
    PairEnlists(s, i, j, PairPackage(s, i, j));
    hide Chosen, Eligible, OpenSession, FrontCommitments, FrontSlots, Queue;
  }

  function PairPackage(s: State, i: SignerId, j: SignerId): Package
    requires Queue(s, i) != [] && Queue(s, j) != []
  {
    Package(map[i := Queue(s, i)[0].commitment, j := Queue(s, j)[0].commitment], s.message)
  }

  /** Signers 1 and 2 register and session 1 is opened over both. */
  function Opening(a: seq<Offer>, b: seq<Offer>): seq<Event> {
    [Registers(1, a)] + [Registers(2, b)] + [Spawns]
  }

  function FirstPackage(a: Offer, b: Offer): Package {
    Package(map[1 := a.commitment, 2 := b.commitment], [])
  }

  /** Nobody banished; this many sessions, these signers free, these busy, these offers queued. */
  predicate Looks(s: State, nextId: nat, responsive: set<SignerId>, busy: map<SignerId, SessionId>, a: seq<Offer>, b: seq<Offer>) {
    && s.threshold == 2 && s.message == [] && s.banished == {}
    && s.nextId == nextId && s.responsive == responsive && s.busy == busy
    && Queue(s, 1) == a && Queue(s, 2) == b && Queue(s, 3) == []
  }

  lemma Registered(f: Frost, a: seq<Offer>, b: seq<Offer>)
    ensures
      var s := Run(f, 2, [Registers(1, a)] + [Registers(2, b)]);
      Looks(s, 1, {1, 2}, map[], a, b) && s.sessions == map[]
  {
    RunOneMore(f, 2, [], Registers(1, a));
    assert [] + [Registers(1, a)] == [Registers(1, a)];
    RunOneMore(f, 2, [Registers(1, a)], Registers(2, b));
    assert [] + a == a && [] + b == b;
    hide Run;
  }

  lemma OpeningOpens(f: Frost, a: seq<Offer>, b: seq<Offer>)
    requires a != [] && b != []
    ensures
      var s := Run(f, 2, Opening(a, b));
      Looks(s, 2, {}, map[1 := 1, 2 := 1], a[1..], b[1..]) && s.sessions == map[1 := Session({1, 2}, FirstPackage(a[0], b[0]), map[])]
  {
    Registered(f, a, b);
    RunOneMore(f, 2, [Registers(1, a)] + [Registers(2, b)], Spawns);
    var s := Run(f, 2, [Registers(1, a)] + [Registers(2, b)]);
    hide Run;
    PairIsEligible(s, 1, 2);
    hide Eligible, Spawn;
    PairSpawns(s, 1, 2);
  }

  lemma UnverifiedShareBanishes(f: Frost, s: State, e: Event)
    requires e.Receives? && Addressed(f, s, e.sid, e.id) && !f.verify(e.id, e.share, s.sessions[e.sid].package)
    ensures e.id in Step(f, s, e).banished
  {
  }

  /**
   A bad share in an honest signer's name: one message that does not verify, naming signer 1, and signer 1 is banished,
   now and after anything that follows.
   */
  lemma BadShareInAnyNameBanishes(f: Frost, a: Offer, b: Offer, junk: Share, later: seq<Event>) returns (es: seq<Event>)
    requires 1 in f.known && !f.verify(1, junk, FirstPackage(a, b))
    ensures es == Opening([a], [b]) + [Receives(1, 1, junk, None)]
    ensures 1 !in Run(f, 2, Opening([a], [b])).banished
    ensures 1 in Run(f, 2, es + later).banished
  {
    var e := Receives(1, 1, junk, None);
    es := Opening([a], [b]) + [e];
    OpeningOpens(f, [a], [b]);
    RunOneMore(f, 2, Opening([a], [b]), e);
    hide Run, Opening;
    UnverifiedShareBanishes(f, Run(f, 2, Opening([a], [b])), e);
    assert (es + later)[..|es|] == es;
    RunsOnlyGrow(f, 2, es + later, |es|);
    hide Step;
  }

  /**
   Robustness without single answers: signer 1 repeats its valid answer to session 1 while busy with session 2, is put
   into session 3, and owes both. The share need only verify for session 1, whose package it was made for.
   */
  lemma RepeatedAnswerBreaksRobustness(f: Frost, a: seq<Offer>, b: seq<Offer>, c: Offer, mine: Share, theirs: Share)
    returns (es: seq<Event>)
    requires {1, 2} <= f.known && |a| == 3 && |b| == 2
    requires f.verify(1, mine, FirstPackage(a[0], b[0])) && f.verify(2, theirs, FirstPackage(a[0], b[0]))
    ensures es == Opening(a, b) + [Receives(1, 1, mine, None)] + [Receives(1, 2, theirs, None)] + [Spawns]
                  + [Receives(1, 1, mine, None)] + [Registers(3, [c])] + [Spawns]
    ensures Owes(Run(f, 2, es), 1, 2) && Owes(Run(f, 2, es), 1, 3)
  {
    var answer, other, newcomer := Receives(1, 1, mine, None), Receives(1, 2, theirs, None), Registers(3, [c]);
    var e3 := Opening(a, b);
    var e5 := e3 + [answer] + [other];
    var e7 := e5 + [Spawns] + [answer];
    es := e7 + [newcomer] + [Spawns];
    OpeningOpens(f, a, b);
    RunOneMore(f, 2, e3, answer);
    RunOneMore(f, 2, e3 + [answer], other);
    RunOneMore(f, 2, e5, Spawns);
    RunOneMore(f, 2, e5 + [Spawns], answer);
    RunOneMore(f, 2, e7, newcomer);
    RunOneMore(f, 2, e7 + [newcomer], Spawns);
    hide Run, Opening;
    BothAnswer(f, Run(f, 2, e3), a[1..], b[1..], mine, theirs);
    hide Receive, Register, Looks;
    SecondSession(Run(f, 2, e5), a[1..], b[1..]);
    hide Spawn, Owes;
    RepeatPoolsSigner(f, Run(f, 2, e5 + [Spawns]), a[2..], b[2..], mine, c);
  }

  /** After both answers to session 1, both are free again. */
  lemma BothAnswer(f: Frost, s: State, a: seq<Offer>, b: seq<Offer>, mine: Share, theirs: Share)
    requires {1, 2} <= f.known && Looks(s, 2, {}, map[1 := 1, 2 := 1], a, b)
    requires s.sessions.Keys == {1} && s.sessions[1].participants == {1, 2}
    requires f.verify(1, mine, s.sessions[1].package) && f.verify(2, theirs, s.sessions[1].package)
    ensures
      var s' := Receive(f, Receive(f, s, 1, 1, mine, None), 1, 2, theirs, None);
      && Looks(s', 2, {1, 2}, map[], a, b) && s'.sessions.Keys == {1}
      && s'.sessions[1].participants == {1, 2} && s'.sessions[1].package == s.sessions[1].package
  {
  }

  lemma SecondSession(s: State, a: seq<Offer>, b: seq<Offer>)
    requires Looks(s, 2, {1, 2}, map[], a, b) && a != [] && b != [] && s.sessions.Keys == {1}
    ensures
      var s' := Spawn(s);
      && Looks(s', 3, {}, map[1 := 2, 2 := 2], a[1..], b[1..]) && s'.sessions.Keys == {1, 2}
      && s'.sessions[1] == s.sessions[1] && Owes(s', 1, 2)
  {
    PairIsEligible(s, 1, 2);
    hide Eligible, Spawn;
    PairSpawns(s, 1, 2);
  }

  /** The repeated answer frees signer 1 although it still owes session 2; with a newcomer it opens session 3. */
  lemma RepeatPoolsSigner(f: Frost, s: State, a: seq<Offer>, b: seq<Offer>, mine: Share, c: Offer)
    requires Looks(s, 3, {}, map[1 := 2, 2 := 2], a, b) && a != []
    requires s.sessions.Keys == {1, 2} && Owes(s, 1, 2)
    requires 1 in f.known && 1 in s.sessions[1].participants && f.verify(1, mine, s.sessions[1].package)
    ensures
      var s' := Spawn(Register(Receive(f, s, 1, 1, mine, None), 3, [c]));
      Owes(s', 1, 2) && Owes(s', 1, 3)
  {
    var t := Register(Receive(f, s, 1, 1, mine, None), 3, [c]);
    RepeatFrees(f, s, a, b, mine, c);
    hide Receive, Register, Spawn, Owes;
    ThirdSession(t);
  }

  lemma ThirdSession(t: State)
    requires t.threshold == 2 && t.responsive == {1, 3} && t.banished == {} && t.nextId == 3
    requires Queue(t, 1) != [] && Queue(t, 3) != [] && Owes(t, 1, 2)
    ensures Owes(Spawn(t), 1, 2) && Owes(Spawn(t), 1, 3)
  {
    PairIsEligible(t, 1, 3);
    hide Eligible, Spawn, SpawnOutput, CanSpawn, Queue, PairPackage;
    PairSpawns(t, 1, 3);
    assert Spawn(t).sessions[2] == t.sessions[2];
  }

  lemma RepeatFrees(f: Frost, s: State, a: seq<Offer>, b: seq<Offer>, mine: Share, c: Offer)
    requires Looks(s, 3, {}, map[1 := 2, 2 := 2], a, b)
    requires s.sessions.Keys == {1, 2} && Owes(s, 1, 2)
    requires 1 in f.known && 1 in s.sessions[1].participants && f.verify(1, mine, s.sessions[1].package)
    ensures
      var t := Register(Receive(f, s, 1, 1, mine, None), 3, [c]);
      && t.threshold == 2 && t.responsive == {1, 3} && t.banished == {} && t.nextId == 3
      && Queue(t, 1) == a && Queue(t, 3) == [c] && Owes(t, 1, 2)
  {
    assert [] + [c] == [c];
  }
}
