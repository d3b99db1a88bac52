/** What the slots stand for: the nonces themselves, over any run of a signer, and the answer to every request. */
module SignerNonces {
  import opened Prelude
  import Roast
  import opened CertTbs
  import opened Signer

  type Slot = Roast.Slot

  /** One nonce put under one slot. */
  datatype Stored = Stored(slot: Slot, nonces: Nonces)

  function StoredBatch(v: Vault, drawn: seq<Drawn>): seq<Stored> {
    seq(|drawn|, k requires 0 <= k < |drawn| => Stored(Roast.Slot(v.boot, v.next + k), drawn[k].nonces))
  }

  /** What an event draws and stores; a request draws a replacement only once it has spent its own. */
  function StoredBy(c: Config, v: Vault, e: Event): seq<Stored>
    requires Asked(e)
  {
    match e
    case Batches(drawn) => StoredBatch(v, drawn)
    case Asks(request, replacement) => if Spends(c, v, request, replacement) then StoredBatch(v, [replacement]) else []
    case Restarts(boot) => []
  }

  /** Everything drawn over a run, in order, across restarts. */
  function Draws(c: Config, boot: nat, es: seq<Event>): seq<Stored>
    requires AllAsked(es)
  {
    if es == [] then [] else
      Draws(c, boot, es[..|es| - 1]) + StoredBy(c, Run(c, boot, es[..|es| - 1]), es[|es| - 1])
  }

  /** The random generator never repeats itself. */
  ghost predicate DistinctDraws(c: Config, boot: nat, es: seq<Event>)
    requires AllAsked(es)
  {
    var draws := Draws(c, boot, es);
    forall p, q :: 0 <= p < q < |draws| ==> draws[p].nonces != draws[q].nonces
  }

  lemma IssuedHoldsBatch(v: Vault, drawn: seq<Drawn>, x: Slot)
    requires ValidVault(v) && x in Issue(v, drawn).active
    ensures (x in v.active && Issue(v, drawn).active[x] == v.active[x]) || Stored(x, Issue(v, drawn).active[x]) in StoredBatch(v, drawn)
  {
    IssueAdds(v, drawn);
    if x in v.active {
      IssueKeeps(v, drawn, x);
    } else {
      IssueStores(v, drawn, x.sequence - v.next);
      assert StoredBatch(v, drawn)[x.sequence - v.next] == Stored(x, Issue(v, drawn).active[x]);
    }
  }

  lemma StepHoldsDraws(c: Config, v: Vault, e: Event, x: Slot)
    requires ValidVault(v) && Asked(e) && x in Step(c, v, e).active
    ensures (x in v.active && Step(c, v, e).active[x] == v.active[x]) || Stored(x, Step(c, v, e).active[x]) in StoredBy(c, v, e)
  {
    match e {
      case Batches(drawn) => IssuedHoldsBatch(v, drawn, x);
      case Asks(request, replacement) =>
        if Spends(c, v, request, replacement) {
          IssuedHoldsBatch(v.(active := v.active - {request.slot}), [replacement], x);
        }
      case Restarts(boot) =>
    }
    hide Issue;
  }

  /** What a slot holds was drawn for that slot. */
  lemma {:induction false} ActiveWasDrawn(c: Config, boot: nat, es: seq<Event>, x: Slot)
    requires AllAsked(es) && x in Run(c, boot, es).active
    ensures Stored(x, Run(c, boot, es).active[x]) in Draws(c, boot, es)
  {
    if es != [] {
      var before := es[..|es| - 1];
      EveryRunKeepsVault(c, boot, before);
      StepHoldsDraws(c, Run(c, boot, before), es[|es| - 1], x);
      hide Step, StoredBy, ValidVault;
      if x in Run(c, boot, before).active && Run(c, boot, es).active[x] == Run(c, boot, before).active[x] {
        ActiveWasDrawn(c, boot, before, x);
      }
    }
  }

  lemma {:induction false} DrawsExtend(c: Config, boot: nat, es: seq<Event>, k: nat)
    requires AllAsked(es) && k <= |es|
    ensures Draws(c, boot, es[..k]) <= Draws(c, boot, es)
    decreases es
  {
    hide StoredBy, Run;
    if k == |es| {
      assert es[..k] == es;
    } else {
      assert es[..|es| - 1][..k] == es[..k];
      DrawsExtend(c, boot, es[..|es| - 1], k);
    }
  }

  /** The share event `k` emits. */
  function EmittedBy(c: Config, boot: nat, es: seq<Event>, k: nat): Roast.Share
    requires AllAsked(es) && k < |es| && Emits(c, boot, es, k)
  {
    Handle(c, Run(c, boot, es[..k]), es[k].request, es[k].replacement).1.share
  }

  /** The share is made from the nonces the vault held under the requested slot. */
  lemma EmittedFromItsSlot(c: Config, boot: nat, es: seq<Event>, k: nat)
    requires AllAsked(es) && k < |es| && Emits(c, boot, es, k)
    ensures es[k].request.slot in Run(c, boot, es[..k]).active
    ensures c.sign(es[k].request.package, Run(c, boot, es[..k]).active[es[k].request.slot]) == Some(EmittedBy(c, boot, es, k))
  {
    hide Run, Issue, Canonical;
  }

  lemma {:induction false} UsedWasDrawn(c: Config, boot: nat, es: seq<Event>, k: nat, x: Slot)
    requires AllAsked(es) && k <= |es| && x in Run(c, boot, es[..k]).active
    ensures Stored(x, Run(c, boot, es[..k]).active[x]) in Draws(c, boot, es)
  {
    ActiveWasDrawn(c, boot, es[..k], x);
    DrawsExtend(c, boot, es, k);
    hide Run, Draws;
  }

  /**
   Single use, of the nonces themselves: if no draw repeats another, any two shares a signer ever emits were made from
   different nonces, across restarts.
   */
  lemma {:induction false} SharesUseDifferentNonces(c: Config, boot: nat, es: seq<Event>, i: nat, j: nat)
    returns (m: Nonces, n: Nonces)
    requires AllAsked(es) && DistinctBoots(boot, es) && DistinctDraws(c, boot, es) && i < j < |es|
    requires Emits(c, boot, es, i) && Emits(c, boot, es, j)
    ensures m != n
    ensures c.sign(es[i].request.package, m) == Some(EmittedBy(c, boot, es, i)) && Stored(es[i].request.slot, m) in Draws(c, boot, es)
    ensures c.sign(es[j].request.package, n) == Some(EmittedBy(c, boot, es, j)) && Stored(es[j].request.slot, n) in Draws(c, boot, es)
  {
    hide Run, Draws, Handle, Boots, DistinctBoots;
    EmittedFromItsSlot(c, boot, es, i);
    EmittedFromItsSlot(c, boot, es, j);
    m, n := Run(c, boot, es[..i]).active[es[i].request.slot], Run(c, boot, es[..j]).active[es[j].request.slot];
    NonceSignsAtMostOnce(c, boot, es, i, j);
    UsedWasDrawn(c, boot, es, i, es[i].request.slot);
    UsedWasDrawn(c, boot, es, j, es[j].request.slot);
    DifferentSlotsDiffer(Draws(c, boot, es), Stored(es[i].request.slot, m), Stored(es[j].request.slot, n));
  }

  lemma DifferentSlotsDiffer(draws: seq<Stored>, a: Stored, b: Stored)
    requires forall p, q :: 0 <= p < q < |draws| ==> draws[p].nonces != draws[q].nonces
    requires a in draws && b in draws && a.slot != b.slot
    ensures a.nonces != b.nonces
  {
    var p :| 0 <= p < |draws| && draws[p] == a;
    var q :| 0 <= q < |draws| && draws[q] == b;
    if p < q {
      assert draws[p].nonces != draws[q].nonces;
    } else {
      assert draws[q].nonces != draws[p].nonces;
    }
  }

  // ---- The answer to every request ---------------------------------------------------------------------------------

  /** A lifetime of at least one second and at most the policy's. */
  predicate Lawful(c: Config, t: Tbs) {
    1 <= t.notAfter - t.notBefore <= c.maxTtl
  }

  /** The slot's nonces are gone, one replacement is in under the next slot, and nothing else has changed. */
  predicate Replaces(v: Vault, slot: Slot, drawn: Drawn, v': Vault) {
    && v'.boot == v.boot && v'.next == v.next + 1 && slot !in v'.active
    && Roast.Slot(v.boot, v.next) in v'.active && v'.active[Roast.Slot(v.boot, v.next)] == drawn.nonces
    && forall x :: x in v.active && x != slot ==> x in v'.active && v'.active[x] == v.active[x]
  }

  lemma SpendingReplaces(v: Vault, slot: Slot, drawn: Drawn)
    requires ValidVault(v) && slot in v.active
    ensures
      var spent := v.(active := v.active - {slot});
      Replaces(v, slot, drawn, Issue(spent, [drawn])) && Offers(spent, [drawn])[0] == Roast.Offer(Roast.Slot(v.boot, v.next), drawn.commitment)
  {
    var spent := v.(active := v.active - {slot});
    IssueAdds(spent, [drawn]);
    IssueStores(spent, [drawn], 0);
    forall x | x in v.active && x != slot
      ensures x in Issue(spent, [drawn]).active && Issue(spent, [drawn]).active[x] == v.active[x]
    {
      IssueKeeps(spent, [drawn], x);
    }
    hide Issue;
  }

  /** The answer to a request, given whether its slot can still be used. */
  predicate AnsweredAs(c: Config, v: Vault, usable: bool, r: Request, drawn: Drawn, v': Vault, reply: Reply)
    requires Encodable(r.tbs)
  {
    if r.package.message != Canonical(r.tbs) then v' == v && reply == Rejected(PayloadMismatch)
    else if !Lawful(c, r.tbs) then v' == v && reply == Rejected(LifetimeRefused)
    else if !usable then v' == v && reply == Rejected(NonceUnavailable)
    else
      && r.slot in v.active && Replaces(v, r.slot, drawn, v')
      && match c.sign(r.package, v.active[r.slot])
         case Some(share) => reply == Signed(share, Roast.Offer(Roast.Slot(v.boot, v.next), drawn.commitment))
         case None => reply == Rejected(SigningFailed)
  }

  lemma HandleAnswers(c: Config, v: Vault, r: Request, drawn: Drawn)
    requires Encodable(r.tbs) && ValidVault(v)
    ensures AnsweredAs(c, v, r.slot in v.active, r, drawn, Handle(c, v, r, drawn).0, Handle(c, v, r, drawn).1)
  {
    if r.slot in v.active {
      SpendingReplaces(v, r.slot, drawn);
    }
    hide Issue, Canonical, Replaces, Offers;
  }

  /**
   In any reachable state: each refusal goes to its own cause, in order; a request with matching payload, lawful lifetime
   and a slot this boot issued and has not spent gets as far as signing with that slot's nonces.
   */
  lemma {:induction false} EveryRequestIsAnswered(c: Config, boot: nat, es: seq<Event>, r: Request, drawn: Drawn)
    requires AllAsked(es) && Encodable(r.tbs)
    ensures
      var v := Run(c, boot, es);
      var usable := r.slot.bootEpoch == v.boot && 1 <= r.slot.sequence < v.next && r.slot !in Taken(c, boot, es);
      AnsweredAs(c, v, usable, r, drawn, Handle(c, v, r, drawn).0, Handle(c, v, r, drawn).1)
  {
    EveryRunKeepsVault(c, boot, es);
    IssuedIsActiveOrTaken(c, boot, es);
    HandleAnswers(c, Run(c, boot, es), r, drawn);
    hide Run, Taken, Handle, AnsweredAs;
  }
}
