/**
 A signer of bin/yip-ca/src/signer_daemon.rs: the vault of single-use nonces and the request handler that checks the
 canonical payload and the lifetime policy before it spends one. Randomness enters as the values drawn.
 */
module Signer {
  import opened Prelude
  import opened Roast
  import opened CertTbs

  type Nonces(==, !new)
  /** What one call of FROST round 1 draws. */
  datatype Drawn = Drawn(nonces: Nonces, commitment: Commitment)

  datatype Vault = Vault(boot: nat, next: nat, active: map<Slot, Nonces>)

  function NewVault(boot: nat): Vault {
    Vault(boot, 1, map[])
  }

  function Issue(v: Vault, drawn: seq<Drawn>): Vault
    decreases drawn
  {
    if drawn == [] then v
    else Issue(Vault(v.boot, v.next + 1, v.active[Slot(v.boot, v.next) := drawn[0].nonces]), drawn[1..])
  }

  /** The offers published for a batch: consecutive slots of this boot, starting at `next`. */
  function Offers(v: Vault, drawn: seq<Drawn>): seq<Offer> {
    seq(|drawn|, k requires 0 <= k < |drawn| => Offer(Slot(v.boot, v.next + k), drawn[k].commitment))
  }

  lemma {:induction false} IssueAdds(v: Vault, drawn: seq<Drawn>)
    ensures var w := Issue(v, drawn);
            && w.boot == v.boot && w.next == v.next + |drawn|
            && forall x :: x in w.active <==> x in v.active || (x.bootEpoch == v.boot && v.next <= x.sequence < w.next)
    decreases drawn
  {
    if drawn != [] {
      IssueAdds(Vault(v.boot, v.next + 1, v.active[Slot(v.boot, v.next) := drawn[0].nonces]), drawn[1..]);
    }
  }

  /**
   Which nonces are where: the k-th slot of a batch holds the k-th draw, the offer published for it carries the commitment
   of that same draw, and what was active before is untouched.
   */
  lemma {:induction false} IssueStores(v: Vault, drawn: seq<Drawn>, k: nat)
    requires k < |drawn|
    ensures
      var slot := Slot(v.boot, v.next + k);
      && slot in Issue(v, drawn).active && Issue(v, drawn).active[slot] == drawn[k].nonces
      && Offers(v, drawn)[k] == Offer(slot, drawn[k].commitment)
    decreases drawn
  {
    var w := Vault(v.boot, v.next + 1, v.active[Slot(v.boot, v.next) := drawn[0].nonces]);
    if k == 0 {
      IssueKeeps(w, drawn[1..], Slot(v.boot, v.next));
    } else {
      IssueStores(w, drawn[1..], k - 1);
    }
  }

  lemma {:induction false} IssueKeeps(v: Vault, drawn: seq<Drawn>, x: Slot)
    requires x in v.active && (x.bootEpoch == v.boot ==> x.sequence < v.next)
    ensures x in Issue(v, drawn).active && Issue(v, drawn).active[x] == v.active[x]
    decreases drawn
  {
    if drawn != [] {
      IssueKeeps(Vault(v.boot, v.next + 1, v.active[Slot(v.boot, v.next) := drawn[0].nonces]), drawn[1..], x);
    }
  }

  /** Every active nonce belongs to this boot and was issued by it. */
  ghost predicate ValidVault(v: Vault) {
    1 <= v.next && forall x :: x in v.active ==> x.bootEpoch == v.boot && 1 <= x.sequence < v.next
  }

  function Take(v: Vault, slot: Slot): Option<Nonces> {
    if slot.bootEpoch == v.boot && slot in v.active then Some(v.active[slot]) else None
  }

  datatype Request = Request(sid: SessionId, slot: Slot, package: Package, tbs: Tbs)
  datatype Reason = PayloadMismatch | LifetimeRefused | NonceUnavailable | SigningFailed
  datatype Reply = Signed(share: Share, replenish: Offer) | Rejected(reason: Reason)
  /** The signer's policy and its FROST round 2, as a function of the package and the nonces it spends. */
  datatype Config = Config(maxTtl: nat, sign: (Package, Nonces) -> Option<Share>)

  predicate WithinPolicy(c: Config, t: Tbs) {
    t.notBefore < t.notAfter <= t.notBefore + c.maxTtl
  }

  function Handle(c: Config, v: Vault, r: Request, drawn: Drawn): (Vault, Reply)
    requires Encodable(r.tbs)
  {
    if r.package.message != Canonical(r.tbs) then (v, Rejected(PayloadMismatch))
    else if !WithinPolicy(c, r.tbs) then (v, Rejected(LifetimeRefused))
    else match Take(v, r.slot)
         case None => (v, Rejected(NonceUnavailable))
         case Some(nonces) =>
           var spent := v.(active := v.active - {r.slot});
           (Issue(spent, [drawn]),
            match c.sign(r.package, nonces)
            case Some(share) => Signed(share, Offers(spent, [drawn])[0])
            case None => Rejected(SigningFailed))
  }

  class SignerState {
    const config: Config
    const boot: nat
    var next: nat
    var active: map<Slot, Nonces>

    function Abs(): Vault
      reads this
    {
      Vault(boot, next, active)
    }

    constructor (config: Config, boot: nat)
      ensures this.config == config && Abs() == NewVault(boot)
    {
      this.config, this.boot, next, active := config, boot, 1, map[];
    }

    /** The slot counter panics at 2^64. */
    method PreprocessBatch(drawn: seq<Drawn>) returns (out: seq<Offer>)
      requires next + |drawn| <= U64_MAX
      modifies this
      ensures Abs() == Issue(old(Abs()), drawn)
      ensures out == Offers(old(Abs()), drawn)
    {
      out := [];
      for i := 0 to |drawn|
        invariant next == old(next) + i
        invariant Issue(Abs(), drawn[i..]) == Issue(old(Abs()), drawn)
        invariant out == Offers(old(Abs()), drawn)[..i]
      {
        var slot := Slot(boot, next);
        next := next + 1;
        active := active[slot := drawn[i].nonces];
        out := out + [Offer(slot, drawn[i].commitment)];
        assert drawn[i..][0] == drawn[i] && drawn[i..][1..] == drawn[i + 1..];
      }
    }

    method TakeOnce(slot: Slot) returns (r: Option<Nonces>)
      modifies this`active
      ensures r == Take(old(Abs()), slot)
      ensures active == if r.Some? then old(active) - {slot} else old(active)
    {
      if slot.bootEpoch != boot || slot !in active {
        return None;
      }
      r := Some(active[slot]);
      active := active - {slot};
    }

    method HandleSignRequest(r: Request, drawn: Drawn) returns (reply: Reply)
      requires Encodable(r.tbs) && next < U64_MAX
      modifies this
      ensures (Abs(), reply) == Handle(config, old(Abs()), r, drawn)
    {
      var expected := ToCanonicalBytes(r.tbs);
      if r.package.message != expected {
        return Rejected(PayloadMismatch);
      }
      if r.tbs.notAfter <= r.tbs.notBefore || r.tbs.notAfter - r.tbs.notBefore > config.maxTtl {
        return Rejected(LifetimeRefused);
      }
      var taken := TakeOnce(r.slot);
      if taken == None {
        return Rejected(NonceUnavailable);
      }
      var replenish := PreprocessBatch([drawn]);
      match config.sign(r.package, taken.value) {
        case Some(share) => return Signed(share, replenish[0]);
        case None => return Rejected(SigningFailed);
      }
    }
  }

  // ---- Runs: batches, arbitrary requests, restarts ---------------------------------------------------------------

  datatype Event = Batches(drawn: seq<Drawn>) | Asks(request: Request, replacement: Drawn) | Restarts(boot: nat)

  predicate Asked(e: Event) {
    e.Asks? ==> Encodable(e.request.tbs)
  }

  function Step(c: Config, v: Vault, e: Event): Vault
    requires Asked(e)
  {
    match e
    case Batches(drawn) => Issue(v, drawn)
    case Asks(request, replacement) => Handle(c, v, request, replacement).0
    case Restarts(boot) => NewVault(boot)
  }

  predicate AllAsked(es: seq<Event>) {
    forall i :: 0 <= i < |es| ==> Asked(es[i])
  }

  function Run(c: Config, boot: nat, es: seq<Event>): Vault
    requires AllAsked(es)
  {
    if es == [] then NewVault(boot) else Step(c, Run(c, boot, es[..|es| - 1]), es[|es| - 1])
  }

  lemma StepKeepsVault(c: Config, v: Vault, e: Event)
    requires ValidVault(v) && Asked(e)
    ensures ValidVault(Step(c, v, e))
  {
    match e {
      case Batches(drawn) => IssueAdds(v, drawn);
      case Asks(request, replacement) => IssueAdds(v.(active := v.active - {request.slot}), [replacement]);
      case Restarts(boot) =>
    }
  }

  lemma {:induction false} EveryRunKeepsVault(c: Config, boot: nat, es: seq<Event>)
    requires AllAsked(es)
    ensures ValidVault(Run(c, boot, es))
  {
    if es != [] {
      EveryRunKeepsVault(c, boot, es[..|es| - 1]);
      StepKeepsVault(c, Run(c, boot, es[..|es| - 1]), es[|es| - 1]);
    }
  }

  /** Event `k` of the run makes the signer emit a share. */
  predicate Emits(c: Config, boot: nat, es: seq<Event>, k: nat)
    requires AllAsked(es) && k < |es|
  {
    es[k].Asks? && Handle(c, Run(c, boot, es[..k]), es[k].request, es[k].replacement).1.Signed?
  }

  // ---- Single use ------------------------------------------------------------------------------------------------

  /** The slot is gone from the vault and below everything this boot will still issue. */
  predicate Spent(v: Vault, slot: Slot) {
    slot !in v.active && (slot.bootEpoch == v.boot ==> slot.sequence < v.next)
  }

  /** The boot epochs drawn so far, newest last. */
  function Boots(boot: nat, es: seq<Event>): seq<nat> {
    if es == [] then [boot] else
      var e := es[|es| - 1];
      Boots(boot, es[..|es| - 1]) + if e.Restarts? then [e.boot] else []
  }

  ghost predicate DistinctBoots(boot: nat, es: seq<Event>) {
    var boots := Boots(boot, es);
    forall i, j :: 0 <= i < j < |boots| ==> boots[i] != boots[j]
  }

  lemma StepKeepsSpent(c: Config, v: Vault, e: Event, slot: Slot)
    requires Asked(e) && Spent(v, slot) && (e.Restarts? ==> e.boot != slot.bootEpoch)
    ensures Spent(Step(c, v, e), slot)
  {
    match e {
      case Batches(drawn) => IssueAdds(v, drawn);
      case Asks(request, replacement) => IssueAdds(v.(active := v.active - {request.slot}), [replacement]);
      case Restarts(boot) =>
    }
  }

  lemma {:induction false} BootIsCurrent(c: Config, boot: nat, es: seq<Event>)
    requires AllAsked(es)
    ensures Boots(boot, es) != [] && Run(c, boot, es).boot == Boots(boot, es)[|Boots(boot, es)| - 1]
  {
    if es != [] {
      var before, e := es[..|es| - 1], es[|es| - 1];
      BootIsCurrent(c, boot, before);
      match e {
        case Batches(drawn) => IssueAdds(Run(c, boot, before), drawn);
        case Asks(request, replacement) =>
          IssueAdds(Run(c, boot, before).(active := Run(c, boot, before).active - {request.slot}), [replacement]);
        case Restarts(b) =>
      }
    }
  }

  lemma EmittingSpends(c: Config, boot: nat, es: seq<Event>, k: nat)
    requires AllAsked(es) && k < |es| && Emits(c, boot, es, k)
    ensures es[k].request.slot in Run(c, boot, es[..k]).active
    ensures Spent(Run(c, boot, es[..k + 1]), es[k].request.slot)
  {
    var v, slot := Run(c, boot, es[..k]), es[k].request.slot;
    EveryRunKeepsVault(c, boot, es[..k]);
    IssueAdds(v.(active := v.active - {slot}), [es[k].replacement]);
    assert es[..k + 1][..k] == es[..k] && es[..k + 1][k] == es[k];
  }

  lemma EmittingUsesAKnownBoot(c: Config, boot: nat, es: seq<Event>, k: nat)
    requires AllAsked(es) && k < |es| && Emits(c, boot, es, k)
    ensures es[k].request.slot.bootEpoch in Boots(boot, es[..k + 1])
  {
    hide Run;
    BootIsCurrent(c, boot, es[..k]);
    assert es[..k + 1][..k] == es[..k] && es[..k + 1][k] == es[k];
  }

  lemma {:induction false} SpentForEver(c: Config, boot: nat, es: seq<Event>, k: nat, slot: Slot)
    requires AllAsked(es) && k <= |es| && DistinctBoots(boot, es)
    requires Spent(Run(c, boot, es[..k]), slot) && slot.bootEpoch in Boots(boot, es[..k])
    ensures Spent(Run(c, boot, es), slot) && slot.bootEpoch in Boots(boot, es)
    decreases es
  {
    if k == |es| {
      assert es[..k] == es;
    } else {
      var before, e := es[..|es| - 1], es[|es| - 1];
      assert before[..k] == es[..k];
      assert Boots(boot, before) == Boots(boot, es)[..|Boots(boot, before)|];
      SpentForEver(c, boot, before, k, slot);
      if e.Restarts? {
        var i :| 0 <= i < |Boots(boot, before)| && Boots(boot, before)[i] == slot.bootEpoch;
        assert Boots(boot, es)[i] == slot.bootEpoch && Boots(boot, es)[|Boots(boot, before)|] == e.boot;
      }
      StepKeepsSpent(c, Run(c, boot, before), e, slot);
    }
  }

  /** A nonce signs at most once, over any run of arbitrary requests, across restarts with distinct boot epochs. */
  lemma {:induction false} NonceSignsAtMostOnce(c: Config, boot: nat, es: seq<Event>, i: nat, j: nat)
    requires AllAsked(es) && DistinctBoots(boot, es) && i < j < |es|
    requires Emits(c, boot, es, i) && Emits(c, boot, es, j)
    ensures es[i].request.slot != es[j].request.slot
  {
    hide Run, Boots, Handle, DistinctBoots;
    EmittingSpends(c, boot, es, i);
    EmittingSpends(c, boot, es, j);
    EmittingUsesAKnownBoot(c, boot, es, i);
    assert es[..j][..i + 1] == es[..i + 1];
    DistinctBootsOfPrefix(boot, es, j);
    SpentForEver(c, boot, es[..j], i + 1, es[i].request.slot);
  }

  lemma {:induction false} DistinctBootsOfPrefix(boot: nat, es: seq<Event>, k: nat)
    requires DistinctBoots(boot, es) && k <= |es|
    ensures DistinctBoots(boot, es[..k])
    decreases es
  {
    if k == |es| {
      assert es[..k] == es;
    } else {
      var before := es[..|es| - 1];
      assert before[..k] == es[..k];
      assert forall i :: 0 <= i < |Boots(boot, before)| ==> Boots(boot, before)[i] == Boots(boot, es)[i];
      DistinctBootsOfPrefix(boot, before, k);
    }
  }

  // ---- Accounting ------------------------------------------------------------------------------------------------

  /** The request gets as far as taking its nonce out of the vault, whether or not signing then succeeds. */
  predicate Spends(c: Config, v: Vault, r: Request, drawn: Drawn)
    requires Encodable(r.tbs)
  {
    Handle(c, v, r, drawn).1 !in {Rejected(PayloadMismatch), Rejected(LifetimeRefused), Rejected(NonceUnavailable)}
  }

  /** The slots requests have spent since the last boot. */
  function Taken(c: Config, boot: nat, es: seq<Event>): set<Slot>
    requires AllAsked(es)
  {
    if es == [] then {} else
      var before := es[..|es| - 1];
      match es[|es| - 1]
      case Batches(drawn) => Taken(c, boot, before)
      case Asks(request, replacement) =>
        Taken(c, boot, before) + if Spends(c, Run(c, boot, before), request, replacement) then {request.slot} else {}
      case Restarts(b) => {}
  }

  /** `active` and `taken` share out the slots this boot has issued. */
  ghost predicate Accounts(v: Vault, taken: set<Slot>) {
    && v.active.Keys !! taken
    && forall x :: x in v.active || x in taken <==> x.bootEpoch == v.boot && 1 <= x.sequence < v.next
  }

  lemma IssueAccounts(v: Vault, taken: set<Slot>, drawn: seq<Drawn>)
    requires Accounts(v, taken) && 1 <= v.next
    ensures Accounts(Issue(v, drawn), taken)
  {
    IssueAdds(v, drawn);
    hide Issue;
  }

  lemma HandleAccounts(c: Config, v: Vault, taken: set<Slot>, r: Request, drawn: Drawn)
    requires Encodable(r.tbs) && Accounts(v, taken) && 1 <= v.next
    ensures Accounts(Handle(c, v, r, drawn).0, if Spends(c, v, r, drawn) then taken + {r.slot} else taken)
  {
    if Spends(c, v, r, drawn) {
      IssueAccounts(v.(active := v.active - {r.slot}), taken + {r.slot}, [drawn]);
    }
  }

  /** Conservation: every slot this boot issued is either still active or was spent, never both. */
  lemma {:induction false} IssuedIsActiveOrTaken(c: Config, boot: nat, es: seq<Event>)
    requires AllAsked(es)
    ensures Accounts(Run(c, boot, es), Taken(c, boot, es))
  {
    if es != [] {
      var before := es[..|es| - 1];
      var v, taken := Run(c, boot, before), Taken(c, boot, before);
      IssuedIsActiveOrTaken(c, boot, before);
      EveryRunKeepsVault(c, boot, before);
      match es[|es| - 1] {
        case Batches(drawn) => IssueAccounts(v, taken, drawn);
        case Asks(request, replacement) => HandleAccounts(c, v, taken, request, replacement);
        case Restarts(b) =>
      }
    }
  }

  // ---- Policy ----------------------------------------------------------------------------------------------------

  /** Whatever a signer is asked, the message it signs denotes exactly one certificate, and that one obeys the policy. */
  lemma {:induction false} SignedMessagesObeyPolicy(c: Config, boot: nat, es: seq<Event>, k: nat) returns (t: Tbs)
    requires AllAsked(es) && k < |es| && Emits(c, boot, es, k)
    ensures Encodable(t) && Canonical(t) == es[k].request.package.message
    ensures t.notBefore < t.notAfter && t.notAfter - t.notBefore <= c.maxTtl
    ensures forall u: Tbs :: Encodable(u) && Canonical(u) == es[k].request.package.message ==> u == t
  {
    t := es[k].request.tbs;
    forall u: Tbs | Encodable(u) && Canonical(u) == es[k].request.package.message
      ensures u == t
    {
      CanonicalIsInjective(u, t);
    }
  }
}
