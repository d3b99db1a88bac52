/**
 The epoch set as the object `PeerManager` drives: fields swapped in place, each method proved to take its step. The ghost
 lineage, the sessions that have been current, is what the fields are held to between any two calls.
 */
module EpochObject {
  import opened Prelude
  import opened Epoch

  class EpochSet {
    var current: Plane
    var createdMs: nat
    var next: Option<Next>
    var previous: Option<Plane>
    var retireMs: nat
    var rekey: Option<InFlight>
    var epoch: nat
    ghost var lineage: seq<SessionId>
    ghost var switchedMs: nat

    /** `previous` is the predecessor of `current`, held until 15 s after the switch; the epoch number counts the lineage. */
    ghost predicate Valid()
      reads this
    {
      && lineage != [] && lineage[|lineage| - 1] == current.session && createdMs == switchedMs
      && (previous.Some? ==> |lineage| >= 2 && lineage[|lineage| - 2] == previous.value.session
                             && retireMs == SatAdd(switchedMs, 15_000, U64_MAX))
      && epoch == Min(|lineage|, U64_MAX)
    }

    function Abs(): Epochs
      reads this
    {
      Epochs(current, createdMs, next, previous, retireMs, rekey, epoch)
    }

    constructor (current: Plane, now: nat)
      ensures Valid() && lineage == [current.session] && switchedMs == now
      ensures Abs() == Epoch.New(current, now)
    {
      this.current, createdMs, next, previous, retireMs, rekey, epoch := current, now, None, None, 0, None, 1;
      lineage, switchedMs := [current.session], now;
    }

    method SetPeerAddr(addr: Address)
      requires Valid()
      modifies this
      ensures Valid() && lineage == old(lineage) && switchedMs == old(switchedMs)
      ensures Abs() == Epoch.SetPeerAddr(old(Abs()), addr)
    {
      current := current.(peer := addr);
      if next.Some? {
        next := Some(next.value.(plane := next.value.plane.(peer := addr)));
      }
      if previous.Some? {
        previous := Some(previous.value.(peer := addr));
      }
      if rekey.Some? {
        rekey := Some(rekey.value.(target := addr));
      }
    }

    method InboundOpen(frame: Frame, now: nat) returns (out: Outcome)
      requires Valid()
      modifies this
      ensures Valid() && lineage == old(lineage) + if ConfirmsNext(old(Abs()), frame) then [old(next).value.plane.session] else []
      ensures switchedMs == if ConfirmsNext(old(Abs()), frame) then now else old(switchedMs)
      ensures out == InboundOutcome(old(Abs()), frame)
      ensures Abs() == Epoch.InboundOpen(old(Abs()), frame, now)
    {
      out := Open(current, frame);
      if out != Nothing {
        return;
      }
      if next.Some? {
        out := Open(next.value.plane, frame);
        if out != Nothing {
          var superseded := current;
          current := next.value.plane;
          next := None;
          createdMs := now;
          previous := Some(superseded);
          retireMs := SatAdd(now, GraceMs, U64_MAX);
          epoch := SatAdd(epoch, 1, U64_MAX);
          lineage, switchedMs := lineage + [current.session], now;
          return;
        }
      }
      if previous.Some? {
        return Open(previous.value, frame);
      }
      return Nothing;
    }

    method PromoteFromRekey(plane: Plane, now: nat)
      requires Valid()
      modifies this
      ensures Valid() && lineage == old(lineage) + [plane.session] && switchedMs == now
      ensures Abs() == Epoch.PromoteFromRekey(old(Abs()), plane, now)
    {
      var superseded := current;
      current := plane;
      createdMs := now;
      previous := Some(superseded);
      retireMs := SatAdd(now, GraceMs, U64_MAX);
      rekey := None;
      epoch := SatAdd(epoch, 1, U64_MAX);
      lineage, switchedMs := lineage + [current.session], now;
    }

    method InstallNext(plane: Plane, round: Round, resp: SessionId)
      requires Valid()
      modifies this
      ensures Valid() && lineage == old(lineage) && switchedMs == old(switchedMs)
      ensures Abs() == Epoch.InstallNext(old(Abs()), plane, round, resp)
    {
      next := Some(Next(plane, round, resp));
    }

    method NextCachedRespFor(round: Round) returns (resp: Option<SessionId>)
      ensures resp == CachedRespFor(Abs(), round)
    {
      if next.Some? && next.value.round == round {
        return Some(next.value.cachedResp);
      }
      return None;
    }

    /** Whether `drive_rekey_schedule` may start a round; the doubled interval saturates. */
    method RekeyIsDue(now: nat, winner: bool, interval: nat) returns (due: bool)
      requires interval <= U64_MAX
      ensures due <==> NeedsRekey(Abs(), now, winner, interval)
    {
      if rekey.Some? {
        return false;
      }
      var age := SatSub(now, createdMs);
      return if winner then age >= interval else age >= SatAdd(interval, interval, U64_MAX);
    }

    method RetirePreviousIfDue(now: nat)
      requires Valid()
      modifies this
      ensures Valid() && lineage == old(lineage) && switchedMs == old(switchedMs)
      ensures Abs() == RetireIfDue(old(Abs()), now)
    {
      if previous.Some? && now >= retireMs {
        previous := None;
      }
    }
  }
}
