/** The route table of bin/yip-rendezvous/src/conn_tunnel.rs under reconnect races; a tunnel's channel is its identity. */
module Routes {
  import opened Prelude

  type NodeId = nat
  type Tunnel = nat

  class RouteTable {
    var routes: map<NodeId, Tunnel>

    constructor ()
      ensures routes == map[]
    {
      routes := map[];
    }

    method Register(node: NodeId, tunnel: Tunnel)
      modifies this
      ensures routes == Step(old(routes), Registers(node, tunnel))
    {
      routes := routes[node := tunnel];
    }

    /** Exit-time removal, only if the entry is still this tunnel's own channel. */
    method Leave(node: NodeId, tunnel: Tunnel)
      modifies this
      ensures routes == Step(old(routes), Exits(node, tunnel))
    {
      if node in routes && routes[node] == tunnel {
        routes := routes - {node};
      }
    }
  }

  datatype Event = Registers(node: NodeId, tunnel: Tunnel) | Exits(node: NodeId, tunnel: Tunnel)

  function Step(routes: map<NodeId, Tunnel>, e: Event): map<NodeId, Tunnel> {
    match e
    case Registers(node, tunnel) => routes[node := tunnel]
    case Exits(node, tunnel) => if node in routes && routes[node] == tunnel then routes - {node} else routes
  }

  function Run(es: seq<Event>): map<NodeId, Tunnel> {
    if es == [] then map[] else Step(Run(es[..|es| - 1]), es[|es| - 1])
  }

  /** Every channel is new when registered, and a tunnel exits after it has registered, for the node it registered. */
  ghost predicate Tasks(es: seq<Event>) {
    && (forall i, j :: 0 <= i < j < |es| && es[i].Registers? && es[j].Registers? ==> es[i].tunnel != es[j].tunnel)
    && (forall j :: 0 <= j < |es| && es[j].Exits? ==>
          exists i :: 0 <= i < j && es[i] == Registers(es[j].node, es[j].tunnel))
  }

  /** The tunnel that registered for the node most recently. */
  function Latest(es: seq<Event>, node: NodeId): Option<Tunnel> {
    if es == [] then None
    else if es[|es| - 1].Registers? && es[|es| - 1].node == node then Some(es[|es| - 1].tunnel)
    else Latest(es[..|es| - 1], node)
  }

  predicate HasExited(es: seq<Event>, node: NodeId, tunnel: Tunnel) {
    Exits(node, tunnel) in es
  }

  lemma TasksPrefix(es: seq<Event>)
    requires Tasks(es) && es != []
    ensures Tasks(es[..|es| - 1])
  {
    var before := es[..|es| - 1];
    assert forall i :: 0 <= i < |before| ==> before[i] == es[i];
    forall j | 0 <= j < |before| && before[j].Exits?
      ensures exists i :: 0 <= i < j && before[i] == Registers(before[j].node, before[j].tunnel)
    {
      var i :| 0 <= i < j && es[i] == Registers(es[j].node, es[j].tunnel);
      assert before[i] == es[i];
    }
  }

  lemma NewTunnelHasNotExited(es: seq<Event>)
    requires Tasks(es) && es != [] && es[|es| - 1].Registers?
    ensures !HasExited(es, es[|es| - 1].node, es[|es| - 1].tunnel)
  {
  }

  /** One event, on the entry of a node whose latest tunnel has been tracked so far. */
  lemma EntryAfter(before: seq<Event>, e: Event, routes: map<NodeId, Tunnel>, node: NodeId)
    requires node in routes <==> Latest(before, node).Some? && !HasExited(before, node, Latest(before, node).value)
    requires node in routes ==> routes[node] == Latest(before, node).value
    requires e.Registers? ==> !HasExited(before + [e], e.node, e.tunnel)
    ensures node in Step(routes, e) <==> Latest(before + [e], node).Some? && !HasExited(before + [e], node, Latest(before + [e], node).value)
    ensures node in Step(routes, e) ==> Step(routes, e)[node] == Latest(before + [e], node).value
  {
    assert (before + [e])[..|before|] == before;
  }

  /**
   For every interleaving, the entry of a node is the channel of its most recently registered tunnel if that one has not
   exited, and absent otherwise: no older task's exit evicts a newer one.
   */
  lemma {:induction false} RouteIsLatestLiveTunnel(es: seq<Event>, node: NodeId)
    requires Tasks(es)
    ensures node in Run(es) <==> Latest(es, node).Some? && !HasExited(es, node, Latest(es, node).value)
    ensures node in Run(es) ==> Run(es)[node] == Latest(es, node).value
  {
    if es != [] {
      var before, e := es[..|es| - 1], es[|es| - 1];
      TasksPrefix(es);
      RouteIsLatestLiveTunnel(before, node);
      assert es == before + [e];
      if e.Registers? {
        NewTunnelHasNotExited(es);
      }
      EntryAfter(before, e, Run(before), node);
      hide Tasks, Step, Latest, HasExited;
    }
  }
}
