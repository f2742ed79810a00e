/** The flow bookkeeping of the TCP stack; the sockets themselves are not part of this model. */
module NetStack {
  import opened Bytes

  const DEFAULT_MAX_FLOWS: nat := 1024

  datatype Addr = Addr(ip: bytes, port: nat)

  datatype FourTuple = FourTuple(app: Addr, server: Addr)

  datatype TcpFlow = TcpFlow(tuple: FourTuple, closedNotified: bool)

  type FlowId = nat

  /** What is read off a TCP packet. */
  datatype TcpPeek = TcpPeek(tuple: FourTuple, syn: bool, ack: bool)

  class NetStack {
    var flows: map<FlowId, TcpFlow>
    var byTuple: map<FourTuple, FlowId>
    var nextId: FlowId
    var maxFlows: nat

    /** `byTuple` is the exact inverse of the tuples of the flows. */
    ghost predicate Valid() reads this {
      && (forall id :: id in flows ==> flows[id].tuple in byTuple && byTuple[flows[id].tuple] == id)
      && (forall t :: t in byTuple ==> byTuple[t] in flows && flows[byTuple[t]].tuple == t)
      && (forall id :: id in flows ==> id < nextId)
      && maxFlows >= 1
    }

    constructor ()
      ensures Valid() && flows == map[] && byTuple == map[] && nextId == 1 && maxFlows == DEFAULT_MAX_FLOWS
    {
      flows, byTuple, nextId, maxFlows := map[], map[], 1, DEFAULT_MAX_FLOWS;
    }

    method SetMaxFlows(max: nat)
      requires Valid()
      modifies this`maxFlows
      ensures Valid() && maxFlows == Max(max, 1)
    {
      maxFlows := Max(max, 1);
    }

    /** A packet off the TUN; `listens` says whether the new socket can listen on the server's endpoint. */
    method OnTcpPacket(peek: Option<TcpPeek>, listens: bool) returns (created: Option<(FlowId, Addr)>)
      requires Valid()
      modifies this`flows, this`byTuple, this`nextId
      ensures Valid()
      ensures created.Some? <==> peek.Some? && peek.value.syn && !peek.value.ack && listens
                                 && peek.value.tuple !in old(byTuple) && |old(flows)| < maxFlows
      ensures created.None? ==> flows == old(flows) && byTuple == old(byTuple) && nextId == old(nextId)
      ensures created.Some? ==>
                && created.value == (old(nextId), peek.value.tuple.server) && old(nextId) !in old(flows)
                && flows == old(flows)[old(nextId) := TcpFlow(peek.value.tuple, false)]
                && byTuple == old(byTuple)[peek.value.tuple := old(nextId)] && nextId == old(nextId) + 1
      ensures |flows| <= Max(|old(flows)|, maxFlows)
    {
      created := None;
      if peek.Some? {
        var tuple := peek.value.tuple;
        if peek.value.syn && !peek.value.ack && tuple !in byTuple {
          if |flows| >= maxFlows {
            return;
          }
          created := CreateFlow(tuple, listens);
        }
      }
    }

    method CreateFlow(tuple: FourTuple, listens: bool) returns (created: Option<(FlowId, Addr)>)
      requires Valid() && tuple !in byTuple
      modifies this`flows, this`byTuple, this`nextId
      ensures Valid()
      ensures created == if listens then Some((old(nextId), tuple.server)) else None
      ensures !listens ==> flows == old(flows) && byTuple == old(byTuple) && nextId == old(nextId)
      ensures listens ==> old(nextId) !in old(flows) && flows == old(flows)[old(nextId) := TcpFlow(tuple, false)]
                          && byTuple == old(byTuple)[tuple := old(nextId)] && nextId == old(nextId) + 1
    {
      if !listens {
        return None;
      }
      var id := nextId;
      nextId := nextId + 1;
      flows := flows[id := TcpFlow(tuple, false)];
      byTuple := byTuple[tuple := id];
      created := Some((id, tuple.server));
    }

    /** The flows of `ids` marked as having been reported closed. */
    function Notified(ids: set<FlowId>): map<FlowId, TcpFlow> reads this {
      map id | id in flows :: if id in ids then flows[id].(closedNotified := true) else flows[id]
    }

    /** Reports each flow whose socket is closed, once; `closedSockets` is what the sockets say. */
    method Poll(closedSockets: set<FlowId>) returns (closed: seq<FlowId>)
      requires Valid()
      modifies this`flows
      ensures Valid() && flows == old(Notified(closedSockets))
      ensures forall id :: id in closed <==> id in old(flows) && id in closedSockets && !old(flows)[id].closedNotified
      ensures forall i, j :: 0 <= i < j < |closed| ==> closed[i] != closed[j]
    {
      closed := [];
      var left := flows.Keys;
      while left != {}
        invariant left <= old(flows).Keys && flows == old(Notified(closedSockets * (flows.Keys - left)))
        invariant forall id :: id in closed <==>
                    id in old(flows) && id !in left && id in closedSockets && !old(flows)[id].closedNotified
        invariant forall i, j :: 0 <= i < j < |closed| ==> closed[i] != closed[j]
        decreases |left|
      {
        var id :| id in left;
        left := left - {id};
        if id in closedSockets && !flows[id].closedNotified {
          flows := flows[id := flows[id].(closedNotified := true)];
          closed := closed + [id];
        }
      }
    }

    method RemoveFlow(id: FlowId)
      requires Valid()
      modifies this`flows, this`byTuple
      ensures Valid() && flows == old(flows) - {id}
      ensures byTuple == if id in old(flows) then old(byTuple) - {old(flows)[id].tuple} else old(byTuple)
    {
      if id in flows {
        byTuple := byTuple - {flows[id].tuple};
        flows := flows - {id};
      }
    }
  }
}
