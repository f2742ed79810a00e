/** The firewall verdict of a flow, cached, and the policy it must agree with. */
module Verdicts {
  import opened Bytes
  import opened FlowTable

  const VERDICT_CACHE_CAP: nat := 4096
  const TRANSPORT_OTHER: byte := 0
  const TRANSPORT_WIFI: byte := 1
  const TRANSPORT_CELLULAR: byte := 2

  datatype AppPolicy = AppPolicy(allowWifi: bool, allowCellular: bool, inspectTls: bool)

  datatype Verdict = Verdict(blocked: bool, uid: int)

  /** Protocol, source and destination. */
  datatype FlowKey = FlowKey(proto: byte, src: bytes, srcPort: nat, dst: bytes, dstPort: nat)

  /** A packet is blocked if and only if its owner is known and under a rule that does not allow the network it would go out on; a
      transport that is neither Wi-Fi nor cellular is never restricted. */
  predicate Agrees(v: Verdict, rules: map<int, AppPolicy>, transport: byte) {
    v.blocked <==>
    && v.uid >= 0 && v.uid in rules
    && ((transport == TRANSPORT_WIFI && !rules[v.uid].allowWifi) || (transport == TRANSPORT_CELLULAR && !rules[v.uid].allowCellular))
  }

  class Firewall {
    var rules: map<int, AppPolicy>
    var transport: byte
    var logOpen: bool
    var verdicts: FlowTable<FlowKey, Verdict>

    /** Every cached verdict is what the policy says now. */
    ghost predicate Valid() reads this, verdicts {
      && verdicts.Valid() && verdicts.capacity == VERDICT_CACHE_CAP
      && forall k :: k in verdicts.Values() ==> Agrees(verdicts.Values()[k], rules, transport)
    }

    constructor ()
      ensures Valid() && fresh(verdicts) && rules == map[] && transport == TRANSPORT_OTHER && !logOpen
    {
      rules, transport, logOpen := map[], TRANSPORT_OTHER, false;
      verdicts := new FlowTable(VERDICT_CACHE_CAP);
    }

    method SetFirewall(newRules: map<int, AppPolicy>)
      requires Valid()
      modifies this
      ensures Valid() && fresh(verdicts) && verdicts.Values() == map[]
      ensures rules == newRules && transport == old(transport) && logOpen == old(logOpen)
    {
      rules := newRules;
      verdicts := new FlowTable(VERDICT_CACHE_CAP);
    }

    method SetTransport(newTransport: byte)
      requires Valid()
      modifies this
      ensures Valid() && rules == old(rules) && transport == newTransport && logOpen == old(logOpen)
      ensures if newTransport == old(transport) then verdicts == old(verdicts) else fresh(verdicts) && verdicts.Values() == map[]
    {
      if newTransport != transport {
        transport := newTransport;
        verdicts := new FlowTable(VERDICT_CACHE_CAP);
      }
    }

    method SetLogOpen(open: bool)
      requires Valid()
      modifies this`logOpen
      ensures Valid() && logOpen == open
    {
      logOpen := open;
    }

    /** The verdict for a flow; `owner` is what the system would answer if asked who owns it. */
    method Decide(key: FlowKey, owner: int) returns (v: Verdict)
      requires Valid()
      modifies verdicts
      ensures Valid()
      ensures Agrees(v, rules, transport)
      ensures v.uid == if rules == map[] && !logOpen then -1
                       else if key in old(verdicts.Values()) then old(verdicts.Values())[key].uid
                       else owner
      ensures verdicts.order == if rules == map[] && !logOpen then old(verdicts.order)
                                else Access(old(verdicts.order), key, VERDICT_CACHE_CAP)
    {
      if rules == map[] && !logOpen {
        return Verdict(false, -1);
      }
      ghost var order := verdicts.order;
      WithoutKeeps(order, key);
      var cached := verdicts.Get(key);
      if cached.Some? {
        return cached.value;
      }
      v := Verdict(Blocks(owner), owner);
      verdicts.Insert(key, v);
    }

    function Blocks(uid: int): (b: bool)
      reads this
      ensures Agrees(Verdict(b, uid), rules, transport)
    {
      if uid < 0 then false
      else if uid in rules then
        (if transport == TRANSPORT_WIFI then !rules[uid].allowWifi
         else if transport == TRANSPORT_CELLULAR then !rules[uid].allowCellular
         else false)
      else false
    }
  }

  /** The commands and packets a run consists of. */
  datatype Call = SetRules(rules: map<int, AppPolicy>) | SetNet(transport: byte) | SetLog(open: bool) | Packet(key: FlowKey, owner: int)

  /** Over any run, each packet's verdict agrees with the rules and the transport at that moment; `vs` are the verdicts. */
  method RunCalls(calls: seq<Call>) returns (vs: seq<Verdict>)
    ensures |vs| == |calls|
    ensures forall i :: 0 <= i < |calls| && calls[i].Packet? ==> Agrees(vs[i], RulesAt(calls[..i]), NetAt(calls[..i]))
  {
    vs := [];
    var f := new Firewall();
    for i := 0 to |calls|
      invariant |vs| == i && f.Valid() && fresh(f) && fresh(f.verdicts)
      invariant f.rules == RulesAt(calls[..i]) && f.transport == NetAt(calls[..i])
      invariant forall j :: 0 <= j < i && calls[j].Packet? ==> Agrees(vs[j], RulesAt(calls[..j]), NetAt(calls[..j]))
    {
      var v := Verdict(false, -1);
      match calls[i] {
        case SetRules(rules) => f.SetFirewall(rules);
        case SetNet(transport) => f.SetTransport(transport);
        case SetLog(open) => f.SetLogOpen(open);
        case Packet(key, owner) => v := f.Decide(key, owner);
      }
      assert calls[..i + 1] == calls[..i] + [calls[i]];
      vs := vs + [v];
    }
  }

  function RulesAt(calls: seq<Call>): map<int, AppPolicy> {
    if calls == [] then map[]
    else match calls[|calls| - 1] case SetRules(rules) => rules case _ => RulesAt(calls[..|calls| - 1])
  }

  function NetAt(calls: seq<Call>): byte {
    if calls == [] then TRANSPORT_OTHER
    else match calls[|calls| - 1] case SetNet(transport) => transport case _ => NetAt(calls[..|calls| - 1])
  }
}
