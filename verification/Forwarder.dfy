/** The datapath: how flows, datagrams, DNS jobs and timeouts change the session tables. */
module Forwarder {
  import opened Bytes
  import opened NetStack
  import opened Sessions

  const UDP_IDLE_MS: int := 60_000
  const PROXY_HS_TIMEOUT_MS: int := 10_000
  const DNS_TCP_TIMEOUT_MS: int := 5_000
  const DNS_TLS_TIMEOUT_MS: int := 8_000
  const U16_MAX: nat := 0xFFFF

  /** The members of a set in some order, as a walk over a hash table lists them. */
  method Listed<K(==, !new)>(keys: set<K>) returns (ks: seq<K>)
    ensures forall k :: k in ks <==> k in keys
  {
    ks := [];
    var left := keys;
    while left != {}
      invariant left <= keys && forall k :: k in ks <==> k in keys && k !in left
      decreases |left|
    {
      var k :| k in left;
      ks, left := ks + [k], left - {k};
    }
  }

  class Forwarder {
    const stack: NetStack
    var tcp: map<FlowId, TcpSession>
    var udp: map<UdpKey, UdpSession>
    var socksUdp: map<UdpKey, SocksSession>
    var dnsTcp: map<Token, Job>
    var dnsTls: map<Token, Job>
    var routes: map<Token, Route>
    var registered: set<Token>
    var nextToken: Token
    var socksUdpUnsupported: bool

    function View(): Tables reads this {
      Tables(tcp, udp, socksUdp, dnsTcp, dnsTls, routes, registered, nextToken)
    }

    ghost predicate Valid() reads this, stack {
      Consistent(View()) && stack.Valid() && tcp.Keys <= stack.flows.Keys
    }

    constructor ()
      ensures Valid() && fresh(stack) && View() == NoSessions && stack.flows == map[]
    {
      stack := new NetStack();
      tcp, udp, socksUdp, dnsTcp, dnsTls := map[], map[], map[], map[], map[];
      routes, registered, nextToken, socksUdpUnsupported := map[], {}, FIRST_DYNAMIC_TOKEN, false;
      new;
      ConsistentWith(View());
    }

    // --- tokens --------------------------------------------------------------

    method AllocToken() returns (t: Token)
      modifies this`nextToken
      ensures t == old(nextToken) && nextToken == old(nextToken) + 1
    {
      t := nextToken;
      nextToken := nextToken + 1;
    }

    /** Opens a socket and registers it under a new token. */
    method Connect(d: Dial) returns (token: Option<Token>)
      modifies this`nextToken, this`registered
      ensures View() == Dialed(old(View()), d)
      ensures token == if d.Connected? then Some(old(nextToken)) else None
    {
      if d.NoSocket? {
        return None;
      }
      var t := AllocToken();
      if d.Unregistered? {
        return None;
      }
      registered := registered + {t};
      token := Some(t);
    }

    lemma DialedKeeps(T: Tables, d: Dial)
      requires Consistent(T) && !d.Connected?
      ensures Consistent(Dialed(T, d)) && NoReuse(T, Dialed(T, d))
    {
      DialKeeps(T);
    }

    // --- TCP -----------------------------------------------------------------

    /** A TCP packet off the TUN that is to be forwarded; a fresh SYN opens a flow. */
    method OnTcpPacket(peek: Option<TcpPeek>, listens: bool, refused: bool, d: Dial, proxied: bool, now: int)
      requires Valid()
      modifies this, stack
      ensures Valid() && NoReuse(old(View()), View())
      ensures var opens := peek.Some? && peek.value.syn && !peek.value.ack && listens
                           && peek.value.tuple !in old(stack.byTuple) && |old(stack.flows)| < stack.maxFlows;
              && (!opens ==> View() == old(View()))
              && (opens && (refused || !d.Connected?) ==> View() == if refused then old(View()) else Dialed(old(View()), d))
              && (opens && !refused && d.Connected? ==>
                    View() == AddTcp(Dialed(old(View()), d), old(stack.nextId), TcpSession(old(nextToken), proxied, now)))
    {
      var created := stack.OnTcpPacket(peek, listens);
      if created.Some? {
        OpenTcp(created.value.0, refused, d, proxied, now);
      }
    }

    /** `refused` when an encrypted-DNS flow could not be intercepted and must not be relayed. */
    method OpenTcp(id: FlowId, refused: bool, d: Dial, proxied: bool, now: int)
      requires Valid() && id !in tcp && id in stack.flows
      modifies this
      ensures Valid() && NoReuse(old(View()), View())
      ensures refused ==> View() == old(View())
      ensures !refused && !d.Connected? ==> View() == Dialed(old(View()), d)
      ensures !refused && d.Connected? ==>
                View() == AddTcp(Dialed(old(View()), d), id, TcpSession(old(nextToken), proxied, now))
    {
      if refused {
        return;
      }
      ghost var T := View();
      var token := Connect(d);
      if token.Some? {
        var s := TcpSession(token.value, proxied, now);
        AddTcpKeeps(T, View(), id, s);
        routes := routes[token.value := RTcp(id)];
        tcp := tcp[id := s];
      } else {
        DialedKeeps(T, d);
      }
    }

    method TeardownTcp(id: FlowId)
      requires Valid()
      modifies this
      ensures Valid() && View() == DropTcp(old(View()), id) && socksUdpUnsupported == old(socksUdpUnsupported)
    {
      DropTcpKeeps(View(), id);
      if id in tcp {
        registered := registered - {tcp[id].token};
        routes := routes - {tcp[id].token};
        tcp := tcp - {id};
      }
    }

    /** The sweep of finished flows at the start of a service pass; `closedSockets` is what the stack says. */
    method SweepClosed(closedSockets: set<FlowId>)
      requires Valid()
      modifies this, stack
      ensures Valid()
      ensures var gone := set id | id in old(stack.flows) && id in closedSockets && !old(stack.flows)[id].closedNotified;
              View() == DropTcps(old(View()), gone) && stack.flows.Keys == old(stack.flows).Keys - gone
    {
      ghost var T, F := View(), stack.flows;
      ghost var gone := set id | id in F && id in closedSockets && !F[id].closedNotified;
      var closed := stack.Poll(closedSockets);
      DropTcpEachIsAll(T, closed, gone);
      RemoveEachClosed(closed);
    }

    method RemoveEachClosed(closed: seq<FlowId>)
      requires Valid()
      modifies this, stack
      ensures Valid() && View() == DropTcpEach(old(View()), closed)
      ensures forall id :: id in stack.flows <==> id in old(stack.flows) && id !in closed
    {
      ghost var T, F := View(), stack.flows;
      for i := 0 to |closed|
        invariant Valid() && View() == DropTcpEach(T, closed[..i])
        invariant forall id :: id in stack.flows <==> id in F && id !in closed[..i]
      {
        assert closed[..i + 1] == closed[..i] + [closed[i]];
        assert closed[..i + 1][..i] == closed[..i];
        RemoveClosed(closed[i]);
      }
      assert closed[..|closed|] == closed;
    }

    method RemoveClosed(id: FlowId)
      requires Valid()
      modifies this, stack
      ensures Valid() && View() == DropTcp(old(View()), id) && stack.flows == old(stack.flows) - {id}
    {
      GoneFromTable(View(), id);
      TeardownTcp(id);
      stack.RemoveFlow(id);
    }

    lemma GoneFromTable(T: Tables, id: FlowId)
      ensures id !in DropTcp(T, id).tcp
    {
    }

    // --- UDP -----------------------------------------------------------------

    method ForwardUdp(key: UdpKey, d: Dial, now: int)
      requires Valid()
      modifies this
      ensures Valid() && NoReuse(old(View()), View())
      ensures key in old(udp) ==> View() == old(View()).(udp := old(udp)[key := old(udp)[key].(lastUsedMs := now)])
      ensures key !in old(udp) && !d.Connected? ==> View() == Dialed(old(View()), d)
      ensures key !in old(udp) && d.Connected? ==>
                View() == AddUdp(Dialed(old(View()), d), key, UdpSession(old(nextToken), now))
    {
      ghost var T := View();
      if key !in udp {
        var token := Connect(d);
        if token.None? {
          DialedKeeps(T, d);
          return;
        }
        var s := UdpSession(token.value, now);
        AddUdpKeeps(T, View(), key, s);
        AddUdpFresh(T, View(), key, s);
        routes := routes[token.value := RUdp(key)];
        udp := udp[key := s];
        assert udp[key := s] == udp;
      } else {
        UdpChanges(T, key, udp[key].(lastUsedMs := now));
      }
      udp := udp[key := udp[key].(lastUsedMs := now)];
    }

    /** A datagram comes back: the session is in use. */
    method UdpReply(key: UdpKey, now: int)
      requires Valid()
      modifies this`udp
      ensures Valid()
      ensures View() == if key in old(udp) then old(View()).(udp := old(udp)[key := old(udp)[key].(lastUsedMs := now)]) else old(View())
    {
      if key in udp {
        UdpChanges(View(), key, udp[key].(lastUsedMs := now));
        udp := udp[key := udp[key].(lastUsedMs := now)];
      }
    }

    method TeardownUdp(key: UdpKey)
      requires Valid()
      modifies this
      ensures Valid() && View() == DropUdp(old(View()), key)
    {
      DropUdpKeeps(View(), key);
      if key in udp {
        registered := registered - {udp[key].token};
        routes := routes - {udp[key].token};
        udp := udp - {key};
      }
    }

    method ReapUdp(now: int)
      requires Valid()
      modifies this
      ensures Valid() && View() == DropUdps(old(View()), set k | k in old(udp) && now - old(udp)[k].lastUsedMs > UDP_IDLE_MS)
    {
      var stale := set k | k in udp && now - udp[k].lastUsedMs > UDP_IDLE_MS;
      var keys := Listed(stale);
      DropUdpEachIsAll(View(), keys, stale);
      ghost var T := View();
      for i := 0 to |keys|
        invariant Valid() && View() == DropUdpEach(T, keys[..i])
      {
        assert keys[..i + 1][..i] == keys[..i];
        TeardownUdp(keys[i]);
      }
      assert keys[..|keys|] == keys;
    }

    // --- SOCKS5 UDP ----------------------------------------------------------

    method ForwardUdpSocks(key: UdpKey, hasProxy: bool, ctrl: Dial, relay: Dial, now: int)
      requires Valid()
      modifies this
      ensures Valid() && NoReuse(old(View()), View())
      ensures key in old(socksUdp) ==> View() == old(View()).(socks := old(socksUdp)[key := old(socksUdp)[key].(lastUsedMs := now)])
      ensures key !in old(socksUdp) && !hasProxy ==> View() == old(View())
      ensures key !in old(socksUdp) && hasProxy ==> View() == Associated(old(View()), key, ctrl, relay, now)
    {
      if key in socksUdp {
        SocksChanges(View(), key, socksUdp[key].(lastUsedMs := now));
        socksUdp := socksUdp[key := socksUdp[key].(lastUsedMs := now)];
        return;
      }
      if !hasProxy {
        return;
      }
      Associate(key, ctrl, relay, now);
    }

    /** Two sockets or none: a control socket without a relay is taken back, its token spent. */
    function Associated(T: Tables, key: UdpKey, ctrl: Dial, relay: Dial, now: int): Tables {
      if ctrl.Connected? && relay.Connected? then
        AddSocks(Dialed(Dialed(T, ctrl), relay), key, SocksSession(T.nextToken, T.nextToken + 1, true, now))
      else if ctrl.Connected? then T.(nextToken := T.nextToken + if relay.NoSocket? then 1 else 2)
      else Dialed(T, ctrl)
    }

    method Associate(key: UdpKey, ctrl: Dial, relay: Dial, now: int)
      requires Valid() && key !in socksUdp
      modifies this
      ensures Valid() && NoReuse(old(View()), View()) && View() == Associated(old(View()), key, ctrl, relay, now)
    {
      ghost var T := View();
      var ctrlToken := Connect(ctrl);
      if ctrlToken.None? {
        DialedKeeps(T, ctrl);
        return;
      }
      ConnectRelay(T, key, ctrlToken.value, relay, now);
    }

    /** The second half: the control socket is open. */
    method ConnectRelay(ghost T: Tables, key: UdpKey, ctrlToken: Token, relay: Dial, now: int)
      requires FreshToken(T, View(), ctrlToken) && key !in socksUdp && stack.Valid() && tcp.Keys <= stack.flows.Keys
      modifies this
      ensures Valid() && NoReuse(T, View()) && View() == Associated(T, key, Connected, relay, now)
    {
      ghost var U := View();
      var relayToken := Connect(relay);
      if relayToken.None? {
        DropControl(T, ctrlToken);
        return;
      }
      InsertSocks(T, U, key, SocksSession(ctrlToken, relayToken.value, true, now));
    }

    method DropControl(ghost T: Tables, ctrlToken: Token)
      requires Consistent(T) && ctrlToken == T.nextToken <= nextToken && stack.Valid() && tcp.Keys <= stack.flows.Keys
      requires View() == T.(nextToken := nextToken, registered := T.registered + {ctrlToken})
      modifies this`registered
      ensures Valid() && NoReuse(T, View()) && View() == T.(nextToken := nextToken)
    {
      registered := registered - {ctrlToken};
      UndoKeeps(T, View());
    }

    method InsertSocks(ghost T: Tables, ghost U: Tables, key: UdpKey, s: SocksSession)
      requires FreshToken(T, U, s.ctrlToken) && key !in T.socks && s.relayToken == U.nextToken
      requires View() == U.(nextToken := U.nextToken + 1, registered := U.registered + {s.relayToken})
      requires stack.Valid() && tcp.Keys <= stack.flows.Keys
      modifies this`routes, this`socksUdp
      ensures Valid() && NoReuse(T, View()) && View() == AddSocks(old(View()), key, s)
    {
      AddSocksKeeps(T, U, View(), key, s);
      AddSocksFresh(T, U, View(), key, s);
      ghost var W := AddSocks(View(), key, s);
      routes := routes[s.ctrlToken := RSocksCtrl(key)];
      routes := routes[s.relayToken := RSocksRelay(key)];
      socksUdp := socksUdp[key := s];
      assert View() == W;
    }

    /** The control socket is taken back when there is no relay socket to go with it. */
    lemma UndoKeeps(T: Tables, U: Tables)
      requires Consistent(T) && T.nextToken <= U.nextToken
      requires U == T.(nextToken := U.nextToken, registered := T.registered + {T.nextToken} - {T.nextToken})
      ensures Consistent(U) && NoReuse(T, U) && U == T.(nextToken := U.nextToken)
    {
      assert T.nextToken !in T.routes;
      forall t: Token, r: Route ensures ExactAt(U, t, r) {
        assert ExactAt(T, t, r);
      }
      ConsistentWith(U);
    }

    /** A relayed datagram comes back. */
    method SocksReply(key: UdpKey, now: int)
      requires Valid()
      modifies this`socksUdp
      ensures Valid()
      ensures View() == if key in old(socksUdp) then old(View()).(socks := old(socksUdp)[key := old(socksUdp)[key].(lastUsedMs := now)])
                        else old(View())
    {
      if key in socksUdp {
        SocksChanges(View(), key, socksUdp[key].(lastUsedMs := now));
        socksUdp := socksUdp[key := socksUdp[key].(lastUsedMs := now)];
      }
    }

    /** The proxy has granted an association: the handshake is over if the relay socket can be connected, and the association if
        not. */
    method SocksReady(key: UdpKey, connects: bool)
      requires Valid()
      modifies this
      ensures Valid() && NoReuse(old(View()), View())
      ensures View() == if key !in old(socksUdp) then old(View())
                        else if connects then old(View()).(socks := old(socksUdp)[key := old(socksUdp)[key].(handshaking := false)])
                        else DropSocks(old(View()), key)
    {
      if key !in socksUdp {
        return;
      }
      if connects {
        SocksChanges(View(), key, socksUdp[key].(handshaking := false));
        socksUdp := socksUdp[key := socksUdp[key].(handshaking := false)];
      } else {
        TeardownSocks(key);
      }
    }

    /** The proxy has refused an association: no other is asked for. */
    method SocksRefused(key: UdpKey)
      requires Valid()
      modifies this
      ensures Valid() && View() == DropSocks(old(View()), key) && NoReuse(old(View()), View())
      ensures socksUdpUnsupported == (old(socksUdpUnsupported) || key in old(socksUdp))
    {
      if key in socksUdp {
        socksUdpUnsupported := true;
      }
      TeardownSocks(key);
    }

    /** The handshake of a TCP flow with the proxy is done. */
    method TcpReady(id: FlowId)
      requires Valid()
      modifies this`tcp
      ensures Valid()
      ensures View() == if id in old(tcp) then old(View()).(tcp := old(tcp)[id := old(tcp)[id].(handshaking := false)]) else old(View())
    {
      if id in tcp {
        TcpChanges(View(), id, tcp[id].(handshaking := false));
        tcp := tcp[id := tcp[id].(handshaking := false)];
      }
    }

    method TeardownSocks(key: UdpKey)
      requires Valid()
      modifies this
      ensures Valid() && View() == DropSocks(old(View()), key) && socksUdpUnsupported == old(socksUdpUnsupported)
    {
      DropSocksKeeps(View(), key);
      if key in socksUdp {
        var s := socksUdp[key];
        registered := registered - {s.ctrlToken, s.relayToken};
        routes := routes - {s.ctrlToken, s.relayToken};
        socksUdp := socksUdp - {key};
      }
    }

    /** Tears down each of the associations, in the order they were found. */
    method TeardownSocksEach(keys: seq<UdpKey>)
      requires Valid()
      modifies this
      ensures Valid() && View() == DropSocksEach(old(View()), keys) && socksUdpUnsupported == old(socksUdpUnsupported)
    {
      ghost var T := View();
      for i := 0 to |keys|
        invariant Valid() && View() == DropSocksEach(T, keys[..i]) && socksUdpUnsupported == old(socksUdpUnsupported)
      {
        assert keys[..i + 1][..i] == keys[..i];
        TeardownSocks(keys[i]);
      }
      assert keys[..|keys|] == keys;
    }

    method ReapSocks(now: int)
      requires Valid()
      modifies this
      ensures Valid()
      ensures View() == DropAllSocks(old(View()), set k | k in old(socksUdp) && now - old(socksUdp)[k].lastUsedMs > UDP_IDLE_MS)
    {
      var stale := set k | k in socksUdp && now - socksUdp[k].lastUsedMs > UDP_IDLE_MS;
      var keys := Listed(stale);
      DropSocksEachIsAll(View(), keys, stale);
      TeardownSocksEach(keys);
    }

    /** Handshakes with the proxy that never finish are given up, TCP flows and SOCKS associations alike. */
    method ReapProxyHandshakes(now: int)
      requires Valid()
      modifies this
      ensures Valid()
      ensures var ids := set id | id in old(tcp) && old(tcp)[id].handshaking && now - old(tcp)[id].openedMs > PROXY_HS_TIMEOUT_MS;
              var keys := set k | k in old(socksUdp) && old(socksUdp)[k].handshaking
                                  && now - old(socksUdp)[k].lastUsedMs > PROXY_HS_TIMEOUT_MS;
              && View() == DropAllSocks(DropTcps(old(View()), ids), keys)
              && socksUdpUnsupported == (old(socksUdpUnsupported) || keys != {})
    {
      var stuck := set id | id in tcp && tcp[id].handshaking && now - tcp[id].openedMs > PROXY_HS_TIMEOUT_MS;
      var ids := Listed(stuck);
      DropTcpEachIsAll(View(), ids, stuck);
      TeardownTcpEach(ids);
      var keys := set k | k in socksUdp && socksUdp[k].handshaking && now - socksUdp[k].lastUsedMs > PROXY_HS_TIMEOUT_MS;
      if keys != {} {
        socksUdpUnsupported := true;
      }
      var stale := Listed(keys);
      DropSocksEachIsAll(View(), stale, keys);
      TeardownSocksEach(stale);
    }

    /** Tears down each of the flows, in the order they were found. */
    method TeardownTcpEach(ids: seq<FlowId>)
      requires Valid()
      modifies this
      ensures Valid() && View() == DropTcpEach(old(View()), ids) && socksUdpUnsupported == old(socksUdpUnsupported)
    {
      ghost var T := View();
      for i := 0 to |ids|
        invariant Valid() && View() == DropTcpEach(T, ids[..i]) && socksUdpUnsupported == old(socksUdpUnsupported)
      {
        assert ids[..i + 1][..i] == ids[..i];
        TeardownTcp(ids[i]);
      }
      assert ids[..|ids|] == ids;
    }

    // --- DNS jobs ------------------------------------------------------------

    method ForwardDnsOverProxy(length: nat, hasProxy: bool, d: Dial, now: int)
      requires Valid()
      modifies this
      ensures Valid() && NoReuse(old(View()), View())
      ensures var dropped := |old(dnsTcp)| >= DNS_MAX_JOBS || length > U16_MAX || !hasProxy;
              && (dropped ==> View() == old(View()))
              && (!dropped && !d.Connected? ==> View() == Dialed(old(View()), d))
              && (!dropped && d.Connected? ==> View() == AddDnsTcp(Dialed(old(View()), d), old(nextToken), Job(now)))
    {
      if |dnsTcp| >= DNS_MAX_JOBS || length > U16_MAX {
        return;
      }
      if !hasProxy {
        return;
      }
      ghost var T := View();
      var token := Connect(d);
      if token.None? {
        DialedKeeps(T, d);
        return;
      }
      AddDnsTcpKeeps(T, View(), token.value, Job(now));
      routes := routes[token.value := RDnsTcp];
      dnsTcp := dnsTcp[token.value := Job(now)];
    }

    method TeardownDnsTcp(token: Token)
      requires Valid()
      modifies this
      ensures Valid() && View() == DropDnsTcp(old(View()), token)
    {
      DropDnsTcpKeeps(View(), token);
      if token in dnsTcp {
        dnsTcp := dnsTcp - {token};
        registered := registered - {token};
        routes := routes - {token};
      }
    }

    method ReapDnsTcp(now: int)
      requires Valid()
      modifies this
      ensures Valid() && View() == DropDnsTcps(old(View()), set t | t in old(dnsTcp) && now - old(dnsTcp)[t].createdMs > DNS_TCP_TIMEOUT_MS)
    {
      var stale := set k | k in dnsTcp && now - dnsTcp[k].createdMs > DNS_TCP_TIMEOUT_MS;
      var keys := Listed(stale);
      DropDnsTcpEachIsAll(View(), keys, stale);
      ghost var T := View();
      for i := 0 to |keys|
        invariant Valid() && View() == DropDnsTcpEach(T, keys[..i])
      {
        assert keys[..i + 1][..i] == keys[..i];
        TeardownDnsTcp(keys[i]);
      }
      assert keys[..|keys|] == keys;
    }

    method ForwardDnsTls(length: nat, encrypted: bool, named: bool, d: Dial, now: int)
      requires Valid()
      modifies this
      ensures Valid() && NoReuse(old(View()), View())
      ensures var dropped := |old(dnsTls)| >= DNS_MAX_JOBS || length > U16_MAX || !encrypted || !named;
              && (dropped ==> View() == old(View()))
              && (!dropped && !d.Connected? ==> View() == Dialed(old(View()), d))
              && (!dropped && d.Connected? ==> View() == AddDnsTls(Dialed(old(View()), d), old(nextToken), Job(now)))
    {
      if |dnsTls| >= DNS_MAX_JOBS || length > U16_MAX {
        return;
      }
      if !encrypted || !named {
        return;
      }
      ghost var T := View();
      var token := Connect(d);
      if token.None? {
        DialedKeeps(T, d);
        return;
      }
      AddDnsTlsKeeps(T, View(), token.value, Job(now));
      routes := routes[token.value := RDnsTls];
      dnsTls := dnsTls[token.value := Job(now)];
    }

    method TeardownDnsTls(token: Token)
      requires Valid()
      modifies this
      ensures Valid() && View() == DropDnsTls(old(View()), token)
    {
      DropDnsTlsKeeps(View(), token);
      if token in dnsTls {
        dnsTls := dnsTls - {token};
        registered := registered - {token};
        routes := routes - {token};
      }
    }

    method ReapDnsTls(now: int)
      requires Valid()
      modifies this
      ensures Valid() && View() == DropDnsTlss(old(View()), set t | t in old(dnsTls) && now - old(dnsTls)[t].createdMs > DNS_TLS_TIMEOUT_MS)
    {
      var stale := set k | k in dnsTls && now - dnsTls[k].createdMs > DNS_TLS_TIMEOUT_MS;
      var keys := Listed(stale);
      DropDnsTlsEachIsAll(View(), keys, stale);
      ghost var T := View();
      for i := 0 to |keys|
        invariant Valid() && View() == DropDnsTlsEach(T, keys[..i])
      {
        assert keys[..i + 1][..i] == keys[..i];
        TeardownDnsTls(keys[i]);
      }
      assert keys[..|keys|] == keys;
    }

    // --- whole runs ----------------------------------------------------------

    method Step(e: Event)
      requires Valid()
      modifies this, stack
      ensures Valid() && NoReuse(old(View()), View())
    {
      match e
      case Tcp(peek, listens, refused, d, proxied, now) => OnTcpPacket(peek, listens, refused, d, proxied, now);
      case Close(id) => TeardownTcp(id);
      case Sweep(closed) => SweepClosed(closed);
      case Udp(key, d, now) => ForwardUdp(key, d, now);
      case SocksUdp(key, hasProxy, ctrl, relay, now) => ForwardUdpSocks(key, hasProxy, ctrl, relay, now);
      case UdpReplies(key, now) => UdpReply(key, now);
      case SocksReplies(key, now) => SocksReply(key, now);
      case TcpHandshaken(id) => TcpReady(id);
      case SocksHandshaken(key, connects) => SocksReady(key, connects);
      case SocksFails(key) => SocksRefused(key);
      case SocksEnds(key) => TeardownSocks(key);
      case DnsOverProxy(length, hasProxy, d, now) => ForwardDnsOverProxy(length, hasProxy, d, now);
      case DnsTcpEnds(token) => TeardownDnsTcp(token);
      case DnsOverTls(length, encrypted, named, d, now) => ForwardDnsTls(length, encrypted, named, d, now);
      case DnsTlsEnds(token) => TeardownDnsTls(token);
      case Reap(now) =>
        ReapUdp(now);
        ReapSocks(now);
        ReapDnsTcp(now);
        ReapDnsTls(now);
        ReapProxyHandshakes(now);
    }

    /** In every reachable state the tables are consistent, and no token comes back. */
    method Run(es: seq<Event>)
      requires Valid()
      modifies this, stack
      ensures Valid() && NoReuse(old(View()), View())
    {
      for i := 0 to |es|
        invariant Valid() && NoReuse(old(View()), View())
      {
        ghost var T := View();
        Step(es[i]);
        NoReuseOn(old(View()), T, View());
      }
    }
  }

  datatype Event =
    | Tcp(peek: Option<TcpPeek>, listens: bool, refused: bool, d: Dial, proxied: bool, now: int)
    | Close(id: FlowId)
    | Sweep(closed: set<FlowId>)
    | Udp(key: UdpKey, d: Dial, now: int)
    | SocksUdp(key: UdpKey, hasProxy: bool, ctrl: Dial, relay: Dial, now: int)
    | UdpReplies(key: UdpKey, now: int)
    | SocksReplies(key: UdpKey, now: int)
    | TcpHandshaken(id: FlowId)
    | SocksHandshaken(key: UdpKey, connects: bool)
    | SocksFails(key: UdpKey)
    | SocksEnds(key: UdpKey)
    | DnsOverProxy(length: nat, hasProxy: bool, d: Dial, now: int)
    | DnsTcpEnds(token: Token)
    | DnsOverTls(length: nat, encrypted: bool, named: bool, d: Dial, now: int)
    | DnsTlsEnds(token: Token)
    | Reap(now: int)
}
