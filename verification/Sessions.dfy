/** The session tables of the datapath as values: which sessions are live, and which token leads to which. */
module Sessions {
  import opened Bytes
  import opened NetStack

  const FIRST_DYNAMIC_TOKEN: nat := 16
  const DNS_MAX_JOBS: nat := 64

  type Token = nat

  datatype UdpKey = UdpKey(app: Addr, server: Addr)

  datatype Route = RTcp(id: FlowId) | RUdp(key: UdpKey) | RSocksCtrl(key: UdpKey) | RSocksRelay(key: UdpKey) | RDnsTcp | RDnsTls

  datatype TcpSession = TcpSession(token: Token, handshaking: bool, openedMs: int)

  datatype UdpSession = UdpSession(token: Token, lastUsedMs: int)

  datatype SocksSession = SocksSession(ctrlToken: Token, relayToken: Token, handshaking: bool, lastUsedMs: int)

  /** A one-shot DNS job and when it began. */
  datatype Job = Job(createdMs: int)

  datatype Tables = Tables(
    tcp: map<FlowId, TcpSession>, udp: map<UdpKey, UdpSession>, socks: map<UdpKey, SocksSession>,
    dnsTcp: map<Token, Job>, dnsTls: map<Token, Job>,
    routes: map<Token, Route>, registered: set<Token>, nextToken: Token)

  const NoSessions := Tables(map[], map[], map[], map[], map[], map[], {}, FIRST_DYNAMIC_TOKEN)

  // --- consistency -----------------------------------------------------------

  /** A live session holds the token `t`, and readiness of it is the session's business as `r` says. */
  ghost predicate Owns(T: Tables, t: Token, r: Route) {
    match r
    case RTcp(id) => id in T.tcp && T.tcp[id].token == t
    case RUdp(k) => k in T.udp && T.udp[k].token == t
    case RSocksCtrl(k) => k in T.socks && T.socks[k].ctrlToken == t
    case RSocksRelay(k) => k in T.socks && T.socks[k].relayToken == t
    case RDnsTcp => t in T.dnsTcp
    case RDnsTls => t in T.dnsTls
  }

  ghost predicate Routed(T: Tables, t: Token, r: Route) { t in T.routes && T.routes[t] == r }

  /** The routes are exactly the tokens of the live sessions. */
  ghost predicate RoutesExact(T: Tables) { forall t: Token, r: Route :: Owns(T, t, r) <==> Routed(T, t, r) }

  /** A token in use has been issued. */
  ghost predicate Issued(T: Tables) {
    FIRST_DYNAMIC_TOKEN <= T.nextToken && forall t :: t in T.routes ==> FIRST_DYNAMIC_TOKEN <= t < T.nextToken
  }

  /** What is registered is what is routed, under tokens that have been issued. */
  ghost predicate Booked(T: Tables) { Issued(T) && T.registered == T.routes.Keys }

  ghost predicate Consistent(T: Tables) {
    && RoutesExact(T) && Booked(T)
    && |T.dnsTcp| <= DNS_MAX_JOBS && |T.dnsTls| <= DNS_MAX_JOBS
  }

  // --- sockets ---------------------------------------------------------------

  /** How an attempt to open and register a socket goes. */
  datatype Dial = NoSocket | Unregistered | Connected

  function Dialed(T: Tables, d: Dial): Tables {
    match d
    case NoSocket => T
    case Unregistered => T.(nextToken := T.nextToken + 1)
    case Connected => T.(nextToken := T.nextToken + 1, registered := T.registered + {T.nextToken})
  }

  function Forget(T: Tables, ts: set<Token>): Tables { T.(routes := T.routes - ts, registered := T.registered - ts) }

  // --- what each operation does ----------------------------------------------

  function AddTcp(T: Tables, id: FlowId, s: TcpSession): Tables {
    T.(tcp := T.tcp[id := s], routes := T.routes[s.token := RTcp(id)])
  }

  function DropTcp(T: Tables, id: FlowId): Tables {
    if id in T.tcp then Forget(T, {T.tcp[id].token}).(tcp := T.tcp - {id}) else T
  }

  function AddUdp(T: Tables, k: UdpKey, s: UdpSession): Tables {
    T.(udp := T.udp[k := s], routes := T.routes[s.token := RUdp(k)])
  }

  function DropUdp(T: Tables, k: UdpKey): Tables {
    if k in T.udp then Forget(T, {T.udp[k].token}).(udp := T.udp - {k}) else T
  }

  function AddSocks(T: Tables, k: UdpKey, s: SocksSession): Tables {
    T.(socks := T.socks[k := s], routes := T.routes[s.ctrlToken := RSocksCtrl(k)][s.relayToken := RSocksRelay(k)])
  }

  function DropSocks(T: Tables, k: UdpKey): Tables {
    if k in T.socks then Forget(T, {T.socks[k].ctrlToken, T.socks[k].relayToken}).(socks := T.socks - {k}) else T
  }

  function AddDnsTcp(T: Tables, t: Token, j: Job): Tables { T.(dnsTcp := T.dnsTcp[t := j], routes := T.routes[t := RDnsTcp]) }

  function DropDnsTcp(T: Tables, t: Token): Tables { if t in T.dnsTcp then Forget(T, {t}).(dnsTcp := T.dnsTcp - {t}) else T }

  function AddDnsTls(T: Tables, t: Token, j: Job): Tables { T.(dnsTls := T.dnsTls[t := j], routes := T.routes[t := RDnsTls]) }

  function DropDnsTls(T: Tables, t: Token): Tables { if t in T.dnsTls then Forget(T, {t}).(dnsTls := T.dnsTls - {t}) else T }

  // --- each keeps the tables consistent --------------------------------------

  ghost predicate ExactAt(T: Tables, t: Token, r: Route) { Owns(T, t, r) <==> Routed(T, t, r) }

  lemma DialKeeps(T: Tables)
    requires Consistent(T)
    ensures Consistent(T.(nextToken := T.nextToken + 1))
  {
    var U := T.(nextToken := T.nextToken + 1);
    forall t: Token, r: Route ensures Owns(U, t, r) <==> Routed(U, t, r) {
      assert ExactAt(T, t, r);
    }
  }

  /** A fresh token: registered, and leading nowhere yet. */
  ghost predicate FreshToken(T: Tables, U: Tables, t: Token) {
    Consistent(T) && t == T.nextToken && U == T.(nextToken := T.nextToken + 1, registered := T.registered + {t})
  }

  /** The token leads nowhere and belongs to nobody. */
  ghost predicate Unused(T: Tables, t: Token, r: Route) { t !in T.routes && !Owns(T, t, r) }

  lemma FreshUnused(T: Tables, t: Token, r: Route)
    requires Consistent(T) && t >= T.nextToken
    ensures Unused(T, t, r)
  {
    assert ExactAt(T, t, r);
  }

  lemma FreshAt(T: Tables, U: Tables, u: Token, t: Token, r: Route)
    requires FreshToken(T, U, u)
    ensures ExactAt(U, t, r) && Unused(U, u, r)
  {
    assert ExactAt(T, t, r);
    FreshUnused(T, u, r);
  }

  /** A consistent state in which the routes alone changed to match. */
  lemma ConsistentWith(T: Tables)
    requires forall t: Token, r: Route :: ExactAt(T, t, r)
    requires Booked(T) && |T.dnsTcp| <= DNS_MAX_JOBS && |T.dnsTls| <= DNS_MAX_JOBS
    ensures Consistent(T)
  {
    forall t: Token, r: Route ensures Owns(T, t, r) <==> Routed(T, t, r) {
      assert ExactAt(T, t, r);
    }
  }

  /** A session that keeps its tokens may change in everything else. */
  lemma TcpChanges(T: Tables, id: FlowId, s: TcpSession)
    requires Consistent(T) && id in T.tcp && s.token == T.tcp[id].token
    ensures Consistent(T.(tcp := T.tcp[id := s]))
  {
    var U := T.(tcp := T.tcp[id := s]);
    forall t: Token, r: Route ensures ExactAt(U, t, r) {
      assert ExactAt(T, t, r);
    }
    ConsistentWith(U);
  }

  lemma UdpChanges(T: Tables, k: UdpKey, s: UdpSession)
    requires Consistent(T) && k in T.udp && s.token == T.udp[k].token
    ensures Consistent(T.(udp := T.udp[k := s]))
  {
    var U := T.(udp := T.udp[k := s]);
    forall t: Token, r: Route ensures ExactAt(U, t, r) {
      assert ExactAt(T, t, r);
    }
    ConsistentWith(U);
  }

  lemma SocksChanges(T: Tables, k: UdpKey, s: SocksSession)
    requires Consistent(T) && k in T.socks && s.ctrlToken == T.socks[k].ctrlToken && s.relayToken == T.socks[k].relayToken
    ensures Consistent(T.(socks := T.socks[k := s]))
  {
    var U := T.(socks := T.socks[k := s]);
    forall t: Token, r: Route ensures ExactAt(U, t, r) {
      assert ExactAt(T, t, r);
    }
    ConsistentWith(U);
  }

  lemma OneBooked(T: Tables, r: Route)
    requires Booked(T)
    ensures Booked(T.(routes := T.routes[T.nextToken := r], registered := T.registered + {T.nextToken}, nextToken := T.nextToken + 1))
  {
    assert T.routes[T.nextToken := r].Keys == T.routes.Keys + {T.nextToken};
  }

  lemma AddTcpAt(T: Tables, id: FlowId, s: TcpSession, t: Token, r: Route)
    requires ExactAt(T, t, r) && Unused(T, s.token, r) && id !in T.tcp
    ensures ExactAt(AddTcp(T, id, s), t, r)
  {
  }

  lemma AddTcpThen(T: Tables, U: Tables, id: FlowId, s: TcpSession, t: Token, r: Route)
    requires FreshToken(T, U, s.token) && id !in T.tcp
    ensures ExactAt(AddTcp(U, id, s), t, r)
  {
    FreshAt(T, U, s.token, t, r);
    AddTcpAt(U, id, s, t, r);
  }

  lemma AddTcpKeeps(T: Tables, U: Tables, id: FlowId, s: TcpSession)
    requires FreshToken(T, U, s.token) && id !in T.tcp
    ensures Consistent(AddTcp(U, id, s))
  {
    forall t: Token, r: Route ensures ExactAt(AddTcp(U, id, s), t, r) {
      AddTcpThen(T, U, id, s, t, r);
    }
    OneBooked(T, RTcp(id));
    ConsistentWith(AddTcp(U, id, s));
  }

  lemma AddUdpAt(T: Tables, k: UdpKey, s: UdpSession, t: Token, r: Route)
    requires ExactAt(T, t, r) && Unused(T, s.token, r) && k !in T.udp
    ensures ExactAt(AddUdp(T, k, s), t, r)
  {
  }

  lemma AddUdpThen(T: Tables, U: Tables, k: UdpKey, s: UdpSession, t: Token, r: Route)
    requires FreshToken(T, U, s.token) && k !in T.udp
    ensures ExactAt(AddUdp(U, k, s), t, r)
  {
    FreshAt(T, U, s.token, t, r);
    AddUdpAt(U, k, s, t, r);
  }

  lemma AddUdpKeeps(T: Tables, U: Tables, k: UdpKey, s: UdpSession)
    requires FreshToken(T, U, s.token) && k !in T.udp
    ensures Consistent(AddUdp(U, k, s))
  {
    forall t: Token, r: Route ensures ExactAt(AddUdp(U, k, s), t, r) {
      AddUdpThen(T, U, k, s, t, r);
    }
    OneBooked(T, RUdp(k));
    ConsistentWith(AddUdp(U, k, s));
  }

  lemma AddSocksAt(T: Tables, k: UdpKey, s: SocksSession, t: Token, r: Route)
    requires ExactAt(T, t, r) && Unused(T, s.ctrlToken, r) && Unused(T, s.relayToken, r) && k !in T.socks
    requires s.ctrlToken != s.relayToken
    ensures ExactAt(AddSocks(T, k, s), t, r)
  {
  }

  lemma AddSocksThen(T: Tables, U: Tables, V: Tables, k: UdpKey, s: SocksSession, t: Token, r: Route)
    requires FreshToken(T, U, s.ctrlToken) && k !in T.socks && s.relayToken == U.nextToken
    requires V == U.(nextToken := U.nextToken + 1, registered := U.registered + {s.relayToken})
    ensures ExactAt(AddSocks(V, k, s), t, r)
  {
    FreshAt(T, U, s.ctrlToken, t, r);
    FreshUnused(T, s.relayToken, r);
    AddSocksAt(V, k, s, t, r);
  }

  /** With the control token routed and the relay token still to come. */
  ghost function AddCtrl(U: Tables, k: UdpKey, s: SocksSession): Tables { U.(routes := U.routes[s.ctrlToken := RSocksCtrl(k)]) }

  lemma AddSocksKeeps(T: Tables, U: Tables, V: Tables, k: UdpKey, s: SocksSession)
    requires FreshToken(T, U, s.ctrlToken) && k !in T.socks && s.relayToken == U.nextToken
    requires V == U.(nextToken := U.nextToken + 1, registered := U.registered + {s.relayToken})
    ensures Consistent(AddSocks(V, k, s))
  {
    forall t: Token, r: Route ensures ExactAt(AddSocks(V, k, s), t, r) {
      AddSocksThen(T, U, V, k, s, t, r);
    }
    OneBooked(T, RSocksCtrl(k));
    OneBooked(AddCtrl(U, k, s), RSocksRelay(k));
    ConsistentWith(AddSocks(V, k, s));
  }

  lemma AddDnsTcpAt(T: Tables, u: Token, j: Job, t: Token, r: Route)
    requires ExactAt(T, t, r) && Unused(T, u, r)
    ensures ExactAt(AddDnsTcp(T, u, j), t, r)
  {
  }

  lemma AddDnsTcpThen(T: Tables, U: Tables, u: Token, j: Job, t: Token, r: Route)
    requires FreshToken(T, U, u)
    ensures ExactAt(AddDnsTcp(U, u, j), t, r)
  {
    FreshAt(T, U, u, t, r);
    AddDnsTcpAt(U, u, j, t, r);
  }

  lemma AddDnsTcpKeeps(T: Tables, U: Tables, u: Token, j: Job)
    requires FreshToken(T, U, u) && |T.dnsTcp| < DNS_MAX_JOBS
    ensures Consistent(AddDnsTcp(U, u, j))
  {
    forall t: Token, r: Route ensures ExactAt(AddDnsTcp(U, u, j), t, r) {
      AddDnsTcpThen(T, U, u, j, t, r);
    }
    OneMore(T.dnsTcp, u, j);
    OneBooked(T, RDnsTcp);
    ConsistentWith(AddDnsTcp(U, u, j));
  }

  lemma AddDnsTlsAt(T: Tables, u: Token, j: Job, t: Token, r: Route)
    requires ExactAt(T, t, r) && Unused(T, u, r)
    ensures ExactAt(AddDnsTls(T, u, j), t, r)
  {
  }

  lemma AddDnsTlsThen(T: Tables, U: Tables, u: Token, j: Job, t: Token, r: Route)
    requires FreshToken(T, U, u)
    ensures ExactAt(AddDnsTls(U, u, j), t, r)
  {
    FreshAt(T, U, u, t, r);
    AddDnsTlsAt(U, u, j, t, r);
  }

  lemma AddDnsTlsKeeps(T: Tables, U: Tables, u: Token, j: Job)
    requires FreshToken(T, U, u) && |T.dnsTls| < DNS_MAX_JOBS
    ensures Consistent(AddDnsTls(U, u, j))
  {
    forall t: Token, r: Route ensures ExactAt(AddDnsTls(U, u, j), t, r) {
      AddDnsTlsThen(T, U, u, j, t, r);
    }
    OneMore(T.dnsTls, u, j);
    OneBooked(T, RDnsTls);
    ConsistentWith(AddDnsTls(U, u, j));
  }

  lemma OneMore(m: map<Token, Job>, t: Token, j: Job)
    ensures |m[t := j]| <= |m| + 1
  {
    assert m[t := j].Keys == m.Keys + {t};
  }

  lemma OneLess(m: map<Token, Job>, t: Token)
    ensures |m - {t}| <= |m|
  {
    assert (m - {t}).Keys == m.Keys - {t};
  }

  lemma DropTcpAt(T: Tables, id: FlowId, t: Token, r: Route)
    requires id in T.tcp && ExactAt(T, t, r) && ExactAt(T, T.tcp[id].token, RTcp(id))
    ensures ExactAt(DropTcp(T, id), t, r)
  {
  }

  lemma DropTcpKeeps(T: Tables, id: FlowId)
    requires Consistent(T)
    ensures Consistent(DropTcp(T, id))
  {
    if id in T.tcp {
      assert ExactAt(T, T.tcp[id].token, RTcp(id));
      forall t: Token, r: Route ensures ExactAt(DropTcp(T, id), t, r) {
        assert ExactAt(T, t, r);
        DropTcpAt(T, id, t, r);
      }
      ConsistentWith(DropTcp(T, id));
    }
  }

  lemma DropUdpAt(T: Tables, k: UdpKey, t: Token, r: Route)
    requires k in T.udp && ExactAt(T, t, r) && ExactAt(T, T.udp[k].token, RUdp(k))
    ensures ExactAt(DropUdp(T, k), t, r)
  {
  }

  lemma DropUdpKeeps(T: Tables, k: UdpKey)
    requires Consistent(T)
    ensures Consistent(DropUdp(T, k))
  {
    if k in T.udp {
      assert ExactAt(T, T.udp[k].token, RUdp(k));
      forall t: Token, r: Route ensures ExactAt(DropUdp(T, k), t, r) {
        assert ExactAt(T, t, r);
        DropUdpAt(T, k, t, r);
      }
      ConsistentWith(DropUdp(T, k));
    }
  }

  lemma DropSocksAt(T: Tables, k: UdpKey, t: Token, r: Route)
    requires k in T.socks && ExactAt(T, t, r)
    requires ExactAt(T, T.socks[k].ctrlToken, RSocksCtrl(k)) && ExactAt(T, T.socks[k].relayToken, RSocksRelay(k))
    ensures ExactAt(DropSocks(T, k), t, r)
  {
  }

  lemma DropSocksKeeps(T: Tables, k: UdpKey)
    requires Consistent(T)
    ensures Consistent(DropSocks(T, k))
  {
    if k in T.socks {
      assert ExactAt(T, T.socks[k].ctrlToken, RSocksCtrl(k));
      assert ExactAt(T, T.socks[k].relayToken, RSocksRelay(k));
      forall t: Token, r: Route ensures ExactAt(DropSocks(T, k), t, r) {
        assert ExactAt(T, t, r);
        DropSocksAt(T, k, t, r);
      }
      ConsistentWith(DropSocks(T, k));
    }
  }

  lemma DropDnsTcpAt(T: Tables, u: Token, t: Token, r: Route)
    requires u in T.dnsTcp && ExactAt(T, t, r) && ExactAt(T, u, RDnsTcp)
    ensures ExactAt(DropDnsTcp(T, u), t, r)
  {
  }

  lemma DropDnsTcpKeeps(T: Tables, u: Token)
    requires Consistent(T)
    ensures Consistent(DropDnsTcp(T, u))
  {
    if u in T.dnsTcp {
      assert ExactAt(T, u, RDnsTcp);
      forall t: Token, r: Route ensures ExactAt(DropDnsTcp(T, u), t, r) {
        assert ExactAt(T, t, r);
        DropDnsTcpAt(T, u, t, r);
      }
      OneLess(T.dnsTcp, u);
      ConsistentWith(DropDnsTcp(T, u));
    }
  }

  lemma DropDnsTlsAt(T: Tables, u: Token, t: Token, r: Route)
    requires u in T.dnsTls && ExactAt(T, t, r) && ExactAt(T, u, RDnsTls)
    ensures ExactAt(DropDnsTls(T, u), t, r)
  {
  }

  lemma DropDnsTlsKeeps(T: Tables, u: Token)
    requires Consistent(T)
    ensures Consistent(DropDnsTls(T, u))
  {
    if u in T.dnsTls {
      assert ExactAt(T, u, RDnsTls);
      forall t: Token, r: Route ensures ExactAt(DropDnsTls(T, u), t, r) {
        assert ExactAt(T, t, r);
        DropDnsTlsAt(T, u, t, r);
      }
      OneLess(T.dnsTls, u);
      ConsistentWith(DropDnsTls(T, u));
    }
  }

  // --- many at once ----------------------------------------------------------

  function DropTcps(T: Tables, S: set<FlowId>): Tables {
    Forget(T, set k | k in S && k in T.tcp :: T.tcp[k].token).(tcp := T.tcp - S)
  }

  lemma DropTcpsMore(T: Tables, S: set<FlowId>, k: FlowId)
    ensures DropTcp(DropTcps(T, S), k) == DropTcps(T, S + {k})
  {
    var U := DropTcps(T, S);
    if k in U.tcp {
      assert T.tcp - S - {k} == T.tcp - (S + {k});
    } else {
      assert T.tcp - S == T.tcp - (S + {k});
    }
  }

  lemma DropTcpsNone(T: Tables)
    ensures DropTcps(T, {}) == T
  {
    assert T.tcp - {} == T.tcp;
  }

  function DropUdps(T: Tables, S: set<UdpKey>): Tables {
    Forget(T, set k | k in S && k in T.udp :: T.udp[k].token).(udp := T.udp - S)
  }

  lemma DropUdpsMore(T: Tables, S: set<UdpKey>, k: UdpKey)
    ensures DropUdp(DropUdps(T, S), k) == DropUdps(T, S + {k})
  {
    var U := DropUdps(T, S);
    if k in U.udp {
      assert T.udp - S - {k} == T.udp - (S + {k});
    } else {
      assert T.udp - S == T.udp - (S + {k});
    }
  }

  lemma DropUdpsNone(T: Tables)
    ensures DropUdps(T, {}) == T
  {
    assert T.udp - {} == T.udp;
  }

  function DropAllSocks(T: Tables, S: set<UdpKey>): Tables {
    Forget(T, SocksTokens(T.socks, S)).(socks := T.socks - S)
  }

  function SocksTokens(m: map<UdpKey, SocksSession>, S: set<UdpKey>): set<Token> {
    (set k | k in S && k in m :: m[k].ctrlToken) + (set k | k in S && k in m :: m[k].relayToken)
  }

  lemma SocksTokensMore(m: map<UdpKey, SocksSession>, S: set<UdpKey>, k: UdpKey)
    ensures SocksTokens(m, S + {k}) == SocksTokens(m, S) + if k in m then {m[k].ctrlToken, m[k].relayToken} else {}
  {
  }

  lemma ForgetMore(T: Tables, a: set<Token>, b: set<Token>)
    ensures Forget(Forget(T, a), b) == Forget(T, a + b)
  {
    assert T.routes - a - b == T.routes - (a + b);
  }

  lemma DropAllSocksMore(T: Tables, S: set<UdpKey>, k: UdpKey)
    ensures DropSocks(DropAllSocks(T, S), k) == DropAllSocks(T, S + {k})
  {
    SocksTokensMore(T.socks, S, k);
    assert T.socks - S - {k} == T.socks - (S + {k});
    if k in S || k !in T.socks {
      assert S + {k} == S || k !in T.socks;
      assert T.socks - S == T.socks - (S + {k});
    } else {
      ForgetMore(T, SocksTokens(T.socks, S), {T.socks[k].ctrlToken, T.socks[k].relayToken});
    }
  }

  lemma DropAllSocksNone(T: Tables)
    ensures DropAllSocks(T, {}) == T
  {
    assert T.socks - {} == T.socks;
  }

  function DropDnsTcps(T: Tables, S: set<Token>): Tables {
    Forget(T, set k | k in S && k in T.dnsTcp).(dnsTcp := T.dnsTcp - S)
  }

  lemma DropDnsTcpsMore(T: Tables, S: set<Token>, k: Token)
    ensures DropDnsTcp(DropDnsTcps(T, S), k) == DropDnsTcps(T, S + {k})
  {
    var U := DropDnsTcps(T, S);
    if k in U.dnsTcp {
      assert T.dnsTcp - S - {k} == T.dnsTcp - (S + {k});
    } else {
      assert T.dnsTcp - S == T.dnsTcp - (S + {k});
    }
  }

  lemma DropDnsTcpsNone(T: Tables)
    ensures DropDnsTcps(T, {}) == T
  {
    assert T.dnsTcp - {} == T.dnsTcp;
  }

  function DropDnsTlss(T: Tables, S: set<Token>): Tables {
    Forget(T, set k | k in S && k in T.dnsTls).(dnsTls := T.dnsTls - S)
  }

  lemma DropDnsTlssMore(T: Tables, S: set<Token>, k: Token)
    ensures DropDnsTls(DropDnsTlss(T, S), k) == DropDnsTlss(T, S + {k})
  {
    var U := DropDnsTlss(T, S);
    if k in U.dnsTls {
      assert T.dnsTls - S - {k} == T.dnsTls - (S + {k});
    } else {
      assert T.dnsTls - S == T.dnsTls - (S + {k});
    }
  }

  lemma DropDnsTlssNone(T: Tables)
    ensures DropDnsTlss(T, {}) == T
  {
    assert T.dnsTls - {} == T.dnsTls;
  }

  function DropTcpEach(T: Tables, ks: seq<FlowId>): Tables {
    if ks == [] then T else DropTcp(DropTcpEach(T, ks[..|ks| - 1]), ks[|ks| - 1])
  }

  lemma {:induction false} DropTcpEachIsAll(T: Tables, ks: seq<FlowId>, S: set<FlowId>)
    requires forall k :: k in ks <==> k in S
    ensures DropTcpEach(T, ks) == DropTcps(T, S)
    decreases |ks|
  {
    if ks == [] {
      assert S == {};
      DropTcpsNone(T);
    } else {
      var init := ks[..|ks| - 1];
      var R := set k | k in init;
      DropTcpEachIsAll(T, init, R);
      DropTcpsMore(T, R, ks[|ks| - 1]);
      assert ks == init + [ks[|ks| - 1]];
      assert R + {ks[|ks| - 1]} == S;
    }
  }

  function DropUdpEach(T: Tables, ks: seq<UdpKey>): Tables {
    if ks == [] then T else DropUdp(DropUdpEach(T, ks[..|ks| - 1]), ks[|ks| - 1])
  }

  lemma {:induction false} DropUdpEachIsAll(T: Tables, ks: seq<UdpKey>, S: set<UdpKey>)
    requires forall k :: k in ks <==> k in S
    ensures DropUdpEach(T, ks) == DropUdps(T, S)
    decreases |ks|
  {
    if ks == [] {
      assert S == {};
      DropUdpsNone(T);
    } else {
      var init := ks[..|ks| - 1];
      var R := set k | k in init;
      DropUdpEachIsAll(T, init, R);
      DropUdpsMore(T, R, ks[|ks| - 1]);
      assert ks == init + [ks[|ks| - 1]];
      assert R + {ks[|ks| - 1]} == S;
    }
  }

  function DropSocksEach(T: Tables, ks: seq<UdpKey>): Tables {
    if ks == [] then T else DropSocks(DropSocksEach(T, ks[..|ks| - 1]), ks[|ks| - 1])
  }

  lemma {:induction false} DropSocksEachIsAll(T: Tables, ks: seq<UdpKey>, S: set<UdpKey>)
    requires forall k :: k in ks <==> k in S
    ensures DropSocksEach(T, ks) == DropAllSocks(T, S)
    decreases |ks|
  {
    if ks == [] {
      assert S == {};
      DropAllSocksNone(T);
    } else {
      var init := ks[..|ks| - 1];
      var R := set k | k in init;
      DropSocksEachIsAll(T, init, R);
      DropAllSocksMore(T, R, ks[|ks| - 1]);
      assert ks == init + [ks[|ks| - 1]];
      assert R + {ks[|ks| - 1]} == S;
    }
  }

  function DropDnsTcpEach(T: Tables, ks: seq<Token>): Tables {
    if ks == [] then T else DropDnsTcp(DropDnsTcpEach(T, ks[..|ks| - 1]), ks[|ks| - 1])
  }

  lemma {:induction false} DropDnsTcpEachIsAll(T: Tables, ks: seq<Token>, S: set<Token>)
    requires forall k :: k in ks <==> k in S
    ensures DropDnsTcpEach(T, ks) == DropDnsTcps(T, S)
    decreases |ks|
  {
    if ks == [] {
      assert S == {};
      DropDnsTcpsNone(T);
    } else {
      var init := ks[..|ks| - 1];
      var R := set k | k in init;
      DropDnsTcpEachIsAll(T, init, R);
      DropDnsTcpsMore(T, R, ks[|ks| - 1]);
      assert ks == init + [ks[|ks| - 1]];
      assert R + {ks[|ks| - 1]} == S;
    }
  }

  function DropDnsTlsEach(T: Tables, ks: seq<Token>): Tables {
    if ks == [] then T else DropDnsTls(DropDnsTlsEach(T, ks[..|ks| - 1]), ks[|ks| - 1])
  }

  lemma {:induction false} DropDnsTlsEachIsAll(T: Tables, ks: seq<Token>, S: set<Token>)
    requires forall k :: k in ks <==> k in S
    ensures DropDnsTlsEach(T, ks) == DropDnsTlss(T, S)
    decreases |ks|
  {
    if ks == [] {
      assert S == {};
      DropDnsTlssNone(T);
    } else {
      var init := ks[..|ks| - 1];
      var R := set k | k in init;
      DropDnsTlsEachIsAll(T, init, R);
      DropDnsTlssMore(T, R, ks[|ks| - 1]);
      assert ks == init + [ks[|ks| - 1]];
      assert R + {ks[|ks| - 1]} == S;
    }
  }

  // --- tokens over time ------------------------------------------------------

  /** From `T` to `U` no token was taken up again and no token in use changed hands. */
  ghost predicate NoReuse(T: Tables, U: Tables) {
    && T.nextToken <= U.nextToken
    && forall t :: t in U.routes ==> if t in T.routes then U.routes[t] == T.routes[t] else T.nextToken <= t
  }

  lemma NoReuseOn(T: Tables, U: Tables, V: Tables)
    requires Issued(T) && NoReuse(T, U) && NoReuse(U, V)
    ensures NoReuse(T, V)
  {
  }

  /** A token that was in use and is not any more never comes back. */
  lemma NeverAgain(T: Tables, U: Tables, V: Tables, t: Token)
    requires Issued(T) && NoReuse(T, U) && NoReuse(U, V)
    requires t in T.routes && t !in U.routes
    ensures t !in V.routes
  {
  }

  lemma AddUdpFresh(T: Tables, U: Tables, k: UdpKey, s: UdpSession)
    requires FreshToken(T, U, s.token)
    ensures NoReuse(T, AddUdp(U, k, s))
  {
  }

  lemma AddSocksFresh(T: Tables, U: Tables, V: Tables, k: UdpKey, s: SocksSession)
    requires FreshToken(T, U, s.ctrlToken) && s.relayToken == U.nextToken
    requires V == U.(nextToken := U.nextToken + 1, registered := U.registered + {s.relayToken})
    ensures NoReuse(T, AddSocks(V, k, s))
  {
  }

  // --- counting --------------------------------------------------------------

  /** The tokens that lead to one kind of session: 0 TCP, 1 UDP, 2 SOCKS control, 3 SOCKS relay, 4 DNS over TCP, 5 DNS over TLS. */
  function Kind(r: Route): nat {
    match r
    case RTcp(_) => 0
    case RUdp(_) => 1
    case RSocksCtrl(_) => 2
    case RSocksRelay(_) => 3
    case RDnsTcp => 4
    case RDnsTls => 5
  }

  function OfKind(T: Tables, n: nat): set<Token> { set t | t in T.routes && Kind(T.routes[t]) == n }

  function Image<K(!new)>(m: map<K, Token>, keys: set<K>): set<Token>
    requires keys <= m.Keys
  {
    set k | k in keys :: m[k]
  }

  lemma {:induction false} ImageSize<K(!new)>(m: map<K, Token>, keys: set<K>)
    requires keys <= m.Keys
    requires forall a, b :: a in keys && b in keys && m[a] == m[b] ==> a == b
    ensures |Image(m, keys)| == |keys|
    decreases keys
  {
    if keys == {} {
      assert Image(m, keys) == {};
    } else {
      var x :| x in keys;
      var rest := keys - {x};
      ImageSize(m, rest);
      assert Image(m, keys) == Image(m, rest) + {m[x]};
    }
  }

  /** Sessions whose tokens are distinct and are all the tokens of a kind are as many as those tokens. */
  lemma KindCount<K(!new)>(T: Tables, n: nat, m: map<K, Token>)
    requires forall k :: k in m ==> m[k] in OfKind(T, n)
    requires forall a, b :: a in m && b in m && m[a] == m[b] ==> a == b
    requires forall t :: t in OfKind(T, n) ==> t in Image(m, m.Keys)
    ensures |OfKind(T, n)| == |m|
  {
    ImageSize(m, m.Keys);
    assert OfKind(T, n) == Image(m, m.Keys);
  }

  lemma TcpCount(T: Tables)
    requires RoutesExact(T)
    ensures |OfKind(T, 0)| == |T.tcp|
  {
    var m := map id | id in T.tcp :: T.tcp[id].token;
    forall id | id in m ensures Routed(T, m[id], RTcp(id)) {
      assert Owns(T, m[id], RTcp(id));
    }
    forall t | t in OfKind(T, 0) ensures t in Image(m, m.Keys) {
      assert Routed(T, t, T.routes[t]) && Owns(T, t, T.routes[t]) && T.routes[t].id in m;
    }
    KindCount(T, 0, m);
    assert m.Keys == T.tcp.Keys;
  }

  lemma UdpCount(T: Tables)
    requires RoutesExact(T)
    ensures |OfKind(T, 1)| == |T.udp|
  {
    var m := map k | k in T.udp :: T.udp[k].token;
    forall k | k in m ensures Routed(T, m[k], RUdp(k)) {
      assert Owns(T, m[k], RUdp(k));
    }
    forall t | t in OfKind(T, 1) ensures t in Image(m, m.Keys) {
      assert Routed(T, t, T.routes[t]) && Owns(T, t, T.routes[t]) && T.routes[t].key in m;
    }
    KindCount(T, 1, m);
    assert m.Keys == T.udp.Keys;
  }

  lemma CtrlCount(T: Tables)
    requires RoutesExact(T)
    ensures |OfKind(T, 2)| == |T.socks|
  {
    var m := map k | k in T.socks :: T.socks[k].ctrlToken;
    forall k | k in m ensures Routed(T, m[k], RSocksCtrl(k)) {
      assert Owns(T, m[k], RSocksCtrl(k));
    }
    forall t | t in OfKind(T, 2) ensures t in Image(m, m.Keys) {
      assert Routed(T, t, T.routes[t]) && Owns(T, t, T.routes[t]) && T.routes[t].key in m;
    }
    KindCount(T, 2, m);
    assert m.Keys == T.socks.Keys;
  }

  lemma RelayCount(T: Tables)
    requires RoutesExact(T)
    ensures |OfKind(T, 3)| == |T.socks|
  {
    var m := map k | k in T.socks :: T.socks[k].relayToken;
    forall k | k in m ensures Routed(T, m[k], RSocksRelay(k)) {
      assert Owns(T, m[k], RSocksRelay(k));
    }
    forall t | t in OfKind(T, 3) ensures t in Image(m, m.Keys) {
      assert Routed(T, t, T.routes[t]) && Owns(T, t, T.routes[t]) && T.routes[t].key in m;
    }
    KindCount(T, 3, m);
    assert m.Keys == T.socks.Keys;
  }

  lemma DnsCount(T: Tables)
    requires RoutesExact(T)
    ensures OfKind(T, 4) == T.dnsTcp.Keys && OfKind(T, 5) == T.dnsTls.Keys
  {
    forall t: Token ensures t in OfKind(T, 4) <==> t in T.dnsTcp {
      assert Owns(T, t, RDnsTcp) <==> Routed(T, t, RDnsTcp);
    }
    forall t: Token ensures t in OfKind(T, 5) <==> t in T.dnsTls {
      assert Owns(T, t, RDnsTls) <==> Routed(T, t, RDnsTls);
    }
  }

  function Below(T: Tables, n: nat): set<Token> { set t | t in T.routes && Kind(T.routes[t]) < n }

  lemma BelowNext(T: Tables, n: nat)
    ensures |Below(T, n + 1)| == |Below(T, n)| + |OfKind(T, n)|
  {
    assert Below(T, n + 1) == Below(T, n) + OfKind(T, n);
    assert Below(T, n) * OfKind(T, n) == {};
  }

  /** There are as many routes as live sessions need: one each, and two for a SOCKS association. */
  lemma RoutesCountSessions(T: Tables)
    requires Consistent(T)
    ensures |T.routes| == |T.tcp| + |T.udp| + 2 * |T.socks| + |T.dnsTcp| + |T.dnsTls|
  {
    TcpCount(T);
    UdpCount(T);
    CtrlCount(T);
    RelayCount(T);
    DnsCount(T);
    KindsTogether(T);
  }

  lemma KindsTogether(T: Tables)
    ensures |T.routes| == |OfKind(T, 0)| + |OfKind(T, 1)| + |OfKind(T, 2)| + |OfKind(T, 3)| + |OfKind(T, 4)| + |OfKind(T, 5)|
  {
    assert Below(T, 0) == {} && Below(T, 6) == T.routes.Keys;
    BelowNext(T, 0);
    BelowNext(T, 1);
    BelowNext(T, 2);
    BelowNext(T, 3);
    BelowNext(T, 4);
    BelowNext(T, 5);
  }
}
