/** Handshakes with an upstream proxy: HTTP CONNECT, and SOCKS5 (RFC 1928) with password authentication (RFC 1929). */
module Proxy {
  import opened Bytes

  const HANDSHAKE_BUF_CAP: nat := 8 * 1024

  datatype Error =
    | HttpStatus(code: nat)
    | HttpMalformed
    | HeaderTooLarge
    | Socks5Version(version: byte)
    | Socks5NoAcceptableAuth
    | Socks5AuthFailed(status: byte)
    | Socks5Reply(rep: byte)
    | Socks5Malformed

  datatype Step = Write(message: bytes) | Read | Done(leftover: bytes) | Fail(error: Error)

  datatype Phase = Start | Greeted | Authed | Requested

  /** An IP address of four or sixteen octets, and a port. */
  datatype Addr = Addr(octets: bytes, port: nat)

  /** `connect` is the CONNECT request as text. */
  datatype Machine = Http(connect: bytes, sent: bool) | Socks5(phase: Phase, command: byte)

  datatype State = State(target: Addr, user: Option<bytes>, pass: bytes, machine: Machine, inbuf: bytes, bound: Option<Addr>)

  // --- messages --------------------------------------------------------------

  function Greeting(withAuth: bool): bytes { if withAuth then [5, 2, 0, 2] else [5, 1, 0] }

  function Clamped(s: bytes): bytes { s[..Min(|s|, 255)] }

  function UserPass(user: bytes, pass: bytes): bytes {
    [1, |Clamped(user)|] + Clamped(user) + [|Clamped(pass)|] + Clamped(pass)
  }

  function AddrBytes(a: Addr): bytes {
    [if |a.octets| == 4 then 1 else 4] + a.octets + [a.port / 256 % 256, a.port % 256]
  }

  function Request(command: byte, target: Addr): bytes { [5, command, 0] + AddrBytes(target) }

  // --- replies ---------------------------------------------------------------

  datatype ReplyLength = Partial | Whole(n: nat) | Impossible

  /** How long the reply at the front of `buf` is. */
  function ReplyLen(buf: bytes): (r: ReplyLength)
    ensures r.Whole? ==> 6 < r.n <= |buf|
  {
    if |buf| < 4 then Partial
    else if buf[3] == 3 && |buf| < 5 then Partial
    else if buf[3] != 1 && buf[3] != 4 && buf[3] != 3 then Impossible
    else
      var addrLen: nat := if buf[3] == 1 then 4 else if buf[3] == 4 then 16 else 1 + buf[4] as nat;
      if |buf| < 4 + addrLen + 2 then Partial else Whole(4 + addrLen + 2)
  }

  function BoundAddr(reply: bytes): Option<Addr>
    requires ReplyLen(reply) == Whole(|reply|)
  {
    if reply[3] == 1 then Some(Addr(reply[4..8], reply[8] as nat * 256 + reply[9]))
    else if reply[3] == 4 then Some(Addr(reply[4..20], reply[20] as nat * 256 + reply[21]))
    else None
  }

  function ParseHttpReply(buf: bytes): Step {
    match FindHeaderEnd(buf)
    case None => Read
    case Some(end) =>
      var line := match IndexOf(buf, CR) case Some(p) => buf[..p] case None => buf[..end];
      var parts := Split(line, SP);
      if |parts| < 2 then Fail(HttpMalformed)
      else
        match ParseUnsigned(parts[1], 10, 65535)
        case None => Fail(HttpMalformed)
        case Some(code) => if 200 <= code < 300 then Done(buf[end..]) else Fail(HttpStatus(code))
  }

  // --- one step --------------------------------------------------------------

  /** The handshake after a step, and what the step asks of the caller. */
  datatype Stepped = Stepped(h: State, step: Step)

  function InPhase(h: State, p: Phase, inbuf: bytes): State
    requires h.machine.Socks5?
  {
    h.(machine := h.machine.(phase := p), inbuf := inbuf)
  }

  function MethodStep(h: State): Stepped
    requires h.machine.Socks5?
  {
    if |h.inbuf| < 2 then Stepped(h, Read)
    else if h.inbuf[0] != 5 then Stepped(h, Fail(Socks5Version(h.inbuf[0])))
    else
      var rest := h.inbuf[2..];
      if h.inbuf[1] == 0 then Stepped(InPhase(h, Requested, rest), Write(Request(h.machine.command, h.target)))
      else if h.inbuf[1] == 2 && h.user.Some? then Stepped(InPhase(h, Authed, rest), Write(UserPass(h.user.value, h.pass)))
      else Stepped(h.(inbuf := rest), Fail(Socks5NoAcceptableAuth))
  }

  function AuthStep(h: State): Stepped
    requires h.machine.Socks5?
  {
    if |h.inbuf| < 2 then Stepped(h, Read)
    else
      var rest := h.inbuf[2..];
      if h.inbuf[1] != 0 then Stepped(h.(inbuf := rest), Fail(Socks5AuthFailed(h.inbuf[1])))
      else Stepped(InPhase(h, Requested, rest), Write(Request(h.machine.command, h.target)))
  }

  function ReplyStep(h: State): Stepped {
    match ReplyLen(h.inbuf)
    case Impossible => Stepped(h, Fail(Socks5Malformed))
    case Partial => Stepped(h, Read)
    case Whole(n) =>
      if h.inbuf[0] != 5 then Stepped(h, Fail(Socks5Version(h.inbuf[0])))
      else if h.inbuf[1] != 0 then Stepped(h, Fail(Socks5Reply(h.inbuf[1])))
      else
        WholeIsWhole(h.inbuf, n);
        Stepped(h.(inbuf := h.inbuf[..n], bound := BoundAddr(h.inbuf[..n])), Done(h.inbuf[n..]))
  }

  lemma WholeIsWhole(buf: bytes, n: nat)
    requires ReplyLen(buf) == Whole(n)
    ensures ReplyLen(buf[..n]) == Whole(n)
  {
  }

  /** What the machine does with what is in its buffer. */
  function Advance(h: State): Stepped {
    match h.machine
    case Http(connect, sent) =>
      if !sent then Stepped(h.(machine := Http(connect, true)), Write(connect)) else Stepped(h, ParseHttpReply(h.inbuf))
    case Socks5(phase, command) =>
      match phase
      case Start => Stepped(InPhase(h, Greeted, h.inbuf), Write(Greeting(h.user.Some?)))
      case Greeted => MethodStep(h)
      case Authed => AuthStep(h)
      case Requested => ReplyStep(h)
  }

  function StepWith(h: State, input: bytes): Stepped {
    var g := h.(inbuf := h.inbuf + input);
    if |g.inbuf| > HANDSHAKE_BUF_CAP then Stepped(g, Fail(HeaderTooLarge)) else Advance(g)
  }

  function Rank(m: Machine): nat {
    match m
    case Http(_, sent) => if sent then 0 else 1
    case Socks5(phase, _) => match phase case Start => 3 case Greeted => 2 case Authed => 1 case Requested => 0
  }

  lemma WritesAdvance(h: State)
    ensures Advance(h).step.Write? ==> Rank(Advance(h).h.machine) < Rank(h.machine) && |Advance(h).h.inbuf| <= |h.inbuf|
  {
  }

  lemma StepAdvances(h: State, input: bytes)
    ensures StepWith(h, input).step.Write? ==> Rank(StepWith(h, input).h.machine) < Rank(h.machine)
  {
    WritesAdvance(h.(inbuf := h.inbuf + input));
  }

  // --- the driver ------------------------------------------------------------

  /** Where a read leaves the handshake: the messages written, and the last step, which is no write. */
  datatype Driven = Driven(h: State, written: seq<bytes>, last: Step)

  /** Steps while there is something to write; `h` holds the input already. */
  function Run(h: State): Driven
    decreases Rank(h.machine)
  {
    var s := Advance(h);
    if !s.step.Write? then Driven(s.h, [], s.step)
    else
      WritesAdvance(h);
      var d := Run(s.h);
      d.(written := [s.step.message] + d.written)
  }

  function Fed(h: State, y: bytes): State { h.(inbuf := h.inbuf + y) }

  /** What a read of `input` comes to when the socket takes every message at once. */
  function Drive(h: State, input: bytes): Driven {
    if |h.inbuf + input| > HANDSHAKE_BUF_CAP then Driven(Fed(h, input), [], Fail(HeaderTooLarge)) else Run(Fed(h, input))
  }

  function Wrote(m: bytes, d: Driven): Driven { d.(written := [m] + d.written) }

  /** One step for each of the pieces, some of which may be empty; after a write the driver may step again at once, or
      wait for the socket and step with whatever has come by then. What comes after the end belongs to the tunnel. */
  function Steps(h: State, segs: seq<bytes>): Driven
    decreases |segs|
  {
    if segs == [] then Driven(h, [], Read)
    else
      var s := StepWith(h, segs[0]);
      match s.step
      case Done(leftover) => Driven(s.h, [], Done(leftover + Concat(segs[1..])))
      case Fail(_) => Driven(s.h, [], s.step)
      case Write(m) => Wrote(m, Steps(s.h, segs[1..]))
      case Read => Steps(s.h, segs[1..])
  }

  /** One more step of a handshake that goes on. */
  lemma {:induction false} StepsMore(h: State, segs: seq<bytes>, x: bytes)
    requires Steps(h, segs).last.Read?
    ensures var d := Steps(h, segs);
            var s := StepWith(d.h, x);
            Steps(h, segs + [x]) == if s.step.Write? then Driven(s.h, d.written + [s.step.message], Read)
                                    else Driven(s.h, d.written, s.step)
    decreases |segs|
  {
    if segs == [] {
      assert [] + [x] == [x];
      OneStep(h, x);
    } else {
      assert (segs + [x])[0] == segs[0] && (segs + [x])[1..] == segs[1..] + [x];
      var s := StepWith(h, segs[0]);
      StepsMore(s.h, segs[1..], x);
      if s.step.Write? {
        var d, m := Steps(s.h, segs[1..]), s.step.message;
        var t := StepWith(d.h, x);
        if t.step.Write? {
          Assoc([m], d.written, [t.step.message]);
        }
      }
    }
  }

  lemma OneStep(h: State, x: bytes)
    ensures var s := StepWith(h, x);
            Steps(h, [x]) == if s.step.Write? then Driven(s.h, [s.step.message], Read) else Driven(s.h, [], s.step)
  {
    assert [x][1..] == [];
    var s := StepWith(h, x);
    if s.step.Done? {
      assert s.step.leftover + Concat([]) == s.step.leftover;
    }
  }

  /** A handshake that was left after a write is stepped on until it reads or ends. */
  function Settled(d: Driven): Driven {
    if d.last.Read? then var e := Run(d.h); e.(written := d.written + e.written) else d
  }

  // --- any schedule ----------------------------------------------------------

  /** Equal in everything that the caller sees. */
  predicate SeenSame(a: Driven, b: Driven) {
    a.written == b.written && a.last == b.last && a.h.bound == b.h.bound && (a.last.Read? ==> a.h == b.h)
  }

  lemma HttpStable(buf: bytes, y: bytes)
    ensures match ParseHttpReply(buf)
            case Done(leftover) => ParseHttpReply(buf + y) == Done(leftover + y)
            case Fail(e) => ParseHttpReply(buf + y) == Fail(e)
            case _ => true
  {
    var end := FindHeaderEnd(buf);
    if end.Some? {
      FindStable(buf, y, CRLFCRLF);
      assert (buf + y)[end.value..] == buf[end.value..] + y;
      CrStays(buf, y, end.value);
    }
  }

  lemma CrStays(buf: bytes, y: bytes, end: nat)
    requires FindHeaderEnd(buf) == Some(end)
    ensures IndexOf(buf, CR).Some? && IndexOf(buf + y, CR) == IndexOf(buf, CR)
    ensures (buf + y)[..IndexOf(buf, CR).value] == buf[..IndexOf(buf, CR).value]
  {
    assert buf[end - 4..end][0] == buf[end - 4];
    var p := IndexOf(buf, CR).value;
    assert (buf + y)[p] == CR && forall j :: 0 <= j < p ==> (buf + y)[j] == buf[j];
  }

  lemma ReplyLenStable(buf: bytes, y: bytes)
    ensures ReplyLen(buf).Partial? || ReplyLen(buf + y) == ReplyLen(buf)
  {
  }

  /** A last step that is not a read is not changed by bytes that come later, but for what is left over. */
  lemma StepStable(h: State, y: bytes)
    ensures var s, t := Advance(h), Advance(h.(inbuf := h.inbuf + y));
            && (s.step.Write? ==> t == Stepped(s.h.(inbuf := s.h.inbuf + y), s.step))
            && (s.step.Done? ==> t.step == Done(s.step.leftover + y) && t.h.bound == s.h.bound)
            && (s.step.Fail? ==> t.step == s.step && t.h.bound == s.h.bound)
  {
    if h.machine.Http? {
      HttpStable(h.inbuf, y);
    } else if h.machine.phase.Requested? {
      ReplyStable(h, y);
    } else if |h.inbuf| >= 2 {
      assert (h.inbuf + y)[2..] == h.inbuf[2..] + y;
    }
  }

  lemma ReplyStable(h: State, y: bytes)
    ensures var s, t := ReplyStep(h), ReplyStep(h.(inbuf := h.inbuf + y));
            && !s.step.Write?
            && (s.step.Done? ==> t.step == Done(s.step.leftover + y) && t.h.bound == s.h.bound)
            && (s.step.Fail? ==> t.step == s.step && t.h.bound == s.h.bound)
  {
    ReplyLenStable(h.inbuf, y);
    var len := ReplyLen(h.inbuf);
    if len.Whole? {
      assert (h.inbuf + y)[..len.n] == h.inbuf[..len.n];
      assert (h.inbuf + y)[len.n..] == h.inbuf[len.n..] + y;
    }
  }

  lemma ReadsAgain(h: State)
    requires Advance(h).step.Read?
    ensures Advance(h).h == h
  {
  }

  /** However the proxy's bytes are cut and however often the socket makes the driver wait, within the buffer limit: the
      same messages are written, the outcome is the same, and the bytes after the reply are handed on, all of them and no
      others. */
  lemma {:induction false} ScheduleIndependent(h: State, segs: seq<bytes>)
    requires |h.inbuf + Concat(segs)| <= HANDSHAKE_BUF_CAP
    ensures SeenSame(Drive(h, Concat(segs)), Settled(Steps(h, segs)))
    decreases |segs|
  {
    if segs == [] {
      assert h.inbuf + [] == h.inbuf;
      var e := Run(h);
      assert [] + e.written == e.written;
    } else {
      var rest := Concat(segs[1..]);
      Assoc(h.inbuf, segs[0], rest);
      var g := Fed(h, segs[0]);
      StepStable(g, rest);
      var s := Advance(g);
      if s.step.Write? {
        WritesAdvance(g);
        ScheduleIndependent(s.h, segs[1..]);
        WrittenInFront(g, s, rest, Steps(s.h, segs[1..]));
      } else if s.step.Read? {
        ReadsAgain(g);
        ScheduleIndependent(g, segs[1..]);
      }
    }
  }

  lemma WrittenInFront(g: State, s: Stepped, rest: bytes, d: Driven)
    requires s == Advance(g) && s.step.Write? && Rank(s.h.machine) < Rank(g.machine)
    requires Advance(Fed(g, rest)) == Stepped(Fed(s.h, rest), s.step)
    requires SeenSame(Run(Fed(s.h, rest)), Settled(d))
    ensures SeenSame(Run(Fed(g, rest)), Settled(Wrote(s.step.message, d)))
  {
    if d.last.Read? {
      Assoc([s.step.message], d.written, Run(d.h).written);
    }
  }

  // --- success ---------------------------------------------------------------

  /** A reply that grants the request: version 5, REP 0, an address of a known type, and a port. */
  predicate GrantingReply(r: bytes) {
    && |r| >= 5 && r[0] == 5 && r[1] == 0
    && (r[3] == 1 || r[3] == 3 || r[3] == 4)
    && |r| == (if r[3] == 1 then 10 else if r[3] == 4 then 22 else 7 + r[4] as nat)
  }

  /** A proxy's choice of method, with the password status where passwords were offered and chosen. The version octet of
      that status is not looked at. */
  predicate Selection(h: State, s: bytes) {
    s == [5, 0] || (h.user.Some? && |s| == 4 && s[..2] == [5, 2] && s[3] == 0)
  }

  predicate Grants(h: State, stream: bytes, selection: bytes, reply: bytes, leftover: bytes) {
    stream == selection + reply + leftover && Selection(h, selection) && GrantingReply(reply)
  }

  /** What the client says on the way to success. */
  function SaidToSocks(h: State, command: byte, selection: bytes): seq<bytes> {
    [Greeting(h.user.Some?)]
    + (if selection == [5, 0] || h.user.None? then [] else [UserPass(h.user.value, h.pass)])
    + [Request(command, h.target)]
  }

  // --- what a proxy reads ----------------------------------------------------

  /** The methods that a greeting offers (section 3 of RFC 1928). */
  function ReadGreeting(m: bytes): Option<bytes> {
    if |m| >= 3 && m[0] == 5 && |m| == 2 + m[1] as nat then Some(m[2..]) else None
  }

  /** The user and the password of a login (section 2 of RFC 1929). */
  function ReadLogin(m: bytes): Option<(bytes, bytes)> {
    if |m| < 3 || m[0] != 1 || |m| < 3 + m[1] as nat then None
    else
      var n: nat := m[1];
      var user, rest := m[2..2 + n], m[2 + n..];
      if |rest| == 1 + rest[0] as nat then Some((user, rest[1..])) else None
  }

  /** The command and the address of a request (section 4 of RFC 1928). */
  function ReadRequest(m: bytes): Option<(byte, Addr)> {
    if |m| < 4 || m[0] != 5 || m[2] != 0 || (m[3] != 1 && m[3] != 4) then None
    else
      var n := if m[3] == 1 then 4 else 16;
      if |m| != 6 + n then None else Some((m[1], Addr(m[4..4 + n], m[4 + n] as nat * 256 + m[5 + n])))
  }

  /** An address of IPv4 or IPv6, and a port of 16 bits. */
  predicate IsAddress(a: Addr) { (|a.octets| == 4 || |a.octets| == 16) && a.port < 0x1_0000 }

  function Front255(s: bytes): bytes { if |s| > 255 then s[..255] else s }

  /** The greeting offers no authentication, and a password if and only if there is a user. */
  predicate Greets(m: bytes, h: State) {
    var offered := ReadGreeting(m);
    && offered.Some? && 0 in offered.value && (2 in offered.value <==> h.user.Some?)
    && forall i :: 0 <= i < |offered.value| ==> offered.value[i] == 0 || offered.value[i] == 2
  }

  predicate LogsIn(m: bytes, h: State) { h.user.Some? && ReadLogin(m) == Some((Front255(h.user.value), Front255(h.pass))) }

  predicate Asks(m: bytes, h: State, command: byte) { IsAddress(h.target) ==> ReadRequest(m) == Some((command, h.target)) }

  /** What the client says on the way to success, as the proxy reads it. */
  predicate Says(said: seq<bytes>, h: State, command: byte, selection: bytes) {
    if selection == [5, 0] then |said| == 2 && Greets(said[0], h) && Asks(said[1], h, command)
    else |said| == 3 && Greets(said[0], h) && LogsIn(said[1], h) && Asks(said[2], h, command)
  }

  lemma GreetingGreets(h: State)
    ensures Greets(Greeting(h.user.Some?), h)
  {
    assert Greeting(true)[2..] == [0, 2] && Greeting(false)[2..] == [0];
  }

  lemma LoginLogsIn(h: State)
    requires h.user.Some?
    ensures LogsIn(UserPass(h.user.value, h.pass), h)
  {
    var u, p := Clamped(h.user.value), Clamped(h.pass);
    var m := UserPass(h.user.value, h.pass);
    assert m == [1, |u|] + u + ([|p|] + p);
    assert m[2..2 + |u|] == u && m[2 + |u|..] == [|p|] + p;
    assert ([|p|] + p)[1..] == p;
    assert u == Front255(h.user.value) && p == Front255(h.pass);
  }

  lemma RequestAsks(h: State, command: byte)
    ensures Asks(Request(command, h.target), h, command)
  {
    if IsAddress(h.target) {
      var a, n := h.target, |h.target.octets|;
      var m := Request(command, a);
      assert m == [5, command, 0, if n == 4 then 1 else 4] + a.octets + [a.port / 256 % 256, a.port % 256];
      assert m[4..4 + n] == a.octets && m[4 + n] == a.port / 256 && m[5 + n] == a.port % 256;
    }
  }

  lemma SaidReads(h: State, command: byte, selection: bytes)
    requires Selection(h, selection)
    ensures Says(SaidToSocks(h, command, selection), h, command, selection)
  {
    GreetingGreets(h);
    RequestAsks(h, command);
    if selection != [5, 0] {
      LoginLogsIn(h);
    }
  }

  /** The address that a granting reply binds, if it is not a name. */
  lemma BoundReads(head: bytes, a: Addr)
    requires IsAddress(a) && |head| == 3
    ensures var reply := head + [if |a.octets| == 4 then 1 else 4] + a.octets + [a.port / 256, a.port % 256];
            ReplyLen(reply) == Whole(|reply|) && BoundAddr(reply) == Some(a)
  {
    var n := |a.octets|;
    var reply := head + [if n == 4 then 1 else 4] + a.octets + [a.port / 256, a.port % 256];
    assert reply[3] == if n == 4 then 1 else 4;
    assert reply[4..4 + n] == a.octets && reply[4 + n] == a.port / 256 && reply[5 + n] == a.port % 256;
  }

  /** Whatever the proxy answers, the client says nothing but this: its greeting first, and then logins and requests. */
  predicate OnlySays(said: seq<bytes>, h: State, command: byte) {
    forall i :: 0 <= i < |said| ==> Greets(said[i], h) || LogsIn(said[i], h) || Asks(said[i], h, command)
  }

  predicate SameClient(h: State, g: State) {
    h.machine.Socks5? && g.machine.Socks5? && g.machine.command == h.machine.command
    && g.target == h.target && g.user == h.user && g.pass == h.pass
  }

  lemma AdvanceSays(h: State)
    requires h.machine.Socks5?
    ensures var s := Advance(h);
            SameClient(h, s.h) && (s.step.Write? ==> OnlySays([s.step.message], h, h.machine.command))
  {
    GreetingGreets(h);
    RequestAsks(h, h.machine.command);
    if h.user.Some? {
      LoginLogsIn(h);
    }
  }

  lemma {:induction false} RunSays(h: State)
    requires h.machine.Socks5?
    ensures OnlySays(Run(h).written, h, h.machine.command)
    decreases Rank(h.machine)
  {
    var s := Advance(h);
    AdvanceSays(h);
    if s.step.Write? {
      WritesAdvance(h);
      RunSays(s.h);
      SaysMore(h, s.h, s.step.message, Run(s.h).written);
    }
  }

  lemma SaysMore(h: State, g: State, m: bytes, more: seq<bytes>)
    requires SameClient(h, g) && OnlySays([m], h, h.machine.command) && OnlySays(more, g, g.machine.command)
    ensures OnlySays([m] + more, h, h.machine.command)
  {
    forall i | 0 <= i < |[m] + more|
      ensures Greets(([m] + more)[i], h) || LogsIn(([m] + more)[i], h) || Asks(([m] + more)[i], h, h.machine.command) {
      if i > 0 {
        assert ([m] + more)[i] == more[i - 1];
      } else {
        assert [m][0] == m;
      }
    }
  }

  predicate FreshSocks(h: State) { h.machine.Socks5? && h.machine.phase.Start? && h.inbuf == [] }

  lemma GrantedReply(r: bytes, l: bytes)
    requires GrantingReply(r)
    ensures ReplyLen(r + l) == Whole(|r|) && (r + l)[0] == 5 && (r + l)[1] == 0
    ensures (r + l)[..|r|] == r && (r + l)[|r|..] == l
  {
  }

  lemma ReplyGrants(buf: bytes)
    requires ReplyLen(buf).Whole? && buf[0] == 5 && buf[1] == 0
    ensures GrantingReply(buf[..ReplyLen(buf).n])
  {
  }

  /** From the request on: success is a granting reply at the front, and what follows it is handed on. */
  lemma RequestedDone(h: State, stream: bytes)
    requires h.machine.Socks5? && h.machine.phase.Requested? && h.inbuf == stream
    ensures Run(h).last.Done? ==> exists r, l :: stream == r + l && GrantingReply(r) && Run(h).last == Done(l)
    ensures forall r, l :: stream == r + l && GrantingReply(r) ==> Run(h).last == Done(l)
    ensures Run(h).written == []
  {
    var d := Run(h);
    if d.last.Done? {
      var n := ReplyLen(stream).n;
      ReplyGrants(stream);
      assert stream == stream[..n] + stream[n..];
    }
    forall r, l | stream == r + l && GrantingReply(r) ensures Run(h).last == Done(l) {
      GrantedReply(r, l);
    }
  }

  /** Where the negotiation before the request ends, if it succeeds. */
  function Negotiated(h: State, stream: bytes): Option<nat> {
    if |stream| < 2 || stream[0] != 5 then None
    else if stream[1] == 0 then Some(2)
    else if stream[1] == 2 && h.user.Some? && |stream| >= 4 && stream[3] == 0 then Some(4)
    else None
  }

  lemma NegotiatedIs(h: State, stream: bytes, s: bytes)
    requires Selection(h, s) && |s| <= |stream| && stream[..|s|] == s
    ensures Negotiated(h, stream) == Some(|s|)
  {
    assert stream[0] == s[0] && stream[1] == s[1];
    assert |s| == 4 ==> s[..2][0] == s[0] && s[..2][1] == s[1] && stream[3] == s[3];
  }

  lemma SelectionIs(h: State, stream: bytes)
    requires Negotiated(h, stream).Some?
    ensures Selection(h, stream[..Negotiated(h, stream).value])
  {
    var s := stream[..Negotiated(h, stream).value];
    if |s| == 2 {
      assert s == [5, 0];
    } else {
      assert s[..2] == [5, 2];
    }
  }

  /** With the negotiation over, what remains is the wait for the reply. */
  lemma AfterNegotiation(h: State, stream: bytes)
    requires FreshSocks(h)
    ensures var d, n := Run(Fed(h, stream)), Negotiated(h, stream);
            if n.None? then !d.last.Done?
            else var e := Run(InPhase(h, Requested, stream[n.value..]));
                 d.last == e.last && d.written == SaidToSocks(h, h.machine.command, stream[..n.value]) + e.written
  {
    var g := Fed(h, stream);
    assert g.inbuf == stream;
    var one := Advance(g).h;
    var two := Advance(one);
    var n := Negotiated(h, stream);
    WritesAdvance(g);
    assert Run(g) == Wrote(Greeting(h.user.Some?), Run(one));
    WritesAdvance(one);
    if n == Some(2) {
      NoPassword(h, stream, one);
    } else if two.step.Write? {
      Password(h, stream, one);
    }
  }

  lemma NoPassword(h: State, stream: bytes, one: State)
    requires h.machine.Socks5? && one == InPhase(h, Greeted, stream) && Negotiated(h, stream) == Some(2)
    ensures var e := Run(InPhase(h, Requested, stream[2..]));
            Wrote(Greeting(h.user.Some?), Run(one)) == e.(written := SaidToSocks(h, h.machine.command, stream[..2]) + e.written)
  {
    var request := Request(h.machine.command, h.target);
    assert stream[..2] == [5, 0];
    var e := Run(InPhase(h, Requested, stream[2..]));
    assert Advance(one) == Stepped(InPhase(h, Requested, stream[2..]), Write(request));
    assert [Greeting(h.user.Some?)] + ([request] + e.written) == [Greeting(h.user.Some?)] + [] + [request] + e.written;
  }

  lemma Password(h: State, stream: bytes, one: State)
    requires h.machine.Socks5? && one == InPhase(h, Greeted, stream) && Negotiated(h, stream) != Some(2) && Advance(one).step.Write?
    ensures var d := Wrote(Greeting(h.user.Some?), Run(one));
            if Negotiated(h, stream).None? then !d.last.Done?
            else var e := Run(InPhase(h, Requested, stream[4..]));
                 && Negotiated(h, stream).value == 4
                 && d == e.(written := SaidToSocks(h, h.machine.command, stream[..4]) + e.written)
  {
    var login, request := UserPass(h.user.value, h.pass), Request(h.machine.command, h.target);
    var two := InPhase(h, Authed, stream[2..]);
    assert Advance(one) == Stepped(two, Write(login));
    if Negotiated(h, stream).Some? {
      var three := InPhase(h, Requested, stream[4..]);
      assert stream[2..][2..] == stream[4..] && stream[2..][1] == stream[3];
      assert Advance(two) == Stepped(three, Write(request));
      var e := Run(three);
      assert [Greeting(true)] + ([login] + ([request] + e.written)) == [Greeting(true)] + [login] + [request] + e.written;
    }
  }

  /** A SOCKS5 handshake succeeds if and only if the proxy chose a method that was offered, accepted the password if it
      asked for one, and granted the request; then exactly the bytes after its reply are handed on. */
  lemma SocksDone(h: State, stream: bytes, leftover: bytes)
    requires FreshSocks(h) && |stream| <= HANDSHAKE_BUF_CAP
    ensures Drive(h, stream).last == Done(leftover) <==> exists s, r :: Grants(h, stream, s, r, leftover)
    ensures forall s, r :: Grants(h, stream, s, r, leftover) ==> Says(Drive(h, stream).written, h, h.machine.command, s)
    ensures OnlySays(Drive(h, stream).written, h, h.machine.command)
  {
    RunSays(Fed(h, stream));
    assert h.inbuf + stream == stream;
    AfterNegotiation(h, stream);
    var n := Negotiated(h, stream);
    if Drive(h, stream).last == Done(leftover) {
      DoneGrants(h, stream, leftover, n.value);
    }
    forall s, r | Grants(h, stream, s, r, leftover)
      ensures Drive(h, stream).last == Done(leftover) && Says(Drive(h, stream).written, h, h.machine.command, s) {
      GrantsDone(h, stream, s, r, leftover);
      SaidReads(h, h.machine.command, s);
    }
  }

  lemma DoneGrants(h: State, stream: bytes, leftover: bytes, n: nat)
    requires h.machine.Socks5? && Negotiated(h, stream) == Some(n)
    requires Run(InPhase(h, Requested, stream[n..])).last == Done(leftover)
    ensures exists s, r :: Grants(h, stream, s, r, leftover)
  {
    SelectionIs(h, stream);
    var after := stream[n..];
    RequestedDone(InPhase(h, Requested, after), after);
    var r, l :| after == r + l && GrantingReply(r) && Done(leftover) == Done(l);
    assert stream == stream[..n] + after;
    Assoc(stream[..n], r, l);
    assert Grants(h, stream, stream[..n], r, leftover);
  }

  lemma GrantsDone(h: State, stream: bytes, s: bytes, r: bytes, leftover: bytes)
    requires h.machine.Socks5? && Grants(h, stream, s, r, leftover)
    ensures Negotiated(h, stream) == Some(|s|) && stream[..|s|] == s
    ensures Run(InPhase(h, Requested, stream[|s|..])).last == Done(leftover) && Run(InPhase(h, Requested, stream[|s|..])).written == []
  {
    Assoc(s, r, leftover);
    assert stream[..|s|] == s && stream[|s|..] == r + leftover;
    NegotiatedIs(h, stream, s);
    RequestedDone(InPhase(h, Requested, stream[|s|..]), r + leftover);
  }

  predicate Word(w: bytes) { SP !in w && CR !in w }

  /** A 2xx answer: a word, a space, a status from 200 to 299, and the rest of the head; `leftover` follows the head. */
  predicate Accepts(stream: bytes, version: bytes, code: bytes, after: bytes, leftover: bytes) {
    && stream == version + [SP] + code + after + leftover
    && Word(version) && Word(code) && after != [] && (after[0] == SP || after[0] == CR)
    && FindHeaderEnd(stream) == Some(|version + [SP] + code + after|)
    && var status := ParseUnsigned(code, 10, 65535); status.Some? && 200 <= status.value < 300
  }

  lemma FirstIs(s: bytes, c: byte, p: nat)
    requires p < |s| && s[p] == c && c !in s[..p]
    ensures IndexOf(s, c) == Some(p)
  {
    assert forall j :: 0 <= j < p ==> s[j] == s[..p][j];
  }

  /** The first two words of a line. */
  lemma SecondWord(line: bytes)
    ensures |Split(line, SP)| >= 2 <==> SP in line
    ensures SP in line ==> var a := IndexOf(line, SP).value;
                           var rest := line[a + 1..];
                           Split(line, SP)[1] == (match IndexOf(rest, SP) case None => rest case Some(b) => rest[..b])
  {
    if SP in line {
      var rest := line[IndexOf(line, SP).value + 1..];
      assert Split(line, SP) == [line[..IndexOf(line, SP).value]] + Split(rest, SP);
    }
  }

  lemma AcceptsIsDone(stream: bytes, version: bytes, code: bytes, after: bytes, leftover: bytes)
    requires Accepts(stream, version, code, after, leftover)
    ensures ParseHttpReply(stream) == Done(leftover)
  {
    assert stream[|version + [SP] + code + after|..] == leftover;
    CrEarly(stream, |version + [SP] + code + after|);
    StatusWord(stream, version, code, after + leftover);
  }

  lemma StatusWord(stream: bytes, version: bytes, code: bytes, rest: bytes)
    requires stream == version + [SP] + code + rest
    requires Word(version) && Word(code) && rest != [] && (rest[0] == SP || rest[0] == CR)
    requires IndexOf(stream, CR).Some?
    ensures var parts := Split(stream[..IndexOf(stream, CR).value], SP); |parts| >= 2 && parts[1] == code
  {
    var p := IndexOf(stream, CR).value;
    var a, b := |version|, |version| + 1 + |code|;
    assert stream[..a] == version && stream[a] == SP && stream[a + 1..b] == code && stream[b] == rest[0];
    NoCrBefore(stream, version, code, rest);
    var line := stream[..p];
    assert line[..a] == version && line[a] == SP;
    FirstIs(line, SP, a);
    SecondWord(line);
    var second := line[a + 1..];
    assert second[..|code|] == code;
    CodeWord(second, code, if b < p then Some(|code|) else None);
  }

  lemma NoCrBefore(stream: bytes, version: bytes, code: bytes, rest: bytes)
    requires stream == version + [SP] + code + rest && Word(version) && Word(code)
    ensures forall j :: 0 <= j < |version| + 1 + |code| ==> stream[j] != CR
  {
  }

  lemma CodeWord(rest: bytes, code: bytes, at: Option<nat>)
    requires Word(code) && |code| <= |rest| && rest[..|code|] == code
    requires at == (if |rest| == |code| then None else Some(|code|))
    requires at.Some? ==> rest[|code|] == SP
    ensures (match IndexOf(rest, SP) case None => rest case Some(b) => rest[..b]) == code
  {
    if at.Some? {
      FirstIs(rest, SP, |code|);
    } else {
      assert rest == code;
    }
  }

  lemma InFive(s: bytes, a: nat, b: nat, end: nat)
    requires a < b <= end <= |s|
    ensures s == s[..a] + [s[a]] + s[a + 1..b] + s[b..end] + s[end..]
    ensures |s[..a] + [s[a]] + s[a + 1..b] + s[b..end]| == end
  {
  }

  lemma NoneIn(s: bytes, c: byte, a: nat, b: nat)
    requires a <= b <= |s| && forall j :: a <= j < b ==> s[j] != c
    ensures c !in s[a..b]
  {
  }

  /** Where the first two words of the first line are, when its second word is a status. */
  lemma WordsOf(stream: bytes, p: nat) returns (a: nat, b: nat)
    requires p < |stream| && stream[p] == CR && forall j :: 0 <= j < p ==> stream[j] != CR
    requires |Split(stream[..p], SP)| >= 2
    ensures a < b <= p && stream[a] == SP && (stream[b] == SP || stream[b] == CR)
    ensures Split(stream[..p], SP)[1] == stream[a + 1..b]
    ensures Word(stream[..a]) && Word(stream[a + 1..b])
  {
    var line := stream[..p];
    SecondWord(line);
    a := IndexOf(line, SP).value;
    var rest := line[a + 1..];
    assert forall j :: 0 <= j < |rest| ==> rest[j] == stream[a + 1 + j];
    var q := match IndexOf(rest, SP) case None => |rest| case Some(k) => k;
    b := a + 1 + q;
    assert rest[..q] == stream[a + 1..b];
    assert rest[..|rest|] == rest;
    NoneIn(stream, CR, 0, a);
    NoneIn(stream, CR, a + 1, b);
    NoneIn(line, SP, 0, a);
    NoneIn(rest, SP, 0, q);
    assert line[0..a] == stream[..a] == stream[0..a];
    assert rest[0..q] == rest[..q];
  }

  lemma DoneIsAccepts(stream: bytes, leftover: bytes)
    requires ParseHttpReply(stream) == Done(leftover)
    ensures exists version, code, after :: Accepts(stream, version, code, after, leftover)
  {
    var end := FindHeaderEnd(stream).value;
    CrEarly(stream, end);
    var a, b := WordsOf(stream, IndexOf(stream, CR).value);
    InFive(stream, a, b, end);
    assert stream[b..end][0] == stream[b];
    assert Accepts(stream, stream[..a], stream[a + 1..b], stream[b..end], leftover);
  }

  lemma CrEarly(stream: bytes, end: nat)
    requires FindHeaderEnd(stream) == Some(end)
    ensures IndexOf(stream, CR).Some? && IndexOf(stream, CR).value < end
  {
    assert stream[end - 4..end][0] == stream[end - 4];
  }

  /** A CONNECT succeeds if and only if the proxy answers 2xx; then exactly the bytes after the head are handed on. */
  lemma HttpDone(h: State, stream: bytes, leftover: bytes)
    requires h.machine.Http? && !h.machine.sent && h.inbuf == [] && |stream| <= HANDSHAKE_BUF_CAP
    ensures Drive(h, stream).written == [h.machine.connect]
    ensures Drive(h, stream).last == Done(leftover)
            <==> exists version, code, after :: Accepts(stream, version, code, after, leftover)
  {
    assert h.inbuf + stream == stream;
    var g := Fed(h, stream);
    WritesAdvance(g);
    var asked := Advance(g).h;
    assert Run(g) == Wrote(h.machine.connect, Run(asked));
    assert Run(asked) == Driven(asked, [], ParseHttpReply(stream));
    if ParseHttpReply(stream) == Done(leftover) {
      DoneIsAccepts(stream, leftover);
    }
    forall version, code, after | Accepts(stream, version, code, after, leftover) ensures ParseHttpReply(stream) == Done(leftover) {
      AcceptsIsDone(stream, version, code, after, leftover);
    }
  }

  // --- the object ------------------------------------------------------------

  class Handshake {
    const target: Addr
    const user: Option<bytes>
    const pass: bytes
    var machine: Machine
    var inbuf: bytes
    var bound: Option<Addr>

    /** The handshake as a value. */
    ghost function Value(): State
      reads this
    {
      State(target, user, pass, machine, inbuf, bound)
    }

    constructor (target: Addr, user: Option<bytes>, pass: bytes, machine: Machine)
      ensures Value() == State(target, user, pass, machine, [], None)
    {
      this.target, this.user, this.pass, this.machine := target, user, pass, machine;
      inbuf, bound := [], None;
    }

    method StepOn(input: bytes) returns (step: Step)
      modifies this
      ensures Stepped(Value(), step) == StepWith(old(Value()), input)
    {
      inbuf := inbuf + input;
      if |inbuf| > HANDSHAKE_BUF_CAP {
        return Fail(HeaderTooLarge);
      }
      match machine {
        case Http(connect, sent) =>
          if !sent {
            machine := Http(connect, true);
            step := Write(connect);
          } else {
            step := ParseHttpReply(inbuf);
          }
        case Socks5(phase, command) =>
          step := SocksStep(phase, command);
      }
    }

    method SocksStep(phase: Phase, command: byte) returns (step: Step)
      requires machine == Socks5(phase, command)
      modifies this
      ensures Stepped(Value(), step) == Advance(old(Value()))
    {
      match phase {
        case Start =>
          machine := Socks5(Greeted, command);
          step := Write(Greeting(user.Some?));
        case Greeted => step := Method(command);
        case Authed => step := Status(command);
        case Requested => step := Reply();
      }
    }

    method Method(command: byte) returns (step: Step)
      requires machine == Socks5(Greeted, command)
      modifies this
      ensures Stepped(Value(), step) == MethodStep(old(Value()))
    {
      if |inbuf| < 2 {
        return Read;
      }
      if inbuf[0] != 5 {
        return Fail(Socks5Version(inbuf[0]));
      }
      var chosen := inbuf[1];
      inbuf := inbuf[2..];
      if chosen == 0 {
        machine := Socks5(Requested, command);
        step := Write(Request(command, target));
      } else if chosen == 2 && user.Some? {
        machine := Socks5(Authed, command);
        step := Write(UserPass(user.value, pass));
      } else {
        step := Fail(Socks5NoAcceptableAuth);
      }
    }

    method Status(command: byte) returns (step: Step)
      requires machine == Socks5(Authed, command)
      modifies this
      ensures Stepped(Value(), step) == AuthStep(old(Value()))
    {
      if |inbuf| < 2 {
        return Read;
      }
      var status := inbuf[1];
      inbuf := inbuf[2..];
      if status != 0 {
        return Fail(Socks5AuthFailed(status));
      }
      machine := Socks5(Requested, command);
      step := Write(Request(command, target));
    }

    method Reply() returns (step: Step)
      modifies this
      ensures Stepped(Value(), step) == ReplyStep(old(Value()))
    {
      var len := ReplyLen(inbuf);
      if len.Impossible? {
        return Fail(Socks5Malformed);
      }
      if len.Partial? {
        return Read;
      }
      if inbuf[0] != 5 {
        return Fail(Socks5Version(inbuf[0]));
      }
      if inbuf[1] != 0 {
        return Fail(Socks5Reply(inbuf[1]));
      }
      WholeIsWhole(inbuf, len.n);
      bound := BoundAddr(inbuf[..len.n]);
      step := Done(inbuf[len.n..]);
      inbuf := inbuf[..len.n];
    }

    /** The driver's loop, when the socket takes every message at once: the input goes to the first step alone. */
    method DriveOn(input: bytes) returns (written: seq<bytes>, last: Step)
      modifies this
      ensures Driven(Value(), written, last) == Drive(old(Value()), input)
    {
      written := [];
      last := StepOn(input);
      WritesAdvance(Fed(old(Value()), input));
      ghost var goal := Drive(old(Value()), input);
      while last.Write?
        invariant last.Write? ==> |inbuf| <= HANDSHAKE_BUF_CAP
        invariant goal == (if last.Write? then Run(Value()).(written := written + [last.message] + Run(Value()).written)
                           else Driven(Value(), written, last))
        decreases last.Write?, Rank(machine)
      {
        written := written + [last.message];
        ghost var was := Value();
        last := StepOn([]);
        assert Fed(was, []) == was;
        WritesAdvance(was);
        Onward(was, written, last);
      }
    }
  }

  lemma Onward(was: State, written: seq<bytes>, last: Step)
    requires last == Advance(was).step
    ensures var s, d := Advance(was), Run(was);
            if last.Write? then Rank(s.h.machine) < Rank(was.machine)
                                && d.(written := written + d.written) == Run(s.h).(written := written + [last.message] + Run(s.h).written)
            else d.(written := written + d.written) == Driven(s.h, written, last)
  {
    WritesAdvance(was);
    if last.Write? {
      Assoc(written, [last.message], Run(Advance(was).h).written);
    } else {
      assert written + [] == written;
    }
  }
}
