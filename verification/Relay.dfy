/** One relayed TCP flow: the messages of the handshake with the proxy, then the app's bytes, through a socket that may take
    any part of what it is offered. */
module Relay {
  import opened Bytes
  import opened Sni
  import Proxy

  /** What one write call does. */
  datatype WriteResult = Wrote(n: nat) | WouldBlock | WriteError

  /** What the policy makes of a flow with this server name. */
  datatype Fate = Splice | Refuse | Raw

  /** What happens to a flow: the connect ends, the app or the proxy sends bytes, the socket is ready, or the app's side is
      served. What the write calls do is part of the event. */
  datatype Event =
    | Connected(error: bool)
    | AppSends(data: bytes)
    | ProxySends(data: bytes)
    | Ready(eof: bool, readError: bool, writes: seq<seq<WriteResult>>)
    | ServicePass(results: seq<WriteResult>)

  function AppBytes(es: seq<Event>): bytes {
    if es == [] then [] else AppBytes(es[..|es| - 1]) + if es[|es| - 1].AppSends? then es[|es| - 1].data else []
  }

  function ProxyBytes(es: seq<Event>): bytes {
    if es == [] then [] else ProxyBytes(es[..|es| - 1]) + if es[|es| - 1].ProxySends? then es[|es| - 1].data else []
  }

  function WritesAt(writes: seq<seq<WriteResult>>, i: nat): seq<WriteResult> { if i < |writes| then writes[i] else [] }

  /** The machine stands where the pieces `fed` lead from its start, and its messages so far are `hs`. */
  ghost predicate MachineAt(start: Option<Proxy.State>, machine: Option<Proxy.State>, hs: bytes, fed: seq<bytes>, toApp: bytes, dead: bool) {
    if start.None? then hs == [] && machine.None? && fed == []
    else
      var d := Proxy.Steps(start.value, fed);
      && hs == Concat(d.written)
      && (!dead && machine.Some? ==> d.last.Read? && d.h == machine.value)
      && (!dead && machine.None? ==> d.last == Proxy.Done(toApp))
  }

  /** Whatever becomes of a flow, its messages stay what they are. */
  lemma StillAt(start: Option<Proxy.State>, machine: Option<Proxy.State>, hs: bytes, fed: seq<bytes>, toApp: bytes, was: bool, dead: bool)
    requires MachineAt(start, machine, hs, fed, toApp, was) && (was ==> dead)
    ensures MachineAt(start, machine, hs, fed, toApp, dead)
  {
  }

  /** One step of the machine. */
  lemma MachineSteps(start: Option<Proxy.State>, h: Proxy.State, hs: bytes, fed: seq<bytes>, toApp: bytes, input: bytes)
    requires MachineAt(start, Some(h), hs, fed, toApp, false)
    ensures var s := Proxy.StepWith(h, input);
            match s.step
            case Write(m) => MachineAt(start, Some(s.h), hs + m, fed + [input], toApp, false) && Proxy.Rank(s.h.machine) < Proxy.Rank(h.machine)
            case Read => MachineAt(start, Some(s.h), hs, fed + [input], toApp, false)
            case Done(leftover) => MachineAt(start, None, hs, fed + [input], leftover, false)
            case Fail(_) => MachineAt(start, Some(s.h), hs, fed + [input], toApp, true)
  {
    Proxy.StepsMore(start.value, fed, input);
    Proxy.StepAdvances(h, input);
    var s := Proxy.StepWith(h, input);
    if s.step.Write? {
      WrittenMore(Proxy.Steps(start.value, fed).written, s.step.message);
    }
  }

  class Flow {
    const policy: Option<bytes> -> Fate
    /** The handshake to go through, if the flow goes through a proxy, and where it stands. */
    const start: Option<Proxy.State>
    var machine: Option<Proxy.State>
    var connecting: bool
    var hsOut: bytes
    /** The bytes of a flow that still waits for its server name. */
    var pending: Option<bytes>
    var toUpstream: bytes
    var toApp: bytes
    var spliced: bool
    var dead: bool
    /** What the app and the proxy have sent that has not been read. */
    var unread: bytes
    var arrived: bytes
    /** What the socket has taken, and what the steps of the handshake were given. */
    var wire: bytes
    var fed: seq<bytes>
    /** The handshake messages so far, the app's bytes so far, and those given to a splice. */
    ghost var hs: bytes
    ghost var app: bytes
    ghost var toSplice: bytes
    /** Everything that the app and the proxy have sent. */
    ghost var sent: bytes
    ghost var received: bytes

    function Waiting(): bytes reads this { if pending.Some? then pending.value else [] }

    predicate Open() reads this { !dead && !connecting && machine.None? }

    /** The messages are those of the handshake machine, on what the proxy has sent. */
    ghost predicate Scripted() reads this {
      && sent == app + unread && received == Concat(fed) + arrived
      && MachineAt(start, machine, hs, fed, toApp, dead)
    }

    ghost predicate Ordered() reads this {
      && (dead ==> wire <= hs + app || spliced)
      && (!dead && connecting ==> wire == [] && hs == [] && hsOut == [] && app == [])
      && (!dead && (connecting || machine.Some?) ==>
            wire + hsOut == hs && toUpstream == [] && app == [] && Waiting() == [] && !spliced)
      && (!dead && !connecting && machine.None? && !spliced ==>
            hsOut == [] && wire + (toUpstream + Waiting()) == hs + app)
      && (!dead && pending.Some? && !connecting && machine.None? ==> toUpstream == [] && wire == hs && pending.value == app)
      && (!dead ==> if spliced then pending.None? && toSplice == app else toSplice == [])
    }

    ghost predicate Valid() reads this { Ordered() && Scripted() }

    /** A flow is opened with a connect in flight; `defer` when its server name is to decide. */
    constructor (start: Option<Proxy.State>, defer: bool, policy: Option<bytes> -> Fate)
      ensures Ordered() && !dead && !spliced && connecting && this.start == start && this.policy == policy
      ensures start.None? ==> machine.None?
      ensures start.Some? ==> machine == start
      ensures wire == hs == app == sent == received == [] && fed == [] && unread == arrived == toApp == []
    {
      this.policy, this.start, this.machine := policy, start, start;
      connecting, hsOut := true, [];
      pending, toUpstream, spliced, dead := if defer then Some([]) else None, [], false, false;
      toApp, unread, arrived := [], [], [];
      wire, hs, app, toSplice, fed, sent, received := [], [], [], [], [], [], [];
    }

    /** Offers `buf` until it is all taken or a write call ends the attempt. */
    method WriteSome(buf: bytes, results: seq<WriteResult>) returns (written: nat, ok: bool)
      modifies this`wire
      ensures written <= |buf| && wire == old(wire) + buf[..written]
      ensures !ok ==> exists i :: 0 <= i < |results| && results[i].WriteError?
    {
      written, ok := 0, true;
      var i := 0;
      assert wire + [] == wire;
      while written < |buf| && i < |results|
        invariant written <= |buf| && i <= |results| && wire == old(wire) + buf[..written]
      {
        match results[i] {
          case Wrote(n) =>
            if n == 0 {
              return;
            }
            var m := Min(n, |buf| - written);
            assert buf[..written + m] == buf[..written] + buf[written..written + m];
            wire := wire + buf[written..written + m];
            written := written + m;
          case WouldBlock => return;
          case WriteError =>
            ok := false;
            return;
        }
        i := i + 1;
      }
    }

    method OnConnected(error: bool)
      requires Valid()
      modifies this`connecting, this`dead
      ensures Valid() && (old(dead) ==> dead)
    {
      if dead || !connecting {
        return;
      }
      connecting := false;
      if error {
        assert wire + hsOut == hs && hs + app == hs;
        dead := true;
        StillAt(start, machine, hs, fed, toApp, false, true);
      } else if machine.None? {
        assert wire + (toUpstream + Waiting()) == hs + app;
      }
    }

    /** Writes what the socket takes of the handshake output; false on a hard error. */
    method FlushHandshakeOut(results: seq<WriteResult>) returns (ok: bool)
      requires Ordered() && !dead && machine.Some? && !connecting
      modifies this`wire, this`hsOut
      ensures Ordered() && wire + hsOut == old(wire) + old(hsOut) && old(wire) <= wire
    {
      if hsOut == [] {
        return true;
      }
      var written;
      written, ok := WriteSome(hsOut, results);
      assert hsOut == hsOut[..written] + hsOut[written..];
      Assoc(old(wire), hsOut[..written], hsOut[written..]);
      hsOut := hsOut[written..];
    }

    /** Drives the handshake as far as it goes on what the proxy has sent: each message of the machine is queued once and in
        order, and none while an earlier one is unsent. */
    method DriveHandshake(eof: bool, readError: bool, writes: seq<seq<WriteResult>>)
      requires Valid() && !dead && machine.Some? && !connecting
      modifies this
      ensures Valid() && app == old(app) && sent == old(sent) && received == old(received) && old(wire) <= wire
      ensures !dead && machine.None? ==> hsOut == [] && wire == hs
      ensures !connecting
    {
      var ok := FlushHandshakeOut(WritesAt(writes, 0));
      if !ok || (hsOut == [] && readError) {
        FailProxy();
        StillAt(start, machine, hs, fed, toApp, false, true);
        return;
      }
      if hsOut != [] {
        return;
      }
      var input := arrived;
      arrived := [];
      var i := 1;
      var more := true;
      ReadOn(fed, input);
      while more
        invariant more ==> Ordered() && !dead && machine.Some? && !connecting && hsOut == [] && Handed(input)
        invariant !more ==> Valid() && !connecting && (!dead && machine.None? ==> hsOut == [] && wire == hs)
        invariant app == old(app) && sent == old(sent) && received == old(received) && old(wire) <= wire
        decreases more, if more then Proxy.Rank(machine.value.machine) else 0
      {
        more := HandshakeStep(input, eof, WritesAt(writes, i));
        input, i := [], i + 1;
      }
    }

    /** As `Scripted`, with `input` read and not yet given to the machine. */
    ghost predicate Handed(input: bytes) reads this {
      && sent == app + unread && received == Concat(fed + [input]) && arrived == []
      && machine.Some? && MachineAt(start, machine, hs, fed, toApp, false)
    }

    /** One step of the machine, and the sending of its message. Goes on only after a message that the socket took. */
    method HandshakeStep(input: bytes, eof: bool, results: seq<WriteResult>) returns (more: bool)
      requires Ordered() && !dead && machine.Some? && !connecting && hsOut == [] && Handed(input)
      modifies this
      ensures app == old(app) && sent == old(sent) && received == old(received) && old(wire) <= wire && !connecting
      ensures more ==> Ordered() && !dead && machine.Some? && hsOut == [] && Handed([])
                       && Proxy.Rank(machine.value.machine) < Proxy.Rank(old(machine).value.machine)
      ensures !more ==> Valid() && (!dead && machine.None? ==> hsOut == [] && wire == hs)
    {
      var s := Proxy.StepWith(machine.value, input);
      MachineSteps(start, machine.value, hs, fed, toApp, input);
      fed := fed + [input];
      machine := Some(s.h);
      ReadOn(fed, []);
      more := false;
      match s.step {
        case Write(message) =>
          more := SendMessage(message, results);
          StillAt(start, machine, hs, fed, toApp, false, dead);
        case Read =>
          if eof {
            FailProxy();
          }
          StillAt(start, machine, hs, fed, toApp, false, dead);
        case Done(leftover) => TunnelOpen(leftover);
        case Fail(_) => FailProxy();
      }
    }

    /** Sends a message of the machine; true if the socket took all that is to be sent. */
    method SendMessage(message: bytes, results: seq<WriteResult>) returns (all: bool)
      requires Ordered() && !dead && machine.Some? && !connecting
      modifies this`hsOut, this`hs, this`wire, this`dead
      ensures Ordered() && hs == old(hs) + message && old(wire) <= wire && (all ==> !dead && hsOut == [])
    {
      Queue(message);
      var ok := FlushHandshakeOut(results);
      if !ok {
        FailProxy();
      }
      all := ok && hsOut == [];
    }

    method Queue(message: bytes)
      requires Ordered() && !dead && machine.Some? && !connecting
      modifies this`hsOut, this`hs
      ensures Ordered() && hs == old(hs) + message && hsOut == old(hsOut) + message
    {
      Assoc(wire, hsOut, message);
      hsOut, hs := hsOut + message, hs + message;
    }

    method TunnelOpen(leftover: bytes)
      requires Ordered() && !dead && machine.Some? && !connecting && hsOut == []
      modifies this`machine, this`toApp
      ensures Ordered() && machine.None? && wire == hs && toApp == leftover
    {
      assert wire + [] == wire && hs + [] == hs;
      assert toUpstream + Waiting() == [];
      machine, toApp := None, leftover;
    }

    method FailProxy()
      requires Ordered() && !dead && machine.Some? && !connecting
      modifies this`dead
      ensures Ordered() && dead
    {
      assert hs + app == hs;
      PrefixOf(wire, hsOut);
      dead := true;
    }

    /** The app's bytes, taken on a service pass of a flow whose tunnel is open. */
    method Service(results: seq<WriteResult>)
      requires Valid() && Open()
      modifies this
      ensures Valid() && hs == old(hs) && app == old(app) + old(unread) && unread == []
      ensures sent == old(sent) && received == old(received) && old(wire) <= wire
    {
      var data := unread;
      unread := [];
      assert app + data == app + data + [];
      Take(data);
      FlushToUpstream(results);
      StillAt(start, machine, hs, fed, toApp, false, dead);
    }

    method Take(data: bytes)
      requires Ordered() && Open()
      modifies this`pending, this`app, this`toSplice, this`toUpstream, this`spliced, this`dead
      ensures Ordered() && app == old(app) + data
    {
      if pending.Some? {
        ClassifyPending(data);
      } else {
        TakeOn(data);
      }
    }

    /** Bytes of a flow whose fate is known. */
    method TakeOn(data: bytes)
      requires Ordered() && Open() && pending.None?
      modifies this`toSplice, this`toUpstream, this`app
      ensures Ordered() && app == old(app) + data
    {
      if spliced {
        toSplice, app := toSplice + data, app + data;
      } else {
        assert Waiting() == [] && toUpstream + [] == toUpstream && toUpstream + data + [] == toUpstream + data;
        Assoc(wire, toUpstream, data);
        Assoc(hs, app, data);
        toUpstream, app := toUpstream + data, app + data;
      }
    }

    /** More bytes of a flow that waits for its server name. */
    method ClassifyPending(data: bytes)
      requires Ordered() && Open() && pending.Some?
      modifies this`pending, this`app, this`toSplice, this`toUpstream, this`spliced, this`dead
      ensures Ordered() && app == old(app) + data
      ensures var d := Classify(Deferred.Waiting(old(pending.value)), data);
              if d.Waiting? then pending == Some(d.buf) && !dead
              else pending.None? && dead == (policy(d.sni) == Refuse) && spliced == (policy(d.sni) == Splice)
    {
      Assoc(wire, pending.value, data);
      Assoc(hs, app, data);
      assert toUpstream + Waiting() == pending.value;
      var buf := pending.value + data;
      app := app + data;
      var peek := PeekSni(buf);
      if peek.NeedMore? && |buf| <= SNI_PEEK_CAP {
        pending := Some(buf);
        assert toUpstream + Waiting() == buf;
        return;
      }
      var sni := if peek.Found? then Some(peek.host) else None;
      pending := None;
      Settle(buf, policy(sni));
    }

    /** Hands the buffered bytes on, whole and once, to where the flow is to go. */
    method Settle(buf: bytes, fate: Fate)
      requires Open() && !spliced && pending.None? && toUpstream == [] && hsOut == []
      requires wire == hs && buf == app && toSplice == []
      modifies this`toSplice, this`toUpstream, this`spliced, this`dead
      ensures Ordered() && spliced == (fate == Splice) && dead == (fate == Refuse)
    {
      match fate
      case Splice =>
        toSplice, spliced := toSplice + buf, true;
        assert toSplice == app;
      case Refuse =>
        dead := true;
        PrefixOf(wire, buf);
      case Raw =>
        toUpstream := toUpstream + buf;
        assert toUpstream + Waiting() == buf;
    }

    method FlushToUpstream(results: seq<WriteResult>)
      requires Ordered() && !connecting && machine.None?
      modifies this`toUpstream, this`wire, this`dead
      ensures Ordered() && old(wire) <= wire && (old(dead) ==> dead)
      ensures !old(dead) && !dead ==> wire + toUpstream == old(wire) + old(toUpstream)
    {
      if dead || toUpstream == [] {
        return;
      }
      var written, ok := WriteSome(toUpstream, results);
      assert toUpstream == toUpstream[..written] + toUpstream[written..];
      Assoc(old(wire), toUpstream[..written], toUpstream[written..] + Waiting());
      Assoc(toUpstream[..written], toUpstream[written..], Waiting());
      Assoc(old(wire), toUpstream[..written], toUpstream[written..]);
      if !ok {
        PrefixOf(wire, toUpstream[written..] + Waiting());
        dead := true;
        return;
      }
      toUpstream := toUpstream[written..];
    }

    /** The socket is ready: a handshake goes on, or what waits for it is sent. */
    method OnReady(eof: bool, readError: bool, writes: seq<seq<WriteResult>>)
      requires Valid()
      modifies this
      ensures Valid() && sent == old(sent) && received == old(received) && old(wire) <= wire
    {
      if dead || connecting {
        return;
      }
      if machine.Some? {
        DriveHandshake(eof, readError, writes);
      } else {
        FlushToUpstream(WritesAt(writes, 0));
        StillAt(start, machine, hs, fed, toApp, false, dead);
      }
    }

    method FromApp(data: bytes)
      requires Valid()
      modifies this`unread, this`sent
      ensures Valid() && sent == old(sent) + data
    {
      Assoc(app, unread, data);
      unread, sent := unread + data, sent + data;
    }

    method FromProxy(data: bytes)
      requires Valid()
      modifies this`arrived, this`received
      ensures Valid() && received == old(received) + data
    {
      Assoc(Concat(fed), arrived, data);
      arrived, received := arrived + data, received + data;
    }

    /** Any event, at any time. Bytes of the app stay unread until the tunnel is open. */
    method Step(e: Event)
      requires Valid()
      modifies this
      ensures Valid() && old(wire) <= wire
      ensures sent == old(sent) + if e.AppSends? then e.data else []
      ensures received == old(received) + if e.ProxySends? then e.data else []
    {
      assert sent + [] == sent && received + [] == received;
      match e
      case Connected(error) => OnConnected(error);
      case AppSends(data) => FromApp(data);
      case ProxySends(data) => FromProxy(data);
      case Ready(eof, readError, writes) => OnReady(eof, readError, writes);
      case ServicePass(results) =>
        if Open() {
          Service(results);
        }
    }

    /** Any run of events. */
    method Run(es: seq<Event>)
      requires Valid()
      modifies this
      ensures Valid() && old(wire) <= wire && sent == old(sent) + AppBytes(es) && received == old(received) + ProxyBytes(es)
    {
      assert sent + [] == sent && received + [] == received;
      for i := 0 to |es|
        invariant Valid() && old(wire) <= wire
        invariant sent == old(sent) + AppBytes(es[..i]) && received == old(received) + ProxyBytes(es[..i])
      {
        Step(es[i]);
        assert es[..i + 1][..i] == es[..i];
        OneMoreEvent(es, i, old(sent), old(received));
      }
      assert es[..|es|] == es;
    }

    /** What the socket has taken are the messages of the handshake machine in order and then a prefix of the app's bytes, each
        once; no app byte is taken before every handshake message. */
    lemma SentInOrder()
      requires Valid() && !spliced
      ensures wire <= hs + app && app <= sent
      ensures start.Some? ==> hs == Concat(Proxy.Steps(start.value, fed).written)
      ensures !dead && (connecting || machine.Some?) ==> wire <= hs && app == []
      ensures Open() ==> wire + (toUpstream + Waiting()) == hs + app
    {
      PrefixOf(app, unread);
      if !dead {
        assert hs + [] == hs;
        if connecting || machine.Some? {
          PrefixOf(wire, hsOut);
        } else {
          PrefixOf(wire, toUpstream + Waiting());
        }
      }
    }
  }

  /** A flow from its start, under any events and whatever the write calls do: what the socket has taken is, unless the flow was
      spliced, a prefix of the messages that the handshake machine writes when it is given what the proxy has sent, in the
      pieces `fed`, followed by the app's bytes; `kept` is what is still to follow. The flow is open only when the machine is
      done, and what the machine hands on is what goes to the app. */
  method RunFlow(start: Option<Proxy.State>, defer: bool, policy: Option<bytes> -> Fate, es: seq<Event>)
    returns (spliced: bool, open: bool, wire: bytes, kept: bytes, toApp: bytes, fed: seq<bytes>)
    ensures Concat(fed) <= ProxyBytes(es)
    ensures var messages := if start.Some? then Concat(Proxy.Steps(start.value, fed).written) else [];
            && (!spliced ==> wire <= messages + AppBytes(es))
            && (!spliced && open ==> wire + kept == messages + AppBytes(es))
            && (open ==> start.None? || Proxy.Steps(start.value, fed).last == Proxy.Done(toApp))
  {
    var flow := new Flow(start, defer, policy);
    assert [] + AppBytes(es) == AppBytes(es) && [] + ProxyBytes(es) == ProxyBytes(es);
    assert flow.Scripted();
    flow.Run(es);
    spliced, open := flow.spliced, flow.Open();
    wire, fed, toApp := flow.wire, flow.fed, flow.toApp;
    var behind := flow.toUpstream + flow.Waiting();
    kept := behind + flow.unread;
    PrefixOf(Concat(flow.fed), flow.arrived);
    if !spliced {
      flow.SentInOrder();
      LongerPrefix(flow.wire, flow.hs, flow.app, flow.sent);
      Assoc(flow.wire, behind, flow.unread);
      Assoc(flow.hs, flow.app, flow.unread);
    }
  }

  lemma LongerPrefix(wire: bytes, hs: bytes, app: bytes, sent: bytes)
    requires wire <= hs + app && app <= sent
    ensures wire <= hs + sent
  {
  }

  lemma OneMoreEvent(es: seq<Event>, i: nat, sent: bytes, received: bytes)
    requires i < |es|
    ensures var x := if es[i].AppSends? then es[i].data else [];
            sent + AppBytes(es[..i]) + x == sent + AppBytes(es[..i + 1])
    ensures var x := if es[i].ProxySends? then es[i].data else [];
            received + ProxyBytes(es[..i]) + x == received + ProxyBytes(es[..i + 1])
  {
    assert es[..i + 1][..i] == es[..i];
    Assoc(sent, AppBytes(es[..i]), if es[i].AppSends? then es[i].data else []);
    Assoc(received, ProxyBytes(es[..i]), if es[i].ProxySends? then es[i].data else []);
  }

  lemma PrefixOf(a: bytes, b: bytes)
    ensures a <= a + b
  {
  }

  /** Reading what has arrived, to be given to the next step. */
  lemma ReadOn(fed: seq<bytes>, input: bytes)
    ensures Concat(fed + [input]) == Concat(fed) + input
  {
    ConcatAppend(fed, [input]);
    assert Concat([input]) == input + Concat([]) == input;
  }

  lemma WrittenMore(written: seq<bytes>, message: bytes)
    ensures Concat(written + [message]) == Concat(written) + message
  {
    ReadOn(written, message);
  }
}
