/** The HTTP/2 server from its bytes: what is proved of frames holds of every input, however it is cut. */
module H2Bytes {
  import opened Bytes
  import opened H2
  import opened H2Server
  import Ends = H2Ends

  /** What the server is given: bytes of the client, or the answer to one of its requests. */
  datatype Input = Received(data: bytes) | Answered(id: nat)

  function Given(s: Server, i: Input, hpack: Hpack): Server {
    match i
    case Received(data) => OnInput(s, data, hpack)
    case Answered(id) => s.(conn := s.conn.(streams := s.conn.streams - {id}))
  }

  /** The server after these inputs. */
  function Server(inputs: seq<Input>, hpack: Hpack): H2.Server {
    if inputs == [] then NewServer else Given(Server(inputs[..|inputs| - 1], hpack), inputs[|inputs| - 1], hpack)
  }

  /** The frames that parsing `buf` handles. */
  function FramesIn(c: Conn, buf: bytes, hpack: Hpack): seq<Frame>
    decreases |buf|
  {
    if c.failed then []
    else
      match NextFrame(buf)
      case Got(f, rest) => [f] + FramesIn(Handle(c, f, hpack), rest, hpack)
      case _ => []
  }

  function Arrivals(fs: seq<Frame>): seq<Event> { seq(|fs|, i requires 0 <= i < |fs| => Arrives(fs[i])) }

  /** The frames that an input handles: those after the preface that have come whole. */
  function FramesOf(s: H2.Server, data: bytes, hpack: Hpack): seq<Frame> {
    if s.conn.failed then []
    else
      var g := Greet(s);
      var buf := g.inbuf + data;
      if g.prefaceSeen then FramesIn(g.conn, buf, hpack)
      else if |buf| >= |PREFACE| && buf[..|PREFACE|] == PREFACE then FramesIn(g.conn, buf[|PREFACE|..], hpack)
      else []
  }

  /** What happens to the connection, told by frames and answers. */
  function EventsOf(inputs: seq<Input>, hpack: Hpack): seq<Event> {
    if inputs == [] then []
    else
      var init, last := inputs[..|inputs| - 1], inputs[|inputs| - 1];
      EventsOf(init, hpack) + match last
                              case Received(data) => Arrivals(FramesOf(Server(init, hpack), data, hpack))
                              case Answered(id) => [Responds(id)]
  }

  function Mute(c: Conn): Conn { c.(out := []) }

  /** Equal but for the output, and for a failure that no frame brought about. */
  ghost predicate Alike(a: Conn, b: Conn) { Mute(a).(failed := b.failed) == Mute(b) && (b.failed ==> a.failed) }

  lemma HandleMute(a: Conn, b: Conn, f: Frame, hpack: Hpack)
    requires Mute(a) == Mute(b)
    ensures Mute(Handle(a, f, hpack)) == Mute(Handle(b, f, hpack))
  {
    var base := Mute(a);
    FromMute(a);
    FromMute(b);
    HandlePast(base, f, hpack, a.out, []);
    HandlePast(base, f, hpack, b.out, []);
    assert [] + Handle(base, f, hpack).ready == Handle(base, f, hpack).ready;
  }

  lemma FromMute(a: Conn)
    ensures Past(Mute(a), a.out, []) == a
  {
    assert a.out + [] == a.out && [] + a.ready == a.ready;
  }

  lemma OneMore(evs: seq<Event>, e: Event, hpack: Hpack)
    ensures Run(evs + [e], hpack) == Apply(Run(evs, hpack), e, hpack)
  {
    assert (evs + [e])[..|evs|] == evs;
  }

  lemma {:induction false} ParseAlike(c: Conn, evs: seq<Event>, buf: bytes, hpack: Hpack)
    requires Mute(c) == Mute(Run(evs, hpack))
    ensures Alike(ParseFrames(c, buf, hpack).conn, Run(evs + Arrivals(FramesIn(c, buf, hpack)), hpack))
    decreases |buf|
  {
    if !c.failed && NextFrame(buf).Got? {
      var f, rest := NextFrame(buf).frame, NextFrame(buf).rest;
      OneMore(evs, Arrives(f), hpack);
      HandleMute(c, Run(evs, hpack), f, hpack);
      ParseAlike(Handle(c, f, hpack), evs + [Arrives(f)], rest, hpack);
      var fs := FramesIn(Handle(c, f, hpack), rest, hpack);
      assert evs + [Arrives(f)] + Arrivals(fs) == evs + Arrivals([f] + fs);
    } else {
      assert evs + Arrivals([]) == evs;
    }
  }

  lemma GreetMute(s: H2.Server)
    ensures Mute(Greet(s).conn) == Mute(s.conn)
  {
  }

  lemma InputAlike(s: H2.Server, evs: seq<Event>, data: bytes, hpack: Hpack)
    requires Alike(s.conn, Run(evs, hpack))
    ensures Alike(OnInput(s, data, hpack).conn, Run(evs + Arrivals(FramesOf(s, data, hpack)), hpack))
  {
    assert evs + Arrivals([]) == evs;
    if !s.conn.failed {
      GreetMute(s);
      var g := Greet(s);
      var buf := g.inbuf + data;
      if g.prefaceSeen {
        ParseAlike(g.conn, evs, buf, hpack);
      } else if |buf| >= |PREFACE| && buf[..|PREFACE|] == PREFACE {
        ParseAlike(g.conn, evs, buf[|PREFACE|..], hpack);
      }
    }
  }

  /** Whatever bytes come, in whatever pieces, and whatever is answered in between: the server stands where the frames it was
      sent lead, but for its output, and but for a failure of the preface or of the size of a frame. */
  lemma {:induction false} BytesAreFrames(inputs: seq<Input>, hpack: Hpack)
    ensures Alike(Server(inputs, hpack).conn, Run(EventsOf(inputs, hpack), hpack))
    decreases |inputs|
  {
    if inputs != [] {
      var init, last := inputs[..|inputs| - 1], inputs[|inputs| - 1];
      BytesAreFrames(init, hpack);
      match last
      case Received(data) => InputAlike(Server(init, hpack), EventsOf(init, hpack), data, hpack);
      case Answered(id) => OneMore(EventsOf(init, hpack), Responds(id), hpack);
    }
  }

  /** The requests that the server surfaces from its bytes carry exactly the data of their own streams, each once; each surfaces at
      the end of its stream, saying what its header block said; and while the connection has not failed none is withheld. */
  lemma RequestsFromBytes(inputs: seq<Input>, hpack: Hpack)
    ensures var c, evs := Server(inputs, hpack).conn, EventsOf(inputs, hpack);
            var ms := Moments(evs, hpack);
            && Faithful(c, evs, ms) && Ends.Punctual(c, evs, ms, hpack)
            && (!c.failed ==> Ends.NoneWithheld(c, evs, ms))
  {
    BytesAreFrames(inputs, hpack);
    RequestsCarryTheirData(EventsOf(inputs, hpack), hpack);
    Ends.RequestsSurfaceAtTheEnd(EventsOf(inputs, hpack), hpack);
    WithheldAlike(Run(EventsOf(inputs, hpack), hpack), Server(inputs, hpack).conn, EventsOf(inputs, hpack), hpack);
  }

  lemma WithheldAlike(c: Conn, d: Conn, evs: seq<Event>, hpack: Hpack)
    requires d.ready == c.ready && |Moments(evs, hpack)| == |c.ready|
    requires Ends.Punctual(c, evs, Moments(evs, hpack), hpack)
    ensures Ends.Punctual(d, evs, Moments(evs, hpack), hpack)
    ensures Ends.NoneWithheld(c, evs, Moments(evs, hpack)) ==> Ends.NoneWithheld(d, evs, Moments(evs, hpack))
  {
    var ms := Moments(evs, hpack);
    if Ends.NoneWithheld(c, evs, ms) {
      forall id | Ends.Ready(Ends.ToldOf(evs, id)) ensures Ends.HasSurfaced(d, evs, ms, id) {
        assert Ends.HasSurfaced(c, evs, ms, id);
      }
    }
  }

  // --- what the server answers at once ---------------------------------------

  /** The frames that the server owes: an acknowledgement of each SETTINGS, and each PING of eight octets back. */
  function Owed(evs: seq<Event>): seq<Frame> {
    if evs == [] then []
    else
      Owed(evs[..|evs| - 1]) + match evs[|evs| - 1]
                               case Responds(_) => []
                               case Arrives(f) => OwedFor(f)
  }

  function OwedFor(f: Frame): seq<Frame> {
    if f.flags % 2 == 1 then []
    else if f.ty == 4 then [Frame(4, 1, 0, [])]
    else if f.ty == 6 && |f.payload| == 8 then [Frame(6, 1, 0, f.payload)]
    else []
  }

  /** What it sends first of all: its own SETTINGS, and a window for the whole connection. */
  const Greeting: seq<Frame> := [Frame(4, 0, 0, []), Frame(8, 0, 0, [0x7f, 0xff, 0, 0])]

  lemma HandleOwes(c: Conn, f: Frame, hpack: Hpack)
    requires !c.failed && !Handle(c, f, hpack).failed
    ensures Handle(c, f, hpack).out == c.out + WriteAll(OwedFor(f))
  {
    WriteOne(Frame(4, 1, 0, []));
    WriteOne(Frame(6, 1, 0, f.payload));
    assert c.out + [] == c.out;
  }

  lemma {:induction false} OwedMore(a: seq<Event>, b: seq<Event>)
    ensures Owed(a + b) == Owed(a) + Owed(b)
    decreases |b|
  {
    if b == [] {
      assert a + b == a && Owed(a) + [] == Owed(a);
    } else {
      var init, last := b[..|b| - 1], b[|b| - 1];
      assert (a + b)[..|a + b| - 1] == a + init && (a + b)[|a + b| - 1] == last;
      OwedMore(a, init);
      Assoc(Owed(a), Owed(init), if last.Arrives? then OwedFor(last.frame) else []);
    }
  }

  lemma OwedOne(f: Frame)
    ensures Owed([Arrives(f)]) == OwedFor(f)
  {
    var evs := [Arrives(f)];
    assert evs[..|evs| - 1] == [] && Owed([]) == [];
  }

  lemma {:induction false} ParseOwes(c: Conn, buf: bytes, hpack: Hpack)
    requires !ParseFrames(c, buf, hpack).conn.failed
    ensures ParseFrames(c, buf, hpack).conn.out == c.out + WriteAll(Owed(Arrivals(FramesIn(c, buf, hpack))))
    decreases |buf|
  {
    if NextFrame(buf).Got? {
      var f, rest := NextFrame(buf).frame, NextFrame(buf).rest;
      var d := Handle(c, f, hpack);
      var fs := FramesIn(d, rest, hpack);
      ParseOwes(d, rest, hpack);
      HandleOwes(c, f, hpack);
      assert Arrivals([f] + fs) == [Arrives(f)] + Arrivals(fs);
      OwedMore([Arrives(f)], Arrivals(fs));
      OwedOne(f);
      WriteAllMore(OwedFor(f), Owed(Arrivals(fs)));
      Assoc(c.out, WriteAll(OwedFor(f)), WriteAll(Owed(Arrivals(fs))));
    } else {
      assert c.out + [] == c.out;
    }
  }

  predicate AnyReceived(inputs: seq<Input>) { exists i :: 0 <= i < |inputs| && inputs[i].Received? }

  function Sent(greeted: bool, evs: seq<Event>): seq<Frame> { (if greeted then Greeting else []) + Owed(evs) }

  lemma GreetingSent(s: H2.Server)
    ensures Greet(s).settingsSent && Greet(s).conn.out == s.conn.out + if s.settingsSent then [] else WriteAll(Greeting)
    ensures Greet(s).conn.failed == s.conn.failed
  {
    var a, b := Frame(4, 0, 0, []), Frame(8, 0, 0, [0x7f, 0xff, 0, 0]);
    assert Greeting == [a] + [b];
    WriteAllMore([a], [b]);
    WriteOne(a);
    WriteOne(b);
    Assoc(s.conn.out, FrameBytes(a), FrameBytes(b));
    assert s.conn.out + [] == s.conn.out;
  }

  lemma InputSends(s: H2.Server, data: bytes, hpack: Hpack)
    requires !OnInput(s, data, hpack).conn.failed
    ensures var t := OnInput(s, data, hpack);
            && !s.conn.failed && t.settingsSent
            && t.conn.out == s.conn.out + (if s.settingsSent then [] else WriteAll(Greeting))
                             + WriteAll(Owed(Arrivals(FramesOf(s, data, hpack))))
  {
    GreetingSent(s);
    var g := Greet(s);
    var buf := g.inbuf + data;
    ReceiveKeepsGreeting(g.(inbuf := buf), hpack);
    if g.prefaceSeen {
      ParseOwes(g.conn, buf, hpack);
    } else if |buf| >= |PREFACE| {
      ParseOwes(g.conn, buf[|PREFACE|..], hpack);
    } else {
      assert g.conn.out + [] == g.conn.out;
    }
  }

  /** More is owed to a client that has been greeted, or it is greeted first. */
  lemma SentMore(greeted: bool, evs: seq<Event>, more: seq<Event>)
    requires !greeted ==> Owed(evs) == []
    ensures WriteAll(Sent(greeted, evs)) + (if greeted then [] else WriteAll(Greeting)) + WriteAll(Owed(more))
            == WriteAll(Sent(true, evs + more))
  {
    OwedMore(evs, more);
    WriteAllMore(Greeting + Owed(evs), Owed(more));
    Assoc(Greeting, Owed(evs), Owed(more));
    assert Greeting + [] == Greeting;
    WithNothing(WriteAll(Greeting + Owed(evs)));
    WithNothing(WriteAll(Greeting));
  }

  lemma WithNothing(s: bytes)
    ensures s + [] == s && [] + s == s
  {
  }

  lemma {:induction false} NothingOwed(inputs: seq<Input>, hpack: Hpack)
    requires !AnyReceived(inputs)
    ensures Owed(EventsOf(inputs, hpack)) == []
    decreases |inputs|
  {
    if inputs != [] {
      var init, last := inputs[..|inputs| - 1], inputs[|inputs| - 1];
      assert forall i :: 0 <= i < |init| ==> init[i] == inputs[i];
      NothingOwed(init, hpack);
      OwedMore(EventsOf(init, hpack), [Responds(last.id)]);
      AnswerOwesNothing(last.id);
    }
  }

  lemma AnswerOwesNothing(id: nat)
    ensures Owed([Responds(id)]) == []
  {
    var evs := [Responds(id)];
    assert evs[..|evs| - 1] == [] && Owed([]) == [];
  }

  lemma AnyReceivedLast(inputs: seq<Input>)
    requires inputs != []
    ensures AnyReceived(inputs) <==> AnyReceived(inputs[..|inputs| - 1]) || inputs[|inputs| - 1].Received?
  {
    var init := inputs[..|inputs| - 1];
    if AnyReceived(init) {
      var i :| 0 <= i < |init| && init[i].Received?;
      assert inputs[i].Received?;
    }
    if AnyReceived(inputs) && !inputs[|inputs| - 1].Received? {
      var i :| 0 <= i < |inputs| && inputs[i].Received?;
      assert init[i].Received?;
    }
  }

  /** Until the connection fails: what the server has sent by itself is its greeting and then what it owes, in order, each once. */
  lemma {:induction false} ServerSends(inputs: seq<Input>, hpack: Hpack)
    requires !Server(inputs, hpack).conn.failed
    ensures var s := Server(inputs, hpack);
            s.settingsSent == AnyReceived(inputs) && s.conn.out == WriteAll(Sent(AnyReceived(inputs), EventsOf(inputs, hpack)))
    decreases |inputs|
  {
    if inputs != [] {
      var init, last := inputs[..|inputs| - 1], inputs[|inputs| - 1];
      AnyReceivedLast(inputs);
      match last
      case Received(data) =>
        InputSends(Server(init, hpack), data, hpack);
        ServerSends(init, hpack);
        if !AnyReceived(init) {
          NothingOwed(init, hpack);
        }
        SentMore(AnyReceived(init), EventsOf(init, hpack), Arrivals(FramesOf(Server(init, hpack), data, hpack)));
      case Answered(id) =>
        ServerSends(init, hpack);
        AnswerOwesNothing(id);
        OwedMore(EventsOf(init, hpack), [Responds(id)]);
        assert Owed(EventsOf(init, hpack)) + [] == Owed(EventsOf(init, hpack));
    }
  }

  /** The frames themselves do not depend on how the bytes were cut. */
  lemma {:induction false} FramesInSplit(c: Conn, x: bytes, y: bytes, hpack: Hpack)
    ensures var p := ParseFrames(c, x, hpack);
            FramesIn(c, x + y, hpack) == FramesIn(c, x, hpack) + FramesIn(p.conn, p.rest + y, hpack)
    decreases |x|
  {
    NextStable(x, y);
    if !c.failed && NextFrame(x).Got? {
      FramesInSplit(Handle(c, NextFrame(x).frame, hpack), NextFrame(x).rest, y, hpack);
    }
  }
}
