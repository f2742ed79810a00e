/** What the rewriter does with the bytes of both directions when it edits no response: nothing is lost, added or
    moved, except when the request side gives up, or the connection closes, while response bytes are held back. */
module Conservation {
  import opened Bytes
  import opened Chunked
  import opened HttpHead
  import opened Anchor
  import opened HeadReparse
  import opened Rewriter
  import opened Reframing
  import HeadEdit

  datatype Machine = Machine(req: Req, resp: Resp)

  /** Bytes of either side, or the end of the connection. */
  datatype Event = Request(data: bytes) | Response(data: bytes) | Closed

  /** The machine after some events, and what it sent each way. */
  datatype Reply = Reply(m: Machine, toServer: bytes, toApp: bytes)

  const Initial := Machine(Req(ReqState.ReqHead, []), Resp(Head, [], [], false))

  function FeedRequest(m: Machine, data: bytes): Reply {
    if m.resp.disabled then Reply(m.(req := m.req.(buf := [])), m.req.buf + data, [])
    else
      var d := DriveRequest(m.req.(buf := m.req.buf + data));
      Reply(Machine(d.req, m.resp.(pendingHead := m.resp.pendingHead + d.pushed, disabled := d.disables)), d.out, [])
  }

  function React(m: Machine, ev: Event, blob: bytes): Reply {
    match ev
    case Request(data) => FeedRequest(m, data)
    case Response(data) =>
      var d := FeedResponse(m.resp, data, true, blob);
      Reply(m.(resp := d.resp), [], d.out)
    case Closed => Reply(m, [], [])
  }

  function Run(m: Machine, evs: seq<Event>, blob: bytes): Reply
    decreases |evs|
  {
    if evs == [] then Reply(m, [], [])
    else
      var a := React(m, evs[0], blob);
      var b := Run(a.m, evs[1..], blob);
      Reply(b.m, a.toServer + b.toServer, a.toApp + b.toApp)
  }

  function FedBy(ev: Event): bytes { if ev.Response? then ev.data else [] }

  /** Everything that came from the server. */
  function Fed(evs: seq<Event>): bytes {
    if evs == [] then [] else FedBy(evs[0]) + Fed(evs[1..])
  }

  // --- which steps edit ------------------------------------------------------

  /** The next step emits other bytes than it took: it injects, or writes chunks of its own. */
  predicate Edits(r: Resp) {
    match r.state
    case Buffer(bs) =>
      var p := Pull(bs, r.buf);
      p.failed || (var v := Decide(p.bs.scan, p.bs.done); v.Inject? || (v.Leave? && bs.body.Chunks?))
    case Stream(kind) => kind.Chunks?
    case _ => false
  }

  predicate DriveEdits(r: Resp, blob: bytes)
    decreases |r.buf|, Rank(r.state)
  {
    var s := StepResponse(r, blob);
    Edits(r) || (s.more && (StepProgress(r, blob); DriveEdits(s.resp, blob)))
  }

  predicate EventEdits(m: Machine, ev: Event, blob: bytes) {
    ev.Response? && !m.resp.disabled && DriveEdits(m.resp.(buf := m.resp.buf + ev.data), blob)
  }

  /** The request side gives up while response bytes are held back. */
  predicate EventDrops(m: Machine, ev: Event, blob: bytes) {
    ev.Request? && !m.resp.disabled && m.resp.state.Buffer? && React(m, ev, blob).m.resp.disabled
  }

  predicate Untouched(m: Machine, evs: seq<Event>, blob: bytes)
    decreases |evs|
  {
    evs == [] || (!EventEdits(m, evs[0], blob) && !EventDrops(m, evs[0], blob)
                  && Untouched(React(m, evs[0], blob).m, evs[1..], blob))
  }

  // --- the ledger ------------------------------------------------------------

  /** `held` is the wire form of what the machine has taken and not emitted. */
  ghost predicate Holds(r: Resp, held: bytes) {
    if !r.disabled && r.state.Buffer? then
      var bs := r.state.bs;
      bs.origHead != [] && bs.origHead <= held && (!bs.body.Chunks? ==> held == bs.origHead + bs.scan)
    else held == []
  }

  lemma OutcomeSuffix(c: Decoder, used: nat, data: bytes, buf: bytes)
    requires used <= |buf|
    requires c == AtLf && buf != [] ==> buf[|buf| - 1] == CR
    ensures var rest := Outcome(c, used, data, buf).rest; |rest| <= |buf| && rest == buf[|buf| - |rest|..]
  {
  }

  lemma DecodeSuffix(reader: ChunkState, buf: bytes)
    ensures var rest := Decode(reader, buf).rest; |rest| <= |buf| && rest == buf[|buf| - |rest|..]
  {
    var c := Feed(Start(reader), buf);
    if c == AtLf {
      ComesAfterCr(Start(reader), buf);
    }
    OutcomeSuffix(c, Used(Start(reader), buf), Body(Start(reader), buf), buf);
  }

  lemma HeadLedger(r: Resp) returns (held: bytes)
    requires r.state.Head? && !r.disabled
    ensures var s := StepHead(r); s.out + held + s.resp.buf == r.buf && Holds(s.resp, held)
  {
    held := [];
    var pos := FindHeaderEnd(r.buf);
    if pos.Some? {
      var rawHead, rest := r.buf[..pos.value], r.buf[pos.value..];
      assert rawHead + rest == r.buf;
      if ReadHead(rawHead).Some? {
        held := RouteLedger(r, rawHead, rest, ReadHead(rawHead).value);
      }
    }
  }

  lemma RouteLedger(r: Resp, rawHead: bytes, rest: bytes, h: RespHead) returns (held: bytes)
    requires !r.disabled && rawHead != []
    ensures var s := RouteHead(r, rawHead, rest, h); s.out + held + s.resp.buf == rawHead + rest && Holds(s.resp, held)
  {
    var s := RouteHead(r, rawHead, rest, h);
    held := if s.resp.state.Buffer? then rawHead else [];
    RouteEmits(r, rawHead, rest, h);
    if s.resp.state.Buffer? {
      assert rawHead + s.resp.state.bs.scan == rawHead;
      assert s.out + rawHead == rawHead;
    } else {
      assert s.out + held == s.out;
    }
  }

  lemma RouteEmits(r: Resp, rawHead: bytes, rest: bytes, h: RespHead)
    requires !r.disabled
    ensures var s := RouteHead(r, rawHead, rest, h);
            if s.resp.state.Buffer? then
              s.out == [] && s.resp.buf == rest && !s.resp.disabled
              && s.resp.state.bs.origHead == rawHead && s.resp.state.bs.scan == []
            else (s.out == rawHead && s.resp.buf == rest) || (s.out == rawHead + rest && s.resp.buf == [])
  {
  }

  lemma PassLedger(r: Resp, kind: BodyKind)
    ensures var s := StepPass(r, kind); s.out + s.resp.buf == r.buf && !s.resp.state.Buffer?
  {
    match kind
    case Sized(_) =>
    case Close =>
    case Chunks(reader) =>
      DecodeSuffix(reader, r.buf);
      PassDecodedLedger(r, Decode(reader, r.buf));
  }

  lemma PassDecodedLedger(r: Resp, d: Decoded)
    requires |d.rest| <= |r.buf| && d.rest == r.buf[|r.buf| - |d.rest|..]
    ensures var s := PassDecoded(r, d); s.out + s.resp.buf == r.buf && !s.resp.state.Buffer?
  {
    assert r.buf[..|r.buf| - |d.rest|] + d.rest == r.buf;
  }

  lemma StreamLedger(r: Resp, kind: BodyKind)
    requires !kind.Chunks?
    ensures var s := StepStream(r, kind); s.out + s.resp.buf == r.buf && !s.resp.state.Buffer?
  {
  }

  /** Bytes pulled into a scan join what is held. */
  lemma PullLedger(bs: BodyScan, buf: bytes, held: bytes) returns (held': bytes)
    requires bs.origHead != [] && bs.origHead <= held && (!bs.body.Chunks? ==> held == bs.origHead + bs.scan)
    ensures var p := Pull(bs, buf);
            && p.bs.origHead == bs.origHead && p.bs.body.Chunks? == bs.body.Chunks?
            && held' + p.rest == held + buf
            && bs.origHead <= held' && (!bs.body.Chunks? ==> held' == bs.origHead + p.bs.scan)
  {
    var rest := Pull(bs, buf).rest;
    if bs.body.Chunks? {
      DecodeSuffix(bs.body.reader, buf);
    }
    var taken := buf[..|buf| - |rest|];
    held' := held + taken;
    Assoc(held, taken, rest);
    Assoc(bs.origHead, bs.scan, taken);
  }

  lemma BufferLedger(r: Resp, held: bytes, blob: bytes) returns (held': bytes)
    requires r.state.Buffer? && !r.disabled && Holds(r, held) && !Edits(r)
    ensures var s := StepBuffer(r, r.state.bs, blob); s.out + held' + s.resp.buf == held + r.buf && Holds(s.resp, held')
  {
    var p := Pull(r.state.bs, r.buf);
    var kept := PullLedger(r.state.bs, r.buf, held);
    held' := if Decide(p.bs.scan, p.bs.done).Wait? then kept else [];
    assert kept + [] == kept;
  }

  lemma StepLedger(r: Resp, held: bytes, blob: bytes) returns (held': bytes)
    requires !r.disabled && Holds(r, held) && !Edits(r)
    ensures var s := StepResponse(r, blob); s.out + held' + s.resp.buf == held + r.buf && Holds(s.resp, held')
  {
    assert [] + r.buf == r.buf;
    match r.state
    case Head => held' := HeadLedger(r);
    case Buffer(_) => held' := BufferLedger(r, held, blob);
    case Stream(kind) =>
      StreamLedger(r, kind);
      held' := [];
      assert StepStream(r, kind).out + [] == StepStream(r, kind).out;
    case Pass(kind) =>
      PassLedger(r, kind);
      held' := [];
      assert StepPass(r, kind).out + [] == StepPass(r, kind).out;
  }

  lemma EnabledGoesOn(r: Resp, blob: bytes)
    requires !r.disabled && StepResponse(r, blob).more
    ensures !StepResponse(r, blob).resp.disabled
  {
  }

  lemma {:induction false} DriveLedger(r: Resp, held: bytes, blob: bytes) returns (held': bytes)
    requires !r.disabled && Holds(r, held) && !DriveEdits(r, blob)
    ensures var d := Drive(r, blob); d.out + held' + d.resp.buf == held + r.buf && Holds(d.resp, held')
    decreases |r.buf|, Rank(r.state)
  {
    var s := StepResponse(r, blob);
    held' := StepLedger(r, held, blob);
    if s.more {
      StepProgress(r, blob);
      EnabledGoesOn(r, blob);
      var between := held';
      held' := DriveLedger(s.resp, between, blob);
      var d := Drive(s.resp, blob);
      Joined(s.out, d.out, held', d.resp.buf, between, s.resp.buf);
    }
  }

  lemma Joined(a: bytes, b: bytes, held: bytes, buf: bytes, was: bytes, wasBuf: bytes)
    requires b + held + buf == was + wasBuf
    ensures a + b + held + buf == a + was + wasBuf
  {
    assert a + b + held + buf == a + (b + held + buf);
    assert a + was + wasBuf == a + (was + wasBuf);
  }

  lemma EventLedger(m: Machine, held: bytes, ev: Event, blob: bytes) returns (held': bytes)
    requires Holds(m.resp, held) && !EventEdits(m, ev, blob) && !EventDrops(m, ev, blob)
    ensures var a := React(m, ev, blob);
            a.toApp + held' + a.m.resp.buf == held + m.resp.buf + FedBy(ev) && Holds(a.m.resp, held')
  {
    held' := held;
    if ev.Response? && !m.resp.disabled {
      held' := DriveLedger(m.resp.(buf := m.resp.buf + ev.data), held, blob);
      Assoc(held, m.resp.buf, ev.data);
    } else if ev.Response? {
      assert [] + m.resp.buf == m.resp.buf;
      assert m.resp.buf + ev.data + [] + [] == m.resp.buf + ev.data;
    } else {
      assert [] + held + m.resp.buf == held + m.resp.buf + [];
    }
  }

  lemma {:induction false} RunLedger(m: Machine, held: bytes, evs: seq<Event>, blob: bytes) returns (held': bytes)
    requires Holds(m.resp, held) && Untouched(m, evs, blob)
    ensures var b := Run(m, evs, blob);
            b.toApp + held' + b.m.resp.buf == held + m.resp.buf + Fed(evs) && Holds(b.m.resp, held')
    decreases |evs|
  {
    if evs == [] {
      held' := held;
      assert [] + held + m.resp.buf == held + m.resp.buf + [];
    } else {
      var a := React(m, evs[0], blob);
      var between := EventLedger(m, held, evs[0], blob);
      held' := RunLedger(a.m, between, evs[1..], blob);
      var b := Run(a.m, evs[1..], blob);
      Joined(a.toApp, b.toApp, held', b.m.resp.buf, between + a.m.resp.buf, Fed(evs[1..]));
      Assoc(a.toApp, between, a.m.resp.buf);
      Assoc(held + m.resp.buf, FedBy(evs[0]), Fed(evs[1..]));
    }
  }

  /** At every point of a run that edits no response, for every segmentation and whatever the requests do in
      between: what was emitted, what is held back and what is buffered are together exactly what came in. */
  lemma NothingLost(evs: seq<Event>, blob: bytes) returns (held: bytes)
    requires Untouched(Initial, evs, blob)
    ensures var b := Run(Initial, evs, blob);
            && b.toApp + held + b.m.resp.buf == Fed(evs)
            && (held != [] <==> !b.m.resp.disabled && b.m.resp.state.Buffer?)
  {
    held := RunLedger(Initial, [], evs, blob);
    assert [] + [] + Fed(evs) == Fed(evs);
  }

  // --- the close -------------------------------------------------------------

  lemma {:induction false} RunClosed(m: Machine, evs: seq<Event>, blob: bytes)
    ensures Run(m, evs + [Closed], blob) == Run(m, evs, blob)
    decreases |evs|
  {
    if evs == [] {
      assert [] + [Closed] == [Closed] && [Closed][1..] == [];
    } else {
      assert (evs + [Closed])[0] == evs[0] && (evs + [Closed])[1..] == evs[1..] + [Closed];
      RunClosed(React(m, evs[0], blob).m, evs[1..], blob);
    }
  }

  /** The close flushes nothing: when it comes after a run that edited nothing, the app has every byte of the server if and
      only if no response was being held for its anchor and no byte was left in the buffer. */
  lemma KeptAtClose(evs: seq<Event>, blob: bytes)
    requires Untouched(Initial, evs, blob)
    ensures var b := Run(Initial, evs + [Closed], blob);
            b.toApp == Fed(evs) <==> (b.m.resp.disabled || !b.m.resp.state.Buffer?) && b.m.resp.buf == []
  {
    RunClosed(Initial, evs, blob);
    var held := NothingLost(evs, blob);
    var b := Run(Initial, evs, blob);
    assert |b.toApp + held + b.m.resp.buf| == |b.toApp| + |held| + |b.m.resp.buf|;
    assert held == [] && b.m.resp.buf == [] ==> b.toApp + held + b.m.resp.buf == b.toApp;
  }

  /** A held response really is lost at the close: a whole head of an HTML document that runs until the close, closed with no
      request in between. */
  lemma HeldHeadIsLostAtClose(head: bytes, h: RespHead, blob: bytes)
    requires FindHeaderEnd(head) == Some(|head|) && ReadHead(head) == Some(h)
    requires ResponseFraming(h.status, false, h.headers) == Some(UntilClose) && Injectable(h.status, h.headers)
    ensures var evs := [Response(head)];
            && Untouched(Initial, evs, blob) && Fed(evs) == head && head != []
            && Run(Initial, evs + [Closed], blob).toApp == []
  {
    var evs := [Response(head)];
    var r := Initial.resp.(buf := head);
    assert Initial.resp.buf + head == head;
    HeldAfterHead(r, h, blob);
    assert evs[1..] == [] && head + [] == head;
    RunClosed(Initial, evs, blob);
    var a := React(Initial, evs[0], blob);
    assert Run(a.m, [], blob) == Reply(a.m, [], []);
    assert a.toApp + [] == [];
  }

  // --- runs without an injectable response -----------------------------------

  /** The next thing the machine does is to route the head of a response that may be injected into. */
  predicate RoutesInjectable(r: Resp) {
    && r.state.Head?
    && match FindHeaderEnd(r.buf)
       case None => false
       case Some(end) =>
         match ReadHead(r.buf[..end])
         case None => false
         case Some(h) => ResponseFraming(h.status, FirstOr(r.pendingHead), h.headers).Some? && Injectable(h.status, h.headers)
  }

  predicate DriveMeetsInjectable(r: Resp, blob: bytes)
    decreases |r.buf|, Rank(r.state)
  {
    var s := StepResponse(r, blob);
    RoutesInjectable(r) || (s.more && (StepProgress(r, blob); DriveMeetsInjectable(s.resp, blob)))
  }

  predicate NoneInjectable(m: Machine, evs: seq<Event>, blob: bytes)
    decreases |evs|
  {
    evs == []
    || (!(evs[0].Response? && !m.resp.disabled && DriveMeetsInjectable(m.resp.(buf := m.resp.buf + evs[0].data), blob))
        && NoneInjectable(React(m, evs[0], blob).m, evs[1..], blob))
  }

  predicate Plain(s: RespState) { s.Head? || s.Pass? }

  lemma PlainStep(r: Resp, blob: bytes)
    requires Plain(r.state) && !RoutesInjectable(r)
    ensures Plain(StepResponse(r, blob).resp.state) && !Edits(r)
  {
    match r.state
    case Head =>
    case Pass(kind) => PlainPass(r, kind);
  }

  lemma PlainPass(r: Resp, kind: BodyKind)
    ensures Plain(StepPass(r, kind).resp.state)
  {
    if kind.Chunks? {
      PlainDecoded(r, Decode(kind.reader, r.buf));
    }
  }

  lemma PlainDecoded(r: Resp, d: Decoded)
    ensures Plain(PassDecoded(r, d).resp.state)
  {
  }

  lemma {:induction false} PlainDrive(r: Resp, blob: bytes)
    requires Plain(r.state) && !DriveMeetsInjectable(r, blob)
    ensures !DriveEdits(r, blob) && Plain(Drive(r, blob).resp.state)
    decreases |r.buf|, Rank(r.state)
  {
    PlainStep(r, blob);
    if StepResponse(r, blob).more {
      StepProgress(r, blob);
      PlainDrive(StepResponse(r, blob).resp, blob);
    }
  }

  lemma {:induction false} PlainRun(m: Machine, evs: seq<Event>, blob: bytes)
    requires Plain(m.resp.state) && NoneInjectable(m, evs, blob)
    ensures Untouched(m, evs, blob) && Plain(Run(m, evs, blob).m.resp.state)
    decreases |evs|
  {
    if evs != [] {
      if evs[0].Response? && !m.resp.disabled {
        PlainDrive(m.resp.(buf := m.resp.buf + evs[0].data), blob);
      }
      PlainRun(React(m, evs[0], blob).m, evs[1..], blob);
    }
  }

  /** While no response is injectable (HEAD, 1xx, 101, 204, 304, other media, malformed heads and chunks alike), the
      bytes emitted and the bytes still buffered are the bytes fed, whatever the cuts and the requests. */
  lemma IdentityWithoutInjectable(evs: seq<Event>, blob: bytes)
    requires NoneInjectable(Initial, evs, blob)
    ensures var b := Run(Initial, evs, blob); b.toApp + b.m.resp.buf == Fed(evs)
  {
    PlainRun(Initial, evs, blob);
    var held := NothingLost(evs, blob);
    var b := Run(Initial, evs, blob);
    assert b.toApp + [] == b.toApp;
  }

  // --- giving up -------------------------------------------------------------

  lemma {:induction false} GivenUp(m: Machine, evs: seq<Event>, blob: bytes)
    requires m.resp.disabled
    ensures var b := Run(m, evs, blob); b.m.resp.disabled && b.toApp + b.m.resp.buf == m.resp.buf + Fed(evs)
    decreases |evs|
  {
    if evs == [] {
      assert [] + m.resp.buf == m.resp.buf + [];
    } else {
      var a := React(m, evs[0], blob);
      GivenUp(a.m, evs[1..], blob);
      var b := Run(a.m, evs[1..], blob);
      Assoc(a.toApp, b.toApp, b.m.resp.buf);
      Assoc(a.toApp, a.m.resp.buf, Fed(evs[1..]));
      if evs[0].Response? {
        assert a.toApp + [] == m.resp.buf + evs[0].data;
        Assoc(m.resp.buf, evs[0].data, Fed(evs[1..]));
      } else {
        assert [] + m.resp.buf == m.resp.buf && [] + Fed(evs[1..]) == Fed(evs[1..]);
      }
    }
  }

  /** When the request side gives up in the middle of a run that edited nothing, the app still gets every byte of
      the server, now and whatever comes later, if and only if no response was being held for its anchor. */
  lemma KeptUnlessHeld(evs: seq<Event>, give: bytes, later: seq<Event>, blob: bytes)
    requires Untouched(Initial, evs, blob)
    requires var m := Run(Initial, evs, blob).m; !m.resp.disabled && FeedRequest(m, give).m.resp.disabled
    ensures var b := Run(Initial, evs, blob);
            var c := Run(FeedRequest(b.m, give).m, later, blob);
            b.toApp + c.toApp + c.m.resp.buf == Fed(evs) + Fed(later) <==> !b.m.resp.state.Buffer?
  {
    var b := Run(Initial, evs, blob);
    var held := NothingLost(evs, blob);
    var m := FeedRequest(b.m, give).m;
    GivenUp(m, later, blob);
    var c := Run(m, later, blob);
    assert b.toApp + c.toApp + c.m.resp.buf == b.toApp + b.m.resp.buf + Fed(later) by {
      Assoc(b.toApp, c.toApp, c.m.resp.buf);
      Assoc(b.toApp, b.m.resp.buf, Fed(later));
    }
    assert held == [] ==> b.toApp + held == b.toApp;
  }

  /** A held response really is lost: any whole head of an HTML document delimited by the close of the connection is
      held for its body; a request that is no request makes the rewriter give up, and what comes next goes out alone. */
  lemma HeldHeadIsLost(head: bytes, h: RespHead, next: bytes, blob: bytes)
    requires FindHeaderEnd(head) == Some(|head|) && ReadHead(head) == Some(h)
    requires ResponseFraming(h.status, false, h.headers) == Some(UntilClose) && Injectable(h.status, h.headers)
    ensures var m := React(Initial, Response(head), blob);
            var n := FeedRequest(m.m, CRLFCRLF);
            && !EventEdits(Initial, Response(head), blob) && m.toApp == []
            && n.m.resp.disabled && !m.m.resp.disabled && m.m.resp.state.Buffer?
            && React(n.m, Response(next), blob).toApp == next
  {
    var r := Initial.resp.(buf := head);
    assert Initial.resp.buf + head == head;
    HeldAfterHead(r, h, blob);
    var m := React(Initial, Response(head), blob).m;
    GivesUp(m);
    assert m.resp.buf + next == next;
  }

  lemma GivesUp(m: Machine)
    requires m.req == Req(ReqState.ReqHead, []) && !m.resp.disabled
    ensures FeedRequest(m, CRLFCRLF).m.resp == m.resp.(disabled := true)
  {
    assert m.req.buf + CRLFCRLF == CRLFCRLF;
    assert CRLFCRLF[0..4] == CRLFCRLF;
    FindUnique(CRLFCRLF, CRLFCRLF, 0);
    assert CRLFCRLF[..4] == CRLFCRLF && HeadEdit.WithoutEnd(CRLFCRLF) == [];
    assert Split([], LF) == [[]];
    assert ReadRequestHead(CRLFCRLF).None?;
    assert m.resp.pendingHead + [] == m.resp.pendingHead;
  }

  lemma HeldAfterHead(r: Resp, h: RespHead, blob: bytes)
    requires r.state.Head? && !r.disabled && r.pendingHead == []
    requires FindHeaderEnd(r.buf) == Some(|r.buf|) && ReadHead(r.buf) == Some(h)
    requires ResponseFraming(h.status, false, h.headers) == Some(UntilClose) && Injectable(h.status, h.headers)
    ensures Drive(r, blob).out == [] && Drive(r, blob).resp.state.Buffer? && !Drive(r, blob).resp.disabled
    ensures Drive(r, blob).resp.buf == [] && !DriveEdits(r, blob)
  {
    assert r.buf[..|r.buf|] == r.buf && r.buf[|r.buf|..] == [];
    var bs := BodyScan(r.buf, [], Close, ContentLength(h.headers), false);
    var s := StepHead(r);
    assert s == Stepped(r.(state := Buffer(bs), buf := []), [], true);
    KeepsWaiting(s.resp, bs, blob);
    assert s.out + s.out == s.out;
  }

  lemma KeepsWaiting(r: Resp, bs: BodyScan, blob: bytes)
    requires r.state == Buffer(bs) && r.buf == [] && bs.scan == [] && bs.body.Close? && !bs.done
    ensures StepResponse(r, blob) == Stepped(r, [], false) && !Edits(r)
  {
    assert bs.scan + [] == [];
    assert Pull(bs, []) == Pulled(bs, [], false);
    assert Decide([], false) == Wait;
  }

  /** There is such a head. */
  lemma HtmlHead() returns (head: bytes, h: RespHead)
    ensures FindHeaderEnd(head) == Some(|head|) && ReadHead(head) == Some(h)
    ensures ResponseFraming(h.status, false, h.headers) == Some(UntilClose) && Injectable(h.status, h.headers)
  {
    var start, field := A("HTTP/") + [32] + [50, 48, 48], A("content-type") + [58] + A("text/html");
    head := RawHead([start, field]);
    HeadItself([start, field]);
    ReadsAsLines([start, field]);
    StatusReads();
    FieldReads();
    h := RespHead(200, [(A("content-type"), A("text/html"))]);
    OneField(start, field, (A("content-type"), A("text/html")));
    HtmlInjectable();
  }

  lemma OneField(start: bytes, field: bytes, f: Header)
    requires CleanLine(field) && FieldOf(field) == Some(f) && f.0 != []
    ensures ParseFields([start, field][1..]) == Some([f])
  {
    assert [start, field][1..] == [field] + [];
    ParseFieldsCons([field], []);
    assert [f] + [] == [f];
  }

  lemma FirstAt(a: bytes, c: byte, b: bytes)
    requires forall i :: 0 <= i < |a| ==> a[i] != c
    ensures IndexOf(a + [c] + b, c) == Some(|a|) && (a + [c] + b)[..|a|] == a && (a + [c] + b)[|a| + 1..] == b
  {
    assert (a + [c] + b)[|a|] == c;
  }

  lemma StatusReads()
    ensures ParseStatusLine(A("HTTP/") + [32] + [50, 48, 48]) == Some(200)
  {
    var line := A("HTTP/") + [32] + [50, 48, 48];
    AsciiIsUtf8(line);
    FirstAt(A("HTTP/"), SP, [50, 48, 48]);
    var none: bytes, code: bytes := [], [50, 48, 48];
    DigitsAppend(none, 50, 10);
    DigitsAppend(none + [50], 48, 10);
    DigitsAppend(none + [50] + [48], 48, 10);
    assert code == none + [50] + [48] + [48];
    assert IndexOf(code, SP) == None;
  }

  lemma FieldReads()
    ensures FieldOf(A("content-type") + [58] + A("text/html")) == Some((A("content-type"), A("text/html")))
  {
    WordField(A("content-type"), A("text/html"));
  }

  lemma WordField(name: bytes, value: bytes)
    requires Word(name) && Word(value) && IndexOf(name, 58).None?
    ensures FieldOf(name + [58] + value) == Some((name, value))
  {
    ColonSplits(name, value);
    assert LeadingSpace(name) == 0 && TrailingSpace(name) == 0;
    assert LeadingSpace(value) == 0 && TrailingSpace(value) == 0;
  }

  lemma HtmlInjectable()
    ensures var hs := [(A("content-type"), A("text/html"))];
            ResponseFraming(200, false, hs) == Some(UntilClose) && Injectable(200, hs)
  {
    var hs := [(A("content-type"), A("text/html"))];
    assert hs[1..] == [];
    assert HeaderValue(hs, A("content-encoding")).None? && HeaderValue(hs, A("content-length")).None?;
    assert HeaderValue(hs, A("transfer-encoding")).None?;
    assert IndexOf(A("text/html"), 59).None?;
    assert Trim(A("text/html")) == A("text/html");
  }
}
