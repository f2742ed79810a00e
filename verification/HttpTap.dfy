/** The passive HTTP tap of one connection: requests and responses parsed from decrypted bytes and paired. */
module HttpTap {
  import opened Bytes
  import opened Chunked
  import opened HttpHead
  import opened Rewriter
  import HeadEdit

  datatype Request = Request(verb: bytes, target: bytes, version: bytes, headers: seq<Header>,
                             body: bytes, bodySize: nat, headersSize: nat, truncated: bool)

  datatype Response = Response(status: nat, version: bytes, headers: seq<Header>,
                               body: bytes, bodySize: nat, headersSize: nat, truncated: bool)

  /** A request with its response; times are not part of this model. */
  datatype Transaction = Transaction(host: Option<bytes>, request: Request, response: Response)

  /** A body being read: what is left of it on the wire, and what was kept. */
  datatype BodyState = BodyState(kind: BodyKind, cap: Capture)

  datatype Tap = Tap(sni: Option<bytes>, disabled: bool,
                     reqBuf: bytes, reqPartial: Option<(Request, BodyState)>,
                     respBuf: bytes, respPartial: Option<(Response, BodyState)>,
                     pending: seq<Request>, completed: seq<Transaction>)

  const NewTap := Tap(None, false, [], None, [], None, [], [])

  // --- heads -----------------------------------------------------------------

  datatype HeadStep = HeadNeedMore | HeadError | HeadGot(head: bytes, parsed: Parsed, rest: bytes)

  function TakeHead(buf: bytes): HeadStep {
    match FindHeaderEnd(buf)
    case None => if |buf| > MAX_HEADER_BYTES then HeadError else HeadNeedMore
    case Some(end) =>
      match ParseHeadFields(HeadEdit.WithoutEnd(buf[..end]))
      case None => HeadError
      case Some(p) => HeadGot(buf[..end], p, buf[end..])
  }

  /** The three words of a request line. */
  function RequestWords(line: bytes): Option<(bytes, bytes, bytes)> {
    if ParseRequestLine(line).None? then None
    else
      var parts := Split(line, SP);
      if |parts| < 3 then None else Some((parts[0], parts[1], parts[2]))
  }

  function RequestOf(head: bytes, p: Parsed): Option<Request> {
    match RequestWords(p.startLine)
    case None => None
    case Some((verb, target, version)) => Some(Request(verb, target, version, p.headers, [], 0, |head|, false))
  }

  function ResponseOf(head: bytes, p: Parsed): Option<Response> {
    match ParseStatusLine(p.startLine)
    case None => None
    case Some(status) => Some(Response(status, Split(p.startLine, SP)[0], p.headers, [], 0, |head|, false))
  }

  // --- bodies ----------------------------------------------------------------

  /** What `BodyReader.consume` does to the buffer it is given. */
  datatype Consumed = Consumed(step: Step, body: BodyState, rest: bytes)

  function ConsumeBody(b: BodyState, buf: bytes): Consumed {
    match b.kind
    case Sized(n) =>
      var take := Min(n, |buf|);
      Consumed(if n == take then Done else NeedMore, BodyState(Sized(n - take), PushCapped(b.cap, buf[..take])), buf[take..])
    case Close => Consumed(NeedMore, BodyState(Close, PushCapped(b.cap, buf)), [])
    case Chunks(cs) =>
      var d := Decode(cs, buf);
      Consumed(d.step, BodyState(Chunks(d.state), PushCapped(b.cap, d.data)), d.rest)
  }

  function BodyOf(f: Framing): BodyState { BodyState(FramingToKind(f), EmptyCapture) }

  function AttachRequest(r: Request, cap: Capture): Request {
    r.(body := cap.bytes, bodySize := cap.wireLen, truncated := cap.truncated)
  }

  function AttachResponse(r: Response, cap: Capture): Response {
    r.(body := cap.bytes, bodySize := cap.wireLen, truncated := cap.truncated)
  }

  lemma ConsumeShrinks(b: BodyState, buf: bytes)
    ensures |ConsumeBody(b, buf).rest| <= |buf|
  {
    if b.kind.Chunks? {
      DecodeShrinks(b.kind.reader, buf);
    }
  }

  // --- the two directions ----------------------------------------------------

  function TurnedOff(t: Tap): Tap {
    t.(disabled := true, reqBuf := [], reqPartial := None, respBuf := [], respPartial := None)
  }

  function PushPending(t: Tap, r: Request): Tap { t.(pending := t.pending + [r]) }

  function HostOf(t: Tap, r: Request): Option<bytes> {
    var h := HeaderValue(r.headers, A("host"));
    if h.Some? then h else t.sni
  }

  /** A finished response meets the oldest request still unanswered. */
  function Complete(t: Tap, r: Response): Tap {
    if t.pending == [] then TurnedOff(t)
    else t.(pending := t.pending[1..], completed := t.completed + [Transaction(HostOf(t, t.pending[0]), t.pending[0], r)])
  }

  function FrontIsHead(t: Tap): bool { t.pending != [] && IsHeadMethod(t.pending[0].verb) }

  datatype Turn = Stop(tap: Tap) | Again(tap: Tap)

  function RequestHeadTurn(t: Tap): Turn {
    match TakeHead(t.reqBuf)
    case HeadNeedMore => Stop(t)
    case HeadError => Stop(TurnedOff(t))
    case HeadGot(head, p, rest) =>
      match RequestOf(head, p)
      case None => Stop(TurnedOff(t))
      case Some(r) =>
        match RequestFraming(r.headers)
        case None => Again(PushPending(t.(reqBuf := rest), r))
        case Some(f) => Again(t.(reqBuf := rest, reqPartial := Some((r, BodyOf(f)))))
  }

  function RequestBodyTurn(t: Tap, r: Request, c: Consumed): Turn {
    match c.step
    case NeedMore => Stop(t.(reqBuf := c.rest, reqPartial := Some((r, c.body))))
    case Error => Stop(TurnedOff(t))
    case Done => Again(PushPending(t.(reqBuf := c.rest, reqPartial := None), AttachRequest(r, c.body.cap)))
  }

  function RequestTurn(t: Tap): Turn {
    match t.reqPartial
    case None => RequestHeadTurn(t)
    case Some((r, b)) => RequestBodyTurn(t, r, ConsumeBody(b, t.reqBuf))
  }

  function RouteResponse(t: Tap, r: Response): Turn {
    if Informational(r.status) && r.status != 101 then Again(t)
    else
      match ResponseFraming(r.status, FrontIsHead(t), r.headers)
      case None => if r.status == 101 then Stop(TurnedOff(Complete(t, r))) else Again(Complete(t, r))
      case Some(f) => Again(t.(respPartial := Some((r, BodyOf(f)))))
  }

  function ResponseHeadTurn(t: Tap): Turn {
    match TakeHead(t.respBuf)
    case HeadNeedMore => Stop(t)
    case HeadError => Stop(TurnedOff(t))
    case HeadGot(head, p, rest) =>
      match ResponseOf(head, p)
      case None => Stop(TurnedOff(t))
      case Some(r) => RouteResponse(t.(respBuf := rest), r)
  }

  function ResponseBodyTurn(t: Tap, r: Response, c: Consumed): Turn {
    match c.step
    case NeedMore => Stop(t.(respBuf := c.rest, respPartial := Some((r, c.body))))
    case Error => Stop(TurnedOff(t))
    case Done => Again(Complete(t.(respBuf := c.rest, respPartial := None), AttachResponse(r, c.body.cap)))
  }

  function ResponseTurn(t: Tap): Turn {
    match t.respPartial
    case None => ResponseHeadTurn(t)
    case Some((r, b)) => ResponseBodyTurn(t, r, ConsumeBody(b, t.respBuf))
  }

  function PartialRank<T>(p: Option<T>): nat { if p.Some? then 1 else 0 }

  lemma RequestTurnProgress(t: Tap)
    requires RequestTurn(t).Again?
    ensures var u := RequestTurn(t).tap;
            |u.reqBuf| < |t.reqBuf| || (|u.reqBuf| <= |t.reqBuf| && PartialRank(u.reqPartial) < PartialRank(t.reqPartial))
  {
    if t.reqPartial.Some? {
      ConsumeShrinks(t.reqPartial.value.1, t.reqBuf);
    }
  }

  lemma RouteKeepsOrClears(t: Tap, r: Response)
    ensures |RouteResponse(t, r).tap.respBuf| <= |t.respBuf|
  {
  }

  lemma ResponseTurnProgress(t: Tap)
    requires ResponseTurn(t).Again?
    ensures var u := ResponseTurn(t).tap;
            |u.respBuf| < |t.respBuf| || (|u.respBuf| <= |t.respBuf| && PartialRank(u.respPartial) < PartialRank(t.respPartial))
  {
    if t.respPartial.Some? {
      ConsumeShrinks(t.respPartial.value.1, t.respBuf);
    } else {
      var got := TakeHead(t.respBuf);
      RouteKeepsOrClears(t.(respBuf := got.rest), ResponseOf(got.head, got.parsed).value);
    }
  }

  function DrainRequests(t: Tap): Tap
    decreases |t.reqBuf|, PartialRank(t.reqPartial)
  {
    match RequestTurn(t)
    case Stop(u) => u
    case Again(u) => RequestTurnProgress(t); DrainRequests(u)
  }

  function DrainResponses(t: Tap): Tap
    decreases |t.respBuf|, PartialRank(t.respPartial)
  {
    match ResponseTurn(t)
    case Stop(u) => u
    case Again(u) => ResponseTurnProgress(t); DrainResponses(u)
  }

  function FeedReq(t: Tap, data: bytes): Tap {
    if t.disabled || data == [] then t else DrainRequests(t.(reqBuf := t.reqBuf + data))
  }

  function FeedResp(t: Tap, data: bytes): Tap {
    if t.disabled || data == [] then t else DrainResponses(t.(respBuf := t.respBuf + data))
  }

  /** The connection closed: a body that runs until then is complete. */
  function Finish(t: Tap): Tap {
    if t.disabled then t
    else
      var u := t.(respPartial := None);
      var v := if t.respPartial.Some? && t.respPartial.value.1.kind.Close? then
                 Complete(u, AttachResponse(t.respPartial.value.0, t.respPartial.value.1.cap))
               else u;
      v.(disabled := true)
  }

  // --- the object ------------------------------------------------------------

  class HttpTap {
    var sni: Option<bytes>
    var disabled: bool
    var reqBuf: bytes
    var reqPartial: Option<(Request, BodyState)>
    var respBuf: bytes
    var respPartial: Option<(Response, BodyState)>
    var pending: seq<Request>
    var completed: seq<Transaction>

    function View(): Tap reads this {
      Tap(sni, disabled, reqBuf, reqPartial, respBuf, respPartial, pending, completed)
    }

    constructor ()
      ensures View() == NewTap
    {
      sni, disabled, reqBuf, reqPartial := None, false, [], None;
      respBuf, respPartial, pending, completed := [], None, [], [];
    }

    method SetHost(host: bytes)
      modifies this`sni
      ensures sni == if old(sni).Some? then old(sni) else Some(host)
    {
      if sni.None? {
        sni := Some(host);
      }
    }

    method Feed(request: bool, data: bytes)
      modifies this
      ensures View() == if request then FeedReq(old(View()), data) else FeedResp(old(View()), data)
    {
      if disabled || data == [] {
        return;
      }
      if request {
        reqBuf := reqBuf + data;
        DrainReqBuf();
      } else {
        respBuf := respBuf + data;
        DrainRespBuf();
      }
    }

    method TakeTransactions() returns (taken: seq<Transaction>)
      modifies this`completed
      ensures taken == old(completed) && completed == []
    {
      taken, completed := completed, [];
    }

    method ConnectionClosed()
      modifies this
      ensures View() == Finish(old(View()))
    {
      if disabled {
        return;
      }
      var partial := respPartial;
      respPartial := None;
      if partial.Some? && partial.value.1.kind.Close? {
        CompleteResponse(AttachResponse(partial.value.0, partial.value.1.cap));
      }
      disabled := true;
    }

    method TurnOff()
      modifies this
      ensures View() == TurnedOff(old(View()))
    {
      disabled, reqBuf, reqPartial, respBuf, respPartial := true, [], None, [], None;
    }

    method DrainReqBuf()
      modifies this
      ensures View() == DrainRequests(old(View()))
    {
      var more := true;
      while more
        invariant if more then DrainRequests(View()) == DrainRequests(old(View())) else View() == DrainRequests(old(View()))
        decreases more, |reqBuf|, PartialRank(reqPartial)
      {
        ghost var t := View();
        more := RequestOnce();
        if more {
          RequestTurnProgress(t);
        }
      }
    }

    method RequestOnce() returns (more: bool)
      modifies this
      ensures RequestTurn(old(View())) == if more then Again(View()) else Stop(View())
    {
      if reqPartial.None? {
        var got := TakeHead(reqBuf);
        if got.HeadNeedMore? {
          return false;
        }
        if got.HeadError? || RequestOf(got.head, got.parsed).None? {
          TurnOff();
          return false;
        }
        var r := RequestOf(got.head, got.parsed).value;
        reqBuf := got.rest;
        var f := RequestFraming(r.headers);
        if f.Some? {
          reqPartial := Some((r, BodyOf(f.value)));
        } else {
          pending := pending + [r];
        }
        return true;
      }
      var (r, b) := reqPartial.value;
      var step, b', rest := ReadBody(b, reqBuf);
      if step.Error? {
        TurnOff();
        return false;
      }
      reqBuf := rest;
      if step.NeedMore? {
        reqPartial := Some((r, b'));
        return false;
      }
      reqPartial := None;
      pending := pending + [AttachRequest(r, b'.cap)];
      more := true;
    }

    /** `BodyReader.consume`, the chunked case through the chunk reader. */
    method ReadBody(b: BodyState, buf: bytes) returns (step: Step, b': BodyState, rest: bytes)
      ensures Consumed(step, b', rest) == ConsumeBody(b, buf)
    {
      match b.kind
      case Sized(n) =>
        var take := Min(n, |buf|);
        rest := buf[take..];
        b' := BodyState(Sized(n - take), PushCapped(b.cap, buf[..take]));
        step := if n - take == 0 then Done else NeedMore;
      case Close =>
        step, b', rest := NeedMore, BodyState(Close, PushCapped(b.cap, buf)), [];
      case Chunks(cs) =>
        var reader := new ChunkReader();
        reader.state := cs;
        var kept;
        step, rest, kept := reader.Consume(buf, b.cap);
        b' := BodyState(Chunks(reader.state), kept);
    }

    method DrainRespBuf()
      modifies this
      ensures View() == DrainResponses(old(View()))
    {
      var more := true;
      while more
        invariant if more then DrainResponses(View()) == DrainResponses(old(View())) else View() == DrainResponses(old(View()))
        decreases more, |respBuf|, PartialRank(respPartial)
      {
        ghost var t := View();
        more := ResponseOnce();
        if more {
          ResponseTurnProgress(t);
        }
      }
    }

    method ResponseOnce() returns (more: bool)
      modifies this
      ensures ResponseTurn(old(View())) == if more then Again(View()) else Stop(View())
    {
      if respPartial.None? {
        var got := TakeHead(respBuf);
        if got.HeadNeedMore? {
          return false;
        }
        if got.HeadError? || ResponseOf(got.head, got.parsed).None? {
          TurnOff();
          return false;
        }
        respBuf := got.rest;
        more := Route(ResponseOf(got.head, got.parsed).value);
        return;
      }
      var (r, b) := respPartial.value;
      var step, b', rest := ReadBody(b, respBuf);
      if step.Error? {
        TurnOff();
        return false;
      }
      respBuf := rest;
      if step.NeedMore? {
        respPartial := Some((r, b'));
        return false;
      }
      respPartial := None;
      CompleteResponse(AttachResponse(r, b'.cap));
      more := true;
    }

    method Route(r: Response) returns (more: bool)
      modifies this
      ensures RouteResponse(old(View()), r) == if more then Again(View()) else Stop(View())
    {
      if Informational(r.status) && r.status != 101 {
        return true;
      }
      var methodIsHead := pending != [] && IsHeadMethod(pending[0].verb);
      var f := ResponseFraming(r.status, methodIsHead, r.headers);
      if f.Some? {
        respPartial := Some((r, BodyOf(f.value)));
        return true;
      }
      CompleteResponse(r);
      if r.status == 101 {
        TurnOff();
        return false;
      }
      more := true;
    }

    method CompleteResponse(r: Response)
      modifies this
      ensures View() == Complete(old(View()), r)
    {
      if pending == [] {
        TurnOff();
        return;
      }
      var front := pending[0];
      var host := HeaderValue(front.headers, A("host"));
      if host.None? {
        host := sni;
      }
      completed := completed + [Transaction(host, front, r)];
      pending := pending[1..];
    }
  }
}
