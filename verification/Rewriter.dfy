/** The response side of the HTTP rewriter as a machine on values: heads are held, an anchor is looked for,
    the blob goes in, and the rest streams on. */
module Rewriter {
  import opened Bytes
  import opened Chunked
  import opened HttpHead
  import opened Anchor
  import HeadEdit

  datatype BodyKind = Sized(n: nat) | Chunks(reader: ChunkState) | Close

  datatype BodyScan = BodyScan(origHead: bytes, scan: bytes, body: BodyKind, clOriginal: Option<nat>, done: bool)

  datatype RespState =
    | Head
    | Buffer(bs: BodyScan)
    | Stream(kind: BodyKind)
    | Pass(kind: BodyKind)

  /** Everything the response side works on. */
  datatype Resp = Resp(state: RespState, buf: bytes, pendingHead: seq<bool>, disabled: bool)

  /** The result of one step: bytes for the app, and whether to keep draining. */
  datatype Stepped = Stepped(resp: Resp, out: bytes, more: bool)

  function FramingToKind(f: Framing): BodyKind {
    match f
    case Length(n) => Sized(n)
    case Chunked => Chunks(Size([]))
    case UntilClose => Close
  }

  /** A response head that parses. */
  datatype RespHead = RespHead(status: nat, headers: seq<Header>)

  function ReadHead(rawHead: bytes): Option<RespHead> {
    match ParseHeadFields(HeadEdit.WithoutEnd(rawHead))
    case None => None
    case Some(p) =>
      match ParseStatusLine(p.startLine)
      case None => None
      case Some(status) => Some(RespHead(status, p.headers))
  }

  function Disable(r: Resp): Resp { r.(state := Head, buf := [], disabled := true) }

  function FirstOr(q: seq<bool>): bool { q != [] && q[0] }

  function Rest(q: seq<bool>): seq<bool> { if q == [] then [] else q[1..] }

  /** A head that has arrived whole is routed. */
  function RouteHead(r: Resp, rawHead: bytes, rest: bytes, h: RespHead): Stepped {
    var next := r.(state := Head, buf := rest);
    var popped := next.(pendingHead := Rest(r.pendingHead));
    if Informational(h.status) && h.status != 101 then Stepped(next, rawHead, true)
    else if h.status == 101 then Stepped(Disable(popped), rawHead + rest, false)
    else
      match ResponseFraming(h.status, FirstOr(r.pendingHead), h.headers)
      case None => Stepped(popped, rawHead, true)
      case Some(f) =>
        if Injectable(h.status, h.headers) then
          Stepped(popped.(state := Buffer(BodyScan(rawHead, [], FramingToKind(f), ContentLength(h.headers), false))), [], true)
        else Stepped(popped.(state := Pass(FramingToKind(f))), rawHead, true)
  }

  function StepHead(r: Resp): Stepped {
    match FindHeaderEnd(r.buf)
    case None =>
      if |r.buf| > MAX_HEADER_BYTES then Stepped(Disable(r), r.buf, false) else Stepped(r.(state := Head), [], false)
    case Some(end) =>
      match ReadHead(r.buf[..end])
      case None => Stepped(Disable(r), r.buf, false)
      case Some(h) => RouteHead(r, r.buf[..end], r.buf[end..], h)
  }

  /** What a fresh capture keeps of the data decoded in one call. */
  function Kept(data: bytes): bytes { PushCapped(EmptyCapture, data).bytes }

  /** Body bytes pulled from the buffer into the scan. */
  datatype Pulled = Pulled(bs: BodyScan, rest: bytes, failed: bool)

  function Pull(bs: BodyScan, buf: bytes): Pulled {
    match bs.body
    case Sized(n) =>
      var take := Min(n, |buf|);
      Pulled(bs.(scan := bs.scan + buf[..take], body := Sized(n - take), done := bs.done || n == take), buf[take..], false)
    case Chunks(reader) =>
      var d := Decode(reader, buf);
      Pulled(bs.(scan := bs.scan + Kept(d.data), body := Chunks(d.state), done := bs.done || d.step.Done?), d.rest, d.step.Error?)
    case Close => Pulled(bs.(scan := bs.scan + buf), [], false)
  }

  function Encode(kind: BodyKind, data: bytes): bytes { if kind.Chunks? then Rechunk(data) else data }

  function NewLength(cl: Option<nat>, blob: bytes): Option<nat> {
    match cl case None => None case Some(n) => Some(n + |blob|)
  }

  /** Head and scanned prefix, once it is decided what becomes of them. */
  function EmitDecided(bs: BodyScan, v: Verdict, blob: bytes): bytes {
    (if v.Inject? then HeadEdit.EditResponseHead(bs.origHead, NewLength(bs.clOriginal, blob)) else bs.origHead)
    + Encode(bs.body, Apply(v, bs.scan, blob))
  }

  /** Where the machine goes with what is left of the body. */
  function AfterDecision(r: Resp, bs: BodyScan): Stepped {
    match bs.body
    case Sized(n) => Stepped(r.(state := if n == 0 then Head else Stream(Sized(n))), [], true)
    case Chunks(reader) =>
      if bs.done then Stepped(r.(state := Head), LAST_CHUNK, true)
      else Stepped(r.(state := Stream(Chunks(reader))), [], true)
    case Close => Stepped(r.(state := Stream(Close)), [], true)
  }

  /** The scan after its verdict: held on, or emitted and the rest streamed. */
  function Settle(r: Resp, bs: BodyScan, v: Verdict, blob: bytes): Stepped {
    if v.Wait? then Stepped(r.(state := Buffer(bs)), [], false)
    else
      var after := AfterDecision(r, bs);
      after.(out := EmitDecided(bs, v, blob) + after.out)
  }

  function StepBuffer(r: Resp, bs: BodyScan, blob: bytes): Stepped {
    var p := Pull(bs, r.buf);
    var r' := r.(buf := p.rest);
    if p.failed then
      Stepped(r'.(state := Head, disabled := true), bs.origHead + Rechunk(p.bs.scan) + LAST_CHUNK, false)
    else Settle(r', p.bs, Decide(p.bs.scan, p.bs.done), blob)
  }

  /** Streaming on what one `consume` decoded. */
  function StreamDecoded(r: Resp, d: Decoded): Stepped {
    var r' := r.(buf := d.rest);
    var chunk := Rechunk(Kept(d.data));
    match d.step
    case NeedMore => Stepped(r'.(state := Stream(Chunks(d.state))), chunk, false)
    case Done => Stepped(r'.(state := Head), chunk + LAST_CHUNK, true)
    case Error => Stepped(r'.(state := Head, disabled := true), chunk + LAST_CHUNK, false)
  }

  function StepStream(r: Resp, kind: BodyKind): Stepped {
    match kind
    case Sized(n) =>
      var take := Min(n, |r.buf|);
      var r' := r.(buf := r.buf[take..]);
      if n == take then Stepped(r'.(state := Head), r.buf[..take], true)
      else Stepped(r'.(state := Stream(Sized(n - take))), r.buf[..take], false)
    case Chunks(reader) => StreamDecoded(r, Decode(reader, r.buf))
    case Close => Stepped(r.(buf := [], state := Stream(Close)), r.buf, false)
  }

  /** Passing on verbatim what one `consume` took. */
  function PassDecoded(r: Resp, d: Decoded): Stepped {
    var r' := r.(buf := d.rest);
    var verbatim := r.buf[..Max(|r.buf| - |d.rest|, 0)];
    match d.step
    case NeedMore => Stepped(r'.(state := Pass(Chunks(d.state))), verbatim, false)
    case Done => Stepped(r'.(state := Head), verbatim, true)
    case Error => Stepped(Disable(r'), verbatim + d.rest, false)
  }

  function StepPass(r: Resp, kind: BodyKind): Stepped {
    match kind
    case Sized(n) =>
      var take := Min(n, |r.buf|);
      var r' := r.(buf := r.buf[take..]);
      if n == take then Stepped(r'.(state := Head), r.buf[..take], true)
      else Stepped(r'.(state := Pass(Sized(n - take))), r.buf[..take], false)
    case Chunks(reader) => PassDecoded(r, Decode(reader, r.buf))
    case Close => Stepped(r.(buf := [], state := Pass(Close)), r.buf, false)
  }

  function StepResponse(r: Resp, blob: bytes): Stepped {
    match r.state
    case Head => StepHead(r)
    case Buffer(bs) => StepBuffer(r, bs, blob)
    case Stream(kind) => StepStream(r, kind)
    case Pass(kind) => StepPass(r, kind)
  }

  function Rank(s: RespState): nat {
    match s case Head => 0 case Buffer(_) => 2 case _ => 1
  }

  lemma OutcomeShrinks(c: Decoder, used: nat, data: bytes, buf: bytes)
    requires used <= |buf|
    ensures |Outcome(c, used, data, buf).rest| <= |buf|
  {
  }

  lemma DecodeShrinks(reader: ChunkState, buf: bytes)
    ensures |Decode(reader, buf).rest| <= |buf|
  {
    OutcomeShrinks(Feed(Start(reader), buf), Used(Start(reader), buf), Body(Start(reader), buf), buf);
  }

  lemma RouteProgress(r: Resp, rawHead: bytes, rest: bytes, h: RespHead)
    ensures |RouteHead(r, rawHead, rest, h).resp.buf| <= |rest|
  {
  }

  lemma HeadProgress(r: Resp)
    requires StepHead(r).more
    ensures |StepHead(r).resp.buf| < |r.buf|
  {
    var end := FindHeaderEnd(r.buf).value;
    RouteProgress(r, r.buf[..end], r.buf[end..], ReadHead(r.buf[..end]).value);
  }

  lemma BufferProgress(r: Resp, bs: BodyScan, blob: bytes)
    requires StepBuffer(r, bs, blob).more
    ensures var s := StepBuffer(r, bs, blob).resp; |s.buf| <= |r.buf| && (s.state.Head? || s.state.Stream?)
  {
    if bs.body.Chunks? {
      DecodeShrinks(bs.body.reader, r.buf);
    }
  }

  lemma BodyProgress(r: Resp, kind: BodyKind)
    ensures StepStream(r, kind).more ==> |StepStream(r, kind).resp.buf| <= |r.buf| && StepStream(r, kind).resp.state.Head?
    ensures StepPass(r, kind).more ==> |StepPass(r, kind).resp.buf| <= |r.buf| && StepPass(r, kind).resp.state.Head?
  {
    if kind.Chunks? {
      DecodeShrinks(kind.reader, r.buf);
    }
  }

  /** A step that asks for more took from the buffer or moved on. */
  lemma StepProgress(r: Resp, blob: bytes)
    requires StepResponse(r, blob).more
    ensures var r' := StepResponse(r, blob).resp; |r'.buf| < |r.buf| || (|r'.buf| <= |r.buf| && Rank(r'.state) < Rank(r.state))
  {
    match r.state
    case Head => HeadProgress(r);
    case Buffer(bs) => BufferProgress(r, bs, blob);
    case Stream(kind) => BodyProgress(r, kind);
    case Pass(kind) => BodyProgress(r, kind);
  }

  /** The drained machine: its state, and everything it emitted. */
  datatype Drained = Drained(resp: Resp, out: bytes)

  function Drive(r: Resp, blob: bytes): Drained
    decreases |r.buf|, Rank(r.state)
  {
    var s := StepResponse(r, blob);
    if !s.more then Drained(s.resp, s.out)
    else
      StepProgress(r, blob);
      var d := Drive(s.resp, blob);
      Drained(d.resp, s.out + d.out)
  }

  function FeedResponse(r: Resp, data: bytes, active: bool, blob: bytes): Drained {
    if !active || r.disabled then Drained(r.(buf := []), r.buf + data) else Drive(r.(buf := r.buf + data), blob)
  }

  datatype ReqState = ReqHead | ReqBody(remaining: nat)

  /** The request side; `disables` once it meets what it cannot follow. */
  datatype Req = Req(state: ReqState, buf: bytes)

  datatype ReqDrained = ReqDrained(req: Req, out: bytes, pushed: seq<bool>, disables: bool)

  /** The next request head of the buffer, if it is whole and parses: its method and framing. */
  datatype ReqHead = ReqHead(isHead: bool, framing: Option<Framing>)

  function ReadRequestHead(rawHead: bytes): Option<ReqHead> {
    match ParseHeadFields(HeadEdit.WithoutEnd(rawHead))
    case None => None
    case Some(p) =>
      match ParseRequestLine(p.startLine)
      case None => None
      case Some(name) => Some(ReqHead.ReqHead(IsHeadMethod(name), RequestFraming(p.headers)))
  }

  datatype ReqStepped = ReqStepped(req: Req, out: bytes, pushed: seq<bool>, disables: bool, more: bool)

  function GiveUp(out: bytes, pushed: seq<bool>): ReqStepped {
    ReqStepped(Req(ReqState.ReqHead, []), out, pushed, true, false)
  }

  function StepRequestHead(buf: bytes): ReqStepped {
    match FindHeaderEnd(buf)
    case None =>
      if |buf| > MAX_HEADER_BYTES then GiveUp(buf, []) else ReqStepped(Req(ReqState.ReqHead, buf), [], [], false, false)
    case Some(end) =>
      match ReadRequestHead(buf[..end])
      case None => GiveUp(buf, [])
      case Some(h) =>
        RouteRequest(h, HeadEdit.EditRequestHead(buf[..end]), buf[end..])
  }

  function RouteRequest(h: ReqHead, edited: bytes, rest: bytes): ReqStepped {
    if h.framing.None? then ReqStepped(Req(ReqState.ReqHead, rest), edited, [h.isHead], false, true)
    else if h.framing.value.Length? then ReqStepped(Req(ReqBody(h.framing.value.n), rest), edited, [h.isHead], false, true)
    else GiveUp(edited + rest, [h.isHead])
  }

  lemma RouteRequestProgress(h: ReqHead, edited: bytes, rest: bytes)
    ensures |RouteRequest(h, edited, rest).req.buf| <= |rest|
  {
  }

  function StepRequest(q: Req): ReqStepped {
    match q.state
    case ReqHead => StepRequestHead(q.buf)
    case ReqBody(n) =>
      var take := Min(n, |q.buf|);
      if n == take then ReqStepped(Req(ReqState.ReqHead, q.buf[take..]), q.buf[..take], [], false, true)
      else ReqStepped(Req(ReqBody(n - take), []), q.buf[..take], [], false, false)
  }

  function ReqRank(s: ReqState): nat { if s.ReqBody? then 1 else 0 }

  lemma RequestProgress(q: Req)
    requires StepRequest(q).more
    ensures var q' := StepRequest(q).req; |q'.buf| < |q.buf| || (|q'.buf| <= |q.buf| && ReqRank(q'.state) < ReqRank(q.state))
  {
    if q.state.ReqHead? {
      var end := FindHeaderEnd(q.buf).value;
      RouteRequestProgress(ReadRequestHead(q.buf[..end]).value, HeadEdit.EditRequestHead(q.buf[..end]), q.buf[end..]);
    }
  }

  function DriveRequest(q: Req): (d: ReqDrained)
    decreases |q.buf|, ReqRank(q.state)
  {
    var s := StepRequest(q);
    if !s.more then ReqDrained(s.req, s.out, s.pushed, s.disables)
    else
      RequestProgress(q);
      var d := DriveRequest(s.req);
      ReqDrained(d.req, s.out + d.out, s.pushed + d.pushed, d.disables)
  }
}
