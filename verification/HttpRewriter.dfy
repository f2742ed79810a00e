/** The rewriter of one connection, as the object that is fed plaintext from both sides. */
module HttpRewriter {
  import opened Bytes
  import opened Chunked
  import opened HttpHead
  import opened Anchor
  import opened Rewriter
  import HeadEdit
  import Conservation
  import Exchange

  /** What is injected for a style sheet and a script, either of which may be empty. */
  function Blob(css: bytes, js: bytes): bytes {
    A("<!--adw-cosmetic-->")
    + (if js != [] then A("<script>") + js + A("</script>") else [])
    + (if css != [] then A("<style id=\"adw-cosmetic\">") + css + A("</style>") else [])
  }

  class HttpRewriter {
    var active: bool
    var blob: bytes
    var disabled: bool
    var req: ReqState
    var reqBuf: bytes
    var resp: RespState
    var respBuf: bytes
    var pendingHead: seq<bool>

    function ReqView(): Req reads this { Req(req, reqBuf) }

    function RespView(): Resp reads this { Resp(resp, respBuf, pendingHead, disabled) }

    function View(): Conservation.Machine reads this { Conservation.Machine(ReqView(), RespView()) }

    constructor ()
      ensures View() == Conservation.Initial && !active
    {
      active, blob, disabled := false, [], false;
      req, reqBuf := ReqState.ReqHead, [];
      resp, respBuf, pendingHead := Head, [], [];
    }

    method SetCosmetic(css: bytes, js: bytes)
      modifies this`active, this`blob
      ensures active == (css != [] || js != [])
      ensures blob == if active then Blob(css, js) else old(blob)
    {
      var hasCss, hasJs := css != [], js != [];
      active := hasCss || hasJs;
      if active {
        var b := A("<!--adw-cosmetic-->");
        if hasJs {
          b := b + (A("<script>") + js + A("</script>"));
        }
        if hasCss {
          b := b + (A("<style id=\"adw-cosmetic\">") + css + A("</style>"));
        }
        assert A("<!--adw-cosmetic-->") + [] == A("<!--adw-cosmetic-->") && b + [] == b;
        blob := b;
      }
    }

    /** App to upstream. */
    method FeedRequest(data: bytes) returns (out: bytes)
      modifies this`disabled, this`req, this`reqBuf, this`pendingHead
      ensures old(active) ==> var a := Conservation.FeedRequest(old(View()), data); View() == a.m && out == a.toServer
      ensures !old(active) ==>
                View() == old(View()).(req := old(ReqView()).(buf := [])) && out == old(reqBuf) + data
    {
      if !active || disabled {
        out := reqBuf + data;
        reqBuf := [];
        return;
      }
      reqBuf := reqBuf + data;
      out := DriveRequestBuffer();
    }

    /** Upstream to app. */
    method FeedResponse(data: bytes) returns (out: bytes)
      modifies this`disabled, this`resp, this`respBuf, this`pendingHead
      ensures var d := Rewriter.FeedResponse(old(RespView()), data, active, blob); RespView() == d.resp && out == d.out
    {
      if !active || disabled {
        out := respBuf + data;
        respBuf := [];
        return;
      }
      respBuf := respBuf + data;
      out := DriveResponse();
    }

    method DriveRequestBuffer() returns (out: bytes)
      requires !disabled
      modifies this`disabled, this`req, this`reqBuf, this`pendingHead
      ensures var d := DriveRequest(old(ReqView()));
              ReqView() == d.req && out == d.out && disabled == d.disables && pendingHead == old(pendingHead) + d.pushed
    {
      out := [];
      ghost var whole, pushed := DriveRequest(ReqView()), [];
      BeforeNothing(whole);
      while true
        invariant !disabled && pendingHead == old(pendingHead) + pushed
        invariant whole == Before(out, pushed, DriveRequest(ReqView()))
        decreases |reqBuf|, ReqRank(req)
      {
        ghost var q := ReqView();
        var more, piece := StepRequestOnce();
        if more {
          RequestProgress(q);
        }
        DriveOn(q, out, pushed);
        AppendPushed(old(pendingHead), pushed, StepRequest(q).pushed);
        out, pushed := out + piece, pushed + StepRequest(q).pushed;
        if !more {
          return;
        }
      }
    }

    /** One turn of the loop over the request buffer. */
    method StepRequestOnce() returns (more: bool, out: bytes)
      requires !disabled
      modifies this`disabled, this`req, this`reqBuf, this`pendingHead
      ensures var s := StepRequest(old(ReqView()));
              ReqView() == s.req && more == s.more && out == s.out && disabled == s.disables
              && pendingHead == old(pendingHead) + s.pushed
    {
      match req
      case ReqHead =>
        assert pendingHead + [] == pendingHead;
        var end := FindHeaderEnd(reqBuf);
        if end.None? {
          if |reqBuf| > MAX_HEADER_BYTES {
            out := DisableFlushRequest();
            return false, out;
          }
          return false, [];
        }
        var h := ReadRequestHead(reqBuf[..end.value]);
        if h.None? {
          out := DisableFlushRequest();
          return false, out;
        }
        pendingHead := pendingHead + [h.value.isHead];
        var edited := HeadEdit.RebuildRequestHead(reqBuf[..end.value]);
        reqBuf := reqBuf[end.value..];
        if h.value.framing.None? {
          return true, edited;
        } else if h.value.framing.value.Length? {
          req := ReqBody(h.value.framing.value.n);
          return true, edited;
        }
        var rest := DisableFlushRequest();
        return false, edited + rest;
      case ReqBody(n) =>
        assert pendingHead + [] == pendingHead;
        var take := Min(n, |reqBuf|);
        out, reqBuf := reqBuf[..take], reqBuf[take..];
        more, req := n == take, if n == take then ReqState.ReqHead else ReqBody(n - take);
    }

    method DisableFlushRequest() returns (out: bytes)
      modifies this`disabled, this`reqBuf
      ensures disabled && reqBuf == [] && out == old(reqBuf)
    {
      out := reqBuf;
      disabled, reqBuf := true, [];
    }

    method DriveResponse() returns (out: bytes)
      modifies this`disabled, this`resp, this`respBuf, this`pendingHead
      ensures var d := Drive(old(RespView()), blob); RespView() == d.resp && out == d.out
    {
      out := [];
      ghost var whole := Drive(RespView(), blob);
      assert out + whole.out == whole.out;
      while true
        invariant whole == After(out, Drive(RespView(), blob))
        decreases |respBuf|, Rank(resp)
      {
        ghost var r := RespView();
        var more, piece := StepResponseOnce();
        if more {
          StepProgress(r, blob);
        }
        DriveStep(r, blob, out);
        out := out + piece;
        if !more {
          return;
        }
      }
    }

    /** One turn of the loop over the response buffer. */
    method StepResponseOnce() returns (more: bool, out: bytes)
      modifies this`disabled, this`resp, this`respBuf, this`pendingHead
      ensures Stepped(RespView(), out, more) == StepResponse(old(RespView()), blob)
    {
      match resp
      case Head => more, out := StepResponseHead();
      case Buffer(bs) => more, out := StepResponseBuffer(bs);
      case Stream(kind) => more, out := StepResponseStream(kind);
      case Pass(kind) => more, out := StepResponsePass(kind);
    }

    method DisableFlush() returns (out: bytes)
      modifies this`disabled, this`resp, this`respBuf
      ensures RespView() == Disable(old(RespView())) && out == old(respBuf)
    {
      out := respBuf;
      disabled, respBuf, resp := true, [], Head;
    }

    method StepResponseHead() returns (more: bool, out: bytes)
      modifies this`disabled, this`resp, this`respBuf, this`pendingHead
      ensures Stepped(RespView(), out, more) == StepHead(old(RespView()))
    {
      out, more, resp := [], false, Head;
      var end := FindHeaderEnd(respBuf);
      if end.None? {
        if |respBuf| > MAX_HEADER_BYTES {
          out := DisableFlush();
        }
        return;
      }
      var rawHead := respBuf[..end.value];
      var h := ReadHead(rawHead);
      if h.None? {
        out := DisableFlush();
        return;
      }
      respBuf := respBuf[end.value..];
      if Informational(h.value.status) && h.value.status != 101 {
        return true, rawHead;
      }
      var methodIsHead := FirstOr(pendingHead);
      pendingHead := Rest(pendingHead);
      if h.value.status == 101 {
        var rest := DisableFlush();
        return false, rawHead + rest;
      }
      match ResponseFraming(h.value.status, methodIsHead, h.value.headers)
      case None => return true, rawHead;
      case Some(framing) =>
        var body := FramingToKind(framing);
        if Injectable(h.value.status, h.value.headers) {
          resp := Buffer(BodyScan(rawHead, [], body, ContentLength(h.value.headers), false));
          return true, [];
        }
        resp := Pass(body);
        return true, rawHead;
    }

    /** `chunked_decode`: what one `Consume` with a fresh capture takes from the buffer. */
    method DecodeChunks(cs: ChunkState) returns (step: Step, cs': ChunkState, decoded: bytes)
      modifies this`respBuf
      ensures var d := Decode(cs, old(respBuf));
              step == d.step && cs' == d.state && respBuf == d.rest && decoded == Kept(d.data)
    {
      var reader := new ChunkReader();
      reader.state := cs;
      var rest, kept;
      step, rest, kept := reader.Consume(respBuf, EmptyCapture);
      respBuf := rest;
      cs', decoded := reader.state, kept.bytes;
    }

    method StepResponseBuffer(bs0: BodyScan) returns (more: bool, out: bytes)
      modifies this`disabled, this`resp, this`respBuf
      ensures Stepped(RespView(), out, more) == StepBuffer(old(RespView()), bs0, blob)
    {
      ghost var r, p := RespView(), Pull(bs0, respBuf);
      var bs := bs0;
      resp := Head;
      match bs.body {
        case Sized(n) =>
          var take := Min(n, |respBuf|);
          bs := bs.(scan := bs.scan + respBuf[..take], body := Sized(n - take), done := bs.done || n == take);
          respBuf := respBuf[take..];
        case Chunks(cs) =>
          var step, cs', decoded := DecodeChunks(cs);
          bs := bs.(scan := bs.scan + decoded, body := Chunks(cs'), done := bs.done || step.Done?);
          if step.Error? {
            disabled := true;
            return false, bs.origHead + Rechunk(bs.scan) + LAST_CHUNK;
          }
        case Close =>
          bs := bs.(scan := bs.scan + respBuf);
          respBuf := [];
      }
      assert bs == p.bs && !p.failed;
      more, out := Decided(bs, Decide(bs.scan, bs.done));
    }

    /** Once the scan has its verdict. */
    method Decided(bs: BodyScan, v: Verdict) returns (more: bool, out: bytes)
      modifies this`resp
      ensures Stepped(RespView(), out, more) == Settle(old(RespView()), bs, v, blob)
    {
      if v.Wait? {
        resp := Buffer(bs);
        return false, [];
      }
      var head := bs.origHead;
      if v.Inject? {
        head := HeadEdit.RebuildResponseHead(bs.origHead, NewLength(bs.clOriginal, blob));
      }
      out := head + Encode(bs.body, Apply(v, bs.scan, blob));
      match bs.body {
        case Sized(n) => resp := if n == 0 then Head else Stream(Sized(n));
        case Chunks(cs) =>
          if bs.done {
            out := out + LAST_CHUNK;
            resp := Head;
          } else {
            resp := Stream(Chunks(cs));
          }
        case Close => resp := Stream(Close);
      }
      more := true;
      assert EmitDecided(bs, v, blob) + [] == EmitDecided(bs, v, blob);
    }

    method StepResponseStream(kind: BodyKind) returns (more: bool, out: bytes)
      modifies this`disabled, this`resp, this`respBuf
      ensures Stepped(RespView(), out, more) == StepStream(old(RespView()), kind)
    {
      match kind
      case Sized(n) =>
        var take := Min(n, |respBuf|);
        out, respBuf := respBuf[..take], respBuf[take..];
        more, resp := n == take, if n == take then Head else Stream(Sized(n - take));
      case Chunks(cs) =>
        var step, cs', decoded := DecodeChunks(cs);
        out := Rechunk(decoded);
        match step {
          case NeedMore => more, resp := false, Stream(Chunks(cs'));
          case Done => more, resp, out := true, Head, out + LAST_CHUNK;
          case Error => more, resp, disabled, out := false, Head, true, out + LAST_CHUNK;
        }
      case Close =>
        out, respBuf := respBuf, [];
        more, resp := false, Stream(Close);
    }

    method StepResponsePass(kind: BodyKind) returns (more: bool, out: bytes)
      modifies this`disabled, this`resp, this`respBuf
      ensures Stepped(RespView(), out, more) == StepPass(old(RespView()), kind)
    {
      match kind
      case Sized(n) =>
        var take := Min(n, |respBuf|);
        out, respBuf := respBuf[..take], respBuf[take..];
        more, resp := n == take, if n == take then Head else Pass(Sized(n - take));
      case Chunks(cs) =>
        var before := respBuf;
        DecodeShrinks(cs, before);
        var step, cs', _ := DecodeChunks(cs);
        out := before[..|before| - |respBuf|];
        match step {
          case NeedMore => more, resp := false, Pass(Chunks(cs'));
          case Done => more, resp := true, Head;
          case Error =>
            var rest := DisableFlush();
            more, out := false, out + rest;
        }
      case Close =>
        out, respBuf := respBuf, [];
        more, resp := false, Pass(Close);
    }
  }

  /** A drained response side, with what was emitted before. */
  function After(out: bytes, d: Drained): Drained { d.(out := out + d.out) }

  lemma DriveStep(r: Resp, blob: bytes, out: bytes)
    ensures var s := StepResponse(r, blob);
            After(out, Drive(r, blob)) == if s.more then After(out + s.out, Drive(s.resp, blob)) else Drained(s.resp, out + s.out)
  {
    var s := StepResponse(r, blob);
    if s.more {
      Assoc(out, s.out, Drive(s.resp, blob).out);
    }
  }

  /** A drained request side, with what was sent and queued before. */
  function Before(out: bytes, pushed: seq<bool>, d: ReqDrained): ReqDrained { d.(out := out + d.out, pushed := pushed + d.pushed) }

  lemma BeforeNothing(d: ReqDrained)
    ensures Before([], [], d) == d
  {
    assert [] + d.out == d.out && [] + d.pushed == d.pushed;
  }

  lemma DriveOn(q: Req, out: bytes, pushed: seq<bool>)
    ensures var s := StepRequest(q);
            Before(out, pushed, DriveRequest(q))
            == if s.more then Before(out + s.out, pushed + s.pushed, DriveRequest(s.req))
               else ReqDrained(s.req, out + s.out, pushed + s.pushed, s.disables)
  {
    var s := StepRequest(q);
    if s.more {
      RequestProgress(q);
      Assoc(out, s.out, DriveRequest(s.req).out);
      Assoc(pushed, s.pushed, DriveRequest(s.req).pushed);
    }
  }

  lemma AppendPushed(q: seq<bool>, a: seq<bool>, b: seq<bool>)
    ensures q + a + b == q + (a + b)
  {
  }

  lemma OneMoreFed(evs: seq<Conservation.Event>, i: nat)
    requires i < |evs|
    ensures var e := evs[i];
            && Conservation.Fed(evs[..i + 1]) == Conservation.Fed(evs[..i]) + (if e.Response? then e.data else [])
            && Exchange.Asked(evs[..i + 1]) == Exchange.Asked(evs[..i]) + (if e.Request? then e.data else [])
  {
    assert evs[..i + 1] == evs[..i] + [evs[i]];
    FedOne(evs[..i], evs[i]);
  }

  lemma {:induction false} FedOne(evs: seq<Conservation.Event>, e: Conservation.Event)
    ensures Conservation.Fed(evs + [e]) == Conservation.Fed(evs) + (if e.Response? then e.data else [])
    ensures Exchange.Asked(evs + [e]) == Exchange.Asked(evs) + (if e.Request? then e.data else [])
    decreases |evs|
  {
    var response, request := if e.Response? then e.data else [], if e.Request? then e.data else [];
    if evs == [] {
      assert evs + [e] == [e] && [e][1..] == evs;
      assert response + [] == response == [] + response && request + [] == request == [] + request;
    } else {
      assert (evs + [e])[0] == evs[0] && (evs + [e])[1..] == evs[1..] + [e];
      FedOne(evs[1..], e);
      Assoc(Conservation.FedBy(evs[0]), Conservation.Fed(evs[1..]), response);
      Assoc(if evs[0].Request? then evs[0].data else [], Exchange.Asked(evs[1..]), request);
    }
  }

  /** Without a style sheet and a script, both directions pass byte for byte, at every moment. */
  method PassThrough(evs: seq<Conservation.Event>) returns (toServer: bytes, toApp: bytes)
    ensures toServer == Exchange.Asked(evs) && toApp == Conservation.Fed(evs)
  {
    var rewriter := new HttpRewriter();
    rewriter.SetCosmetic([], []);
    toServer, toApp := [], [];
    for i := 0 to |evs|
      invariant !rewriter.active && rewriter.reqBuf == [] && rewriter.respBuf == []
      invariant toServer == Exchange.Asked(evs[..i]) && toApp == Conservation.Fed(evs[..i])
    {
      OneMoreFed(evs, i);
      match evs[i] {
        case Request(data) =>
          var out := rewriter.FeedRequest(data);
          toServer := toServer + out;
          assert [] + data == data;
        case Response(data) =>
          var out := rewriter.FeedResponse(data);
          toApp := toApp + out;
          assert [] + data == data;
        case Closed =>
      }
      assert toServer + [] == toServer && toApp + [] == toApp;
    }
    assert evs[..|evs|] == evs;
  }
}
