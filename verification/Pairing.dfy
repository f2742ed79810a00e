/** Whatever the cuts and the interleaving, the tap pairs the k-th request with the k-th final response. */
module Pairing {
  import opened Bytes
  import opened Chunked
  import opened HttpHead
  import opened Rewriter
  import opened HttpTap
  import HeadEdit
  import M = Messages

  /** One message as it was sent: its head and the wire form of its body, and what the head says. */
  datatype Wired<H> = Wired(head: bytes, wire: bytes, h: H)

  /** Requests and responses in the order of the wire. */
  type Asks = seq<Wired<Request>>
  type Answers = seq<Wired<Response>>

  function WireOf<H>(m: Wired<H>): bytes { m.head + m.wire }

  function WireAll<H>(ms: seq<Wired<H>>): bytes { if ms == [] then [] else WireOf(ms[0]) + WireAll(ms[1..]) }

  function Fields<H>(m: Wired<H>): Option<Parsed> { ParseHeadFields(HeadEdit.WithoutEnd(m.head)) }

  predicate WholeHead<H>(m: Wired<H>) {
    FindHeaderEnd(m.head) == Some(|m.head|) && |m.head| <= MAX_HEADER_BYTES && Fields(m).Some?
  }

  /** `wire` is exactly the body that the framing announces. A body that runs until the close is followed by a mark that stands
      for the close, and that never comes as a byte. */
  predicate FramedBody(f: Option<Framing>, wire: bytes) {
    match f
    case None => wire == []
    case Some(Length(n)) => |wire| == n && n > 0
    case Some(Chunked) => M.Complete(InSize([]), wire)
    case Some(UntilClose) => wire != []
  }

  function DocOf(f: Option<Framing>, wire: bytes): bytes {
    if f == Some(Framing.Chunked) then Body(InSize([]), wire)
    else if f == Some(UntilClose) && wire != [] then wire[..|wire| - 1]
    else wire
  }

  // --- bodies ----------------------------------------------------------------

  /** The reader has read `data` of the document, and the wire bytes `pend` hold the rest of it. */
  ghost predicate Mid(b: BodyState, data: bytes, pend: bytes, doc: bytes) {
    && b.cap == PushCapped(EmptyCapture, data)
    && match b.kind
       case Sized(n) => n == |pend| && n > 0 && data + pend == doc
       case Chunks(cs) => M.Complete(Start(cs), pend) && data + Body(Start(cs), pend) == doc
       case Close => pend != [] && data + pend[..|pend| - 1] == doc
  }

  lemma MidBegins(f: Framing, wire: bytes)
    requires FramedBody(Some(f), wire)
    ensures Mid(BodyOf(f), [], wire, DocOf(Some(f), wire))
  {
    PushCappedNothing(EmptyCapture);
    assert [] + wire == wire;
    assert f.Chunked? ==> [] + Body(InSize([]), wire) == Body(InSize([]), wire);
    assert f.UntilClose? ==> [] + wire[..|wire| - 1] == wire[..|wire| - 1];
  }

  lemma MidWhole(b: BodyState, data: bytes, pend: bytes, tail: bytes, doc: bytes)
    requires Mid(b, data, pend, doc) && !b.kind.Close?
    ensures var c := ConsumeBody(b, pend + tail); c.step.Done? && c.rest == tail && c.body.cap == PushCapped(EmptyCapture, doc)
  {
    if b.kind.Chunks? {
      var cs := b.kind.reader;
      M.ChunksWhole(cs, pend, tail);
      PushMore(EmptyCapture, data, b.cap, Body(Start(cs), pend));
    } else {
      assert (pend + tail)[..|pend|] == pend && (pend + tail)[|pend|..] == tail;
      PushMore(EmptyCapture, data, b.cap, pend);
    }
  }

  lemma MidPart(b: BodyState, data: bytes, buf: bytes, later: bytes, doc: bytes) returns (data': bytes)
    requires Mid(b, data, buf + later, doc) && later != [] && |buf| <= MAX_HEADER_BYTES
    ensures var c := ConsumeBody(b, buf);
            && c.step.NeedMore? && |c.rest| <= 1 && Mid(c.body, data', c.rest + later, doc)
            && (c.body.kind.Close? <==> b.kind.Close?) && (b.kind.Close? ==> c.rest == [])
  {
    if b.kind.Chunks? {
      var cs := b.kind.reader;
      M.ChunksPart(cs, buf, later);
      var d := Decode(cs, buf);
      PushMore(EmptyCapture, data, b.cap, d.data);
      data' := data + d.data;
      Assoc(data, d.data, Body(Start(d.state), d.rest + later));
    } else {
      assert buf[..|buf|] == buf && buf[|buf|..] == [] && [] + later == later;
      PushMore(EmptyCapture, data, b.cap, buf);
      data' := data + buf;
      Assoc(data, buf, later);
      Assoc(data, buf, later[..|later| - 1]);
      assert (buf + later)[..|buf + later| - 1] == buf + later[..|later| - 1];
    }
  }

  // --- heads -----------------------------------------------------------------

  lemma HeadWaits<H>(buf: bytes, m: Wired<H>, later: bytes, tail: bytes)
    requires WholeHead(m) && |buf| < |m.head| && buf + later == WireOf(m) + tail
    ensures TakeHead(buf) == HeadNeedMore
  {
    M.FrontOf(buf, later, m.head, m.wire + tail);
    Assoc(m.head, m.wire, tail);
    M.HeadNotYet(buf, m.head);
  }

  lemma HeadTaken<H>(m: Wired<H>, rest: bytes)
    requires WholeHead(m)
    ensures TakeHead(m.head + rest) == HeadGot(m.head, Fields(m).value, rest)
  {
    M.HeadFound(m.head, rest);
    assert (m.head + rest)[..|m.head|] == m.head && (m.head + rest)[|m.head|..] == rest;
  }

  /** A buffer that holds the head splits after it. */
  lemma AfterHead<H>(buf: bytes, m: Wired<H>, later: bytes, tail: bytes)
    requires |buf| >= |m.head| && buf + later == WireOf(m) + tail
    ensures buf == m.head + buf[|m.head|..] && buf[|m.head|..] + later == m.wire + tail
  {
    M.FrontOf(m.head, m.wire + tail, buf, later);
    Assoc(m.head, m.wire, tail);
    assert m.head + (buf[|m.head|..] + later) == m.head + (m.wire + tail);
    assert (m.head + (buf[|m.head|..] + later))[|m.head|..] == buf[|m.head|..] + later;
    assert (m.head + (m.wire + tail))[|m.head|..] == m.wire + tail;
  }

  // --- requests --------------------------------------------------------------

  predicate WholeRequest(m: Wired<Request>) {
    WholeHead(m) && RequestOf(m.head, Fields(m).value) == Some(m.h) && FramedBody(RequestFraming(m.h.headers), m.wire)
  }

  function RequestDoc(m: Wired<Request>): bytes { DocOf(RequestFraming(m.h.headers), m.wire) }

  /** The request as the tap is to report it. */
  function Sent(m: Wired<Request>): Request { AttachRequest(m.h, PushCapped(EmptyCapture, RequestDoc(m))) }

  predicate AllRequests(ms: Asks) { forall i :: 0 <= i < |ms| ==> WholeRequest(ms[i]) }

  function SentAll(ms: Asks): (r: seq<Request>)
    ensures |r| == |ms|
  {
    seq(|ms|, i requires 0 <= i < |ms| => Sent(ms[i]))
  }

  /** `left` is what the tap has still to take of the requests, its buffer included; `ms` are the requests it has yet to
      finish, and `pend` the wire bytes left of the one it is in. */
  ghost predicate InRequests(t: Tap, ms: Asks, pend: bytes, left: bytes) {
    match t.reqPartial
    case None => left == WireAll(ms)
    case Some((r, b)) =>
      && ms != [] && WholeRequest(ms[0]) && ms[0].h == r && !b.kind.Close?
      && left == pend + WireAll(ms[1..]) && exists data :: Mid(b, data, pend, RequestDoc(ms[0]))
  }

  /** The tap waits for more: the request it is in has not come whole, and little is buffered. */
  ghost predicate RequestsWait(t: Tap, ms: Asks, later: bytes) {
    && (ms == [] ==> t.reqBuf == [])
    && (ms != [] ==> |later| > |WireAll(ms[1..])|)
    && (ms != [] ==> |t.reqBuf| <= if t.reqPartial.None? then |ms[0].head| else 1)
  }

  /** Room for one feed beyond what waiting leaves. */
  predicate RequestsBounded(t: Tap, ms: Asks) {
    |t.reqBuf| <= M.PIECE_MAX + if t.reqPartial.None? && ms != [] then |ms[0].head| else 0
  }

  /** The parts of the tap that the requests do not touch. */
  predicate SameResponses(t: Tap, u: Tap) {
    u == t.(reqBuf := u.reqBuf, reqPartial := u.reqPartial, pending := u.pending)
  }

  /** What draining the requests achieves: the first `k` are finished. */
  ghost predicate RequestsDrained(t: Tap, u: Tap, ms: Asks, k: nat, pend: bytes, later: bytes) {
    && k <= |ms| && SameResponses(t, u) && u.pending == t.pending + SentAll(ms[..k])
    && InRequests(u, ms[k..], pend, u.reqBuf + later) && RequestsWait(u, ms[k..], later)
  }

  lemma RequestHeadWaits(t: Tap, ms: Asks, later: bytes)
    requires AllRequests(ms) && t.reqPartial.None? && InRequests(t, ms, [], t.reqBuf + later)
    requires ms == [] || |t.reqBuf| < |ms[0].head|
    ensures RequestTurn(t) == Stop(t) && RequestsDrained(t, t, ms, 0, [], later)
  {
    assert ms[0..] == ms && t.pending + SentAll(ms[..0]) == t.pending;
    if ms == [] {
      assert t.reqBuf == [] && FindHeaderEnd([]).None?;
    } else {
      HeadWaits(t.reqBuf, ms[0], later, WireAll(ms[1..]));
    }
  }

  lemma RequestHeadTaken(t: Tap, m: Wired<Request>, rest: bytes)
    requires WholeRequest(m) && t.reqPartial.None? && t.reqBuf == m.head + rest
    ensures var r := m.h;
            var f := RequestFraming(r.headers);
            RequestTurn(t) == Again(if f.None? then PushPending(t.(reqBuf := rest), Sent(m))
                                    else t.(reqBuf := rest, reqPartial := Some((r, BodyOf(f.value)))))
  {
    HeadTaken(m, rest);
    PushCappedNothing(EmptyCapture);
  }

  lemma RequestBodyTaken(t: Tap, m: Wired<Request>, pend: bytes, tail: bytes)
    requires WholeRequest(m) && t.reqPartial.Some? && t.reqPartial.value.0 == m.h
    requires t.reqBuf == pend + tail && !t.reqPartial.value.1.kind.Close? && exists data :: Mid(t.reqPartial.value.1, data, pend, RequestDoc(m))
    ensures RequestTurn(t) == Again(PushPending(t.(reqBuf := tail, reqPartial := None), Sent(m)))
  {
    var b := t.reqPartial.value.1;
    var data :| Mid(b, data, pend, RequestDoc(m));
    MidWhole(b, data, pend, tail, RequestDoc(m));
  }

  lemma RequestBodyWaits(t: Tap, ms: Asks, pend: bytes, later: bytes) returns (pend': bytes)
    requires AllRequests(ms) && t.reqPartial.Some? && InRequests(t, ms, pend, t.reqBuf + later)
    requires |t.reqBuf| < |pend| && |t.reqBuf| <= M.PIECE_MAX
    ensures RequestTurn(t).Stop? && RequestsDrained(t, RequestTurn(t).tap, ms, 0, pend', later)
  {
    var (r, b) := t.reqPartial.value;
    var doc := RequestDoc(ms[0]);
    var data :| Mid(b, data, pend, doc);
    var rest := pend[|t.reqBuf|..];
    M.FrontOf(t.reqBuf, later, pend, WireAll(ms[1..]));
    var data' := MidPart(b, data, t.reqBuf, rest, doc);
    var c := ConsumeBody(b, t.reqBuf);
    pend' := c.rest + rest;
    RestOfPend(t.reqBuf, later, pend, WireAll(ms[1..]), c.rest);
    assert ms[0..] == ms && t.pending + SentAll(ms[..0]) == t.pending;
  }

  lemma RestOfPend(buf: bytes, later: bytes, pend: bytes, tail: bytes, kept: bytes)
    requires buf + later == pend + tail && |buf| < |pend|
    ensures kept + later == kept + pend[|buf|..] + tail && |later| > |tail|
  {
    M.FrontOf(buf, later, pend, tail);
    assert (buf + later)[|buf|..] == later;
    assert (pend + tail)[|buf|..] == pend[|buf|..] + tail;
  }

  /** Draining finishes every request that has come whole, in order, and nothing more. */
  lemma {:induction false} DrainingRequests(t: Tap, ms: Asks, pend: bytes, later: bytes) returns (k: nat, pend': bytes)
    requires AllRequests(ms) && InRequests(t, ms, pend, t.reqBuf + later) && RequestsBounded(t, ms)
    ensures RequestsDrained(t, DrainRequests(t), ms, k, pend', later)
    decreases |ms|, |t.reqBuf|, PartialRank(t.reqPartial)
  {
    if t.reqPartial.None? {
      if ms == [] || |t.reqBuf| < |ms[0].head| {
        RequestHeadWaits(t, ms, later);
        k, pend' := 0, [];
      } else {
        k, pend' := RequestHeadGoes(t, ms, later);
      }
    } else if |t.reqBuf| < |pend| {
      pend' := RequestBodyWaits(t, ms, pend, later);
      k := 0;
    } else {
      k, pend' := RequestBodyGoes(t, ms, pend, later);
    }
  }

  lemma RequestHeadGoes(t: Tap, ms: Asks, later: bytes) returns (k: nat, pend': bytes)
    requires AllRequests(ms) && t.reqPartial.None? && InRequests(t, ms, [], t.reqBuf + later) && RequestsBounded(t, ms)
    requires ms != [] && |t.reqBuf| >= |ms[0].head|
    ensures RequestsDrained(t, DrainRequests(t), ms, k, pend', later)
    decreases |ms|, |t.reqBuf|, 0, 0
  {
    var m, rest := ms[0], t.reqBuf[|ms[0].head|..];
    AfterHead(t.reqBuf, m, later, WireAll(ms[1..]));
    RequestHeadTaken(t, m, rest);
    var u := RequestTurn(t).tap;
    if RequestFraming(m.h.headers).None? {
      assert m.wire + WireAll(ms[1..]) == WireAll(ms[1..]);
      k, pend' := DrainingRequests(u, ms[1..], [], later);
      OneRequestMore(t, u, DrainRequests(u), ms, k, pend', later);
      k := k + 1;
    } else {
      RequestBodyOpens(t, u, ms, later, rest);
      k, pend' := DrainingRequests(u, ms, m.wire, later);
      RequestsDrainedSame(t, u, DrainRequests(u), ms, k, pend', later);
    }
  }

  lemma RequestBodyOpens(t: Tap, u: Tap, ms: Asks, later: bytes, rest: bytes)
    requires AllRequests(ms) && ms != [] && RequestFraming(ms[0].h.headers).Some?
    requires rest + later == ms[0].wire + WireAll(ms[1..]) && |rest| <= M.PIECE_MAX
    requires var r := ms[0].h;
             u == t.(reqBuf := rest, reqPartial := Some((r, BodyOf(RequestFraming(r.headers).value))))
    ensures InRequests(u, ms, ms[0].wire, u.reqBuf + later) && RequestsBounded(u, ms)
  {
    RequestMidBegins(ms[0]);
  }

  lemma RequestMidBegins(m: Wired<Request>)
    requires WholeRequest(m) && RequestFraming(m.h.headers).Some?
    ensures Mid(BodyOf(RequestFraming(m.h.headers).value), [], m.wire, RequestDoc(m))
    ensures !BodyOf(RequestFraming(m.h.headers).value).kind.Close?
  {
    MidBegins(RequestFraming(m.h.headers).value, m.wire);
  }

  lemma RequestsDrainedSame(t: Tap, u: Tap, v: Tap, ms: Asks, k: nat, pend: bytes, later: bytes)
    requires AllRequests(ms) && SameResponses(t, u) && u.pending == t.pending && RequestsDrained(u, v, ms, k, pend, later)
    ensures RequestsDrained(t, v, ms, k, pend, later)
  {
  }

  lemma RequestBodyGoes(t: Tap, ms: Asks, pend: bytes, later: bytes) returns (k: nat, pend': bytes)
    requires AllRequests(ms) && t.reqPartial.Some? && InRequests(t, ms, pend, t.reqBuf + later) && RequestsBounded(t, ms)
    requires |t.reqBuf| >= |pend|
    ensures RequestsDrained(t, DrainRequests(t), ms, k, pend', later)
    decreases |ms|, |t.reqBuf|, 1, 0
  {
    var tail := t.reqBuf[|pend|..];
    M.FrontOf(pend, WireAll(ms[1..]), t.reqBuf, later);
    RequestBodyTaken(t, ms[0], pend, tail);
    var u := RequestTurn(t).tap;
    TailLeft(t.reqBuf, later, pend, WireAll(ms[1..]));
    k, pend' := DrainingRequests(u, ms[1..], [], later);
    OneRequestMore(t, u, DrainRequests(u), ms, k, pend', later);
    k := k + 1;
  }

  lemma TailLeft(buf: bytes, later: bytes, pend: bytes, tail: bytes)
    requires buf + later == pend + tail && |buf| >= |pend|
    ensures buf[|pend|..] + later == tail
  {
    assert (buf + later)[|pend|..] == buf[|pend|..] + later;
    assert (pend + tail)[|pend|..] == tail;
  }

  lemma SentFirst(ms: Asks, k: nat)
    requires k < |ms|
    ensures SentAll(ms[..k + 1]) == [Sent(ms[0])] + SentAll(ms[1..][..k])
  {
  }

  lemma OneRequestMore(t: Tap, u: Tap, v: Tap, ms: Asks, k: nat, pend: bytes, later: bytes)
    requires ms != [] && AllRequests(ms) && SameResponses(t, u) && u.pending == t.pending + [Sent(ms[0])]
    requires RequestsDrained(u, v, ms[1..], k, pend, later)
    ensures RequestsDrained(t, v, ms, k + 1, pend, later)
  {
    assert ms[1..][k..] == ms[k + 1..];
    SentFirst(ms, k);
    Assoc(t.pending, [Sent(ms[0])], SentAll(ms[1..][..k]));
  }

  // --- responses -------------------------------------------------------------

  predicate Interim(r: Response) { Informational(r.status) && r.status != 101 }

  predicate IsInterim(m: Wired<Response>) { Interim(m.h) }

  predicate IsHead(q: Wired<Request>) { IsHeadMethod(q.h.verb) }

  function FramingFor(m: Wired<Response>, isHead: bool): Option<Framing> {
    ResponseFraming(m.h.status, isHead, m.h.headers)
  }

  /** A whole response to a request that was, or was not, a HEAD request. */
  predicate WholeResponse(m: Wired<Response>, isHead: bool) {
    && WholeHead(m) && ResponseOf(m.head, Fields(m).value) == Some(m.h) && m.h.status != 101
    && if Interim(m.h) then m.wire == [] else FramedBody(FramingFor(m, isHead), m.wire)
  }

  function ResponseDoc(m: Wired<Response>, isHead: bool): bytes { DocOf(FramingFor(m, isHead), m.wire) }

  /** The response as the tap is to report it. */
  function Received(m: Wired<Response>, isHead: bool): Response {
    AttachResponse(m.h, PushCapped(EmptyCapture, ResponseDoc(m, isHead)))
  }

  function NextUnanswered(m: Wired<Response>, qs: Asks): Asks { if IsInterim(m) || qs == [] then qs else qs[1..] }

  /** The response is interim, or final and whole for the first of the requests. */
  predicate AnswersFirst(m: Wired<Response>, qs: Asks) {
    if IsInterim(m) then WholeResponse(m, false) else qs != [] && WholeResponse(m, IsHead(qs[0]))
  }

  /** The response runs until the connection closes. */
  predicate Closes(m: Wired<Response>, qs: Asks) {
    !IsInterim(m) && qs != [] && FramingFor(m, IsHead(qs[0])) == Some(UntilClose)
  }

  /** The final responses among `ms` answer the requests `qs` in turn; only the last may run until the close. */
  predicate Answering(ms: Answers, qs: Asks)
    decreases |ms|
  {
    ms == [] || (AnswersFirst(ms[0], qs) && (Closes(ms[0], qs) ==> |ms| == 1) && Answering(ms[1..], NextUnanswered(ms[0], qs)))
  }

  /** The last response runs until the close. */
  predicate OpenEnded(ms: Answers, qs: Asks)
    decreases |ms|
  {
    ms != [] && if |ms| == 1 then Closes(ms[0], qs) else OpenEnded(ms[1..], NextUnanswered(ms[0], qs))
  }

  function Pair(sni: Option<bytes>, q: Wired<Request>, m: Wired<Response>): Transaction {
    var h := HeaderValue(Sent(q).headers, A("host"));
    Transaction(if h.Some? then h else sni, Sent(q), Received(m, IsHead(q)))
  }

  type Match = (Wired<Request>, Wired<Response>)

  function MatchOf(m: Wired<Response>, qs: Asks): seq<Match> { if IsInterim(m) || qs == [] then [] else [(qs[0], m)] }

  /** Each final response with its request; interim responses are passed over. */
  function Matches(ms: Answers, qs: Asks): seq<Match>
    decreases |ms|
  {
    if ms == [] then [] else MatchOf(ms[0], qs) + Matches(ms[1..], NextUnanswered(ms[0], qs))
  }

  function PairAll(sni: Option<bytes>, xs: seq<Match>): (r: seq<Transaction>)
    ensures |r| == |xs|
  {
    seq(|xs|, i requires 0 <= i < |xs| => Pair(sni, xs[i].0, xs[i].1))
  }

  lemma PairAllAppend(sni: Option<bytes>, a: seq<Match>, b: seq<Match>)
    ensures PairAll(sni, a + b) == PairAll(sni, a) + PairAll(sni, b)
  {
  }

  /** The matches as the tap is to report them. */
  function Pairs(sni: Option<bytes>, ms: Answers, qs: Asks): seq<Transaction> { PairAll(sni, Matches(ms, qs)) }

  /** The requests that the responses `ms` leave unanswered. */
  function Unanswered(ms: Answers, qs: Asks): Asks
    decreases |ms|
  {
    if ms == [] then qs else Unanswered(ms[1..], NextUnanswered(ms[0], qs))
  }

  lemma FirstOfMany(ms: Answers, k: nat)
    requires k < |ms|
    ensures ms[..k + 1] != [] && ms[..k + 1][0] == ms[0] && ms[..k + 1][1..] == ms[1..][..k] && ms[1..][k..] == ms[k + 1..]
  {
  }

  /** The first response and `k` more. */
  lemma MatchesFirst(ms: Answers, k: nat, qs: Asks)
    requires k < |ms|
    ensures Unanswered(ms[..k + 1], qs) == Unanswered(ms[1..][..k], NextUnanswered(ms[0], qs))
    ensures Matches(ms[..k + 1], qs) == MatchOf(ms[0], qs) + Matches(ms[1..][..k], NextUnanswered(ms[0], qs))
  {
    FirstOfMany(ms, k);
  }

  lemma PairsFirst(sni: Option<bytes>, ms: Answers, k: nat, qs: Asks)
    requires k < |ms|
    ensures Unanswered(ms[..k + 1], qs) == Unanswered(ms[1..][..k], NextUnanswered(ms[0], qs))
    ensures Pairs(sni, ms[..k + 1], qs) == PairAll(sni, MatchOf(ms[0], qs)) + Pairs(sni, ms[1..][..k], NextUnanswered(ms[0], qs))
  {
    MatchesFirst(ms, k, qs);
    PairAllAppend(sni, MatchOf(ms[0], qs), Matches(ms[1..][..k], NextUnanswered(ms[0], qs)));
  }

  /** With `p` requests waiting and no more than `later` bytes still to come, every response that has begun has its
      request. */
  predicate Timely(ms: Answers, later: nat, p: nat)
    decreases |ms|
  {
    ms == [] || |WireAll(ms)| <= later
    || (if IsInterim(ms[0]) then Timely(ms[1..], later, p) else p > 0 && Timely(ms[1..], later, p - 1))
  }

  /** The tap stands in the responses as `InRequests` says of the requests. */
  ghost predicate InResponses(t: Tap, ms: Answers, qs: Asks, pend: bytes, left: bytes) {
    match t.respPartial
    case None => left == WireAll(ms)
    case Some((r, b)) =>
      && ms != [] && qs != [] && !IsInterim(ms[0]) && WholeResponse(ms[0], IsHead(qs[0])) && ms[0].h == r
      && (b.kind.Close? <==> Closes(ms[0], qs))
      && left == pend + WireAll(ms[1..]) && exists data :: Mid(b, data, pend, ResponseDoc(ms[0], IsHead(qs[0])))
  }

  ghost predicate ResponsesWait(t: Tap, ms: Answers, later: bytes) {
    && (ms == [] ==> t.respBuf == [])
    && (ms != [] ==> |later| > |WireAll(ms[1..])|)
    && (ms != [] ==> if t.respPartial.None? then |t.respBuf| < |ms[0].head| else |t.respBuf| <= 1)
    && (t.respPartial.Some? && t.respPartial.value.1.kind.Close? ==> t.respBuf == [])
  }

  predicate ResponsesBounded(t: Tap, ms: Answers) {
    |t.respBuf| <= M.PIECE_MAX + if t.respPartial.None? && ms != [] then |ms[0].head| else 0
  }

  /** The queue holds the first of the unanswered requests. */
  ghost predicate Queued(t: Tap, qs: Asks) {
    |t.pending| <= |qs| && t.pending == SentAll(qs[..|t.pending|])
  }

  predicate SameRequests(t: Tap, u: Tap) {
    u == t.(respBuf := u.respBuf, respPartial := u.respPartial, pending := u.pending, completed := u.completed)
  }

  /** Everything that holds before and after a drain of the responses. */
  ghost predicate Standing(t: Tap, ms: Answers, qs: Asks, pend: bytes, later: bytes) {
    && AllRequests(qs) && Answering(ms, qs) && Queued(t, qs) && InResponses(t, ms, qs, pend, t.respBuf + later)
    && (OpenEnded(ms, qs) ==> later != [])
  }

  /** What draining the responses achieves: the first `k` of them are taken and the final ones among them paired. */
  ghost predicate ResponsesDrained(t: Tap, u: Tap, ms: Answers, qs: Asks, k: nat, pend: bytes, later: bytes) {
    && k <= |ms| && SameRequests(t, u)
    && u.completed == t.completed + Pairs(t.sni, ms[..k], qs)
    && |u.pending| + |qs| == |t.pending| + |Unanswered(ms[..k], qs)|
    && Standing(u, ms[k..], Unanswered(ms[..k], qs), pend, later)
    && ResponsesWait(u, ms[k..], later)
  }

  lemma NothingDrained(t: Tap, u: Tap, ms: Answers, qs: Asks, pend: bytes, later: bytes)
    requires Standing(u, ms, qs, pend, later) && ResponsesWait(u, ms, later)
    requires SameRequests(t, u) && u.pending == t.pending && u.completed == t.completed
    ensures ResponsesDrained(t, u, ms, qs, 0, pend, later)
  {
    assert ms[0..] == ms && ms[..0] == [];
    assert t.completed + Pairs(t.sni, ms[..0], qs) == t.completed;
  }

  lemma ResponseHeadWaits(t: Tap, ms: Answers, qs: Asks, later: bytes)
    requires Standing(t, ms, qs, [], later) && t.respPartial.None?
    requires ms == [] || |t.respBuf| < |ms[0].head|
    ensures ResponseTurn(t) == Stop(t) && ResponsesWait(t, ms, later)
  {
    if ms == [] {
      assert t.respBuf == [] && FindHeaderEnd([]).None?;
    } else {
      HeadWaits(t.respBuf, ms[0], later, WireAll(ms[1..]));
    }
  }

  lemma ResponseHeadTaken(t: Tap, m: Wired<Response>, rest: bytes)
    requires WholeHead(m) && ResponseOf(m.head, Fields(m).value) == Some(m.h) && t.respPartial.None? && t.respBuf == m.head + rest
    ensures ResponseTurn(t) == RouteResponse(t.(respBuf := rest), m.h)
  {
    HeadTaken(m, rest);
  }

  lemma ResponseBodyTaken(t: Tap, m: Wired<Response>, isHead: bool, pend: bytes, tail: bytes)
    requires WholeResponse(m, isHead) && t.respPartial.Some? && t.respPartial.value.0 == m.h
    requires !t.respPartial.value.1.kind.Close?
    requires t.respBuf == pend + tail && exists data :: Mid(t.respPartial.value.1, data, pend, ResponseDoc(m, isHead))
    ensures ResponseTurn(t) == Again(Complete(t.(respBuf := tail, respPartial := None), Received(m, isHead)))
  {
    var b := t.respPartial.value.1;
    var data :| Mid(b, data, pend, ResponseDoc(m, isHead));
    MidWhole(b, data, pend, tail, ResponseDoc(m, isHead));
  }

  lemma ResponseBodyWaits(t: Tap, ms: Answers, qs: Asks, pend: bytes, later: bytes) returns (pend': bytes)
    requires Standing(t, ms, qs, pend, later) && t.respPartial.Some?
    requires |t.respBuf| < |pend| && |t.respBuf| <= M.PIECE_MAX
    ensures ResponseTurn(t).Stop?
    ensures var u := ResponseTurn(t).tap;
            SameRequests(t, u) && u.pending == t.pending && u.completed == t.completed
            && Standing(u, ms, qs, pend', later) && ResponsesWait(u, ms, later)
  {
    var (r, b) := t.respPartial.value;
    var doc := ResponseDoc(ms[0], IsHead(qs[0]));
    var data :| Mid(b, data, pend, doc);
    var rest := pend[|t.respBuf|..];
    M.FrontOf(t.respBuf, later, pend, WireAll(ms[1..]));
    var data' := MidPart(b, data, t.respBuf, rest, doc);
    var c := ConsumeBody(b, t.respBuf);
    pend' := c.rest + rest;
    RestOfPend(t.respBuf, later, pend, WireAll(ms[1..]), c.rest);
  }

  lemma QueueFront(t: Tap, qs: Asks)
    requires AllRequests(qs) && Queued(t, qs) && t.pending != []
    ensures qs != [] && t.pending[0] == Sent(qs[0]) && FrontIsHead(t) == IsHead(qs[0])
    ensures Queued(t.(pending := t.pending[1..]), qs[1..])
  {
    QueueRest(qs, |t.pending|);
  }

  lemma QueueRest(qs: Asks, p: nat)
    requires 0 < p <= |qs|
    ensures SentAll(qs[..p])[0] == Sent(qs[0]) && SentAll(qs[..p])[1..] == SentAll(qs[1..][..p - 1])
  {
    assert qs[..p][1..] == qs[1..][..p - 1];
  }

  /** A final response that is complete meets its request. */
  lemma CompletesPair(t: Tap, m: Wired<Response>, qs: Asks)
    requires AllRequests(qs) && Queued(t, qs) && t.pending != []
    ensures Complete(t, Received(m, IsHead(qs[0]))) ==
            t.(pending := t.pending[1..], completed := t.completed + [Pair(t.sni, qs[0], m)])
  {
    QueueFront(t, qs);
  }

  lemma TimelyNow(ms: Answers, later: nat, p: nat)
    requires Timely(ms, later, p) && ms != [] && |WireAll(ms)| > later
    ensures Timely(ms[1..], later, if IsInterim(ms[0]) then p else p - 1) && (!IsInterim(ms[0]) ==> p > 0)
  {
  }

  /** Draining takes every response that has come whole, in order, and pairs the final ones. */
  lemma {:induction false} DrainingResponses(t: Tap, ms: Answers, qs: Asks, pend: bytes, later: bytes) returns (k: nat, pend': bytes)
    requires Standing(t, ms, qs, pend, later) && ResponsesBounded(t, ms) && Timely(ms, |later|, |t.pending|)
    ensures ResponsesDrained(t, DrainResponses(t), ms, qs, k, pend', later)
    decreases |ms|, |t.respBuf|, PartialRank(t.respPartial), 4
  {
    if t.respPartial.None? {
      if ms == [] || |t.respBuf| < |ms[0].head| {
        DrainAtHead(t, ms, qs, later);
        k, pend' := 0, [];
      } else if IsInterim(ms[0]) {
        k, pend' := InterimGoes(t, ms, qs, later);
      } else {
        k, pend' := ResponseHeadGoes(t, ms, qs, later);
      }
    } else if |t.respBuf| < |pend| {
      pend' := DrainInBody(t, ms, qs, pend, later);
      k := 0;
    } else {
      k, pend' := ResponseBodyGoes(t, ms, qs, pend, later);
    }
  }

  lemma DrainAtHead(t: Tap, ms: Answers, qs: Asks, later: bytes)
    requires Standing(t, ms, qs, [], later) && t.respPartial.None?
    requires ms == [] || |t.respBuf| < |ms[0].head|
    ensures ResponsesDrained(t, DrainResponses(t), ms, qs, 0, [], later)
  {
    ResponseHeadWaits(t, ms, qs, later);
    NothingDrained(t, t, ms, qs, [], later);
  }

  lemma DrainInBody(t: Tap, ms: Answers, qs: Asks, pend: bytes, later: bytes) returns (pend': bytes)
    requires Standing(t, ms, qs, pend, later) && t.respPartial.Some?
    requires |t.respBuf| < |pend| && |t.respBuf| <= M.PIECE_MAX
    ensures ResponsesDrained(t, DrainResponses(t), ms, qs, 0, pend', later)
  {
    pend' := ResponseBodyWaits(t, ms, qs, pend, later);
    NothingDrained(t, ResponseTurn(t).tap, ms, qs, pend', later);
  }

  /** An interim response is passed over. */
  lemma InterimTurn(t: Tap, ms: Answers, qs: Asks, later: bytes) returns (u: Tap)
    requires Standing(t, ms, qs, [], later) && ResponsesBounded(t, ms) && Timely(ms, |later|, |t.pending|)
    requires t.respPartial.None? && ms != [] && |t.respBuf| >= |ms[0].head| && IsInterim(ms[0])
    ensures u == t.(respBuf := u.respBuf) && |u.respBuf| <= |t.respBuf| && DrainResponses(t) == DrainResponses(u)
    ensures Standing(u, ms[1..], qs, [], later) && ResponsesBounded(u, ms[1..]) && Timely(ms[1..], |later|, |u.pending|)
  {
    var m, rest := ms[0], t.respBuf[|ms[0].head|..];
    AfterHead(t.respBuf, m, later, WireAll(ms[1..]));
    ResponseHeadTaken(t, m, rest);
    u := t.(respBuf := rest);
    assert m.wire + WireAll(ms[1..]) == WireAll(ms[1..]);
    TimelyNow(ms, |later|, |t.pending|);
  }

  lemma InterimGoes(t: Tap, ms: Answers, qs: Asks, later: bytes) returns (k: nat, pend': bytes)
    requires Standing(t, ms, qs, [], later) && ResponsesBounded(t, ms) && Timely(ms, |later|, |t.pending|)
    requires t.respPartial.None? && ms != [] && |t.respBuf| >= |ms[0].head| && IsInterim(ms[0])
    ensures ResponsesDrained(t, DrainResponses(t), ms, qs, k, pend', later)
    decreases |ms|, |t.respBuf|, 0, 2
  {
    var u := InterimTurn(t, ms, qs, later);
    k, pend' := DrainingResponses(u, ms[1..], qs, [], later);
    InterimMore(t, u, DrainResponses(u), ms, qs, k, pend', later);
    k := k + 1;
  }

  lemma InterimMore(t: Tap, u: Tap, v: Tap, ms: Answers, qs: Asks, k: nat, pend: bytes, later: bytes)
    requires AllRequests(qs) && ms != [] && Answering(ms, qs) && IsInterim(ms[0])
    requires SameRequests(t, u) && u.pending == t.pending && u.completed == t.completed
    requires ResponsesDrained(u, v, ms[1..], qs, k, pend, later)
    ensures ResponsesDrained(t, v, ms, qs, k + 1, pend, later)
  {
    FirstOfMany(ms, k);
    PairsFirst(t.sni, ms, k, qs);
    var more := Pairs(t.sni, ms[1..][..k], qs);
    assert PairAll(t.sni, []) == [] && [] + more == more;
  }

  /** A final response whose head has come: it has no body, or the body begins. */
  lemma ResponseHeadGoes(t: Tap, ms: Answers, qs: Asks, later: bytes) returns (k: nat, pend': bytes)
    requires Standing(t, ms, qs, [], later) && ResponsesBounded(t, ms) && Timely(ms, |later|, |t.pending|)
    requires t.respPartial.None? && ms != [] && |t.respBuf| >= |ms[0].head| && !IsInterim(ms[0])
    ensures ResponsesDrained(t, DrainResponses(t), ms, qs, k, pend', later)
    decreases |ms|, |t.respBuf|, 0, 3
  {
    var m, rest := ms[0], t.respBuf[|ms[0].head|..];
    AfterHead(t.respBuf, m, later, WireAll(ms[1..]));
    ResponseHeadTaken(t, m, rest);
    HeadHasBytes(m);
    TimelyNow(ms, |later|, |t.pending|);
    QueueFront(t, qs);
    if FramingFor(m, IsHead(qs[0])).None? {
      k, pend' := BodilessGoes(t, t.(respBuf := rest), ms, qs, later);
    } else {
      k, pend' := BodyOpens(t, t.(respBuf := rest), ms, qs, later);
    }
  }

  lemma BodilessGoes(t: Tap, u: Tap, ms: Answers, qs: Asks, later: bytes) returns (k: nat, pend': bytes)
    requires Standing(t, ms, qs, [], later) && t.respPartial.None? && ms != [] && !IsInterim(ms[0]) && t.pending != []
    requires u == t.(respBuf := u.respBuf) && FramingFor(ms[0], IsHead(qs[0])).None?
    requires u.respBuf + later == ms[0].wire + WireAll(ms[1..]) && |u.respBuf| < |t.respBuf| && |u.respBuf| <= M.PIECE_MAX
    requires Timely(ms[1..], |later|, |t.pending| - 1)
    requires ResponseTurn(t) == RouteResponse(u, ms[0].h)
    ensures ResponsesDrained(t, DrainResponses(t), ms, qs, k, pend', later)
    decreases |ms|, |t.respBuf|, 0, 2
  {
    BodilessPair(u, ms[0], qs);
    assert ms[0].wire + WireAll(ms[1..]) == WireAll(ms[1..]);
    k, pend' := AfterPair(t, u, ms, qs, later);
  }

  lemma RouteOpens(u: Tap, m: Wired<Response>, qs: Asks)
    requires AllRequests(qs) && Queued(u, qs) && u.pending != []
    requires WholeResponse(m, IsHead(qs[0])) && !IsInterim(m) && FramingFor(m, IsHead(qs[0])).Some?
    ensures RouteResponse(u, m.h)
            == Again(u.(respPartial := Some((m.h, BodyOf(FramingFor(m, IsHead(qs[0])).value)))))
  {
    QueueFront(u, qs);
  }

  lemma BodyOpens(t: Tap, u: Tap, ms: Answers, qs: Asks, later: bytes) returns (k: nat, pend': bytes)
    requires Standing(t, ms, qs, [], later) && t.respPartial.None? && ms != [] && !IsInterim(ms[0]) && t.pending != []
    requires u == t.(respBuf := u.respBuf) && FramingFor(ms[0], IsHead(qs[0])).Some?
    requires u.respBuf + later == ms[0].wire + WireAll(ms[1..]) && |u.respBuf| < |t.respBuf| && |u.respBuf| <= M.PIECE_MAX
    requires Timely(ms, |later|, |t.pending|)
    requires ResponseTurn(t) == RouteResponse(u, ms[0].h)
    ensures ResponsesDrained(t, DrainResponses(t), ms, qs, k, pend', later)
    decreases |ms|, |t.respBuf|, 0, 2
  {
    RouteOpens(u, ms[0], qs);
    var v := u.(respPartial := Some((ms[0].h, BodyOf(FramingFor(ms[0], IsHead(qs[0])).value))));
    ResponseMidBegins(ms[0], IsHead(qs[0]));
    k, pend' := DrainingResponses(v, ms, qs, ms[0].wire, later);
    DrainedSame(t, v, DrainResponses(v), ms, qs, k, pend', later);
  }

  lemma HeadHasBytes<H>(m: Wired<H>)
    requires WholeHead(m)
    ensures |m.head| >= 4
  {
  }

  lemma DrainedSame(t: Tap, u: Tap, v: Tap, ms: Answers, qs: Asks, k: nat, pend: bytes, later: bytes)
    requires AllRequests(qs) && Answering(ms, qs)
    requires SameRequests(t, u) && u.pending == t.pending && u.completed == t.completed
    requires ResponsesDrained(u, v, ms, qs, k, pend, later)
    ensures ResponsesDrained(t, v, ms, qs, k, pend, later)
  {
  }

  lemma BodilessPair(u: Tap, m: Wired<Response>, qs: Asks)
    requires AllRequests(qs) && Queued(u, qs) && u.pending != [] && u.respPartial.None?
    requires WholeResponse(m, IsHead(qs[0])) && !IsInterim(m) && FramingFor(m, IsHead(qs[0])).None?
    ensures RouteResponse(u, m.h) == Again(Complete(u, Received(m, IsHead(qs[0]))))
  {
    QueueFront(u, qs);
    PushCappedNothing(EmptyCapture);
  }

  lemma ResponseMidBegins(m: Wired<Response>, isHead: bool)
    requires WholeResponse(m, isHead) && !IsInterim(m) && FramingFor(m, isHead).Some?
    ensures Mid(BodyOf(FramingFor(m, isHead).value), [], m.wire, ResponseDoc(m, isHead))
    ensures BodyOf(FramingFor(m, isHead).value).kind.Close? <==> FramingFor(m, isHead) == Some(UntilClose)
  {
    MidBegins(FramingFor(m, isHead).value, m.wire);
  }

  /** `u` has taken all of the first response, which is final: it is paired, and the drain goes on. */
  lemma AfterPair(t: Tap, u: Tap, ms: Answers, qs: Asks, later: bytes) returns (k: nat, pend': bytes)
    requires AllRequests(qs) && Answering(ms, qs) && Queued(t, qs) && (OpenEnded(ms, qs) ==> later != [])
    requires ms != [] && !IsInterim(ms[0]) && t.pending != []
    requires SameRequests(t, u) && u.pending == t.pending && u.completed == t.completed && u.respPartial.None?
    requires u.respBuf + later == WireAll(ms[1..]) && |u.respBuf| < |t.respBuf| + PartialRank(t.respPartial) && |u.respBuf| <= M.PIECE_MAX
    requires Timely(ms[1..], |later|, |t.pending| - 1)
    requires ResponseTurn(t) == Again(Complete(u, Received(ms[0], IsHead(qs[0]))))
    ensures ResponsesDrained(t, DrainResponses(t), ms, qs, k, pend', later)
    decreases |ms|, |t.respBuf|, PartialRank(t.respPartial), 1
  {
    QueueFront(u, qs);
    CompletesPair(u, ms[0], qs);
    k, pend' := AfterCompletion(t, Complete(u, Received(ms[0], IsHead(qs[0]))), ms, qs, later);
  }

  lemma AfterCompletion(t: Tap, v: Tap, ms: Answers, qs: Asks, later: bytes) returns (k: nat, pend': bytes)
    requires AllRequests(qs) && Answering(ms, qs) && qs != [] && (OpenEnded(ms, qs) ==> later != [])
    requires ms != [] && !IsInterim(ms[0]) && t.pending != [] && Queued(v, qs[1..])
    requires SameRequests(t, v) && v.pending == t.pending[1..] && v.completed == t.completed + [Pair(t.sni, qs[0], ms[0])]
    requires v.respPartial.None? && v.respBuf + later == WireAll(ms[1..]) && |v.respBuf| <= M.PIECE_MAX
    requires |v.respBuf| < |t.respBuf| + PartialRank(t.respPartial) && Timely(ms[1..], |later|, |v.pending|)
    requires ResponseTurn(t) == Again(v)
    ensures ResponsesDrained(t, DrainResponses(t), ms, qs, k, pend', later)
    decreases |ms|, |t.respBuf|, PartialRank(t.respPartial), 0
  {
    PairStands(v, ms, qs, later);
    DrainsOn(t, v);
    k, pend' := DrainingResponses(v, ms[1..], qs[1..], [], later);
    PairMore(t, v, DrainResponses(v), ms, qs, k, pend', later);
    k := k + 1;
  }

  lemma DrainsOn(t: Tap, v: Tap)
    requires ResponseTurn(t) == Again(v)
    ensures DrainResponses(t) == DrainResponses(v)
  {
    ResponseTurnProgress(t);
  }

  lemma PairStands(v: Tap, ms: Answers, qs: Asks, later: bytes)
    requires AllRequests(qs) && qs != [] && ms != [] && Answering(ms, qs) && !IsInterim(ms[0]) && (OpenEnded(ms, qs) ==> later != [])
    requires Queued(v, qs[1..]) && v.respPartial.None? && v.respBuf + later == WireAll(ms[1..])
    ensures Standing(v, ms[1..], qs[1..], [], later)
  {
  }

  lemma OnePair(sni: Option<bytes>, q: Wired<Request>, m: Wired<Response>)
    ensures PairAll(sni, [(q, m)]) == [Pair(sni, q, m)]
  {
  }

  lemma PairMore(t: Tap, u: Tap, v: Tap, ms: Answers, qs: Asks, k: nat, pend: bytes, later: bytes)
    requires AllRequests(qs) && ms != [] && Answering(ms, qs) && !IsInterim(ms[0]) && t.pending != []
    requires SameRequests(t, u) && u.pending == t.pending[1..] && u.completed == t.completed + [Pair(t.sni, qs[0], ms[0])]
    requires ResponsesDrained(u, v, ms[1..], qs[1..], k, pend, later)
    ensures ResponsesDrained(t, v, ms, qs, k + 1, pend, later)
  {
    FirstOfMany(ms, k);
    PairsFirst(t.sni, ms, k, qs);
    OnePair(t.sni, qs[0], ms[0]);
    Assoc(t.completed, [Pair(t.sni, qs[0], ms[0])], Pairs(t.sni, ms[1..][..k], qs[1..]));
  }

  /** What runs until the close has not come whole while anything is still to come. */
  lemma StillOpen(ms: Answers, qs: Asks, buf: bytes, later: bytes, pend: bytes)
    requires ms != [] && Answering(ms, qs) && Closes(ms[0], qs) && buf + later == pend + WireAll(ms[1..])
    ensures OpenEnded(ms, qs) && (later != [] ==> |buf| < |pend|)
  {
    assert WireAll(ms[1..]) == [];
  }

  lemma ResponseBodyGoes(t: Tap, ms: Answers, qs: Asks, pend: bytes, later: bytes) returns (k: nat, pend': bytes)
    requires Standing(t, ms, qs, pend, later) && ResponsesBounded(t, ms) && Timely(ms, |later|, |t.pending|)
    requires t.respPartial.Some? && |t.respBuf| >= |pend|
    ensures ResponsesDrained(t, DrainResponses(t), ms, qs, k, pend', later)
    decreases |ms|, |t.respBuf|, 1, 2
  {
    var tail := t.respBuf[|pend|..];
    M.FrontOf(pend, WireAll(ms[1..]), t.respBuf, later);
    if Closes(ms[0], qs) {
      StillOpen(ms, qs, t.respBuf, later, pend);
    }
    ResponseBodyTaken(t, ms[0], IsHead(qs[0]), pend, tail);
    TailLeft(t.respBuf, later, pend, WireAll(ms[1..]));
    HeadHasBytes(ms[0]);
    TimelyNow(ms, |later|, |t.pending|);
    k, pend' := AfterPair(t, t.(respBuf := tail, respPartial := None), ms, qs, later);
  }

  // --- both directions -------------------------------------------------------

  datatype Event = ReqBytes(data: bytes) | RespBytes(data: bytes)

  function Fed(t: Tap, e: Event): Tap { if e.ReqBytes? then FeedReq(t, e.data) else FeedResp(t, e.data) }

  function FedAll(t: Tap, evs: seq<Event>): Tap
    decreases |evs|
  {
    if evs == [] then t else FedAll(Fed(t, evs[0]), evs[1..])
  }

  function ReqData(evs: seq<Event>): bytes {
    if evs == [] then [] else (if evs[0].ReqBytes? then evs[0].data else []) + ReqData(evs[1..])
  }

  function RespData(evs: seq<Event>): bytes {
    if evs == [] then [] else (if evs[0].RespBytes? then evs[0].data else []) + RespData(evs[1..])
  }

  /** With `respLater` and `reqLater` bytes still to come of each side: every final response of `ms` that has begun
      answers a request of `qs` that is complete. */
  predicate Answerable(ms: Answers, respLater: nat, qs: Asks, reqLater: nat)
    decreases |ms|
  {
    ms == [] || |WireAll(ms)| <= respLater
    || (if IsInterim(ms[0]) then Answerable(ms[1..], respLater, qs, reqLater)
        else qs != [] && reqLater <= |WireAll(qs[1..])| && Answerable(ms[1..], respLater, qs[1..], reqLater))
  }

  /** Whenever response bytes come, each response that has begun starts after its request is complete. */
  predicate Orderly(ms: Answers, qs: Asks, evs: seq<Event>, respTail: bytes, reqTail: bytes)
    decreases |evs|
  {
    evs == []
    || ((evs[0].RespBytes? ==> Answerable(ms, |RespData(evs[1..]) + respTail|, qs, |ReqData(evs[1..]) + reqTail|))
        && Orderly(ms, qs, evs[1..], respTail, reqTail))
  }

  lemma {:induction false} TimelyIfAnswerable(ms: Answers, respLater: nat, qs: Asks, reqLater: nat, p: nat)
    requires Answerable(ms, respLater, qs, reqLater)
    requires p <= |qs| && (p < |qs| ==> reqLater > |WireAll(qs[p + 1..])|)
    ensures Timely(ms, respLater, p)
    decreases |ms|
  {
    if ms != [] && |WireAll(ms)| > respLater {
      if IsInterim(ms[0]) {
        TimelyIfAnswerable(ms[1..], respLater, qs, reqLater, p);
      } else {
        assert |qs| >= 1 ==> qs[0 + 1..] == qs[1..];
        assert p < |qs| ==> qs[1..][p..] == qs[p + 1..];
        TimelyIfAnswerable(ms[1..], respLater, qs[1..], reqLater, p - 1);
      }
    }
  }

  lemma AnswerableRest(ms: Answers, respLater: nat, qs: Asks, reqLater: nat)
    requires ms != [] && Answerable(ms, respLater, qs, reqLater)
    ensures Answerable(ms[1..], respLater, NextUnanswered(ms[0], qs), reqLater)
  {
    assert |WireAll(ms)| >= |WireAll(ms[1..])|;
  }

  lemma {:induction false} OrderlyRest(ms: Answers, qs: Asks, evs: seq<Event>, respTail: bytes, reqTail: bytes)
    requires ms != [] && Orderly(ms, qs, evs, respTail, reqTail)
    ensures Orderly(ms[1..], NextUnanswered(ms[0], qs), evs, respTail, reqTail)
    decreases |evs|
  {
    if evs != [] {
      if evs[0].RespBytes? {
        AnswerableRest(ms, |RespData(evs[1..]) + respTail|, qs, |ReqData(evs[1..]) + reqTail|);
      }
      OrderlyRest(ms, qs, evs[1..], respTail, reqTail);
    }
  }

  lemma {:induction false} OrderlyAfter(ms: Answers, k: nat, qs: Asks, evs: seq<Event>, respTail: bytes, reqTail: bytes)
    requires k <= |ms| && Orderly(ms, qs, evs, respTail, reqTail)
    ensures Orderly(ms[k..], Unanswered(ms[..k], qs), evs, respTail, reqTail)
    decreases k
  {
    if k == 0 {
      assert ms[0..] == ms && ms[..0] == [];
    } else {
      OrderlyRest(ms, qs, evs, respTail, reqTail);
      OrderlyAfter(ms[1..], k - 1, NextUnanswered(ms[0], qs), evs, respTail, reqTail);
      assert ms[1..][k - 1..] == ms[k..] && ms[..k][1..] == ms[1..][..k - 1] && ms[..k][0] == ms[0];
    }
  }

  lemma {:induction false} UnansweredIsSuffix(ms: Answers, qs: Asks)
    ensures |Unanswered(ms, qs)| <= |qs| && Unanswered(ms, qs) == qs[|qs| - |Unanswered(ms, qs)|..]
    decreases |ms|
  {
    if ms != [] {
      UnansweredIsSuffix(ms[1..], NextUnanswered(ms[0], qs));
    }
  }

  /** The tap between events: `ms` and `qs` are the responses and requests that have not been paired yet. */
  ghost predicate Balanced(t: Tap, ms: Answers, qs: Asks, pq: bytes, pr: bytes, reqLater: bytes, respLater: bytes) {
    && !t.disabled && Standing(t, ms, qs, pr, respLater) && ResponsesWait(t, ms, respLater)
    && InRequests(t, qs[|t.pending|..], pq, t.reqBuf + reqLater) && RequestsWait(t, qs[|t.pending|..], reqLater)
  }

  lemma SentAppend(a: Asks, b: Asks)
    ensures SentAll(a + b) == SentAll(a) + SentAll(b)
  {
  }

  lemma RequestEvent(t: Tap, x: bytes, ms: Answers, qs: Asks, pq: bytes, pr: bytes, reqLater: bytes, respLater: bytes)
    returns (pq': bytes)
    requires Balanced(t, ms, qs, pq, pr, x + reqLater, respLater) && |x| <= M.FEED_MAX && x != []
    ensures var u := FeedReq(t, x); Balanced(u, ms, qs, pq', pr, reqLater, respLater) && u.completed == t.completed && u.sni == t.sni
  {
    var v := t.(reqBuf := t.reqBuf + x);
    BytesAsked(t, x, ms, qs, pq, pr, reqLater, respLater);
    var k;
    k, pq' := DrainingRequests(v, qs[|t.pending|..], pq, reqLater);
    StandsOn(v, DrainRequests(v), ms, qs, k, pq', pr, reqLater, respLater);
  }

  lemma BytesAsked(t: Tap, x: bytes, ms: Answers, qs: Asks, pq: bytes, pr: bytes, reqLater: bytes, respLater: bytes)
    requires Balanced(t, ms, qs, pq, pr, x + reqLater, respLater) && |x| <= M.FEED_MAX
    ensures var v := t.(reqBuf := t.reqBuf + x);
            && |v.pending| <= |qs| && AllRequests(qs[|v.pending|..])
            && InRequests(v, qs[|v.pending|..], pq, v.reqBuf + reqLater) && RequestsBounded(v, qs[|v.pending|..])
            && !v.disabled && Standing(v, ms, qs, pr, respLater) && ResponsesWait(v, ms, respLater)
  {
    Assoc(t.reqBuf, x, reqLater);
  }

  /** Draining the requests leaves the responses as they stood. */
  lemma StandsOn(t: Tap, u: Tap, ms: Answers, qs: Asks, k: nat, pq: bytes, pr: bytes, reqLater: bytes, respLater: bytes)
    requires !t.disabled && Standing(t, ms, qs, pr, respLater) && ResponsesWait(t, ms, respLater)
    requires RequestsDrained(t, u, qs[|t.pending|..], k, pq, reqLater)
    ensures Balanced(u, ms, qs, pq, pr, reqLater, respLater) && u.completed == t.completed && u.sni == t.sni
  {
    AsksStill(t, u, qs, k, pq, reqLater);
    StandsStill(t, u, ms, qs, pr, respLater);
  }

  lemma AsksStill(t: Tap, u: Tap, qs: Asks, k: nat, pq: bytes, reqLater: bytes)
    requires Queued(t, qs) && RequestsDrained(t, u, qs[|t.pending|..], k, pq, reqLater)
    ensures Queued(u, qs) && SameResponses(t, u)
    ensures InRequests(u, qs[|u.pending|..], pq, u.reqBuf + reqLater) && RequestsWait(u, qs[|u.pending|..], reqLater)
  {
    QueueGrows(t, u, qs, k);
    assert qs[|t.pending|..][k..] == qs[|u.pending|..];
  }

  lemma StandsStill(t: Tap, u: Tap, ms: Answers, qs: Asks, pr: bytes, respLater: bytes)
    requires SameResponses(t, u) && Queued(u, qs) && !t.disabled && Standing(t, ms, qs, pr, respLater) && ResponsesWait(t, ms, respLater)
    ensures !u.disabled && Standing(u, ms, qs, pr, respLater) && ResponsesWait(u, ms, respLater)
  {
  }

  lemma QueueJoins(qs: Asks, p: nat, k: nat)
    requires p + k <= |qs|
    ensures SentAll(qs[..p]) + SentAll(qs[p..][..k]) == SentAll(qs[..p + k]) && |SentAll(qs[p..][..k])| == k
  {
    SentAppend(qs[..p], qs[p..][..k]);
    assert qs[..p] + qs[p..][..k] == qs[..p + k];
  }

  lemma QueueGrows(t: Tap, u: Tap, qs: Asks, k: nat)
    requires Queued(t, qs) && k <= |qs[|t.pending|..]|
    requires u.pending == t.pending + SentAll(qs[|t.pending|..][..k])
    ensures |u.pending| == |t.pending| + k && Queued(u, qs)
  {
    QueueJoins(qs, |t.pending|, k);
  }

  lemma BytesCome(t: Tap, x: bytes, ms: Answers, qs: Asks, pq: bytes, pr: bytes, reqLater: bytes, respLater: bytes)
    requires Balanced(t, ms, qs, pq, pr, reqLater, x + respLater) && |x| <= M.FEED_MAX && x != []
    requires Answerable(ms, |respLater|, qs, |reqLater|) && (OpenEnded(ms, qs) ==> respLater != [])
    ensures var v := t.(respBuf := t.respBuf + x);
            && Standing(v, ms, qs, pr, respLater) && ResponsesBounded(v, ms) && Timely(ms, |respLater|, |v.pending|)
            && !v.disabled && |v.pending| <= |qs|
            && InRequests(v, qs[|v.pending|..], pq, v.reqBuf + reqLater) && RequestsWait(v, qs[|v.pending|..], reqLater)
  {
    Assoc(t.respBuf, x, respLater);
    if |t.pending| < |qs| {
      assert qs[|t.pending|..][1..] == qs[|t.pending| + 1..];
    }
    TimelyIfAnswerable(ms, |respLater|, qs, |reqLater|, |t.pending|);
  }

  lemma ResponseEvent(t: Tap, x: bytes, ms: Answers, qs: Asks, pq: bytes, pr: bytes, reqLater: bytes, respLater: bytes)
    returns (k: nat, pr': bytes)
    requires Balanced(t, ms, qs, pq, pr, reqLater, x + respLater) && |x| <= M.FEED_MAX && x != []
    requires Answerable(ms, |respLater|, qs, |reqLater|) && (OpenEnded(ms, qs) ==> respLater != [])
    ensures var u := FeedResp(t, x);
            && k <= |ms|
            && Balanced(u, ms[k..], Unanswered(ms[..k], qs), pq, pr', reqLater, respLater)
            && u.completed == t.completed + Pairs(t.sni, ms[..k], qs) && u.sni == t.sni
  {
    var v := t.(respBuf := t.respBuf + x);
    BytesCome(t, x, ms, qs, pq, pr, reqLater, respLater);
    k, pr' := DrainingResponses(v, ms, qs, pr, respLater);
    StillBalanced(v, DrainResponses(v), ms, qs, k, pq, pr', reqLater, respLater);
  }

  /** Draining the responses leaves the requests as they stood. */
  lemma StillBalanced(t: Tap, u: Tap, ms: Answers, qs: Asks, k: nat, pq: bytes, pr: bytes, reqLater: bytes, respLater: bytes)
    requires ResponsesDrained(t, u, ms, qs, k, pr, respLater) && !t.disabled && |t.pending| <= |qs|
    requires InRequests(t, qs[|t.pending|..], pq, t.reqBuf + reqLater) && RequestsWait(t, qs[|t.pending|..], reqLater)
    ensures Balanced(u, ms[k..], Unanswered(ms[..k], qs), pq, pr, reqLater, respLater)
  {
    UnansweredIsSuffix(ms[..k], qs);
    assert Unanswered(ms[..k], qs)[|u.pending|..] == qs[|t.pending|..];
  }

  lemma {:induction false} MatchesSplit(a: Answers, b: Answers, qs: Asks)
    ensures Matches(a + b, qs) == Matches(a, qs) + Matches(b, Unanswered(a, qs))
    decreases |a|
  {
    if a == [] {
      assert a + b == b;
    } else {
      var qs' := NextUnanswered(a[0], qs);
      MatchesSplit(a[1..], b, qs');
      assert (a + b)[0] == a[0] && (a + b)[1..] == a[1..] + b;
      Assoc(MatchOf(a[0], qs), Matches(a[1..], qs'), Matches(b, Unanswered(a, qs)));
    }
  }

  lemma PairsSplit(sni: Option<bytes>, a: Answers, b: Answers, qs: Asks)
    ensures Pairs(sni, a + b, qs) == Pairs(sni, a, qs) + Pairs(sni, b, Unanswered(a, qs))
  {
    MatchesSplit(a, b, qs);
    PairAllAppend(sni, Matches(a, qs), Matches(b, Unanswered(a, qs)));
  }

  /** From `t` to `v` exactly the first `k` responses, those that have come whole, were reported. */
  ghost predicate Reported(t: Tap, v: Tap, ms: Answers, qs: Asks, k: nat, respTail: bytes) {
    && k <= |ms| && !v.disabled && v.sni == t.sni && v.completed == t.completed + Pairs(t.sni, ms[..k], qs)
    && (k < |ms| ==> |respTail| > |WireAll(ms[k + 1..])|)
  }

  lemma NoneReported(t: Tap, ms: Answers, qs: Asks, respTail: bytes)
    requires !t.disabled && ResponsesWait(t, ms, respTail)
    ensures Reported(t, t, ms, qs, 0, respTail)
  {
    assert ms[..0] == [] && t.completed + Pairs(t.sni, [], qs) == t.completed;
  }

  lemma SameReported(t: Tap, u: Tap, v: Tap, ms: Answers, qs: Asks, k: nat, respTail: bytes)
    requires u.completed == t.completed && u.sni == t.sni && Reported(u, v, ms, qs, k, respTail)
    ensures Reported(t, v, ms, qs, k, respTail)
  {
  }

  lemma PairsJoin(sni: Option<bytes>, ms: Answers, a: nat, j: nat, qs: Asks)
    requires a <= |ms| && j <= |ms[a..]|
    ensures Pairs(sni, ms[..a + j], qs) == Pairs(sni, ms[..a], qs) + Pairs(sni, ms[a..][..j], Unanswered(ms[..a], qs))
  {
    PairsSplit(sni, ms[..a], ms[a..][..j], qs);
    assert ms[..a] + ms[a..][..j] == ms[..a + j];
  }

  lemma MoreReported(t: Tap, u: Tap, v: Tap, ms: Answers, a: nat, j: nat, qs: Asks, respTail: bytes)
    requires a <= |ms| && u.completed == t.completed + Pairs(t.sni, ms[..a], qs) && u.sni == t.sni
    requires Reported(u, v, ms[a..], Unanswered(ms[..a], qs), j, respTail)
    ensures Reported(t, v, ms, qs, a + j, respTail)
  {
    PairsJoin(t.sni, ms, a, j, qs);
    Assoc(t.completed, Pairs(t.sni, ms[..a], qs), Pairs(t.sni, ms[a..][..j], Unanswered(ms[..a], qs)));
    if j < |ms[a..]| {
      assert ms[a..][j + 1..] == ms[a + j + 1..];
    }
  }

  lemma NothingFed(evs: seq<Event>)
    requires evs != [] && evs[0].data == []
    ensures ReqData(evs) == ReqData(evs[1..]) && RespData(evs) == RespData(evs[1..])
  {
  }

  lemma FirstFed(evs: seq<Event>, reqTail: bytes, respTail: bytes)
    requires evs != []
    ensures evs[0].ReqBytes? ==> ReqData(evs) + reqTail == evs[0].data + (ReqData(evs[1..]) + reqTail) && RespData(evs) == RespData(evs[1..])
    ensures evs[0].RespBytes? ==> RespData(evs) + respTail == evs[0].data + (RespData(evs[1..]) + respTail) && ReqData(evs) == ReqData(evs[1..])
  {
    Assoc(evs[0].data, ReqData(evs[1..]), reqTail);
    Assoc(evs[0].data, RespData(evs[1..]), respTail);
  }

  lemma {:induction false} OpenEndedRest(ms: Answers, k: nat, qs: Asks)
    requires k <= |ms| && OpenEnded(ms[k..], Unanswered(ms[..k], qs))
    ensures OpenEnded(ms, qs)
    decreases k
  {
    if k == 0 {
      assert ms[0..] == ms && ms[..0] == [];
    } else {
      assert ms[1..][k - 1..] == ms[k..] && ms[..k][1..] == ms[1..][..k - 1] && ms[..k][0] == ms[0];
      OpenEndedRest(ms[1..], k - 1, NextUnanswered(ms[0], qs));
    }
  }

  /** What is still to come, from the first event on. */
  ghost predicate Underway(t: Tap, ms: Answers, qs: Asks, pq: bytes, pr: bytes, evs: seq<Event>, respTail: bytes, reqTail: bytes) {
    && Balanced(t, ms, qs, pq, pr, ReqData(evs) + reqTail, RespData(evs) + respTail)
    && Orderly(ms, qs, evs, respTail, reqTail) && (OpenEnded(ms, qs) ==> respTail != [])
    && forall i :: 0 <= i < |evs| ==> |evs[i].data| <= M.FEED_MAX
  }

  lemma NothingFirst(t: Tap, ms: Answers, qs: Asks, pq: bytes, pr: bytes, evs: seq<Event>, respTail: bytes, reqTail: bytes)
    requires evs != [] && evs[0].data == [] && Underway(t, ms, qs, pq, pr, evs, respTail, reqTail)
    ensures Underway(t, ms, qs, pq, pr, evs[1..], respTail, reqTail) && FedAll(t, evs) == FedAll(t, evs[1..])
  {
    NothingFed(evs);
  }

  lemma RequestFirst(t: Tap, ms: Answers, qs: Asks, pq: bytes, pr: bytes, evs: seq<Event>, respTail: bytes, reqTail: bytes)
    returns (pq': bytes)
    requires evs != [] && evs[0].data != [] && evs[0].ReqBytes? && Underway(t, ms, qs, pq, pr, evs, respTail, reqTail)
    ensures var u := FeedReq(t, evs[0].data);
            Underway(u, ms, qs, pq', pr, evs[1..], respTail, reqTail) && u.completed == t.completed && u.sni == t.sni
  {
    var x, rest := evs[0].data, evs[1..];
    FirstFed(evs, reqTail, respTail);
    pq' := RequestEvent(t, x, ms, qs, pq, pr, ReqData(rest) + reqTail, RespData(rest) + respTail);
  }

  /** After the first `k` responses the tap stands in the others. */
  ghost predicate Stays(v: Tap, ms: Answers, qs: Asks, k: nat, pq: bytes, pr: bytes, reqTail: bytes, respTail: bytes) {
    k <= |ms| && Balanced(v, ms[k..], Unanswered(ms[..k], qs), pq, pr, reqTail, respTail)
  }

  /** From `t` to `v`: exactly the first `k` responses were reported, and the tap stands in the others. */
  ghost predicate Came(t: Tap, v: Tap, ms: Answers, qs: Asks, k: nat, pq: bytes, pr: bytes, reqTail: bytes, respTail: bytes) {
    Reported(t, v, ms, qs, k, respTail) && Stays(v, ms, qs, k, pq, pr, reqTail, respTail)
  }

  lemma {:induction false} UnansweredSplit(a: Answers, b: Answers, qs: Asks)
    ensures Unanswered(a + b, qs) == Unanswered(b, Unanswered(a, qs))
    decreases |a|
  {
    if a == [] {
      assert a + b == b;
    } else {
      assert (a + b)[0] == a[0] && (a + b)[1..] == a[1..] + b;
      UnansweredSplit(a[1..], b, NextUnanswered(a[0], qs));
    }
  }

  lemma SplitAt(ms: Answers, a: nat, j: nat, qs: Asks)
    requires a <= |ms| && j <= |ms[a..]|
    ensures ms[a..][j..] == ms[a + j..] && Unanswered(ms[a..][..j], Unanswered(ms[..a], qs)) == Unanswered(ms[..a + j], qs)
  {
    UnansweredSplit(ms[..a], ms[a..][..j], qs);
    assert ms[..a] + ms[a..][..j] == ms[..a + j];
  }

  lemma MoreStays(v: Tap, ms: Answers, qs: Asks, a: nat, j: nat, pq: bytes, pr: bytes, reqTail: bytes, respTail: bytes)
    requires a <= |ms| && Stays(v, ms[a..], Unanswered(ms[..a], qs), j, pq, pr, reqTail, respTail)
    ensures Stays(v, ms, qs, a + j, pq, pr, reqTail, respTail)
  {
    SplitAt(ms, a, j, qs);
  }

  /** From `t` to `u` the first `a` responses were reported; `rest` are the others and `left` the requests they answer. */
  ghost predicate Advances(t: Tap, u: Tap, ms: Answers, qs: Asks, a: nat, rest: Answers, left: Asks) {
    && a <= |ms| && rest == ms[a..] && left == Unanswered(ms[..a], qs)
    && u.completed == t.completed + Pairs(t.sni, ms[..a], qs) && u.sni == t.sni
  }

  lemma CameOn(t: Tap, u: Tap, v: Tap, ms: Answers, qs: Asks, a: nat, rest: Answers, left: Asks, j: nat,
               pq: bytes, pr: bytes, reqTail: bytes, respTail: bytes)
    requires Advances(t, u, ms, qs, a, rest, left) && Came(u, v, rest, left, j, pq, pr, reqTail, respTail)
    ensures Came(t, v, ms, qs, a + j, pq, pr, reqTail, respTail)
  {
    MoreReported(t, u, v, ms, a, j, qs, respTail);
    MoreStays(v, ms, qs, a, j, pq, pr, reqTail, respTail);
  }

  lemma ResponseFirst(t: Tap, ms: Answers, qs: Asks, pq: bytes, pr: bytes, evs: seq<Event>, respTail: bytes, reqTail: bytes)
    returns (u: Tap, a: nat, rest: Answers, left: Asks, pr': bytes)
    requires evs != [] && evs[0].data != [] && evs[0].RespBytes? && Underway(t, ms, qs, pq, pr, evs, respTail, reqTail)
    ensures FedAll(t, evs) == FedAll(u, evs[1..]) && Underway(u, rest, left, pq, pr', evs[1..], respTail, reqTail)
    ensures Advances(t, u, ms, qs, a, rest, left)
  {
    var x, evs' := evs[0].data, evs[1..];
    u := FeedResp(t, x);
    FirstFed(evs, reqTail, respTail);
    a, pr' := ResponseEvent(t, x, ms, qs, pq, pr, ReqData(evs') + reqTail, RespData(evs') + respTail);
    OrderlyAfter(ms, a, qs, evs', respTail, reqTail);
    if OpenEnded(ms[a..], Unanswered(ms[..a], qs)) {
      OpenEndedRest(ms, a, qs);
    }
    rest, left := ms[a..], Unanswered(ms[..a], qs);
  }

  lemma BalancedWaits(t: Tap, ms: Answers, qs: Asks, pq: bytes, pr: bytes, reqLater: bytes, respLater: bytes)
    requires Balanced(t, ms, qs, pq, pr, reqLater, respLater)
    ensures !t.disabled && ResponsesWait(t, ms, respLater)
  {
  }

  lemma NothingMore(t: Tap, ms: Answers, qs: Asks, pq: bytes, pr: bytes, respTail: bytes, reqTail: bytes)
    requires Balanced(t, ms, qs, pq, pr, reqTail, respTail)
    ensures Came(t, FedAll(t, []), ms, qs, 0, pq, pr, reqTail, respTail)
  {
    assert ms[0..] == ms && ms[..0] == [];
    BalancedWaits(t, ms, qs, pq, pr, reqTail, respTail);
    NoneReported(t, ms, qs, respTail);
  }

  /** Any segmentation and interleaving in which responses start after their requests are complete: what is reported is
      exactly, in order, each final response that has come whole with its own request. */
  lemma {:induction false} RunPairs(t: Tap, v: Tap, ms: Answers, qs: Asks, pq: bytes, pr: bytes,
                                    evs: seq<Event>, respTail: bytes, reqTail: bytes) returns (k: nat, pq': bytes, pr': bytes)
    requires Underway(t, ms, qs, pq, pr, evs, respTail, reqTail) && v == FedAll(t, evs)
    ensures Came(t, v, ms, qs, k, pq', pr', reqTail, respTail)
    decreases |evs|, 1
  {
    if evs == [] {
      assert [] + reqTail == reqTail && [] + respTail == respTail;
      NothingMore(t, ms, qs, pq, pr, respTail, reqTail);
      k, pq', pr' := 0, pq, pr;
    } else if evs[0].data == [] {
      NothingFirst(t, ms, qs, pq, pr, evs, respTail, reqTail);
      k, pq', pr' := RunPairs(t, v, ms, qs, pq, pr, evs[1..], respTail, reqTail);
    } else if evs[0].ReqBytes? {
      k, pq', pr' := RunRequest(t, v, ms, qs, pq, pr, evs, respTail, reqTail);
    } else {
      k, pq', pr' := RunResponse(t, v, ms, qs, pq, pr, evs, respTail, reqTail);
    }
  }

  lemma {:induction false} RunRequest(t: Tap, v: Tap, ms: Answers, qs: Asks, pq: bytes, pr: bytes,
                                      evs: seq<Event>, respTail: bytes, reqTail: bytes) returns (k: nat, pq': bytes, pr': bytes)
    requires evs != [] && evs[0].data != [] && evs[0].ReqBytes? && Underway(t, ms, qs, pq, pr, evs, respTail, reqTail)
    requires v == FedAll(t, evs)
    ensures Came(t, v, ms, qs, k, pq', pr', reqTail, respTail)
    decreases |evs|, 0
  {
    var pq1 := RequestFirst(t, ms, qs, pq, pr, evs, respTail, reqTail);
    var u := FeedReq(t, evs[0].data);
    k, pq', pr' := RunPairs(u, v, ms, qs, pq1, pr, evs[1..], respTail, reqTail);
    SameReported(t, u, v, ms, qs, k, respTail);
  }

  lemma {:induction false} RunResponse(t: Tap, v: Tap, ms: Answers, qs: Asks, pq: bytes, pr: bytes,
                                       evs: seq<Event>, respTail: bytes, reqTail: bytes) returns (k: nat, pq': bytes, pr': bytes)
    requires evs != [] && evs[0].data != [] && evs[0].RespBytes? && Underway(t, ms, qs, pq, pr, evs, respTail, reqTail)
    requires v == FedAll(t, evs)
    ensures Came(t, v, ms, qs, k, pq', pr', reqTail, respTail)
    decreases |evs|, 0
  {
    var u, a, rest, left, pr1 := ResponseFirst(t, ms, qs, pq, pr, evs, respTail, reqTail);
    k, pq', pr' := RunOn(t, u, v, ms, qs, a, rest, left, pq, pr1, evs[1..], respTail, reqTail);
  }

  lemma {:induction false} RunOn(t: Tap, u: Tap, v: Tap, ms: Answers, qs: Asks, a: nat, rest: Answers, left: Asks, pq: bytes, pr: bytes,
                                 evs: seq<Event>, respTail: bytes, reqTail: bytes) returns (k: nat, pq': bytes, pr': bytes)
    requires Advances(t, u, ms, qs, a, rest, left) && Underway(u, rest, left, pq, pr, evs, respTail, reqTail)
    requires v == FedAll(u, evs)
    ensures Came(t, v, ms, qs, k, pq', pr', reqTail, respTail)
    decreases |evs|, 2
  {
    k, pq', pr' := RunPairs(u, v, rest, left, pq, pr, evs, respTail, reqTail);
    CameOn(t, u, v, ms, qs, a, rest, left, k, pq', pr', reqTail, respTail);
    k := a + k;
  }

  /** From the start: once every byte has come, the k-th request stands with the k-th final response, interim responses
      left out and a HEAD request's response without a body. */
  lemma TapPairsInOrder(rs: Asks, ms: Answers, evs: seq<Event>)
    requires AllRequests(rs) && Answering(ms, rs) && !OpenEnded(ms, rs)
    requires ReqData(evs) == WireAll(rs) && RespData(evs) == WireAll(ms) && Orderly(ms, rs, evs, [], [])
    requires forall i :: 0 <= i < |evs| ==> |evs[i].data| <= M.FEED_MAX
    ensures var u := FedAll(NewTap, evs); !u.disabled && u.completed == Pairs(None, ms, rs)
  {
    StartsBalanced(rs, ms);
    assert ReqData(evs) + [] == ReqData(evs) && RespData(evs) + [] == RespData(evs);
    var k, pq, pr := RunPairs(NewTap, FedAll(NewTap, evs), ms, rs, [], [], evs, [], []);
    assert k == |ms| && ms[..k] == ms;
    assert NewTap.completed + Pairs(None, ms, rs) == Pairs(None, ms, rs);
  }

  lemma {:induction false} AnsweringHasHeads(ms: Answers, qs: Asks)
    requires Answering(ms, qs) && ms != []
    ensures WholeHead(ms[0])
  {
  }

  lemma StartsBalanced(rs: Asks, ms: Answers)
    requires AllRequests(rs) && Answering(ms, rs)
    ensures Balanced(NewTap, ms, rs, [], [], WireAll(rs), WireAll(ms))
  {
    assert rs[0..] == rs && rs[..0] == [];
    assert [] + WireAll(rs) == WireAll(rs) && [] + WireAll(ms) == WireAll(ms);
    if ms != [] {
      AnsweringHasHeads(ms, rs);
      HeadHasBytes(ms[0]);
    }
    if rs != [] {
      HeadHasBytes(rs[0]);
    }
  }

  // --- the close -------------------------------------------------------------

  /** At the end of an open-ended stream the tap is in its last response, and has read all of its body. */
  lemma LastIsOpen(v: Tap, m: Wired<Response>, qs: Asks, pq: bytes, pr: bytes, mark: byte)
    requires Balanced(v, [m], qs, pq, pr, [], [mark]) && OpenEnded([m], qs)
    ensures v.respPartial.Some? && v.respPartial.value.0 == m.h && v.respPartial.value.1.kind.Close?
    ensures v.respPartial.value.1.cap == PushCapped(EmptyCapture, ResponseDoc(m, IsHead(qs[0])))
    ensures v.pending != [] && AllRequests(qs) && Queued(v, qs)
  {
    assert [m][1..] == [] && WireAll([m]) == WireOf(m) + [];
    if v.respPartial.None? {
      NotOpenYet(v.respBuf, m, mark);
    } else {
      assert v.respBuf == [] && pr + [] == pr;
      var data :| Mid(v.respPartial.value.1, data, pr, ResponseDoc(m, IsHead(qs[0])));
      assert pr == [mark] && data + pr[..0] == data;
    }
    assert v.reqBuf + [] == v.reqBuf;
    NoAskLeft(v, qs);
  }

  lemma NotOpenYet(buf: bytes, m: Wired<Response>, mark: byte)
    requires m.wire != [] && |buf| < |m.head|
    ensures buf + [mark] != WireOf(m) + []
  {
    assert |WireOf(m) + []| >= |m.head| + 1;
  }

  lemma NoAskLeft(v: Tap, qs: Asks)
    requires |v.pending| <= |qs| && RequestsWait(v, qs[|v.pending|..], [])
    ensures |v.pending| == |qs|
  {
  }

  lemma ClosedPairs(v: Tap, m: Wired<Response>, qs: Asks, pq: bytes, pr: bytes, mark: byte)
    requires !v.disabled && Balanced(v, [m], qs, pq, pr, [], [mark]) && OpenEnded([m], qs)
    ensures Finish(v).completed == v.completed + [Pair(v.sni, qs[0], m)]
  {
    LastIsOpen(v, m, qs, pq, pr, mark);
    CompletesPair(v.(respPartial := None), m, qs);
  }

  /** From the start to the close of a connection whose last response runs until then: `mark` stands for the close in its wire
      form. The k-th request stands with the k-th final response, the last included. */
  lemma TapPairsAtClose(rs: Asks, ms: Answers, mark: byte, evs: seq<Event>)
    requires AllRequests(rs) && Answering(ms, rs) && OpenEnded(ms, rs)
    requires ReqData(evs) == WireAll(rs) && RespData(evs) + [mark] == WireAll(ms) && Orderly(ms, rs, evs, [mark], [])
    requires forall i :: 0 <= i < |evs| ==> |evs[i].data| <= M.FEED_MAX
    ensures var u := FedAll(NewTap, evs); !u.disabled && Finish(u).completed == Pairs(None, ms, rs)
  {
    StartsBalanced(rs, ms);
    assert ReqData(evs) + [] == ReqData(evs);
    var v := FedAll(NewTap, evs);
    var k, pq, pr := RunPairs(NewTap, v, ms, rs, [], [], evs, [mark], []);
    OneOpen(v, ms, rs, k, pq, pr, mark);
    ClosedPairs(v, ms[k], Unanswered(ms[..k], rs), pq, pr, mark);
    LastPair(v.sni, ms, k, rs);
    assert NewTap.completed + Pairs(None, ms[..k], rs) == Pairs(None, ms[..k], rs);
  }

  /** What is left at the end is the open response alone. */
  lemma OneOpen(v: Tap, ms: Answers, rs: Asks, k: nat, pq: bytes, pr: bytes, mark: byte)
    requires Stays(v, ms, rs, k, pq, pr, [], [mark]) && OpenEnded(ms, rs)
    ensures k == |ms| - 1 && ms[k..] == [ms[k]] && OpenEnded([ms[k]], Unanswered(ms[..k], rs))
    ensures Unanswered(ms[..k], rs) != []
  {
    var rest := ms[k..];
    assert |v.respBuf + [mark]| > 0;
    if |rest| > 1 {
      MoreHasBytes(rest, Unanswered(ms[..k], rs));
    }
    OpenEndedLast(ms, k, rs);
  }

  lemma MoreHasBytes(ms: Answers, qs: Asks)
    requires Answering(ms, qs) && |ms| > 1
    ensures WireAll(ms[1..]) != []
  {
    AnsweringHasHeads(ms[1..], NextUnanswered(ms[0], qs));
    HeadHasBytes(ms[1]);
  }

  lemma {:induction false} OpenEndedLast(ms: Answers, k: nat, qs: Asks)
    requires k == |ms| - 1 && OpenEnded(ms, qs)
    ensures OpenEnded(ms[k..], Unanswered(ms[..k], qs))
    decreases k
  {
    if k == 0 {
      assert ms[0..] == ms && ms[..0] == [];
    } else {
      assert ms[1..][k - 1..] == ms[k..] && ms[..k][1..] == ms[1..][..k - 1] && ms[..k][0] == ms[0];
      OpenEndedLast(ms[1..], k - 1, NextUnanswered(ms[0], qs));
    }
  }

  lemma LastPair(sni: Option<bytes>, ms: Answers, k: nat, rs: Asks)
    requires k == |ms| - 1 && Unanswered(ms[..k], rs) != [] && !IsInterim(ms[k])
    ensures Pairs(sni, ms, rs) == Pairs(sni, ms[..k], rs) + [Pair(sni, Unanswered(ms[..k], rs)[0], ms[k])]
  {
    PairsSplit(sni, ms[..k], [ms[k]], rs);
    assert ms[..k] + [ms[k]] == ms;
    var left := Unanswered(ms[..k], rs);
    assert Matches([ms[k]], left) == MatchOf(ms[k], left) + [] == [(left[0], ms[k])];
    OnePair(sni, left[0], ms[k]);
  }
}
