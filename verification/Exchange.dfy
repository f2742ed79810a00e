/** A whole keep-alive connection through the rewriter: requests and responses in pieces and interleaved, each response after
    its request, and what becomes of it when the request side gives up. */
module Exchange {
  import opened Bytes
  import opened Chunked
  import opened HttpHead
  import opened Anchor
  import opened Rewriter
  import opened Messages
  import opened Conservation
  import HeadEdit

  // --- requests --------------------------------------------------------------

  /** One request: its head, the wire form of its body, and what the head says. */
  datatype Ask = Ask(head: bytes, wire: bytes, isHead: bool, framing: Option<Framing>)

  /** The head is whole and parses, and the body is exactly what it announces. Chunked request bodies are not followed. */
  predicate WholeAsk(q: Ask) {
    && FindHeaderEnd(q.head) == Some(|q.head|) && |q.head| <= MAX_HEADER_BYTES
    && ReadRequestHead(q.head) == Some(ReqHead.ReqHead(q.isHead, q.framing))
    && match q.framing
       case None => q.wire == []
       case Some(f) => f.Length? && |q.wire| == f.n
  }

  function AskAll(qs: seq<Ask>): bytes { if qs == [] then [] else qs[0].head + qs[0].wire + AskAll(qs[1..]) }

  /** What the server is to get: each request with its head edited. */
  function OutAll(qs: seq<Ask>): bytes {
    if qs == [] then [] else HeadEdit.EditRequestHead(qs[0].head) + qs[0].wire + OutAll(qs[1..])
  }

  function Flags(qs: seq<Ask>): seq<bool> { seq(|qs|, i requires 0 <= i < |qs| => qs[i].isHead) }

  predicate WholeAsks(qs: seq<Ask>) { forall i :: 0 <= i < |qs| ==> WholeAsk(qs[i]) }

  /** The request side has `pend` left of a body, then the requests `qs`, and `left` is all of that on the wire. */
  predicate AsksIn(r: Req, pend: bytes, qs: seq<Ask>, left: bytes) {
    && left == pend + AskAll(qs)
    && match r.state case ReqHead => pend == [] case ReqBody(n) => |pend| == n
  }

  /** What is buffered is less than the next request head needs. */
  predicate AsksWait(r: Req, qs: seq<Ask>) {
    if r.state.ReqHead? then (if qs == [] then r.buf == [] else |r.buf| < |qs[0].head|) else r.buf == []
  }

  /** The first `k` of the requests have been taken, and all but `pend'` of them has gone out. */
  predicate AsksDriven(d: ReqDrained, pend: bytes, qs: seq<Ask>, later: bytes, k: nat, pend': bytes) {
    && k <= |qs| && !d.disables && d.pushed == Flags(qs[..k])
    && AsksIn(d.req, pend', qs[k..], d.req.buf + later) && AsksWait(d.req, qs[k..])
    && d.out + pend' == pend + OutAll(qs[..k])
  }

  lemma AskNotYet(buf: bytes, q: Ask, later: bytes, tail: bytes)
    requires WholeAsk(q) && buf + later == q.head + q.wire + tail && |buf| < |q.head|
    ensures StepRequestHead(buf) == ReqStepped(Req(ReqState.ReqHead, buf), [], [], false, false)
  {
    FrontOf(buf, later, q.head, q.wire + tail);
    Assoc(q.head, q.wire, tail);
    HeadNotYet(buf, q.head);
  }

  lemma AskFound(buf: bytes, q: Ask, later: bytes, tail: bytes) returns (rest: bytes)
    requires WholeAsk(q) && buf + later == q.head + q.wire + tail && |buf| >= |q.head|
    ensures buf == q.head + rest && rest + later == q.wire + tail
  {
    FrontOf(buf, later, q.head, q.wire + tail);
    Assoc(q.head, q.wire, tail);
    rest := buf[|q.head|..];
    AfterFront(buf, later, q.head, q.wire + tail);
  }

  lemma AskReads(q: Ask, rest: bytes)
    requires WholeAsk(q)
    ensures StepRequestHead(q.head + rest)
            == RouteRequest(ReqHead.ReqHead(q.isHead, q.framing), HeadEdit.EditRequestHead(q.head), rest)
  {
    HeadFound(q.head, rest);
    assert (q.head + rest)[..|q.head|] == q.head && (q.head + rest)[|q.head|..] == rest;
  }

  lemma AfterFront(buf: bytes, later: bytes, front: bytes, rest: bytes)
    requires buf + later == front + rest && |front| <= |buf|
    ensures buf[|front|..] + later == rest
  {
    assert (buf + later)[|front|..] == buf[|front|..] + later;
    assert (front + rest)[|front|..] == rest;
  }

  lemma WholeRest(qs: seq<Ask>, k: nat)
    requires WholeAsks(qs) && k <= |qs|
    ensures WholeAsks(qs[k..])
  {
  }

  lemma FirstHasBytes(qs: seq<Ask>)
    requires WholeAsks(qs)
    ensures qs != [] ==> |qs[0].head| >= 4
  {
    if qs != [] {
      AskHasBytes(qs[0]);
    }
  }

  lemma AskHasBytes(q: Ask)
    requires WholeAsk(q)
    ensures |q.head| >= 4
  {
  }

  lemma OneAsk(qs: seq<Ask>, k: nat)
    requires k < |qs|
    ensures qs[..k + 1] != [] && qs[..k + 1][0] == qs[0] && qs[..k + 1][1..] == qs[1..][..k] && qs[1..][k..] == qs[k + 1..]
    ensures Flags(qs[..k + 1]) == [qs[0].isHead] + Flags(qs[1..][..k])
    ensures OutAll(qs[..k + 1]) == HeadEdit.EditRequestHead(qs[0].head) + qs[0].wire + OutAll(qs[1..][..k])
  {
  }

  /** Draining takes every request whose head has come whole, in order, and passes on all that has come of their bodies. */
  lemma {:induction false} DriveAsks(r: Req, pend: bytes, qs: seq<Ask>, later: bytes) returns (k: nat, pend': bytes)
    requires WholeAsks(qs) && AsksIn(r, pend, qs, r.buf + later)
    ensures AsksDriven(DriveRequest(r), pend, qs, later, k, pend')
    decreases |r.buf|, ReqRank(r.state), 1
  {
    if r.state.ReqBody? {
      k, pend' := BodyAsks(r, pend, qs, later);
    } else if qs == [] || |r.buf| < |qs[0].head| {
      k, pend' := 0, [];
      HeadAskWaits(r, qs, later);
      NoAskTaken(r, DriveRequest(r), [], [], qs, later);
    } else {
      k, pend' := HeadAsks(r, qs, later);
    }
  }

  lemma HeadAskWaits(r: Req, qs: seq<Ask>, later: bytes)
    requires WholeAsks(qs) && AsksIn(r, [], qs, r.buf + later) && r.state.ReqHead?
    requires qs == [] || |r.buf| < |qs[0].head|
    ensures DriveRequest(r) == ReqDrained(r, [], [], false) && AsksWait(r, qs)
  {
    if qs == [] {
      assert r.buf == [] && FindHeaderEnd([]).None?;
    } else {
      AskNotYet(r.buf, qs[0], later, AskAll(qs[1..]));
    }
  }

  lemma NoAskTaken(r: Req, d: ReqDrained, pend: bytes, pend': bytes, qs: seq<Ask>, later: bytes)
    requires !d.disables && d.pushed == [] && AsksIn(d.req, pend', qs, d.req.buf + later) && AsksWait(d.req, qs)
    requires d.out + pend' == pend
    ensures AsksDriven(d, pend, qs, later, 0, pend')
  {
    assert qs[0..] == qs && qs[..0] == [] && pend + [] == pend;
  }

  lemma BodyAsks(r: Req, pend: bytes, qs: seq<Ask>, later: bytes) returns (k: nat, pend': bytes)
    requires WholeAsks(qs) && AsksIn(r, pend, qs, r.buf + later) && r.state.ReqBody?
    ensures AsksDriven(DriveRequest(r), pend, qs, later, k, pend')
    decreases |r.buf|, ReqRank(r.state), 0
  {
    FrontOf(r.buf, later, pend, AskAll(qs));
    if |r.buf| >= |pend| {
      var rest := r.buf[|pend|..];
      assert r.buf[..|pend|] == pend;
      AfterFront(r.buf, later, pend, AskAll(qs));
      assert [] + AskAll(qs) == AskAll(qs);
      var next := Req(ReqState.ReqHead, rest);
      k, pend' := DriveAsks(next, [], qs, later);
      assert DriveRequest(r) == InFrontOf(pend, [], DriveRequest(next));
      assert [] + OutAll(qs[..k]) == OutAll(qs[..k]);
      Assoc(pend, DriveRequest(next).out, pend');
    } else {
      k, pend' := 0, pend[|r.buf|..];
      assert r.buf[..|r.buf|] == r.buf;
      AfterFront(pend, AskAll(qs), r.buf, later);
      assert [] + later == later;
      NoAskTaken(r, DriveRequest(r), pend, pend', qs, later);
    }
  }

  function InFrontOf(out: bytes, pushed: seq<bool>, d: ReqDrained): ReqDrained { d.(out := out + d.out, pushed := pushed + d.pushed) }

  lemma HeadAsks(r: Req, qs: seq<Ask>, later: bytes) returns (k: nat, pend': bytes)
    requires WholeAsks(qs) && AsksIn(r, [], qs, r.buf + later) && r.state.ReqHead?
    requires qs != [] && |r.buf| >= |qs[0].head|
    ensures AsksDriven(DriveRequest(r), [], qs, later, k, pend')
    decreases |r.buf|, ReqRank(r.state), 0
  {
    var q, edited := qs[0], HeadEdit.EditRequestHead(qs[0].head);
    assert [] + AskAll(qs) == AskAll(qs);
    var rest := AskFound(r.buf, q, later, AskAll(qs[1..]));
    AskReads(q, rest);
    AskHasBytes(q);
    var next := Req(if q.framing.None? then ReqState.ReqHead else ReqBody(|q.wire|), rest);
    k, pend' := DriveAsks(next, q.wire, qs[1..], later);
    assert DriveRequest(r) == InFrontOf(edited, [q.isHead], DriveRequest(next));
    AskTaken(DriveRequest(next), qs, later, k, pend');
    k := k + 1;
  }

  lemma AskTaken(d: ReqDrained, qs: seq<Ask>, later: bytes, k: nat, pend': bytes)
    requires qs != [] && AsksDriven(d, qs[0].wire, qs[1..], later, k, pend')
    ensures AsksDriven(InFrontOf(HeadEdit.EditRequestHead(qs[0].head), [qs[0].isHead], d), [], qs, later, k + 1, pend')
  {
    OneAsk(qs, k);
    var edited, outs := HeadEdit.EditRequestHead(qs[0].head), OutAll(qs[1..][..k]);
    Assoc(edited, d.out, pend');
    Assoc(edited, qs[0].wire, outs);
    assert [] + OutAll(qs[..k + 1]) == OutAll(qs[..k + 1]);
  }

  // --- requests and responses ------------------------------------------------

  function NextAsks(m: Message, us: seq<Ask>): seq<Ask> { if Interim(m) || us == [] then us else us[1..] }

  /** The final responses among `ms` answer the requests `us` in turn. */
  predicate Answers(ms: seq<Message>, us: seq<Ask>)
    decreases |ms|
  {
    ms == [] || ((Interim(ms[0]) || (us != [] && ms[0].isHead == us[0].isHead)) && Answers(ms[1..], NextAsks(ms[0], us)))
  }

  /** With `later` response bytes and `reqLater` request bytes still to come, every final response that has begun has its
      whole request before it. */
  predicate Timed(ms: seq<Message>, later: nat, us: seq<Ask>, reqLater: nat)
    decreases |ms|
  {
    ms == [] || |WireAll(ms)| <= later
    || ((Interim(ms[0]) || (us != [] && reqLater <= |AskAll(us[1..])|)) && Timed(ms[1..], later, NextAsks(ms[0], us), reqLater))
  }

  /** With `p` flags queued, every final response that has begun has one. */
  predicate Timely(ms: seq<Message>, later: nat, p: nat)
    decreases |ms|
  {
    ms == [] || |WireAll(ms)| <= later
    || (if Interim(ms[0]) then Timely(ms[1..], later, p) else p > 0 && Timely(ms[1..], later, p - 1))
  }

  lemma {:induction false} TimelyIfTimed(ms: seq<Message>, later: nat, queued: seq<Ask>, asks: seq<Ask>, reqLater: nat)
    requires Timed(ms, later, queued + asks, reqLater)
    requires asks != [] ==> reqLater > |AskAll(asks[1..])|
    ensures Timely(ms, later, |queued|)
    decreases |ms|
  {
    if ms != [] && |WireAll(ms)| > later {
      if Interim(ms[0]) {
        TimelyIfTimed(ms[1..], later, queued, asks, reqLater);
      } else {
        assert queued + asks == if queued == [] then asks else [queued[0]] + (queued[1..] + asks);
        assert queued != [] ==> (queued + asks)[1..] == queued[1..] + asks;
        TimelyIfTimed(ms[1..], later, queued[1..], asks, reqLater);
      }
    }
  }

  lemma {:induction false} ServedIfTimely(ms: seq<Message>, later: nat, queued: seq<Ask>, asks: seq<Ask>)
    requires Answers(ms, queued + asks) && Timely(ms, later, |queued|)
    ensures Served(Flags(queued), ms, later)
    decreases |ms|
  {
    if ms != [] && |WireAll(ms)| > later {
      if Interim(ms[0]) {
        ServedIfTimely(ms[1..], later, queued, asks);
      } else {
        assert (queued + asks)[1..] == queued[1..] + asks && Flags(queued)[1..] == Flags(queued[1..]);
        ServedIfTimely(ms[1..], later, queued[1..], asks);
      }
    }
  }

  /** The request bytes among the events. */
  function Asked(evs: seq<Event>): bytes {
    if evs == [] then [] else (if evs[0].Request? then evs[0].data else []) + Asked(evs[1..])
  }

  /** Whenever response bytes come, each final response that has begun starts after its request is complete. */
  predicate Orderly(ms: seq<Message>, us: seq<Ask>, evs: seq<Event>, respTail: bytes, reqTail: bytes)
    decreases |evs|
  {
    evs == []
    || ((evs[0].Response? ==> Timed(ms, |Fed(evs[1..]) + respTail|, us, |Asked(evs[1..]) + reqTail|))
        && Orderly(ms, us, evs[1..], respTail, reqTail))
  }

  lemma {:induction false} OrderlyNext(ms: seq<Message>, us: seq<Ask>, evs: seq<Event>, respTail: bytes, reqTail: bytes)
    requires ms != [] && |WireAll(ms)| > |Fed(evs) + respTail| && Orderly(ms, us, evs, respTail, reqTail)
    ensures Orderly(ms[1..], NextAsks(ms[0], us), evs, respTail, reqTail)
    decreases |evs|
  {
    if evs != [] {
      OrderlyNext(ms, us, evs[1..], respTail, reqTail);
    }
  }

  /** The messages that were taken leave the queue and the order as they should be for the others. */
  lemma {:induction false} TakenAnswers(q': seq<bool>, a: seq<Message>, b: seq<Message>, queued: seq<Ask>, asks: seq<Ask>,
                                        evs: seq<Event>, respTail: bytes, reqTail: bytes) returns (queued': seq<Ask>)
    requires Taken(Flags(queued), a, q', b, |Fed(evs) + respTail|)
    requires Answers(a, queued + asks) && Timely(a, |Fed(evs) + respTail|, |queued|)
    requires Orderly(a, queued + asks, evs, respTail, reqTail)
    ensures q' == Flags(queued') && Answers(b, queued' + asks) && Orderly(b, queued' + asks, evs, respTail, reqTail)
    decreases |a|
  {
    if a == b && Flags(queued) == q' {
      queued' := queued;
    } else {
      OrderlyNext(a, queued + asks, evs, respTail, reqTail);
      if Interim(a[0]) {
        queued' := TakenAnswers(q', a[1..], b, queued, asks, evs, respTail, reqTail);
      } else {
        assert (queued + asks)[1..] == queued[1..] + asks && Flags(queued)[1..] == Flags(queued[1..]);
        queued' := TakenAnswers(q', a[1..], b, queued[1..], asks, evs, respTail, reqTail);
      }
    }
  }

  // --- the connection --------------------------------------------------------

  /** Where the connection stands: what has come out of the first of the responses `ms` and what is still to be taken of it,
      what is still to be passed on of the current request, the requests that wait for a response, and those to come. */
  datatype Stand = Stand(out: bytes, pend: bytes, ms: seq<Message>, verdict: Verdict,
                         askPend: bytes, queued: seq<Ask>, asks: seq<Ask>)

  ghost predicate RespStands(r: Resp, st: Stand, respLater: bytes, blob: bytes) {
    && AllFit(st.ms, blob) && Ready(r, st.out, st.pend, st.ms, st.verdict, blob) && Quiet(r, st.pend, st.ms)
    && Remaining(st.pend, st.ms) == r.buf + respLater && r.pendingHead == Flags(st.queued)
  }

  predicate ReqAt(r: Req, st: Stand, reqLater: bytes) {
    AsksIn(r, st.askPend, st.asks, r.buf + reqLater) && AsksWait(r, st.asks)
  }

  predicate ReqStands(r: Req, st: Stand, reqLater: bytes) { WholeAsks(st.asks) && ReqAt(r, st, reqLater) }

  ghost predicate Stands(m: Machine, st: Stand, reqLater: bytes, respLater: bytes, blob: bytes) {
    && RespStands(m.resp, st, respLater, blob) && ReqStands(m.req, st, reqLater)
    && Answers(Unrouted(m.resp.state, st.ms), st.queued + st.asks)
  }

  lemma FlagsAppend(a: seq<Ask>, b: seq<Ask>)
    ensures Flags(a + b) == Flags(a) + Flags(b)
  {
  }

  lemma QueueLonger(r: Resp, st: Stand, st': Stand, more: seq<Ask>, respLater: bytes, blob: bytes)
    requires RespStands(r, st, respLater, blob)
    requires st' == st.(askPend := st'.askPend, queued := st.queued + more, asks := st'.asks)
    ensures RespStands(r.(pendingHead := r.pendingHead + Flags(more)), st', respLater, blob)
  {
    FlagsAppend(st.queued, more);
  }

  /** Request bytes: nothing changes for the responses. */
  lemma RequestComes(m: Machine, st: Stand, x: bytes, reqLater: bytes, respLater: bytes, blob: bytes) returns (k: nat, st': Stand)
    requires Stands(m, st, x + reqLater, respLater, blob)
    ensures k <= |st.asks| && st' == st.(askPend := st'.askPend, queued := st.queued + st.asks[..k], asks := st.asks[k..])
    ensures st'.queued + st'.asks == st.queued + st.asks
    ensures var a := FeedRequest(m, x);
            && Stands(a.m, st', reqLater, respLater, blob) && a.m.resp.state == m.resp.state && a.toApp == []
            && a.toServer + st'.askPend == st.askPend + OutAll(st.asks[..k])
  {
    k, st' := AsksCome(m.req, st, x, reqLater);
    QueueLonger(m.resp, st, st', st.asks[..k], respLater, blob);
  }

  lemma AsksCome(r: Req, st: Stand, x: bytes, reqLater: bytes) returns (k: nat, st': Stand)
    requires ReqStands(r, st, x + reqLater)
    ensures k <= |st.asks| && st' == st.(askPend := st'.askPend, queued := st.queued + st.asks[..k], asks := st.asks[k..])
    ensures st'.queued + st'.asks == st.queued + st.asks
    ensures var d := DriveRequest(r.(buf := r.buf + x));
            && ReqStands(d.req, st', reqLater) && !d.disables && d.pushed == Flags(st.asks[..k])
            && d.out + st'.askPend == st.askPend + OutAll(st.asks[..k])
  {
    Assoc(r.buf, x, reqLater);
    var pend';
    k, pend' := DriveAsks(r.(buf := r.buf + x), st.askPend, st.asks, reqLater);
    st' := st.(askPend := pend', queued := st.queued + st.asks[..k], asks := st.asks[k..]);
    WholeRest(st.asks, k);
    AsksTaken(DriveRequest(r.(buf := r.buf + x)), st, st', reqLater, k);
  }

  lemma AsksTaken(d: ReqDrained, st: Stand, st': Stand, reqLater: bytes, k: nat)
    requires AsksDriven(d, st.askPend, st.asks, reqLater, k, st'.askPend)
    requires st' == st.(askPend := st'.askPend, queued := st.queued + st.asks[..k], asks := st.asks[k..])
    ensures ReqAt(d.req, st', reqLater) && st'.queued + st'.asks == st.queued + st.asks
  {
    assert st.queued + st.asks[..k] + st.asks[k..] == st.queued + st.asks;
  }

  /** A request head that has not come whole leaves more to come than the requests after it. */
  lemma MoreToCome(r: Req, st: Stand, reqLater: bytes)
    requires ReqStands(r, st, reqLater) && st.asks != []
    ensures |reqLater| > |AskAll(st.asks[1..])|
  {
    FirstHasBytes(st.asks);
  }

  /** Response bytes: the messages they complete are delivered. */
  lemma ResponseComes(m: Machine, st: Stand, x: bytes, evs: seq<Event>, respTail: bytes, reqTail: bytes, blob: bytes)
    returns (outs: seq<bytes>, st': Stand)
    requires Stands(m, st, Asked(evs) + reqTail, x + (Fed(evs) + respTail), blob) && |x| <= FEED_MAX
    requires Timed(Unrouted(m.resp.state, st.ms), |Fed(evs) + respTail|, st.queued + st.asks, |Asked(evs) + reqTail|)
    requires Orderly(Unrouted(m.resp.state, st.ms), st.queued + st.asks, evs, respTail, reqTail)
    ensures AllDelivered(outs, st.ms, blob)
    ensures st'.ms == st.ms[|outs|..] && st'.askPend == st.askPend && st'.asks == st.asks
    ensures var a := React(m, Response(x), blob);
            && Stands(a.m, st', Asked(evs) + reqTail, Fed(evs) + respTail, blob) && a.toServer == []
            && st.out + a.toApp == Concat(outs) + st'.out
            && Orderly(Unrouted(a.m.resp.state, st'.ms), st'.queued + st'.asks, evs, respTail, reqTail)
  {
    var a, later, reqLater := Unrouted(m.resp.state, st.ms), Fed(evs) + respTail, Asked(evs) + reqTail;
    if st.asks != [] {
      MoreToCome(m.req, st, reqLater);
    }
    TimelyIfTimed(a, |later|, st.queued, st.asks, |reqLater|);
    ServedIfTimely(a, |later|, st.queued, st.asks);
    var g := FeedDelivers(m.resp, st.out, st.pend, st.ms, st.verdict, x, later, blob);
    var d := FeedResponse(m.resp, x, true, blob);
    var queued' := TakenAnswers(d.resp.pendingHead, a, Unrouted(d.resp.state, st.ms[|g.outs|..]), st.queued, st.asks, evs, respTail, reqTail);
    outs := g.outs;
    st' := Stand(g.out, g.pend, st.ms[|g.outs|..], g.verdict, st.askPend, queued', st.asks);
    FitRest(st.ms, |g.outs|, blob);
  }

  /** From `st` to `st'`: `outs` are the responses delivered, and the first `k` requests are those that were taken. */
  ghost predicate Carried(st: Stand, b: Reply, st': Stand, outs: seq<bytes>, k: nat, blob: bytes) {
    && AllDelivered(outs, st.ms, blob) && st'.ms == st.ms[|outs|..] && st.out + b.toApp == Concat(outs) + st'.out
    && k <= |st.asks| && st'.asks == st.asks[k..] && b.toServer + st'.askPend == st.askPend + OutAll(st.asks[..k])
  }

  lemma {:induction false} OutAppend(a: seq<Ask>, b: seq<Ask>)
    ensures OutAll(a + b) == OutAll(a) + OutAll(b)
    decreases |a|
  {
    if a == [] {
      assert a + b == b;
    } else {
      assert (a + b)[1..] == a[1..] + b;
      OutAppend(a[1..], b);
      Assoc(HeadEdit.EditRequestHead(a[0].head) + a[0].wire, OutAll(a[1..]), OutAll(b));
    }
  }

  lemma CarriedOn(st: Stand, a: Reply, st1: Stand, outs: seq<bytes>, k: nat, b: Reply, st2: Stand, more: seq<bytes>, j: nat, blob: bytes)
    requires Carried(st, a, st1, outs, k, blob) && Carried(st1, b, st2, more, j, blob)
    ensures Carried(st, Reply(b.m, a.toServer + b.toServer, a.toApp + b.toApp), st2, outs + more, k + j, blob)
  {
    JoinDelivered(outs, more, st.ms, blob);
    RestTwice(st.ms, |outs|, |more|);
    JoinOutput(st.out, a.toApp, b.toApp, Progress(outs, st1.out, [], Wait), more, st2.out);
    AsksOn(st, a.toServer, st1, k, b.toServer, st2, j);
  }

  lemma RestTwice<T>(s: seq<T>, a: nat, b: nat)
    requires a + b <= |s|
    ensures s[a..][b..] == s[a + b..]
  {
  }

  lemma AsksOn(st: Stand, a: bytes, st1: Stand, k: nat, b: bytes, st2: Stand, j: nat)
    requires k <= |st.asks| && st1.asks == st.asks[k..] && a + st1.askPend == st.askPend + OutAll(st.asks[..k])
    requires j <= |st1.asks| && st2.asks == st1.asks[j..] && b + st2.askPend == st1.askPend + OutAll(st1.asks[..j])
    ensures st2.asks == st.asks[k + j..] && a + b + st2.askPend == st.askPend + OutAll(st.asks[..k + j])
  {
    OutAppend(st.asks[..k], st1.asks[..j]);
    assert st.asks[..k] + st1.asks[..j] == st.asks[..k + j];
    Assoc(a, b, st2.askPend);
    Assoc(a, st1.askPend, OutAll(st1.asks[..j]));
    Assoc(st.askPend, OutAll(st.asks[..k]), OutAll(st1.asks[..j]));
  }

  function Concerning(e: Event): bytes { if e.Closed? then [] else e.data }

  predicate Bounded16(evs: seq<Event>) { forall i :: 0 <= i < |evs| ==> |Concerning(evs[i])| <= FEED_MAX }

  lemma NothingCarried(m: Machine, st: Stand, blob: bytes)
    ensures Carried(st, Reply(m, [], []), st, [], 0, blob)
  {
    assert st.ms[0..] == st.ms && st.asks[0..] == st.asks && st.asks[..0] == [];
    assert st.out + [] == st.out && [] + st.out == st.out;
    assert [] + st.askPend == st.askPend && st.askPend + [] == st.askPend;
  }

  /** What one event does, whatever it is. */
  lemma EventComes(m: Machine, st: Stand, evs: seq<Event>, respTail: bytes, reqTail: bytes, blob: bytes)
    returns (a: Reply, outs: seq<bytes>, k: nat, st': Stand)
    requires evs != [] && |Concerning(evs[0])| <= FEED_MAX
    requires Stands(m, st, Asked(evs) + reqTail, Fed(evs) + respTail, blob)
    requires Orderly(Unrouted(m.resp.state, st.ms), st.queued + st.asks, evs, respTail, reqTail)
    ensures Run(m, evs, blob) == var b := Run(a.m, evs[1..], blob); Reply(b.m, a.toServer + b.toServer, a.toApp + b.toApp)
    ensures && Stands(a.m, st', Asked(evs[1..]) + reqTail, Fed(evs[1..]) + respTail, blob) && Carried(st, a, st', outs, k, blob)
            && Orderly(Unrouted(a.m.resp.state, st'.ms), st'.queued + st'.asks, evs[1..], respTail, reqTail)
  {
    var rest := evs[1..];
    a := React(m, evs[0], blob);
    match evs[0]
    case Request(x) => outs, k, st' := EventRequest(m, st, x, rest, respTail, reqTail, blob);
    case Response(x) => outs, k, st' := EventResponse(m, st, x, rest, respTail, reqTail, blob);
    case Closed =>
      assert [] + Asked(rest) == Asked(rest) && [] + Fed(rest) == Fed(rest);
      outs, k, st' := [], 0, st;
      NothingCarried(m, st, blob);
  }

  lemma EventRequest(m: Machine, st: Stand, x: bytes, rest: seq<Event>, respTail: bytes, reqTail: bytes, blob: bytes)
    returns (outs: seq<bytes>, k: nat, st': Stand)
    requires Stands(m, st, x + Asked(rest) + reqTail, [] + Fed(rest) + respTail, blob)
    requires Orderly(Unrouted(m.resp.state, st.ms), st.queued + st.asks, rest, respTail, reqTail)
    ensures var a := FeedRequest(m, x);
            && Stands(a.m, st', Asked(rest) + reqTail, Fed(rest) + respTail, blob) && Carried(st, a, st', outs, k, blob)
            && Orderly(Unrouted(a.m.resp.state, st'.ms), st'.queued + st'.asks, rest, respTail, reqTail)
  {
    Assoc(x, Asked(rest), reqTail);
    assert [] + Fed(rest) == Fed(rest);
    k, st' := RequestComes(m, st, x, Asked(rest) + reqTail, Fed(rest) + respTail, blob);
    outs := [];
    assert st.ms[0..] == st.ms && st.out + [] == [] + st.out;
  }

  lemma EventResponse(m: Machine, st: Stand, x: bytes, rest: seq<Event>, respTail: bytes, reqTail: bytes, blob: bytes)
    returns (outs: seq<bytes>, k: nat, st': Stand)
    requires Stands(m, st, [] + Asked(rest) + reqTail, x + Fed(rest) + respTail, blob) && |x| <= FEED_MAX
    requires Timed(Unrouted(m.resp.state, st.ms), |Fed(rest) + respTail|, st.queued + st.asks, |Asked(rest) + reqTail|)
    requires Orderly(Unrouted(m.resp.state, st.ms), st.queued + st.asks, rest, respTail, reqTail)
    ensures var a := React(m, Response(x), blob);
            && Stands(a.m, st', Asked(rest) + reqTail, Fed(rest) + respTail, blob) && Carried(st, a, st', outs, k, blob)
            && Orderly(Unrouted(a.m.resp.state, st'.ms), st'.queued + st'.asks, rest, respTail, reqTail)
  {
    Assoc(x, Fed(rest), respTail);
    assert [] + Asked(rest) == Asked(rest);
    outs, st' := ResponseComes(m, st, x, rest, respTail, reqTail, blob);
    k := 0;
    assert st.asks[0..] == st.asks && st.asks[..0] == [] && [] + st.askPend == st.askPend + [];
  }

  /** At every moment of a connection whose requests are followed, each response after its request and everything in pieces and
      interleaved in any way: the responses that have come whole have been delivered, and the requests sent on. */
  lemma {:induction false} RunDelivers(m: Machine, st: Stand, evs: seq<Event>, respTail: bytes, reqTail: bytes, blob: bytes)
    returns (outs: seq<bytes>, k: nat, st': Stand)
    requires Bounded16(evs) && Stands(m, st, Asked(evs) + reqTail, Fed(evs) + respTail, blob)
    requires Orderly(Unrouted(m.resp.state, st.ms), st.queued + st.asks, evs, respTail, reqTail)
    ensures var b := Run(m, evs, blob); Stands(b.m, st', reqTail, respTail, blob) && Carried(st, b, st', outs, k, blob)
    decreases |evs|
  {
    if evs == [] {
      assert [] + reqTail == reqTail && [] + respTail == respTail;
      outs, k, st' := [], 0, st;
      NothingCarried(m, st, blob);
    } else {
      var a, st1, more, j;
      a, outs, k, st1 := EventComes(m, st, evs, respTail, reqTail, blob);
      more, j, st' := RunDelivers(a.m, st1, evs[1..], respTail, reqTail, blob);
      CarriedOn(st, a, st1, outs, k, Run(a.m, evs[1..], blob), st', more, j, blob);
      outs, k := outs + more, k + j;
    }
  }

  /** The start of a connection that is to carry these messages. */
  function Begin(ms: seq<Message>, asks: seq<Ask>): Stand { Stand([], if ms == [] then [] else Wire(ms[0]), ms, Wait, [], [], asks) }

  lemma StartStands(ms: seq<Message>, asks: seq<Ask>, blob: bytes)
    requires AllFit(ms, blob) && WholeAsks(asks) && Answers(ms, asks)
    ensures Stands(Initial, Begin(ms, asks), AskAll(asks), WireAll(ms), blob)
  {
    assert [] + asks == asks;
    StartsAnswering(Initial.resp, Begin(ms, asks), blob);
    StartsAsking(Initial.req, Begin(ms, asks));
  }

  lemma StartsAnswering(r: Resp, st: Stand, blob: bytes)
    requires r == Resp(Head, [], [], false) && st == Begin(st.ms, st.asks) && AllFit(st.ms, blob)
    ensures RespStands(r, st, WireAll(st.ms), blob)
  {
    AtStart(r, st.ms, blob);
    assert [] + WireAll(st.ms) == WireAll(st.ms);
  }

  lemma StartsAsking(r: Req, st: Stand)
    requires r == Req(ReqState.ReqHead, []) && st.askPend == [] && WholeAsks(st.asks)
    ensures ReqStands(r, st, AskAll(st.asks))
  {
    assert [] + AskAll(st.asks) == AskAll(st.asks);
    FirstHasBytes(st.asks);
  }

  /** A whole connection, from the start: requests and responses in any pieces of at most 16 KiB, interleaved in any way in which
      each response starts after its request. The server gets every request with its head edited, and the app gets one output
      for each response, in order: a copy, or the document under a verdict of the scan in the same framing. */
  lemma ConnectionDelivered(ms: seq<Message>, asks: seq<Ask>, evs: seq<Event>, blob: bytes) returns (outs: seq<bytes>, last: bytes)
    requires AllFit(ms, blob) && WholeAsks(asks) && Answers(ms, asks) && Bounded16(evs)
    requires Fed(evs) == WireAll(ms) && Asked(evs) == AskAll(asks) && Orderly(ms, asks, evs, [], [])
    ensures var b := Run(Initial, evs, blob);
            && b.toApp == Concat(outs) + last && Ended(b.m.resp, outs, last, ms, blob)
            && b.toServer == OutAll(asks)
  {
    var st := Begin(ms, asks);
    StartStands(ms, asks, blob);
    assert [] + asks == asks;
    assert Asked(evs) + [] == Asked(evs) && Fed(evs) + [] == Fed(evs);
    var k, st';
    outs, k, st' := RunDelivers(Initial, st, evs, [], [], blob);
    last := st'.out;
    var b := Run(Initial, evs, blob);
    AllAsked(b, st, st', outs, k, ms, blob);
    AllAnswered(b, st, st', outs, k, ms, blob);
  }

  lemma AllAsked(b: Reply, st: Stand, st': Stand, outs: seq<bytes>, k: nat, ms: seq<Message>, blob: bytes)
    requires Carried(st, b, st', outs, k, blob) && ReqStands(b.m.req, st', []) && st.askPend == []
    ensures b.toServer == OutAll(st.asks)
  {
    assert b.m.req.buf + [] == b.m.req.buf;
    if st'.asks != [] {
      MoreToCome(b.m.req, st', []);
    }
    assert st'.askPend + AskAll([]) == st'.askPend;
    assert st.asks[..k] == st.asks;
    assert b.toServer + [] == b.toServer && [] + OutAll(st.asks) == OutAll(st.asks);
  }

  lemma AllAnswered(b: Reply, st: Stand, st': Stand, outs: seq<bytes>, k: nat, ms: seq<Message>, blob: bytes)
    requires Carried(st, b, st', outs, k, blob) && RespStands(b.m.resp, st', [], blob) && st.out == [] && st.ms == ms && AllFit(ms, blob)
    ensures b.toApp == Concat(outs) + st'.out && Ended(b.m.resp, outs, st'.out, ms, blob)
  {
    assert b.m.resp.buf + [] == b.m.resp.buf && [] + b.toApp == b.toApp;
    StreamEnds(b.m.resp, outs, st'.out, st'.pend, ms, st'.verdict, blob);
  }

  // --- giving up -------------------------------------------------------------

  /** For a reader between chunks the rest of the wire is a chunked body of its own, with the data it would have had here. */
  predicate ReadsAlone(cs: ChunkState, pend: bytes) {
    Complete(InSize([]), pend) && Body(InSize([]), pend) == Body(Start(cs), pend)
  }

  /** What becomes of the message in progress when the rest of its wire bytes goes out as it is: a message not yet begun or
      passed on is whole, a held one has lost its head, and one that is streaming is delivered, but in chunks only if the rest
      reads alone. */
  ghost predicate Fate(s: RespState, st: Stand, blob: bytes)
    requires st.ms != []
  {
    var x, m := st.out + st.pend, st.ms[0];
    match s
    case Head => x == Wire(m)
    case Pass(_) => x == Wire(m)
    case Buffer(_) => x == st.pend && |x| < |Wire(m)|
    case Stream(kind) =>
      Delivered(PlanOf(m, blob, st.verdict), x) <==> (kind.Chunks? ==> ReadsAlone(kind.reader, st.pend))
  }

  lemma RawChunks(o: bytes, e: bytes, cs: ChunkState, pend: bytes, p: Plan)
    requires Streams(p) && p.chunked && Rechunking(o, e, cs, pend, p)
    ensures Delivered(p, o + pend) <==> ReadsAlone(cs, pend)
  {
    FeedSplit(InSize([]), e, pend);
    UsedSplit(InSize([]), e, pend);
    EarlyIsDecided(p.doc, p.verdict);
    Assoc(p.headOut, e, pend);
    SameRest(Body(InSize([]), e), Body(InSize([]), pend), Body(Start(cs), pend));
    if ReadsAlone(cs, pend) {
      DeliveredAs(p, o + pend, e + pend);
    }
    if Delivered(p, o + pend) {
      var e' :| o + pend == p.headOut + e' && BodyOut(p, e');
      assert e' == (p.headOut + e')[|p.headOut|..] == e + pend;
    }
  }

  lemma SameRest(a: bytes, b: bytes, c: bytes)
    ensures a + b == a + c <==> b == c
  {
    assert (a + b)[|a|..] == b && (a + c)[|a|..] == c;
  }

  lemma FateIs(r: Resp, st: Stand, respLater: bytes, blob: bytes)
    requires RespStands(r, st, respLater, blob) && st.ms != []
    ensures Fate(r.state, st, blob)
  {
    var m := st.ms[0];
    var p := PlanOf(m, blob, st.verdict);
    match r.state
    case Head => assert [] + st.pend == st.pend;
    case Pass(_) =>
    case Buffer(_) =>
      assert [] + st.pend == st.pend;
      HeadHasBytes(m);
    case Stream(kind) =>
      if kind.Chunks? {
        var e :| Rechunking(st.out, e, kind.reader, st.pend, p);
        RawChunks(st.out, e, kind.reader, st.pend, p);
      } else {
        EarlyIsDecided(p.doc, p.verdict);
        DeliveredAs(p, st.out + st.pend, p.docOut);
      }
  }

  /** When the request side gives up, wherever the responses stand, all that is still to come goes out as it is, and what that
      makes of the message in progress is its fate. The messages after it are whole. */
  lemma GivingUp(m: Machine, st: Stand, give: bytes, later: seq<Event>, blob: bytes)
    requires RespStands(m.resp, st, Fed(later), blob) && FeedRequest(m, give).m.resp.disabled
    ensures var c := Run(FeedRequest(m, give).m, later, blob);
            c.toApp + c.m.resp.buf == if st.ms == [] then [] else st.pend + WireAll(st.ms[1..])
    ensures st.ms != [] ==> Fate(m.resp.state, st, blob)
  {
    GivenUp(FeedRequest(m, give).m, later, blob);
    if st.ms != [] {
      FateIs(m.resp, st, Fed(later), blob);
    }
  }

  /** Between two chunks no harm is done. */
  lemma BetweenChunks(pend: bytes)
    requires Complete(Start(Size([])), pend)
    ensures ReadsAlone(Size([]), pend)
  {
  }

  function Filler(n: nat): bytes { seq(n, i => 122) }

  /** In the middle of a chunk it is: for any number of bytes left of it, this rest of the wire does not read alone. */
  lemma InsideChunk(n: nat)
    requires n > 0
    ensures var pend := Filler(n) + CRLF + LAST_CHUNK;
            Complete(Start(Data(n)), pend) && !ReadsAlone(Data(n), pend)
  {
    var data, pend := Filler(n), Filler(n) + CRLF + LAST_CHUNK;
    RestOfChunk(n, data);
    Assoc(data, CRLF, LAST_CHUNK);
    var p := n + 1;
    assert pend[p] == LF && forall i :: 0 <= i < p ==> pend[i] != LF;
    FeedLine(InSize([]), pend, p);
    assert [] + pend[..p] == data + [CR] && pend[..p + 1] + pend[p + 1..] == pend;
    NoSize(data);
    FeedSplit(InSize([]), pend[..p + 1], pend[p + 1..]);
    FeedHalted(Feed(InSize([]), pend[..p + 1]), pend[p + 1..]);
  }

  lemma RestOfChunk(n: nat, data: bytes)
    requires n > 0 && |data| == n
    ensures Complete(InData(n), data + (CRLF + LAST_CHUNK))
  {
    FeedData(n, data);
    FeedSplit(InData(n), data, CRLF + LAST_CHUNK);
    UsedSplit(InData(n), data, CRLF + LAST_CHUNK);
    FeedCrlf(CRLF);
    assert CRLF[..2] == CRLF;
    FeedSplit(AtCrlf, CRLF, LAST_CHUNK);
    UsedSplit(AtCrlf, CRLF, LAST_CHUNK);
    LastChunkDecodes();
  }

  lemma NoSize(data: bytes)
    requires data != [] && forall i :: 0 <= i < |data| ==> data[i] == 122
    ensures ChunkSize(data + [CR] + [LF]) == None
  {
    assert (data + [CR] + [LF])[..|data| + 1] == data + [CR] && (data + [CR])[..|data|] == data;
    Fillers(data);
    assert ChunkSize(data) == LeadingNumber(data);
    assert ChunkSize(data + [CR]) == ChunkSize(data);
  }

  lemma Fillers(data: bytes)
    requires data != [] && forall i :: 0 <= i < |data| ==> data[i] == 122
    ensures LeadingNumber(data) == None
  {
    assert Split(data, 59) == [data];
    assert LeadingSpace(data) == 0 && TrailingSpace(data) == 0;
    FillerDigits(data);
  }

  lemma FillerDigits(data: bytes)
    requires data != [] && data[0] == 122 && data[|data| - 1] == 122
    ensures ParseUnsigned(data, 16, USIZE_MAX) == None
  {
    assert DigitValue(122) == 99;
    assert DigitsValue(data, 16) == None;
  }
}
