/** What the tap reports of a connection, told by the bytes alone: the words and fields of the heads, and the bodies they
    announce. */
module TapReports {
  import opened Bytes
  import opened Chunked
  import opened HttpHead
  import opened BodyRule
  import opened HeadWords
  import opened HttpTap
  import opened Pairing
  import M = Messages

  // --- one message -----------------------------------------------------------

  /** `wire` is the body of a request with these fields. */
  ghost predicate RequestBody(headers: seq<Header>, wire: bytes) {
    if ListsChunked(headers) then M.Complete(InSize([]), wire)
    else if exists n :: SaysLength(headers, n) then SaysLength(headers, |wire|)
    else wire == []
  }

  /** The body of a response with these fields has no other end than the close. */
  ghost predicate RunsOn(status: nat, isHead: bool, headers: seq<Header>) {
    !Bodiless(status, isHead) && !ListsChunked(headers) && forall n :: !SaysLength(headers, n)
  }

  /** `m` is one whole request: `m.h` has the words and the fields of its head, and the body is what they announce. */
  ghost predicate Asked(m: Wired<Request>) {
    && WholeHead(m) && RequestLineSays(Fields(m).value.startLine, m.h.verb, m.h.target, m.h.version)
    && m.h == Request(m.h.verb, m.h.target, m.h.version, Fields(m).value.headers, [], 0, |m.head|, false)
    && RequestBody(m.h.headers, m.wire)
  }

  /** `m` is one whole response; if it runs until the close, a last byte stands for the close. */
  ghost predicate Replied(m: Wired<Response>, isHead: bool) {
    && WholeHead(m) && StatusLineSays(Fields(m).value.startLine, m.h.version, m.h.status) && m.h.status != 101
    && m.h == Response(m.h.status, m.h.version, Fields(m).value.headers, [], 0, |m.head|, false)
    && M.BodyAnnounced(m.h.status, isHead, m.h.headers, m.wire)
    && (RunsOn(m.h.status, isHead, m.h.headers) ==> m.wire != [])
  }

  lemma AskedIff(m: Wired<Request>)
    ensures Asked(m) <==> WholeRequest(m)
  {
    if WholeHead(m) {
      var p := Fields(m).value;
      RequestWordsIff(p.startLine, m.h.verb, m.h.target, m.h.version);
      BodyAskedIff(m.h.headers, m.wire);
      SaysRequest(m.head, p, m.h);
    }
  }

  lemma SaysRequest(head: bytes, p: Parsed, h: Request)
    requires RequestWords(p.startLine) == Some((h.verb, h.target, h.version))
             <==> RequestLineSays(p.startLine, h.verb, h.target, h.version)
    ensures RequestOf(head, p) == Some(h) <==> RequestLineSays(p.startLine, h.verb, h.target, h.version)
                                               && h == Request(h.verb, h.target, h.version, p.headers, [], 0, |head|, false)
  {
  }

  lemma BodyAskedIff(headers: seq<Header>, wire: bytes)
    ensures RequestBody(headers, wire) <==> FramedBody(RequestFraming(headers), wire)
  {
    RequestDelimited(headers, RequestFraming(headers));
    LengthIff(headers);
  }

  lemma RepliedIff(m: Wired<Response>, isHead: bool)
    ensures Replied(m, isHead) <==> WholeResponse(m, isHead)
    ensures RunsOn(m.h.status, isHead, m.h.headers) <==> FramingFor(m, isHead) == Some(UntilClose)
  {
    RunsOnIff(m, isHead);
    if WholeHead(m) {
      StatusWordsIff(Fields(m).value.startLine, m.h.version, m.h.status);
      M.AnnouncedIs(m.h.status, isHead, m.h.headers, m.wire);
      BodyRepliedIff(m, isHead);
    }
  }

  lemma RunsOnIff(m: Wired<Response>, isHead: bool)
    ensures RunsOn(m.h.status, isHead, m.h.headers) <==> FramingFor(m, isHead) == Some(UntilClose)
  {
    ResponseDelimited(m.h.status, isHead, m.h.headers, Some(UntilClose));
  }

  lemma BodyRepliedIff(m: Wired<Response>, isHead: bool)
    requires M.BodyAnnounced(m.h.status, isHead, m.h.headers, m.wire) <==> M.BodyIs(FramingFor(m, isHead), m.wire)
    requires RunsOn(m.h.status, isHead, m.h.headers) <==> FramingFor(m, isHead) == Some(UntilClose)
    ensures M.BodyAnnounced(m.h.status, isHead, m.h.headers, m.wire) && (RunsOn(m.h.status, isHead, m.h.headers) ==> m.wire != [])
            <==> if Interim(m.h) then m.wire == [] else FramedBody(FramingFor(m, isHead), m.wire)
  {
  }

  // --- the messages of a connection ------------------------------------------

  ghost predicate AllAsked(rs: Asks) { forall i :: 0 <= i < |rs| ==> Asked(rs[i]) }

  predicate IsFinal(m: Wired<Response>) { !(100 <= m.h.status < 200) || m.h.status == 101 }

  /** The responses that answer a request. */
  function Finals(ms: Answers): Answers {
    if ms == [] then [] else (if IsFinal(ms[0]) then [ms[0]] else []) + Finals(ms[1..])
  }

  predicate ToHead(q: Wired<Request>) { EqIgnoreCase(q.h.verb, A("HEAD")) }

  /** Each final response is a whole answer to the next request; only the last may run until the close. */
  ghost predicate RepliesTo(ms: Answers, rs: Asks)
    decreases |ms|
  {
    || ms == []
    || (if !IsFinal(ms[0]) then Replied(ms[0], false) && RepliesTo(ms[1..], rs)
        else rs != [] && Replied(ms[0], ToHead(rs[0])) && (Unending(ms[0], rs[0]) ==> |ms| == 1) && RepliesTo(ms[1..], rs[1..]))
  }

  /** The response to this request runs until the close. */
  ghost predicate Unending(m: Wired<Response>, q: Wired<Request>) { RunsOn(m.h.status, ToHead(q), m.h.headers) }

  lemma {:induction false} RepliesIff(ms: Answers, rs: Asks)
    ensures RepliesTo(ms, rs) <==> Answering(ms, rs)
    decreases |ms|
  {
    if ms != [] {
      if !IsFinal(ms[0]) {
        RepliedIff(ms[0], false);
        RepliesIff(ms[1..], rs);
      } else if rs != [] {
        RepliedIff(ms[0], ToHead(rs[0]));
        RepliesIff(ms[1..], rs[1..]);
      }
    }
  }

  function StillAsked(m: Wired<Response>, rs: Asks): Asks { if IsFinal(m) && rs != [] then rs[1..] else rs }

  /** The last response runs until the close. */
  ghost predicate EndsWithClose(ms: Answers, rs: Asks)
    decreases |ms|
  {
    && ms != []
    && if |ms| == 1 then IsFinal(ms[0]) && rs != [] && Unending(ms[0], rs[0]) else EndsWithClose(ms[1..], StillAsked(ms[0], rs))
  }

  lemma {:induction false} EndsIff(ms: Answers, rs: Asks)
    ensures EndsWithClose(ms, rs) <==> OpenEnded(ms, rs)
    decreases |ms|
  {
    if |ms| == 1 {
      if rs != [] {
        RunsOnIff(ms[0], ToHead(rs[0]));
      }
    } else if ms != [] {
      EndsIff(ms[1..], StillAsked(ms[0], rs));
    }
  }

  /** The k-th match is the k-th request with the k-th final response. */
  lemma {:induction false} MatchesInOrder(ms: Answers, rs: Asks)
    requires Answering(ms, rs)
    ensures |Matches(ms, rs)| == |Finals(ms)| <= |rs|
    ensures forall k :: 0 <= k < |Finals(ms)| ==> Matches(ms, rs)[k] == (rs[k], Finals(ms)[k])
    decreases |ms|
  {
    if ms != [] {
      var rest := NextUnanswered(ms[0], rs);
      MatchesInOrder(ms[1..], rest);
      MatchInFront(ms[0], rs, Matches(ms[1..], rest), Finals(ms[1..]));
    }
  }

  lemma MatchInFront(m: Wired<Response>, rs: Asks, more: seq<Match>, finals: Answers)
    requires IsFinal(m) ==> rs != []
    requires var rest := NextUnanswered(m, rs);
             |more| == |finals| <= |rest| && forall k :: 0 <= k < |finals| ==> more[k] == (rest[k], finals[k])
    ensures var all, fs := MatchOf(m, rs) + more, (if IsFinal(m) then [m] else []) + finals;
            |all| == |fs| <= |rs| && forall k :: 0 <= k < |fs| ==> all[k] == (rs[k], fs[k])
  {
  }

  // --- what is reported ------------------------------------------------------

  /** `host` is the first Host field, or the name of the TLS session if there is none. */
  ghost predicate HostSaid(sni: Option<bytes>, headers: seq<Header>, host: Option<bytes>) {
    if Absent(headers, A("host")) then host == sni else host.Some? && FirstValue(headers, A("host"), host.value)
  }

  /** What is kept of a body: its front, its true size, and whether something was cut off. */
  predicate KeptOf(doc: bytes, body: bytes, size: nat, truncated: bool) {
    && size == |doc| && (truncated <==> |doc| > MAX_BODY_CAPTURE)
    && body == if |doc| > MAX_BODY_CAPTURE then doc[..MAX_BODY_CAPTURE] else doc
  }

  /** The body itself, its chunks joined, and without the byte that stands for the close. */
  ghost function BodyTold(chunked: bool, unending: bool, wire: bytes): bytes {
    if chunked then Body(InSize([]), wire) else if unending && wire != [] then wire[..|wire| - 1] else wire
  }

  /** The transaction tells the words, the fields and the body of the request and of its response. */
  ghost predicate Reports(t: Transaction, sni: Option<bytes>, q: Wired<Request>, m: Wired<Response>) {
    && HostSaid(sni, q.h.headers, t.host)
    && t.request == q.h.(body := t.request.body, bodySize := t.request.bodySize, truncated := t.request.truncated)
    && KeptOf(BodyTold(ListsChunked(q.h.headers), false, q.wire), t.request.body, t.request.bodySize, t.request.truncated)
    && t.response == m.h.(body := t.response.body, bodySize := t.response.bodySize, truncated := t.response.truncated)
    && KeptOf(BodyTold(!Bodiless(m.h.status, ToHead(q)) && ListsChunked(m.h.headers), Unending(m, q), m.wire),
              t.response.body, t.response.bodySize, t.response.truncated)
  }

  lemma HostIs(sni: Option<bytes>, headers: seq<Header>)
    ensures var h := HeaderValue(headers, A("host")); HostSaid(sni, headers, if h.Some? then h else sni)
  {
    LookupIsFirst(headers, A("host"));
  }

  lemma RequestDocIs(q: Wired<Request>)
    requires WholeRequest(q)
    ensures RequestDoc(q) == BodyTold(ListsChunked(q.h.headers), false, q.wire)
  {
    RequestDelimited(q.h.headers, RequestFraming(q.h.headers));
  }

  lemma ResponseDocIs(m: Wired<Response>, q: Wired<Request>)
    ensures ResponseDoc(m, ToHead(q)) == BodyTold(!Bodiless(m.h.status, ToHead(q)) && ListsChunked(m.h.headers), Unending(m, q), m.wire)
  {
    ResponseDelimited(m.h.status, ToHead(q), m.h.headers, FramingFor(m, ToHead(q)));
  }

  lemma PairReports(sni: Option<bytes>, q: Wired<Request>, m: Wired<Response>)
    requires WholeRequest(q)
    ensures Reports(Pair(sni, q, m), sni, q, m)
  {
    HostIs(sni, q.h.headers);
    RequestDocIs(q);
    ResponseDocIs(m, q);
    KeptIsCappedPrefix(RequestDoc(q));
    KeptIsCappedPrefix(ResponseDoc(m, ToHead(q)));
    WholeOr(RequestDoc(q));
    WholeOr(ResponseDoc(m, ToHead(q)));
  }

  lemma WholeOr(doc: bytes)
    ensures doc[..Min(MAX_BODY_CAPTURE, |doc|)] == if |doc| > MAX_BODY_CAPTURE then doc[..MAX_BODY_CAPTURE] else doc
  {
  }

  /** The reported transactions are exactly the k-th request with the k-th final response, for each k. */
  ghost predicate AllReported(ts: seq<Transaction>, rs: Asks, ms: Answers) {
    && |ts| == |Finals(ms)| <= |rs|
    && forall k :: 0 <= k < |ts| ==> Reports(ts[k], None, rs[k], Finals(ms)[k])
  }

  lemma PairsReport(rs: Asks, ms: Answers)
    requires AllRequests(rs) && Answering(ms, rs)
    ensures AllReported(Pairs(None, ms, rs), rs, ms)
  {
    MatchesInOrder(ms, rs);
    var ts := Pairs(None, ms, rs);
    forall k | 0 <= k < |ts| ensures Reports(ts[k], None, rs[k], Finals(ms)[k]) {
      PairReports(None, rs[k], Finals(ms)[k]);
    }
  }

  /** A response that changes the protocol is reported with the request it answers, and the tap is off from then on. */
  lemma SwitchReported(t: Tap, q: Wired<Request>, m: Wired<Response>, rest: bytes)
    requires WholeRequest(q) && t.pending != [] && t.pending[0] == Sent(q)
    requires t.respPartial.None? && t.respBuf == m.head + rest
    requires WholeHead(m) && StatusLineSays(Fields(m).value.startLine, m.h.version, 101) && m.wire == []
    requires m.h == Response(101, m.h.version, Fields(m).value.headers, [], 0, |m.head|, false)
    ensures var u := DrainResponses(t);
            && u.disabled && u.completed == t.completed + [Pair(t.sni, q, m)] && Reports(Pair(t.sni, q, m), t.sni, q, m)
  {
    StatusWordsIff(Fields(m).value.startLine, m.h.version, 101);
    HeadTaken(m, rest);
    PushCappedNothing(EmptyCapture);
    PairReports(t.sni, q, m);
    var u := t.(respBuf := rest);
    assert ResponseTurn(t) == RouteResponse(u, m.h);
  }

  lemma AllAskedIff(rs: Asks)
    ensures AllAsked(rs) <==> AllRequests(rs)
  {
    forall i | 0 <= i < |rs| ensures Asked(rs[i]) <==> WholeRequest(rs[i]) {
      AskedIff(rs[i]);
    }
  }

  /** Whatever the cuts and the interleaving in which responses start after their requests are complete: once every byte has come,
      the k-th request is reported with the k-th final response, each with the words, the fields and the body of its own bytes. */
  lemma TapReportsInOrder(rs: Asks, ms: Answers, evs: seq<Event>)
    requires AllAsked(rs) && RepliesTo(ms, rs) && !EndsWithClose(ms, rs)
    requires ReqData(evs) == WireAll(rs) && RespData(evs) == WireAll(ms) && Orderly(ms, rs, evs, [], [])
    requires forall i :: 0 <= i < |evs| ==> |evs[i].data| <= M.FEED_MAX
    ensures var u := FedAll(NewTap, evs); !u.disabled && AllReported(u.completed, rs, ms)
  {
    AllAskedIff(rs);
    RepliesIff(ms, rs);
    EndsIff(ms, rs);
    TapPairsInOrder(rs, ms, evs);
    PairsReport(rs, ms);
  }

  /** The same when the last response runs until the close, once the connection is closed; `mark` stands for the close. */
  lemma TapReportsAtClose(rs: Asks, ms: Answers, mark: byte, evs: seq<Event>)
    requires AllAsked(rs) && RepliesTo(ms, rs) && EndsWithClose(ms, rs)
    requires ReqData(evs) == WireAll(rs) && RespData(evs) + [mark] == WireAll(ms) && Orderly(ms, rs, evs, [mark], [])
    requires forall i :: 0 <= i < |evs| ==> |evs[i].data| <= M.FEED_MAX
    ensures var u := FedAll(NewTap, evs); !u.disabled && AllReported(Finish(u).completed, rs, ms)
  {
    AllAskedIff(rs);
    RepliesIff(ms, rs);
    EndsIff(ms, rs);
    TapPairsAtClose(rs, ms, mark, evs);
    PairsReport(rs, ms);
  }
}
