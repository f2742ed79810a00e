/** What the rewriter does with a head that has come whole, told by what the head says. */
module HeadRoutes {
  import opened Bytes
  import opened Chunked
  import opened HttpHead
  import opened BodyRule
  import opened HeadWords
  import opened Eligible
  import opened Rewriter
  import HeadEdit

  /** `head` is one whole head that says this version and status, and has these fields. */
  ghost predicate HeadSays(head: bytes, version: bytes, status: nat, headers: seq<Header>) {
    && FindHeaderEnd(head) == Some(|head|)
    && var p := ParseHeadFields(HeadEdit.WithoutEnd(head));
       p.Some? && p.value.headers == headers && StatusLineSays(p.value.startLine, version, status)
  }

  /** The machine is between messages, and `head` and then `rest` have come. */
  predicate Arrived(r: Resp, head: bytes, rest: bytes) { r.state.Head? && r.buf == head + rest }

  lemma HeadIsRead(r: Resp, head: bytes, rest: bytes, version: bytes, status: nat, headers: seq<Header>)
    requires HeadSays(head, version, status, headers) && Arrived(r, head, rest)
    ensures StepHead(r) == RouteHead(r, head, rest, RespHead(status, headers))
  {
    StatusWordsIff(ParseHeadFields(HeadEdit.WithoutEnd(head)).value.startLine, version, status);
    FindStable(head, rest, CRLFCRLF);
    assert r.buf[..|head|] == head && r.buf[|head|..] == rest;
  }

  predicate InterimStatus(status: nat) { 100 <= status < 200 && status != 101 }

  /** The queue of HEAD flags after a final response. */
  function Answered(queue: seq<bool>): seq<bool> { if queue == [] then [] else queue[1..] }

  /** A response without a body: its head goes out as it is, nothing that follows is touched, and the next message begins. An
      interim one answers no request. */
  lemma BodilessPasses(r: Resp, head: bytes, rest: bytes, version: bytes, status: nat, headers: seq<Header>)
    requires HeadSays(head, version, status, headers) && Arrived(r, head, rest) && status != 101
    requires Bodiless(status, r.pendingHead != [] && r.pendingHead[0]) || (!ListsChunked(headers) && SaysLength(headers, 0))
    ensures StepHead(r) == Stepped(Resp(Head, rest, if InterimStatus(status) then r.pendingHead else Answered(r.pendingHead), r.disabled),
                                   head, true)
  {
    HeadIsRead(r, head, rest, version, status, headers);
    ResponseDelimited(status, FirstOr(r.pendingHead), headers, None);
  }

  /** How much of what follows is the body. */
  ghost predicate KindAnnounced(headers: seq<Header>, kind: BodyKind) {
    if ListsChunked(headers) then kind == Chunks(Size([]))
    else
      match kind
      case Sized(n) => n > 0 && SaysLength(headers, n)
      case Chunks(_) => false
      case Close => forall n :: !SaysLength(headers, n)
  }

  /** Any other response: its body is chunked if the first Transfer-Encoding lists that, or else has the first Content-Length, or
      else runs until the close; nothing of it is taken yet. The head goes out, or is held if the response is to be injected
      into. */
  lemma BodyFollows(r: Resp, head: bytes, rest: bytes, version: bytes, status: nat, headers: seq<Header>) returns (held: bool, kind: BodyKind)
    requires HeadSays(head, version, status, headers) && Arrived(r, head, rest)
    requires !Bodiless(status, r.pendingHead != [] && r.pendingHead[0]) && !(!ListsChunked(headers) && SaysLength(headers, 0))
    ensures KindAnnounced(headers, kind) && (held <==> Html(status, headers))
    ensures StepHead(r) == Stepped(Resp(if held then Buffer(BodyScan(head, [], kind, ContentLength(headers), false)) else Pass(kind),
                                        rest, Answered(r.pendingHead), r.disabled),
                                   if held then [] else head, true)
  {
    HeadIsRead(r, head, rest, version, status, headers);
    var f := ResponseFraming(status, FirstOr(r.pendingHead), headers);
    ResponseDelimited(status, FirstOr(r.pendingHead), headers, f);
    InjectableIff(status, headers);
    held, kind := Injectable(status, headers), FramingToKind(f.value);
  }

  /** A response that changes the protocol: it and everything behind it goes out, and the rewriter is off. */
  lemma SwitchTurnsOff(r: Resp, head: bytes, rest: bytes, version: bytes, headers: seq<Header>)
    requires HeadSays(head, version, 101, headers) && Arrived(r, head, rest)
    ensures StepHead(r) == Stepped(Resp(Head, [], Answered(r.pendingHead), true), head + rest, false)
  {
    HeadIsRead(r, head, rest, version, 101, headers);
  }

  // --- requests --------------------------------------------------------------

  /** The request side reads of a head whether it is a HEAD request, and how its body is delimited, exactly as its words and
      fields say. */
  lemma RequestHeadIff(head: bytes, isHead: bool, f: Option<Framing>)
    ensures ReadRequestHead(head) == Some(ReqHead.ReqHead(isHead, f)) <==>
            var p := ParseHeadFields(HeadEdit.WithoutEnd(head));
            && p.Some? && RequestDelimits(p.value.headers, f)
            && exists verb, target, version :: RequestLineSays(p.value.startLine, verb, target, version)
                                               && isHead == EqIgnoreCase(verb, A("HEAD"))
  {
    var p := ParseHeadFields(HeadEdit.WithoutEnd(head));
    if p.Some? {
      var line := p.value.startLine;
      RequestDelimited(p.value.headers, f);
      if ParseRequestLine(line).Some? {
        var parts := Split(line, SP);
        RequestWordsIff(line, parts[0], parts[1], parts[2]);
        assert RequestLineSays(line, parts[0], parts[1], parts[2]);
      }
      forall verb, target, version | RequestLineSays(line, verb, target, version) ensures ParseRequestLine(line) == Some(verb) {
        RequestWordsIff(line, verb, target, version);
      }
    }
  }

  /** A request head that parses goes on edited. Without a body the next head follows; a body of known length is waited for; a
      chunked one is not followed, and everything goes out as it is from then on. */
  lemma RequestRoutes(head: bytes, rest: bytes, isHead: bool, f: Option<Framing>)
    requires FindHeaderEnd(head) == Some(|head|) && ReadRequestHead(head) == Some(ReqHead.ReqHead(isHead, f))
    ensures var edited := HeadEdit.EditRequestHead(head);
            var s := StepRequestHead(head + rest);
            && s.pushed == [isHead]
            && (if f == Some(Framing.Chunked) then s.disables && !s.more && s.out == edited + rest && s.req.buf == []
                else !s.disables && s.more && s.out == edited && s.req.buf == rest)
            && (f.None? ==> s.req.state.ReqHead?)
            && (f.Some? && f.value.Length? ==> s.req.state == ReqBody(f.value.n))
  {
    FindStable(head, rest, CRLFCRLF);
    assert (head + rest)[..|head|] == head && (head + rest)[|head|..] == rest;
    RequestHeadIff(head, isHead, f);
  }
}
