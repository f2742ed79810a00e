/** What the response machine makes of a stream of messages, however the stream is cut. */
module Messages {
  import opened Bytes
  import opened Chunked
  import opened HttpHead
  import opened BodyRule
  import opened Anchor
  import opened Rewriter
  import HeadEdit

  /** The plaintext buffer that each feed is read into. */
  const FEED_MAX: nat := 16 * 1024

  /** One response: its head, the wire form of its body, and whether it answers a HEAD request. */
  datatype Message = Message(head: bytes, wire: bytes, isHead: bool, status: nat, headers: seq<Header>)

  function Wire(m: Message): bytes { m.head + m.wire }

  function WireAll(ms: seq<Message>): bytes {
    if ms == [] then [] else Wire(ms[0]) + WireAll(ms[1..])
  }

  predicate Interim(m: Message) { Informational(m.status) && m.status != 101 }

  function FramingOf(m: Message): Option<Framing> {
    if Interim(m) then None else ResponseFraming(m.status, m.isHead, m.headers)
  }

  predicate Injected(m: Message) { FramingOf(m).Some? && Injectable(m.status, m.headers) }

  /** The body the framing delimits. */
  function Doc(m: Message): bytes {
    if FramingOf(m) == Some(Framing.Chunked) then Body(InSize([]), m.wire) else m.wire
  }

  /** `wire` is a complete chunked body and nothing more, for a reader at `c`. */
  predicate Complete(c: Decoder, wire: bytes) { Feed(c, wire) == Finished && Used(c, wire) == |wire| }

  /** `wire` is the body of a response with this status and these fields: nothing; or a complete chunked body; or as many bytes
      as the length says; or anything, up to the close. */
  ghost predicate BodyAnnounced(status: nat, isHead: bool, headers: seq<Header>, wire: bytes) {
    if Bodiless(status, isHead) then wire == []
    else if ListsChunked(headers) then Complete(InSize([]), wire)
    else forall n :: SaysLength(headers, n) ==> |wire| == n
  }

  /** The head is whole and parses, and the wire body is exactly what it announces. */
  ghost predicate Framed(m: Message) {
    && FindHeaderEnd(m.head) == Some(|m.head|)
    && ReadHead(m.head) == Some(RespHead(m.status, m.headers))
    && m.status != 101
    && BodyAnnounced(m.status, m.isHead, m.headers, m.wire)
  }

  /** `wire` is delimited by `f`. */
  predicate BodyIs(f: Option<Framing>, wire: bytes) {
    match f
    case None => wire == []
    case Some(Length(n)) => |wire| == n
    case Some(Chunked) => Complete(InSize([]), wire)
    case Some(UntilClose) => true
  }

  /** The same as `Framed`, told by the machine's framing. */
  ghost predicate FramedAs(m: Message) {
    && FindHeaderEnd(m.head) == Some(|m.head|)
    && ReadHead(m.head) == Some(RespHead(m.status, m.headers))
    && m.status != 101
    && BodyIs(FramingOf(m), m.wire)
  }

  /** The machine's framing of a message delimits what its head announces. */
  lemma FramedIsFramed(m: Message)
    ensures Framed(m) <==> FramedAs(m)
  {
    AnnouncedIs(m.status, m.isHead, m.headers, m.wire);
  }

  lemma AnnouncedIs(status: nat, isHead: bool, headers: seq<Header>, wire: bytes)
    ensures BodyAnnounced(status, isHead, headers, wire) <==> BodyIs(ResponseFraming(status, isHead, headers), wire)
  {
    ResponseDelimited(status, isHead, headers, ResponseFraming(status, isHead, headers));
    LengthIff(headers);
  }

  ghost predicate WellFormed(m: Message) { FramedAs(m) && |m.head| <= MAX_HEADER_BYTES }

  /** Its body runs until the connection closes, so that nothing can follow it. */
  predicate Closing(m: Message) { FramingOf(m) == Some(UntilClose) }

  ghost predicate Fits(m: Message, blob: bytes) {
    Framed(m) && |m.head| <= MAX_HEADER_BYTES && (Injected(m) ==> |Doc(m)| + |blob| <= USIZE_MAX)
  }

  /** What is to come out for one message under a verdict: its head, and its document in the same framing. */
  datatype Plan = Plan(head: bytes, wire: bytes, doc: bytes, rewritten: bool, chunked: bool, closing: bool, cl: Option<nat>,
                       verdict: Verdict, headOut: bytes, docOut: bytes)

  /** The plan under another verdict. */
  function Ruled(p: Plan, v: Verdict, blob: bytes): Plan {
    p.(verdict := v,
       headOut := if v.Inject? then HeadEdit.EditResponseHead(p.head, NewLength(p.cl, blob)) else p.head,
       docOut := Apply(v, p.doc, blob))
  }

  /** The plan for a message whose document gets the verdict `v`, if it gets one at all. */
  function PlanOf(m: Message, blob: bytes, v: Verdict): Plan {
    var p := Plan(m.head, m.wire, Doc(m), Injected(m), FramingOf(m) == Some(Framing.Chunked), Closing(m), ContentLength(m.headers),
                  Leave, m.head, Doc(m));
    if Injected(m) then Ruled(p, v, blob) else p
  }

  /** `e` carries the planned document, byte for byte as it came unless it was re-chunked. */
  ghost predicate BodyOut(p: Plan, e: bytes) {
    if p.rewritten && p.chunked then Complete(InSize([]), e) && Body(InSize([]), e) == p.docOut
    else if p.rewritten then e == p.docOut
    else e == p.wire
  }

  /** What comes out is the planned head and body, and the verdict is one that the scan gives on what has arrived of the
      document: the same document, or the blob in it once at the offset that was settled on. */
  ghost predicate Delivered(p: Plan, out: bytes) {
    (p.rewritten ==> Decided(p.doc, p.verdict)) && exists e :: out == p.headOut + e && BodyOut(p, e)
  }

  ghost predicate DeliveredOne(m: Message, out: bytes, blob: bytes) { exists v :: Delivered(PlanOf(m, blob, v), out) }

  // --- chunked bodies in pieces ----------------------------------------------

  lemma ChunksWhole(s: ChunkState, pend: bytes, tail: bytes)
    requires Complete(Start(s), pend)
    ensures Decode(s, pend + tail) == Decoded(Done, Trailer([]), tail, Body(Start(s), pend))
  {
    DecodeHalts(s, pend, tail);
  }

  lemma CompleteSplit(c: Decoder, x: bytes, y: bytes)
    requires Complete(c, x + y) && y != []
    ensures !Halted(Feed(c, x)) && Complete(Feed(c, x), y)
    ensures Body(c, x + y) == Body(c, x) + Body(Feed(c, x), y)
  {
    FeedSplit(c, x, y);
    UsedSplit(c, x, y);
  }

  /** A piece that does not complete the body leaves a reader that the rest completes. */
  lemma ChunksPart(s: ChunkState, buf: bytes, later: bytes)
    requires Complete(Start(s), buf + later) && later != []
    requires |buf| <= MAX_HEADER_BYTES
    ensures var d := Decode(s, buf);
            && d.step.NeedMore? && |d.rest| <= 1 && |d.rest| <= |buf| && d.rest == buf[|buf| - |d.rest|..]
            && Complete(Start(d.state), d.rest + later)
            && Body(Start(s), buf + later) == d.data + Body(Start(d.state), d.rest + later)
  {
    var c := Feed(Start(s), buf);
    CompleteSplit(Start(s), buf, later);
    DataRemains(Start(s), buf);
    if c == AtLf {
      ComesAfterCr(Start(s), buf);
    }
    OutcomePart(c, Used(Start(s), buf), Body(Start(s), buf), buf, later);
  }

  lemma OutcomePart(c: Decoder, used: nat, data: bytes, buf: bytes, later: bytes)
    requires used <= |buf| <= MAX_HEADER_BYTES && !Halted(c) && Complete(c, later)
    requires c == AtLf ==> buf != [] && buf[|buf| - 1] == CR
    requires c.InData? ==> c.remaining > 0
    ensures var d := Outcome(c, used, data, buf);
            && d.step.NeedMore? && |d.rest| <= 1 && |d.rest| <= |buf| && d.rest == buf[|buf| - |d.rest|..]
            && d.data == data && Complete(Start(d.state), d.rest + later)
            && Body(Start(d.state), d.rest + later) == Body(c, later)
  {
    if c == AtLf {
      CrThen(later);
      assert buf[|buf| - 1..] == [CR];
    } else {
      assert [] + later == later;
    }
  }

  lemma CrThen(later: bytes)
    ensures Feed(AtCrlf, [CR] + later) == Feed(AtLf, later)
    ensures Used(AtCrlf, [CR] + later) == 1 + Used(AtLf, later)
    ensures Body(AtCrlf, [CR] + later) == Body(AtLf, later)
  {
    assert ([CR] + later)[1..] == later;
  }

  lemma KeptAll(data: bytes)
    requires |data| <= MAX_BODY_CAPTURE
    ensures Kept(data) == data
  {
    assert data[..|data|] == data;
  }

  // --- midway through a message ----------------------------------------------

  /** The scan and the wire bytes still pending make up the document. */
  ghost predicate Scanning(bs: BodyScan, pend: bytes, p: Plan) {
    && bs.origHead == p.head && bs.clOriginal == p.cl
    && match bs.body
       case Sized(n) => !p.chunked && !p.closing && bs.scan + pend == p.doc && |pend| == n
       case Chunks(cs) => p.chunked && !p.closing && Complete(Start(cs), pend) && bs.scan + Body(Start(cs), pend) == p.doc
       case Close => !p.chunked && p.closing && bs.scan + pend == p.doc
  }

  /** `o` is the new head and whole chunks `e`, and the pending wire bytes complete the new document. */
  ghost predicate Rechunking(o: bytes, e: bytes, cs: ChunkState, pend: bytes, p: Plan) {
    && o == p.headOut + e
    && Feed(InSize([]), e) == InSize([])
    && Complete(Start(cs), pend)
    && Body(InSize([]), e) + Body(Start(cs), pend) == p.docOut
  }

  /** The verdict was given before the document had come whole. */
  ghost predicate Streams(p: Plan) { p.rewritten && DecidedEarly(p.doc, p.verdict) }

  /** In state `s` the machine has emitted `o` for a message whose wire bytes `pend` it has yet to take. */
  ghost predicate Agree(s: RespState, o: bytes, pend: bytes, p: Plan) {
    && (s.Head? || |pend| <= |p.wire|)
    && match s
       case Head => o == [] && pend == p.head + p.wire
       case Buffer(bs) => p.rewritten && o == [] && !bs.done && Scanning(bs, pend, p) && Decide(bs.scan, false) == Wait
       case Stream(Sized(n)) => Streams(p) && !p.chunked && !p.closing && |pend| == n && o + pend == p.headOut + p.docOut
       case Stream(Chunks(cs)) => Streams(p) && p.chunked && !p.closing && exists e :: Rechunking(o, e, cs, pend, p)
       case Stream(Close) => Streams(p) && !p.chunked && p.closing && o + pend == p.headOut + p.docOut
       case Pass(Sized(n)) => !p.rewritten && !p.closing && |pend| == n && o + pend == p.headOut + p.wire
       case Pass(Chunks(cs)) => !p.rewritten && !p.closing && Complete(Start(cs), pend) && o + pend == p.headOut + p.wire
       case Pass(Close) => !p.rewritten && p.closing && o + pend == p.headOut + p.wire
  }

  /** The step took the front of the buffer and is still in the message; it stops only for want of bytes. */
  ghost predicate Moved(r: Resp, s: Stepped, o: bytes, pend: bytes, p: Plan) {
    var n := |r.buf| - |s.resp.buf|;
    && !s.resp.disabled
    && 0 <= n <= |pend| && s.resp.buf == r.buf[n..]
    && Agree(s.resp.state, o + s.out, pend[n..], p)
    && (s.resp.state.Head? ==> r.state.Head? && !s.more)
    && (!s.more ==> if p.closing && !s.resp.state.Head? then s.resp.buf == []
                    else |s.resp.buf| < |pend| - n && |s.resp.buf| <= if s.resp.state.Head? then |p.head| else 1)
  }

  /** The step took the rest of the message, and all of it has been delivered. */
  ghost predicate Finishes(r: Resp, s: Stepped, o: bytes, pend: bytes, p: Plan) {
    && !s.resp.disabled && s.resp.state.Head? && s.more
    && r.buf == pend + s.resp.buf
    && Delivered(p, o + s.out)
  }

  lemma DeliveredAs(p: Plan, out: bytes, e: bytes)
    requires out == p.headOut + e && BodyOut(p, e) && (p.rewritten ==> Decided(p.doc, p.verdict))
    ensures Delivered(p, out)
  {
  }

  lemma SuffixRest(buf: bytes, later: bytes, n: nat)
    requires n <= |buf|
    ensures (buf + later)[n..] == buf[n..] + later
    ensures buf[..n] + (buf[n..] + later) == buf + later
  {
  }

  lemma PassWhole(r: Resp, o: bytes, pend: bytes, tail: bytes, p: Plan)
    requires r.state.Pass? && Agree(r.state, o, pend, p) && !r.disabled && !p.closing
    requires r.buf == pend + tail
    ensures Finishes(r, StepPass(r, r.state.kind), o, pend, p)
  {
    if r.state.kind.Chunks? {
      ChunksWhole(r.state.kind.reader, pend, tail);
    }
    assert r.buf[..|pend|] == pend && r.buf[|pend|..] == tail;
    DeliveredAs(p, o + pend, p.wire);
  }

  lemma PassPart(r: Resp, o: bytes, pend: bytes, later: bytes, p: Plan)
    requires r.state.Pass? && Agree(r.state, o, pend, p) && !r.disabled
    requires pend == r.buf + later && (later != [] || p.closing) && |r.buf| <= MAX_HEADER_BYTES
    ensures Moved(r, StepPass(r, r.state.kind), o, pend, p)
  {
    if r.state.kind.Chunks? {
      PassChunksPart(r, o, pend, later, p);
    } else {
      assert r.buf[..|r.buf|] == r.buf && r.buf[|r.buf|..] == [] && pend[|r.buf|..] == later;
      Assoc(o, r.buf, later);
    }
  }

  lemma PassChunksPart(r: Resp, o: bytes, pend: bytes, later: bytes, p: Plan)
    requires r.state.Pass? && r.state.kind.Chunks? && Agree(r.state, o, pend, p) && !r.disabled
    requires pend == r.buf + later && (later != [] || p.closing) && |r.buf| <= MAX_HEADER_BYTES
    ensures Moved(r, StepPass(r, r.state.kind), o, pend, p)
  {
    var cs := r.state.kind.reader;
    ChunksPart(cs, r.buf, later);
    var n := |r.buf| - |Decode(cs, r.buf).rest|;
    SuffixRest(r.buf, later, n);
    assert o + r.buf[..n] + pend[n..] == o + pend;
  }

  lemma {:induction false} BodyLength(c: Decoder, x: bytes)
    ensures |Body(c, x)| <= |x|
    decreases |x|
  {
    if x != [] {
      BodyLength(Advance(c, x[0]), x[1..]);
    }
  }

  lemma ChunkAdds(e: bytes, data: bytes)
    requires Feed(InSize([]), e) == InSize([]) && |data| <= USIZE_MAX
    ensures Feed(InSize([]), e + Rechunk(data)) == InSize([])
    ensures Body(InSize([]), e + Rechunk(data)) == Body(InSize([]), e) + data
  {
    RechunkDecodes(data);
    FeedSplit(InSize([]), e, Rechunk(data));
  }

  /** Whole chunks followed by the last chunk are a complete body. */
  lemma LastEnds(e: bytes)
    requires Feed(InSize([]), e) == InSize([])
    ensures Complete(InSize([]), e + LAST_CHUNK) && Body(InSize([]), e + LAST_CHUNK) == Body(InSize([]), e)
  {
    LastChunkDecodes();
    FeedSplit(InSize([]), e, LAST_CHUNK);
    UsedSplit(InSize([]), e, LAST_CHUNK);
    assert Body(InSize([]), e) + [] == Body(InSize([]), e);
  }

  /** Data streamed after whole chunks keeps the body in step with the document. */
  lemma RechunkMore(o: bytes, e: bytes, cs: ChunkState, pend: bytes, p: Plan, data: bytes, cs': ChunkState, pend': bytes)
    requires Rechunking(o, e, cs, pend, p) && |data| <= USIZE_MAX
    requires Complete(Start(cs'), pend') && Body(Start(cs), pend) == data + Body(Start(cs'), pend')
    ensures Rechunking(o + Rechunk(data), e + Rechunk(data), cs', pend', p)
  {
    ChunkAdds(e, data);
    Assoc(p.headOut, e, Rechunk(data));
    Assoc(Body(InSize([]), e), data, Body(Start(cs'), pend'));
  }

  /** The last data and the last chunk complete the planned document. */
  lemma RechunkLast(o: bytes, e: bytes, cs: ChunkState, pend: bytes, p: Plan)
    requires Rechunking(o, e, cs, pend, p) && Streams(p) && p.chunked
    requires |Body(Start(cs), pend)| <= USIZE_MAX
    ensures Delivered(p, o + (Rechunk(Body(Start(cs), pend)) + LAST_CHUNK))
  {
    var data := Body(Start(cs), pend);
    ChunkAdds(e, data);
    LastEnds(e + Rechunk(data));
    LastJoin(p.headOut, e, Rechunk(data));
    EarlyIsDecided(p.doc, p.verdict);
    DeliveredAs(p, o + (Rechunk(data) + LAST_CHUNK), e + Rechunk(data) + LAST_CHUNK);
  }

  lemma LastJoin(head: bytes, e: bytes, chunk: bytes)
    ensures head + e + (chunk + LAST_CHUNK) == head + (e + chunk + LAST_CHUNK)
  {
  }

  lemma StreamWhole(r: Resp, o: bytes, pend: bytes, tail: bytes, p: Plan)
    requires r.state.Stream? && Agree(r.state, o, pend, p) && !r.disabled && !p.closing
    requires r.buf == pend + tail && |r.buf| <= MAX_HEADER_BYTES
    ensures Finishes(r, StepStream(r, r.state.kind), o, pend, p)
  {
    match r.state.kind
    case Sized(n) =>
      assert r.buf[..|pend|] == pend && r.buf[|pend|..] == tail;
      EarlyIsDecided(p.doc, p.verdict);
      DeliveredAs(p, o + pend, p.docOut);
    case Chunks(cs) =>
      var e :| Rechunking(o, e, cs, pend, p);
      ChunksWhole(cs, pend, tail);
      BodyLength(Start(cs), pend);
      KeptAll(Body(Start(cs), pend));
      RechunkLast(o, e, cs, pend, p);
  }

  lemma StreamPart(r: Resp, o: bytes, pend: bytes, later: bytes, p: Plan)
    requires r.state.Stream? && Agree(r.state, o, pend, p) && !r.disabled
    requires pend == r.buf + later && (later != [] || p.closing) && |r.buf| <= MAX_HEADER_BYTES
    ensures Moved(r, StepStream(r, r.state.kind), o, pend, p)
  {
    if r.state.kind.Chunks? {
      StreamChunksPart(r, o, pend, later, p);
    } else {
      StreamRawPart(r, o, pend, later, p);
    }
  }

  lemma StreamRawPart(r: Resp, o: bytes, pend: bytes, later: bytes, p: Plan)
    requires r.state.Stream? && !r.state.kind.Chunks? && Agree(r.state, o, pend, p) && !r.disabled
    requires pend == r.buf + later && (later != [] || p.closing)
    ensures Moved(r, StepStream(r, r.state.kind), o, pend, p)
  {
    assert r.buf[..|r.buf|] == r.buf && r.buf[|r.buf|..] == [] && pend[|r.buf|..] == later;
    Assoc(o, r.buf, later);
  }

  lemma StreamChunksPart(r: Resp, o: bytes, pend: bytes, later: bytes, p: Plan)
    requires r.state.Stream? && r.state.kind.Chunks? && Agree(r.state, o, pend, p) && !r.disabled
    requires pend == r.buf + later && (later != [] || p.closing) && |r.buf| <= MAX_HEADER_BYTES
    ensures Moved(r, StepStream(r, r.state.kind), o, pend, p)
  {
    var cs := r.state.kind.reader;
    var e :| Rechunking(o, e, cs, pend, p);
    ChunksPart(cs, r.buf, later);
    BodyLength(Start(cs), r.buf);
    StreamedPart(r, o, e, cs, Decode(cs, r.buf), later, p);
  }

  lemma StreamedPart(r: Resp, o: bytes, e: bytes, cs: ChunkState, d: Decoded, later: bytes, p: Plan)
    requires !r.disabled && Streams(p) && p.chunked && !p.closing && later != [] && |d.data| <= MAX_BODY_CAPTURE
    requires d.step.NeedMore? && |d.rest| <= 1 && |d.rest| <= |r.buf| && d.rest == r.buf[|r.buf| - |d.rest|..]
    requires Rechunking(o, e, cs, r.buf + later, p) && |r.buf + later| <= |p.wire|
    requires Complete(Start(d.state), d.rest + later)
    requires Body(Start(cs), r.buf + later) == d.data + Body(Start(d.state), d.rest + later)
    ensures Moved(r, StreamDecoded(r, d), o, r.buf + later, p)
  {
    KeptAll(d.data);
    RechunkMore(o, e, cs, r.buf + later, p, d.data, d.state, d.rest + later);
    SuffixRest(r.buf, later, |r.buf| - |d.rest|);
  }

  // --- the scan --------------------------------------------------------------

  /** The plan is what its verdict asks for. */
  ghost predicate Planned(p: Plan, blob: bytes) { p.rewritten ==> p == Ruled(p, p.verdict, blob) && |p.doc| + |blob| <= USIZE_MAX }

  lemma ApplyMore(v: Verdict, scan: bytes, later: bytes, blob: bytes)
    requires v.Inject? ==> v.at <= |scan|
    ensures Apply(v, scan + later, blob) == Apply(v, scan, blob) + later
    ensures |Apply(v, scan, blob)| <= |scan| + |blob|
  {
    if v.Inject? {
      assert (scan + later)[..v.at] == scan[..v.at];
      assert (scan + later)[v.at..] == scan[v.at..] + later;
    }
  }

  /** All of the body is in the buffer: the scan becomes the document. */
  lemma PullWhole(bs: BodyScan, pend: bytes, tail: bytes, p: Plan)
    requires Scanning(bs, pend, p) && !p.closing && |pend| <= MAX_HEADER_BYTES
    ensures var q := Pull(bs, pend + tail);
            && q.bs.scan == p.doc && q.bs.done && !q.failed && q.rest == tail
            && q.bs.origHead == p.head && q.bs.clOriginal == p.cl
            && q.bs.body.Chunks? == p.chunked && (q.bs.body.Sized? ==> q.bs.body.n == 0) && !q.bs.body.Close?
  {
    match bs.body
    case Sized(n) =>
      assert (pend + tail)[..n] == pend && (pend + tail)[n..] == tail;
    case Chunks(cs) =>
      ChunksWhole(cs, pend, tail);
      BodyLength(Start(cs), pend);
      KeptAll(Body(Start(cs), pend));
  }

  /** Part of the body is in the buffer: the scan and what is pending still make up the document. */
  lemma PullPart(bs: BodyScan, buf: bytes, later: bytes, p: Plan)
    requires Scanning(bs, buf + later, p) && !bs.done && (later != [] || p.closing) && |buf| <= MAX_HEADER_BYTES
    ensures var q := Pull(bs, buf);
            && !q.bs.done && !q.failed
            && |q.rest| <= 1 && |q.rest| <= |buf| && q.rest == buf[|buf| - |q.rest|..]
            && (buf + later)[|buf| - |q.rest|..] == q.rest + later
            && Scanning(q.bs, q.rest + later, p) && (p.closing ==> q.rest == [])
  {
    match bs.body
    case Sized(n) =>
      assert buf[..|buf|] == buf && buf[|buf|..] == [];
      Assoc(bs.scan, buf, later);
      assert [] + later == later && (buf + later)[|buf|..] == later;
    case Chunks(cs) => PullChunks(bs, buf, later, p);
    case Close =>
      assert buf[|buf|..] == [] && [] + later == later && (buf + later)[|buf|..] == later;
      Assoc(bs.scan, buf, later);
  }

  lemma PullChunks(bs: BodyScan, buf: bytes, later: bytes, p: Plan)
    requires bs.body.Chunks? && Scanning(bs, buf + later, p) && !bs.done && later != [] && |buf| <= MAX_HEADER_BYTES
    ensures var q := Pull(bs, buf);
            && !q.bs.done && !q.failed
            && |q.rest| <= 1 && |q.rest| <= |buf| && q.rest == buf[|buf| - |q.rest|..]
            && (buf + later)[|buf| - |q.rest|..] == q.rest + later
            && Scanning(q.bs, q.rest + later, p)
  {
    var cs := bs.body.reader;
    ChunksPart(cs, buf, later);
    var d := Decode(cs, buf);
    BodyLength(Start(cs), buf);
    KeptAll(d.data);
    SuffixRest(buf, later, |buf| - |d.rest|);
    Assoc(bs.scan, d.data, Body(Start(d.state), d.rest + later));
  }

  /** What is emitted for a document that the scan holds whole. */
  lemma EmitWhole(bs: BodyScan, p: Plan, blob: bytes)
    requires p.rewritten && !p.closing && Planned(p, blob) && p.verdict == Decide(p.doc, true)
    requires bs.scan == p.doc && bs.origHead == p.head && bs.clOriginal == p.cl
    requires bs.body.Chunks? == p.chunked
    ensures Delivered(p, EmitDecided(bs, p.verdict, blob) + if p.chunked then LAST_CHUNK else [])
  {
    var out := EmitDecided(bs, p.verdict, blob);
    WholeIsDecided(p.doc);
    if p.chunked {
      DecideInRange(p.doc, true);
      ApplyMore(p.verdict, p.doc, [], blob);
      RechunkDecodes(p.docOut);
      LastEnds(Rechunk(p.docOut));
      Assoc(p.headOut, Rechunk(p.docOut), LAST_CHUNK);
      DeliveredAs(p, out + LAST_CHUNK, Rechunk(p.docOut) + LAST_CHUNK);
    } else {
      assert out + [] == out;
      DeliveredAs(p, out, p.docOut);
    }
  }

  lemma BufferWhole(r: Resp, pend: bytes, tail: bytes, p: Plan, blob: bytes)
    requires r.state.Buffer? && Agree(r.state, [], pend, p) && !r.disabled && Planned(p, blob) && !p.closing
    requires r.buf == pend + tail && |r.buf| <= MAX_HEADER_BYTES
    ensures Finishes(r, StepBuffer(r, r.state.bs, blob), [], pend, Ruled(p, Decide(p.doc, true), blob))
  {
    var bs := r.state.bs;
    PullWhole(bs, pend, tail, p);
    var q := Pull(bs, r.buf);
    EmitWhole(q.bs, Ruled(p, Decide(p.doc, true), blob), blob);
    var s := StepBuffer(r, bs, blob);
    assert [] + s.out == s.out;
  }

  /** What is emitted for a document decided on part of it leads up to the rest. */
  ghost predicate Leads(bs: BodyScan, out: bytes, pend: bytes, p: Plan) {
    match bs.body
    case Sized(n) => out + pend == p.headOut + p.docOut
    case Chunks(cs) => exists e :: Rechunking(out, e, cs, pend, p)
    case Close => out + pend == p.headOut + p.docOut
  }

  lemma EmitPart(bs: BodyScan, pend: bytes, p: Plan, blob: bytes)
    requires p.rewritten && Planned(p, blob) && Scanning(bs, pend, p)
    requires p.verdict == Decide(bs.scan, false) != Wait
    ensures Leads(bs, EmitDecided(bs, p.verdict, blob), pend, p) && Streams(p)
  {
    var later := match bs.body case Sized(_) => pend case Chunks(cs) => Body(Start(cs), pend) case Close => pend;
    DecideInRange(bs.scan, false);
    PrefixIsDecided(bs.scan, later);
    ApplyMore(p.verdict, bs.scan, later, blob);
    var x := Apply(p.verdict, bs.scan, blob);
    match bs.body
    case Sized(n) => Assoc(p.headOut, x, pend);
    case Chunks(cs) =>
      RechunkDecodes(x);
      assert Rechunking(EmitDecided(bs, p.verdict, blob), Rechunk(x), cs, pend, p);
    case Close => Assoc(p.headOut, x, pend);
  }

  lemma SettlePart(r: Resp, bs: BodyScan, v: Verdict, pend: bytes, p: Plan, blob: bytes)
    requires p.rewritten && !r.disabled && !bs.done && Scanning(bs, pend, p) && |pend| <= |p.wire| && v == Decide(bs.scan, false)
    requires bs.body.Sized? ==> bs.body.n > 0
    requires v != Wait ==> Leads(bs, EmitDecided(bs, v, blob), pend, p) && Streams(p)
    ensures var s := Settle(r, bs, v, blob);
            && !s.resp.disabled && s.resp.buf == r.buf && Agree(s.resp.state, s.out, pend, p) && !s.resp.state.Head?
  {
    if v != Wait {
      var out := EmitDecided(bs, v, blob);
      assert out + [] == out;
    }
  }

  /** The verdict after a step in Buffer. */
  function NextVerdict(v: Verdict, scan: bytes): Verdict { if Decide(scan, false) == Wait then v else Decide(scan, false) }

  lemma BufferPart(r: Resp, pend: bytes, later: bytes, p: Plan, blob: bytes)
    requires r.state.Buffer? && Agree(r.state, [], pend, p) && !r.disabled && Planned(p, blob)
    requires pend == r.buf + later && (later != [] || p.closing) && |r.buf| <= MAX_HEADER_BYTES
    ensures Moved(r, StepBuffer(r, r.state.bs, blob), [], pend,
                  Ruled(p, NextVerdict(p.verdict, Pull(r.state.bs, r.buf).bs.scan), blob))
  {
    var q := Pull(r.state.bs, r.buf);
    PullPart(r.state.bs, r.buf, later, p);
    PulledPart(r, q, later, Ruled(p, NextVerdict(p.verdict, q.bs.scan), blob), blob);
  }

  lemma PulledPart(r: Resp, q: Pulled, later: bytes, p: Plan, blob: bytes)
    requires !r.disabled && p.rewritten && Planned(p, blob) && (later != [] || p.closing) && (p.closing ==> q.rest == [])
    requires !q.bs.done && |q.rest| <= 1 && |q.rest| <= |r.buf| && q.rest == r.buf[|r.buf| - |q.rest|..]
    requires (r.buf + later)[|r.buf| - |q.rest|..] == q.rest + later && Scanning(q.bs, q.rest + later, p)
    requires |r.buf + later| <= |p.wire|
    requires Decide(q.bs.scan, false) != Wait ==> p.verdict == Decide(q.bs.scan, false)
    ensures Moved(r, Settle(r.(buf := q.rest), q.bs, Decide(q.bs.scan, false), blob), [], r.buf + later, p)
  {
    var v := Decide(q.bs.scan, false);
    if v != Wait {
      EmitPart(q.bs, q.rest + later, p, blob);
    }
    SettlePart(r.(buf := q.rest), q.bs, v, q.rest + later, p, blob);
    MovedTo(r, Settle(r.(buf := q.rest), q.bs, v, blob), r.buf + later, q.rest + later, p);
  }

  lemma MovedTo(r: Resp, s: Stepped, pend: bytes, pend': bytes, p: Plan)
    requires !s.resp.disabled && |s.resp.buf| <= 1 && |s.resp.buf| <= |r.buf| && !s.resp.state.Head?
    requires s.resp.buf == r.buf[|r.buf| - |s.resp.buf|..]
    requires if p.closing then |r.buf| <= |pend| && s.resp.buf == [] else |r.buf| < |pend|
    requires pend' == pend[|r.buf| - |s.resp.buf|..] && Agree(s.resp.state, s.out, pend', p)
    ensures Moved(r, s, [], pend, p)
  {
    assert [] + s.out == s.out;
  }

  // --- heads -----------------------------------------------------------------

  /** The queue of HEAD flags answers for these messages in turn. */
  predicate QueueOk(q: seq<bool>, ms: seq<Message>)
    decreases |ms|
  {
    ms == [] || (if Interim(ms[0]) then QueueOk(q, ms[1..]) else FirstOr(q) == ms[0].isHead && QueueOk(Rest(q), ms[1..]))
  }

  function QueueAfter(q: seq<bool>, m: Message): seq<bool> { if Interim(m) then q else Rest(q) }

  /** The queue answers for those of these messages that have begun, with `later` bytes of them still to come. */
  predicate Served(q: seq<bool>, ms: seq<Message>, later: nat)
    decreases |ms|
  {
    ms == [] || |WireAll(ms)| <= later
    || ((Interim(ms[0]) || FirstOr(q) == ms[0].isHead) && Served(QueueAfter(q, ms[0]), ms[1..], later))
  }

  /** From `q` and `a` to `q'` and `b`: the messages at the front, all of which have begun, have taken their flags. */
  predicate Taken(q: seq<bool>, a: seq<Message>, q': seq<bool>, b: seq<Message>, later: nat)
    decreases |a|
  {
    (a == b && q == q') || (|a| > |b| && |WireAll(a)| > later && Taken(QueueAfter(q, a[0]), a[1..], q', b, later))
  }

  lemma {:induction false} TakenOn(q: seq<bool>, a: seq<Message>, q1: seq<bool>, b: seq<Message>, q2: seq<bool>, c: seq<Message>, later: nat)
    requires Taken(q, a, q1, b, later) && Taken(q1, b, q2, c, later)
    ensures Taken(q, a, q2, c, later) && |a| >= |b| >= |c|
    decreases |a|
  {
    TakenFewer(q1, b, q2, c, later);
    if !(a == b && q == q1) {
      TakenOn(QueueAfter(q, a[0]), a[1..], q1, b, q2, c, later);
    }
  }

  lemma {:induction false} TakenFewer(q: seq<bool>, a: seq<Message>, q': seq<bool>, b: seq<Message>, later: nat)
    requires Taken(q, a, q', b, later)
    ensures |a| >= |b|
    decreases |a|
  {
  }

  lemma {:induction false} TakenSooner(q: seq<bool>, a: seq<Message>, q': seq<bool>, b: seq<Message>, later: nat, less: nat)
    requires Taken(q, a, q', b, later) && less <= later
    ensures Taken(q, a, q', b, less)
    decreases |a|
  {
    if !(a == b && q == q') {
      TakenSooner(QueueAfter(q, a[0]), a[1..], q', b, later, less);
    }
  }

  lemma {:induction false} QueueServes(q: seq<bool>, ms: seq<Message>, later: nat)
    requires QueueOk(q, ms)
    ensures Served(q, ms, later)
    decreases |ms|
  {
    if ms != [] {
      QueueServes(QueueAfter(q, ms[0]), ms[1..], later);
    }
  }

  lemma {:induction false} TakenQueueOk(q: seq<bool>, a: seq<Message>, q': seq<bool>, b: seq<Message>, later: nat)
    requires QueueOk(q, a) && Taken(q, a, q', b, later)
    ensures QueueOk(q', b)
    decreases |a|
  {
    if !(a == b && q == q') {
      TakenQueueOk(QueueAfter(q, a[0]), a[1..], q', b, later);
    }
  }

  lemma HeadNotYet(buf: bytes, head: bytes)
    requires FindHeaderEnd(head) == Some(|head|)
    requires |buf| < |head| && buf <= head
    ensures FindHeaderEnd(buf) == None
  {
    assert buf + head[|buf|..] == head;
    forall j | 0 <= j && j + 4 <= |buf| ensures !At(buf, CRLFCRLF, j) {
      AtPrefix(buf, head[|buf|..], CRLFCRLF, j);
    }
  }

  lemma HeadFound(head: bytes, rest: bytes)
    requires FindHeaderEnd(head) == Some(|head|)
    ensures FindHeaderEnd(head + rest) == Some(|head|)
  {
    FindStable(head, rest, CRLFCRLF);
  }

  lemma PlanIsPlanned(m: Message, blob: bytes, v: Verdict)
    requires Fits(m, blob)
    ensures Planned(PlanOf(m, blob, v), blob)
  {
    FramedIsFramed(m);
  }

  lemma HeadPart(r: Resp, later: bytes, m: Message, blob: bytes, v: Verdict)
    requires WellFormed(m) && r.state.Head? && !r.disabled
    requires Wire(m) == r.buf + later && |r.buf| < |m.head|
    ensures StepHead(r) == Stepped(r, [], false)
    ensures Moved(r, StepHead(r), [], Wire(m), PlanOf(m, blob, v))
  {
    assert r.buf == Wire(m)[..|r.buf|] == m.head[..|r.buf|];
    HeadNotYet(r.buf, m.head);
    MovedNowhere(r, Wire(m), PlanOf(m, blob, v));
  }

  lemma MovedNowhere(r: Resp, pend: bytes, p: Plan)
    requires r.state.Head? && !r.disabled && pend == p.head + p.wire && |r.buf| < |p.head|
    ensures Moved(r, Stepped(r, [], false), [], pend, p)
  {
    assert r.buf[0..] == r.buf && pend[0..] == pend;
  }

  /** Where a head that has arrived whole leads. */
  function Routed(r: Resp, m: Message, rest: bytes): Stepped {
    var next := r.(state := Head, buf := rest, pendingHead := QueueAfter(r.pendingHead, m));
    match FramingOf(m)
    case None => Stepped(next, m.head, true)
    case Some(f) =>
      if Injected(m) then
        Stepped(next.(state := Buffer(BodyScan(m.head, [], FramingToKind(f), ContentLength(m.headers), false))), [], true)
      else Stepped(next.(state := Pass(FramingToKind(f))), m.head, true)
  }

  lemma HeadRoutes(r: Resp, rest: bytes, m: Message)
    requires WellFormed(m) && r.state.Head?
    requires r.buf == m.head + rest
    requires !Interim(m) ==> FirstOr(r.pendingHead) == m.isHead
    ensures StepHead(r) == Routed(r, m, rest)
  {
    HeadFound(m.head, rest);
    assert r.buf[..|m.head|] == m.head && r.buf[|m.head|..] == rest;
  }

  lemma BodilessFinishes(r: Resp, rest: bytes, m: Message, blob: bytes, v: Verdict)
    requires WellFormed(m) && r.state.Head? && !r.disabled && r.buf == m.head + rest
    requires FramingOf(m).None?
    ensures Finishes(r, Routed(r, m, rest), [], Wire(m), PlanOf(m, blob, v))
  {
    assert Wire(m) == m.head;
    DeliveredAs(PlanOf(m, blob, v), [] + m.head, []);
  }

  lemma BodyBegins(r: Resp, rest: bytes, m: Message, blob: bytes, v: Verdict)
    requires WellFormed(m) && r.state.Head? && !r.disabled && r.buf == m.head + rest
    requires FramingOf(m).Some?
    ensures Moved(r, Routed(r, m, rest), [], Wire(m), PlanOf(m, blob, v))
    ensures |Routed(r, m, rest).resp.buf| == |rest| && !Routed(r, m, rest).resp.state.Head?
  {
    assert r.buf[|m.head|..] == rest;
    BodyAgrees(m, blob, v);
    Begun(r, Routed(r, m, rest), PlanOf(m, blob, v));
  }

  lemma Begun(r: Resp, s: Stepped, p: Plan)
    requires r.state.Head? && s.more && !s.resp.state.Head? && !s.resp.disabled
    requires |p.head| <= |r.buf| && s.resp.buf == r.buf[|p.head|..]
    requires Agree(s.resp.state, s.out, p.wire, p)
    ensures Moved(r, s, [], p.head + p.wire, p)
  {
    assert (p.head + p.wire)[|p.head|..] == p.wire;
    assert [] + s.out == s.out;
  }

  lemma BodyAgrees(m: Message, blob: bytes, v: Verdict)
    requires WellFormed(m) && FramingOf(m).Some?
    ensures var kind := FramingToKind(FramingOf(m).value);
            if Injected(m) then
              Agree(Buffer(BodyScan(m.head, [], kind, ContentLength(m.headers), false)), [], m.wire, PlanOf(m, blob, v))
            else Agree(Pass(kind), m.head, m.wire, PlanOf(m, blob, v))
  {
    assert [] + Doc(m) == Doc(m);
    assert Find([], MARKER).None?;
  }

  // --- draining the buffer ---------------------------------------------------

  /** Room for one feed and the lone CR that chunked decoding may hold back. */
  const PIECE_MAX: nat := FEED_MAX + 1

  /** Messages whose bodies end, but for the last, which may run until the close. */
  ghost predicate AllFit(ms: seq<Message>, blob: bytes) {
    forall i :: 0 <= i < |ms| ==> Fits(ms[i], blob) && (Closing(ms[i]) ==> i == |ms| - 1)
  }

  /** The machine is in the first of the messages `ms`, or between streams when there are none. The verdict on that
      message is `v` once there is one. */
  ghost predicate Ready(r: Resp, o: bytes, pend: bytes, ms: seq<Message>, v: Verdict, blob: bytes) {
    && !r.disabled
    && if ms == [] then r.state.Head? && o == [] && pend == [] else Agree(r.state, o, pend, PlanOf(ms[0], blob, v))
  }

  /** The messages whose heads have yet to be routed. */
  function Unrouted(s: RespState, ms: seq<Message>): seq<Message> { if s.Head? || ms == [] then ms else ms[1..] }

  /** What is still to be taken of the stream. */
  function Remaining(pend: bytes, ms: seq<Message>): bytes { if ms == [] then [] else pend + WireAll(ms[1..]) }

  predicate Bounded(r: Resp, ms: seq<Message>) {
    |r.buf| <= PIECE_MAX + if r.state.Head? && ms != [] then |ms[0].head| else 0
  }

  /** One step inside message `ms[0]`, under the verdict `v`: it ends the message, or moves on within it. */
  ghost predicate Steps(r: Resp, s: Stepped, o: bytes, pend: bytes, ms: seq<Message>, v: Verdict, fin: bool, later: nat, blob: bytes)
    requires ms != []
  {
    var p := PlanOf(ms[0], blob, v);
    var was, now := Unrouted(r.state, ms), Unrouted(s.resp.state, if fin then ms[1..] else ms);
    && Taken(r.pendingHead, was, s.resp.pendingHead, now, later) && Served(s.resp.pendingHead, now, later)
    && if fin then Finishes(r, s, o, pend, p) else Moved(r, s, o, pend, p) && (s.more ==> |s.resp.buf| <= PIECE_MAX)
  }

  lemma BodyStepKeepsQueue(r: Resp, blob: bytes)
    requires !r.state.Head?
    ensures StepResponse(r, blob).resp.pendingHead == r.pendingHead
  {
  }

  /** A step on a buffer that holds the rest of the message. */
  lemma StepWhole(r: Resp, o: bytes, pend: bytes, tail: bytes, m: Message, v: Verdict, blob: bytes) returns (v': Verdict)
    requires !r.state.Head? && !r.disabled && Agree(r.state, o, pend, PlanOf(m, blob, v)) && Fits(m, blob) && !Closing(m)
    requires r.buf == pend + tail && |r.buf| <= PIECE_MAX
    ensures Finishes(r, StepResponse(r, blob), o, pend, PlanOf(m, blob, v'))
  {
    v' := v;
    match r.state
    case Buffer(bs) =>
      PlanIsPlanned(m, blob, v);
      v' := Decide(Doc(m), true);
      BufferWhole(r, pend, tail, PlanOf(m, blob, v), blob);
    case Stream(_) => StreamWhole(r, o, pend, tail, PlanOf(m, blob, v));
    case Pass(_) => PassWhole(r, o, pend, tail, PlanOf(m, blob, v));
  }

  /** A step on a buffer that holds less than the rest of the message, or all there is of one that runs until the close. */
  lemma StepPart(r: Resp, o: bytes, pend: bytes, later: bytes, m: Message, v: Verdict, blob: bytes) returns (v': Verdict)
    requires !r.state.Head? && !r.disabled && Agree(r.state, o, pend, PlanOf(m, blob, v)) && Fits(m, blob)
    requires pend == r.buf + later && (later != [] || Closing(m)) && |r.buf| <= PIECE_MAX
    ensures Moved(r, StepResponse(r, blob), o, pend, PlanOf(m, blob, v'))
  {
    v' := v;
    match r.state
    case Buffer(bs) =>
      PlanIsPlanned(m, blob, v);
      v' := NextVerdict(v, Pull(bs, r.buf).bs.scan);
      BufferPart(r, pend, later, PlanOf(m, blob, v), blob);
    case Stream(_) => StreamPart(r, o, pend, later, PlanOf(m, blob, v));
    case Pass(_) => PassPart(r, o, pend, later, PlanOf(m, blob, v));
  }

  lemma StepMovesOn(r: Resp, blob: bytes)
    requires !r.state.Head?
    ensures StepResponse(r, blob).resp.state.Head? || |StepResponse(r, blob).resp.buf| <= |r.buf|
  {
    match r.state
    case Buffer(bs) =>
      if bs.body.Chunks? {
        DecodeShrinks(bs.body.reader, r.buf);
      }
    case Stream(kind) =>
      if kind.Chunks? {
        DecodeShrinks(kind.reader, r.buf);
      }
    case Pass(kind) =>
      if kind.Chunks? {
        DecodeShrinks(kind.reader, r.buf);
      }
  }

  lemma HeadStepsWhole(r: Resp, ms: seq<Message>, rest: bytes, v: Verdict, later: nat, blob: bytes) returns (fin: bool)
    requires ms != [] && r.state.Head? && Ready(r, [], Wire(ms[0]), ms, v, blob) && Fits(ms[0], blob)
    requires r.buf == ms[0].head + rest && |rest| <= PIECE_MAX
    requires Interim(ms[0]) || FirstOr(r.pendingHead) == ms[0].isHead
    requires |WireAll(ms)| > later && Served(QueueAfter(r.pendingHead, ms[0]), ms[1..], later)
    ensures Steps(r, StepHead(r), [], Wire(ms[0]), ms, v, fin, later, blob)
  {
    var m := ms[0];
    FramedIsFramed(m);
    HeadRoutes(r, rest, m);
    fin := FramingOf(m).None?;
    if fin {
      BodilessFinishes(r, rest, m, blob, v);
    } else {
      BodyBegins(r, rest, m, blob, v);
    }
  }

  /** A step from the head of a message. */
  lemma HeadSteps(r: Resp, ms: seq<Message>, v: Verdict, later: bytes, blob: bytes) returns (fin: bool)
    requires ms != [] && r.state.Head? && Ready(r, [], Wire(ms[0]), ms, v, blob) && Fits(ms[0], blob)
    requires r.buf + later == WireAll(ms) && Bounded(r, ms) && Served(r.pendingHead, ms, |later|)
    ensures Steps(r, StepHead(r), [], Wire(ms[0]), ms, v, fin, |later|, blob)
  {
    var m := ms[0];
    FramedIsFramed(m);
    FrontOf(r.buf, later, m.head, m.wire + WireAll(ms[1..]));
    FrontOf(r.buf, later, Wire(m), WireAll(ms[1..]));
    Assoc(m.head, m.wire, WireAll(ms[1..]));
    if |r.buf| < |m.head| {
      HeadPart(r, Wire(m)[|r.buf|..], m, blob, v);
      fin := false;
    } else {
      HeadHasBytes(m);
      fin := HeadStepsWhole(r, ms, r.buf[|m.head|..], v, |later|, blob);
    }
  }

  lemma HeadHasBytes(m: Message)
    requires FindHeaderEnd(m.head) == Some(|m.head|)
    ensures |m.head| >= 4
  {
  }

  /** Of two ways to split a text, the shorter front is a prefix of the longer. */
  lemma FrontOf(a: bytes, b: bytes, x: bytes, y: bytes)
    ensures a + b == x + y ==> if |a| <= |x| then x == a + x[|a|..] else a == x + a[|x|..]
  {
    if a + b == x + y {
      assert (a + b)[..|a|] == a;
      assert (x + y)[..|x|] == x;
      if |a| <= |x| {
        assert x[..|a|] == (x + y)[..|a|];
      } else {
        assert a[..|x|] == (a + b)[..|x|];
      }
    }
  }

  /** A step from inside the body of a message. */
  lemma BodySteps(r: Resp, o: bytes, pend: bytes, ms: seq<Message>, v: Verdict, later: bytes, blob: bytes) returns (v': Verdict, fin: bool)
    requires ms != [] && !r.state.Head? && Ready(r, o, pend, ms, v, blob) && AllFit(ms, blob)
    requires r.buf + later == pend + WireAll(ms[1..]) && Bounded(r, ms) && Served(r.pendingHead, ms[1..], |later|)
    ensures Steps(r, StepResponse(r, blob), o, pend, ms, v', fin, |later|, blob)
  {
    BodyStepKeepsQueue(r, blob);
    StepMovesOn(r, blob);
    FrontOf(r.buf, later, pend, WireAll(ms[1..]));
    fin := false;
    if Closing(ms[0]) {
      assert ms[1..] == [] && pend + [] == pend;
      v' := StepPart(r, o, pend, later, ms[0], v, blob);
    } else if |r.buf| >= |pend| {
      assert |r.buf| == |pend| ==> r.buf == pend + [];
      v' := StepWhole(r, o, pend, r.buf[|pend|..], ms[0], v, blob);
      fin := true;
    } else {
      v' := StepPart(r, o, pend, pend[|r.buf|..], ms[0], v, blob);
    }
  }

  /** What draining achieves: some messages delivered, and the machine midway through the next. */
  datatype Progress = Progress(outs: seq<bytes>, out: bytes, pend: bytes, verdict: Verdict)

  ghost predicate AllDelivered(outs: seq<bytes>, ms: seq<Message>, blob: bytes) {
    |outs| <= |ms| && forall i :: 0 <= i < |outs| ==> DeliveredOne(ms[i], outs[i], blob)
  }

  /** After draining, all that is left in the buffer is less than the message needs. */
  predicate Quiet(r: Resp, pend: bytes, ms: seq<Message>) {
    ms != [] ==> if Closing(ms[0]) && !r.state.Head? then r.buf == []
                 else |r.buf| < |pend| && |r.buf| <= if r.state.Head? then |ms[0].head| else 1
  }

  ghost predicate Drains(q: seq<bool>, a: seq<Message>, d: Drained, o: bytes, ms: seq<Message>, later: bytes, blob: bytes, g: Progress) {
    && AllDelivered(g.outs, ms, blob)
    && o + d.out == Concat(g.outs) + g.out
    && Ready(d.resp, g.out, g.pend, ms[|g.outs|..], g.verdict, blob)
    && Remaining(g.pend, ms[|g.outs|..]) == d.resp.buf + later
    && Quiet(d.resp, g.pend, ms[|g.outs|..])
    && Taken(q, a, d.resp.pendingHead, Unrouted(d.resp.state, ms[|g.outs|..]), |later|)
  }

  /** Draining a buffer that is the front of a stream of messages delivers the messages it completes. */
  lemma DriveDelivers(r: Resp, o: bytes, pend: bytes, ms: seq<Message>, v: Verdict, later: bytes, blob: bytes) returns (g: Progress)
    requires AllFit(ms, blob) && Ready(r, o, pend, ms, v, blob)
    requires Remaining(pend, ms) == r.buf + later && Bounded(r, ms)
    requires Served(r.pendingHead, Unrouted(r.state, ms), |later|)
    ensures Drains(r.pendingHead, Unrouted(r.state, ms), Drive(r, blob), o, ms, later, blob, g)
    decreases |r.buf|, Rank(r.state)
  {
    if ms == [] {
      g := NothingToDrive(r, v, later, blob);
    } else {
      var s := StepResponse(r, blob);
      var v', fin := v, false;
      if r.state.Head? {
        fin := HeadSteps(r, ms, v, later, blob);
      } else {
        v', fin := BodySteps(r, o, pend, ms, v, later, blob);
      }
      if s.more {
        StepProgress(r, blob);
      }
      if fin {
        g := AfterFinish(r, s, o, pend, ms, v', later, blob);
      } else {
        g := AfterMove(r, s, o, pend, ms, v', later, blob);
      }
    }
  }

  lemma NothingToDrive(r: Resp, v: Verdict, later: bytes, blob: bytes) returns (g: Progress)
    requires r.state.Head? && !r.disabled && r.buf == [] && later == []
    ensures Drains(r.pendingHead, [], Drive(r, blob), [], [], later, blob, g)
  {
    g := Progress([], [], [], v);
    assert FindHeaderEnd([]).None?;
    assert Drive(r, blob) == Drained(r, []);
    assert [] + later == [];
  }

  lemma AfterFinish(r: Resp, s: Stepped, o: bytes, pend: bytes, ms: seq<Message>, v: Verdict, later: bytes, blob: bytes) returns (g: Progress)
    requires AllFit(ms, blob) && !r.disabled && ms != []
    requires Remaining(pend, ms) == r.buf + later
    requires s == StepResponse(r, blob) && Steps(r, s, o, pend, ms, v, true, |later|, blob)
    requires |s.resp.buf| < |r.buf| || (|s.resp.buf| <= |r.buf| && Rank(s.resp.state) < Rank(r.state))
    requires |s.resp.buf| <= PIECE_MAX + if ms[1..] != [] then |ms[1].head| else 0
    ensures Drains(r.pendingHead, Unrouted(r.state, ms), Drive(r, blob), o, ms, later, blob, g)
    decreases |r.buf|, Rank(r.state), 0
  {
    var rest := ms[1..];
    var pend' := if rest == [] then [] else Wire(rest[0]);
    assert Remaining(pend', rest) == WireAll(rest);
    Assoc(pend, s.resp.buf, later);
    assert WireAll(rest) == s.resp.buf + later by {
      assert (pend + WireAll(rest))[|pend|..] == WireAll(rest);
      assert (pend + (s.resp.buf + later))[|pend|..] == s.resp.buf + later;
    }
    var h := DriveDelivers(s.resp, [], pend', rest, Wait, later, blob);
    g := h.(outs := [o + s.out] + h.outs);
    assert DeliveredOne(ms[0], o + s.out, blob);
    FinishProgress(r, s, o, Drive(s.resp, blob), ms, later, blob, h);
  }

  lemma FinishProgress(r: Resp, s: Stepped, o: bytes, d: Drained, ms: seq<Message>, later: bytes, blob: bytes, h: Progress)
    requires ms != [] && DeliveredOne(ms[0], o + s.out, blob)
    requires Taken(r.pendingHead, Unrouted(r.state, ms), s.resp.pendingHead, ms[1..], |later|)
    requires Drains(s.resp.pendingHead, ms[1..], d, [], ms[1..], later, blob, h)
    ensures Drains(r.pendingHead, Unrouted(r.state, ms), Drained(d.resp, s.out + d.out), o, ms, later, blob,
                   h.(outs := [o + s.out] + h.outs))
  {
    var outs := [o + s.out] + h.outs;
    assert outs[1..] == h.outs;
    assert ms[|outs|..] == ms[1..][|h.outs|..];
    assert [] + d.out == d.out;
    Assoc(o, s.out, d.out);
    Assoc(o + s.out, Concat(h.outs), h.out);
    TakenOn(r.pendingHead, Unrouted(r.state, ms), s.resp.pendingHead, ms[1..],
            d.resp.pendingHead, Unrouted(d.resp.state, ms[|outs|..]), |later|);
    OneMoreDelivered(o + s.out, h.outs, ms, blob);
  }

  lemma OneMoreDelivered(out: bytes, outs: seq<bytes>, ms: seq<Message>, blob: bytes)
    requires ms != [] && DeliveredOne(ms[0], out, blob) && AllDelivered(outs, ms[1..], blob)
    ensures AllDelivered([out] + outs, ms, blob)
  {
    forall i | 0 <= i < |[out] + outs| ensures DeliveredOne(ms[i], ([out] + outs)[i], blob) {
      if i > 0 {
        assert ms[1..][i - 1] == ms[i];
      }
    }
  }

  lemma MoveRemains(r: Resp, s: Stepped, pend: bytes, ms: seq<Message>, later: bytes)
    requires ms != [] && Remaining(pend, ms) == r.buf + later
    requires |s.resp.buf| <= |r.buf|
    requires var n := |r.buf| - |s.resp.buf|; n <= |pend| && s.resp.buf == r.buf[n..]
    ensures Remaining(pend[|r.buf| - |s.resp.buf|..], ms) == s.resp.buf + later
  {
    var n := |r.buf| - |s.resp.buf|;
    assert (pend + WireAll(ms[1..]))[n..] == pend[n..] + WireAll(ms[1..]);
    assert (r.buf + later)[n..] == s.resp.buf + later;
  }

  lemma MoveReady(r: Resp, s: Stepped, o: bytes, pend: bytes, ms: seq<Message>, v: Verdict, later: nat, blob: bytes)
    requires ms != [] && Steps(r, s, o, pend, ms, v, false, later, blob)
    ensures |s.resp.buf| <= |r.buf| && |r.buf| - |s.resp.buf| <= |pend| && s.resp.buf == r.buf[|r.buf| - |s.resp.buf|..]
    ensures Ready(s.resp, o + s.out, pend[|r.buf| - |s.resp.buf|..], ms, v, blob)
    ensures if s.more then Bounded(s.resp, ms) else Quiet(s.resp, pend[|r.buf| - |s.resp.buf|..], ms)
  {
  }

  lemma StoppedDrains(q: seq<bool>, a: seq<Message>, s: Stepped, o: bytes, pend: bytes, ms: seq<Message>, v: Verdict, later: bytes, blob: bytes)
    requires Ready(s.resp, o + s.out, pend, ms, v, blob) && Quiet(s.resp, pend, ms)
    requires Remaining(pend, ms) == s.resp.buf + later && Taken(q, a, s.resp.pendingHead, Unrouted(s.resp.state, ms), |later|)
    ensures Drains(q, a, Drained(s.resp, s.out), o, ms, later, blob, Progress([], o + s.out, pend, v))
  {
    assert ms[0..] == ms;
    assert [] + (o + s.out) == o + s.out;
  }

  lemma AfterMove(r: Resp, s: Stepped, o: bytes, pend: bytes, ms: seq<Message>, v: Verdict, later: bytes, blob: bytes) returns (g: Progress)
    requires AllFit(ms, blob) && ms != []
    requires Remaining(pend, ms) == r.buf + later
    requires s == StepResponse(r, blob) && Steps(r, s, o, pend, ms, v, false, |later|, blob)
    requires s.more ==> |s.resp.buf| < |r.buf| || (|s.resp.buf| <= |r.buf| && Rank(s.resp.state) < Rank(r.state))
    ensures Drains(r.pendingHead, Unrouted(r.state, ms), Drive(r, blob), o, ms, later, blob, g)
    decreases |r.buf|, Rank(r.state), 0
  {
    MoveReady(r, s, o, pend, ms, v, |later|, blob);
    MoveRemains(r, s, pend, ms, later);
    var pend' := pend[|r.buf| - |s.resp.buf|..];
    if s.more {
      g := DriveDelivers(s.resp, o + s.out, pend', ms, v, later, blob);
      MovedDrains(r, s, o, Drive(s.resp, blob), ms, later, blob, g);
    } else {
      g := Progress([], o + s.out, pend', v);
      StoppedDrains(r.pendingHead, Unrouted(r.state, ms), s, o, pend', ms, v, later, blob);
    }
  }

  lemma MovedDrains(r: Resp, s: Stepped, o: bytes, d: Drained, ms: seq<Message>, later: bytes, blob: bytes, g: Progress)
    requires Taken(r.pendingHead, Unrouted(r.state, ms), s.resp.pendingHead, Unrouted(s.resp.state, ms), |later|)
    requires Drains(s.resp.pendingHead, Unrouted(s.resp.state, ms), d, o + s.out, ms, later, blob, g)
    ensures Drains(r.pendingHead, Unrouted(r.state, ms), Drained(d.resp, s.out + d.out), o, ms, later, blob, g)
  {
    Assoc(o, s.out, d.out);
    TakenOn(r.pendingHead, Unrouted(r.state, ms), s.resp.pendingHead, Unrouted(s.resp.state, ms),
            d.resp.pendingHead, Unrouted(d.resp.state, ms[|g.outs|..]), |later|);
  }

  // --- the end of the stream -------------------------------------------------

  /** What has come out of a message that runs until the close, when the close comes: all of it, unless the scan would
      still wait with the whole document, and then nothing at all. */
  ghost predicate ClosedOut(m: Message, out: bytes, blob: bytes) {
    if Injected(m) && Decide(Doc(m), false) == Wait then out == [] else DeliveredOne(m, out, blob)
  }

  /** Every byte of the stream has come: `outs` are its whole messages, and `out` what has come out of the last one if it
      runs until the close. */
  ghost predicate Ended(r: Resp, outs: seq<bytes>, out: bytes, ms: seq<Message>, blob: bytes) {
    && !r.disabled && r.buf == [] && AllDelivered(outs, ms, blob)
    && if |outs| == |ms| then r.state.Head? && out == []
       else |outs| == |ms| - 1 && Closing(ms[|ms| - 1]) && ClosedOut(ms[|ms| - 1], out, blob)
  }

  lemma ClosingEnds(r: Resp, o: bytes, m: Message, v: Verdict, blob: bytes)
    requires Closing(m) && !r.state.Head? && Agree(r.state, o, [], PlanOf(m, blob, v))
    ensures ClosedOut(m, o, blob)
  {
    var p := PlanOf(m, blob, v);
    assert o + [] == o;
    match r.state
    case Buffer(bs) => assert bs.scan + [] == bs.scan;
    case Stream(_) =>
      EarlyStays(p.doc, v);
      EarlyIsDecided(p.doc, v);
      DeliveredAs(p, o, p.docOut);
    case Pass(_) => DeliveredAs(p, o, p.wire);
  }

  lemma StreamEnds(r: Resp, outs: seq<bytes>, out: bytes, pend: bytes, ms: seq<Message>, v: Verdict, blob: bytes)
    requires AllFit(ms, blob) && AllDelivered(outs, ms, blob)
    requires Ready(r, out, pend, ms[|outs|..], v, blob) && Quiet(r, pend, ms[|outs|..])
    requires Remaining(pend, ms[|outs|..]) == r.buf
    ensures Ended(r, outs, out, ms, blob)
  {
    var rest := ms[|outs|..];
    if rest != [] {
      assert Closing(rest[0]) && !r.state.Head?;
      assert rest[1..] == [] && pend + [] == pend;
      ClosingEnds(r, out, rest[0], v, blob);
      assert rest[0] == ms[|ms| - 1];
    }
  }

  // --- feed by feed ----------------------------------------------------------

  /** Feeding pieces one after another, from left to right. */
  function FeedAll(r: Resp, feeds: seq<bytes>, blob: bytes): Drained
    decreases |feeds|
  {
    if feeds == [] then Drained(r, [])
    else
      var d := FeedResponse(r, feeds[0], true, blob);
      var e := FeedAll(d.resp, feeds[1..], blob);
      Drained(e.resp, d.out + e.out)
  }

  lemma FeedBounded(r: Resp, data: bytes, pend: bytes, ms: seq<Message>)
    requires Quiet(r, pend, ms) && |data| <= FEED_MAX && (ms == [] ==> r.buf == [])
    ensures Bounded(r.(buf := r.buf + data), ms)
  {
  }

  /** One feed, from wherever the machine stands in the stream. */
  lemma FeedDelivers(r: Resp, o: bytes, pend: bytes, ms: seq<Message>, v: Verdict, data: bytes, later: bytes, blob: bytes) returns (g: Progress)
    requires AllFit(ms, blob) && Ready(r, o, pend, ms, v, blob) && Quiet(r, pend, ms) && |data| <= FEED_MAX
    requires Remaining(pend, ms) == r.buf + (data + later)
    requires Served(r.pendingHead, Unrouted(r.state, ms), |later|)
    ensures Drains(r.pendingHead, Unrouted(r.state, ms), FeedResponse(r, data, true, blob), o, ms, later, blob, g)
  {
    Assoc(r.buf, data, later);
    FeedBounded(r, data, pend, ms);
    g := DriveDelivers(r.(buf := r.buf + data), o, pend, ms, v, later, blob);
  }

  /** The first feed, with all flags in the queue already. */
  lemma FeedFirst(r: Resp, o: bytes, pend: bytes, ms: seq<Message>, v: Verdict, feeds: seq<bytes>, blob: bytes) returns (g: Progress, d: Drained)
    requires AllFit(ms, blob) && Ready(r, o, pend, ms, v, blob) && Quiet(r, pend, ms)
    requires feeds != [] && |feeds[0]| <= FEED_MAX && Remaining(pend, ms) == r.buf + Concat(feeds)
    requires QueueOk(r.pendingHead, Unrouted(r.state, ms))
    ensures |g.outs| <= |ms|
    ensures var left := Unrouted(d.resp.state, ms[|g.outs|..]);
            && Drains(r.pendingHead, Unrouted(r.state, ms), d, o, ms, Concat(feeds[1..]), blob, g)
            && Taken(r.pendingHead, Unrouted(r.state, ms), d.resp.pendingHead, left, 0) && QueueOk(d.resp.pendingHead, left)
    ensures FeedAll(r, feeds, blob) == var e := FeedAll(d.resp, feeds[1..], blob); Drained(e.resp, d.out + e.out)
  {
    var a, later := Unrouted(r.state, ms), Concat(feeds[1..]);
    QueueServes(r.pendingHead, a, |later|);
    g := FeedDelivers(r, o, pend, ms, v, feeds[0], later, blob);
    d := FeedResponse(r, feeds[0], true, blob);
    var left := Unrouted(d.resp.state, ms[|g.outs|..]);
    TakenQueueOk(r.pendingHead, a, d.resp.pendingHead, left, |later|);
    TakenSooner(r.pendingHead, a, d.resp.pendingHead, left, |later|, 0);
  }

  lemma FitRest(ms: seq<Message>, j: nat, blob: bytes)
    requires AllFit(ms, blob) && j <= |ms|
    ensures AllFit(ms[j..], blob)
  {
  }

  /** All of the stream has come out: whole messages, what is left of the last, and every flag taken. */
  ghost predicate AllOut(q: seq<bool>, a: seq<Message>, d: Drained, o: bytes, outs: seq<bytes>, last: bytes, ms: seq<Message>, blob: bytes) {
    o + d.out == Concat(outs) + last && Ended(d.resp, outs, last, ms, blob) && Taken(q, a, d.resp.pendingHead, [], 0)
  }

  lemma {:induction false} FeedsDeliver(r: Resp, o: bytes, pend: bytes, ms: seq<Message>, v: Verdict, feeds: seq<bytes>, blob: bytes)
    returns (outs: seq<bytes>, last: bytes)
    requires AllFit(ms, blob) && Ready(r, o, pend, ms, v, blob) && Quiet(r, pend, ms)
    requires Remaining(pend, ms) == r.buf + Concat(feeds)
    requires forall i :: 0 <= i < |feeds| ==> |feeds[i]| <= FEED_MAX
    requires QueueOk(r.pendingHead, Unrouted(r.state, ms))
    ensures AllOut(r.pendingHead, Unrouted(r.state, ms), FeedAll(r, feeds, blob), o, outs, last, ms, blob)
    decreases |feeds|
  {
    if feeds == [] {
      outs, last := [], o;
      NothingLeft(r, o, pend, ms, v, blob);
    } else {
      var g, d := FeedFirst(r, o, pend, ms, v, feeds, blob);
      var rest := ms[|g.outs|..];
      FitRest(ms, |g.outs|, blob);
      var more;
      more, last := FeedsDeliver(d.resp, g.out, g.pend, rest, g.verdict, feeds[1..], blob);
      outs := g.outs + more;
      AllOutOn(r.pendingHead, Unrouted(r.state, ms), d, o, g, FeedAll(d.resp, feeds[1..], blob), more, last, ms, blob);
    }
  }

  lemma NothingLeft(r: Resp, o: bytes, pend: bytes, ms: seq<Message>, v: Verdict, blob: bytes)
    requires AllFit(ms, blob) && Ready(r, o, pend, ms, v, blob) && Quiet(r, pend, ms)
    requires Remaining(pend, ms) == r.buf + Concat([])
    ensures AllOut(r.pendingHead, Unrouted(r.state, ms), Drained(r, []), o, [], o, ms, blob)
  {
    assert r.buf + Concat([]) == r.buf && ms[0..] == ms;
    StreamEnds(r, [], o, pend, ms, v, blob);
    assert [] + o == o && o + [] == o;
  }

  lemma AllOutOn(q: seq<bool>, a: seq<Message>, d: Drained, o: bytes, g: Progress,
                 e: Drained, more: seq<bytes>, last: bytes, ms: seq<Message>, blob: bytes)
    requires AllDelivered(g.outs, ms, blob) && o + d.out == Concat(g.outs) + g.out
    requires Taken(q, a, d.resp.pendingHead, Unrouted(d.resp.state, ms[|g.outs|..]), 0)
    requires AllOut(d.resp.pendingHead, Unrouted(d.resp.state, ms[|g.outs|..]), e, g.out, more, last, ms[|g.outs|..], blob)
    ensures AllOut(q, a, Drained(e.resp, d.out + e.out), o, g.outs + more, last, ms, blob)
  {
    JoinEnds(e.resp, g.outs, more, last, ms, blob);
    TakenOn(q, a, d.resp.pendingHead, Unrouted(d.resp.state, ms[|g.outs|..]), e.resp.pendingHead, [], 0);
    JoinOutput(o, d.out, e.out, g, more, last);
  }

  lemma JoinOutput(o: bytes, d: bytes, e: bytes, g: Progress, more: seq<bytes>, last: bytes)
    requires o + d == Concat(g.outs) + g.out && g.out + e == Concat(more) + last
    ensures o + (d + e) == Concat(g.outs + more) + last
  {
    Assoc(o, d, e);
    Assoc(Concat(g.outs), g.out, e);
    ConcatAppend(g.outs, more);
    Assoc(Concat(g.outs), Concat(more), last);
  }

  lemma JoinDelivered(outs: seq<bytes>, more: seq<bytes>, ms: seq<Message>, blob: bytes)
    requires AllDelivered(outs, ms, blob) && AllDelivered(more, ms[|outs|..], blob)
    ensures AllDelivered(outs + more, ms, blob)
  {
    var all := outs + more;
    forall i | 0 <= i < |all| ensures DeliveredOne(ms[i], all[i], blob) {
      if i >= |outs| {
        assert ms[|outs|..][i - |outs|] == ms[i];
      }
    }
  }

  lemma JoinEnds(r: Resp, outs: seq<bytes>, more: seq<bytes>, last: bytes, ms: seq<Message>, blob: bytes)
    requires AllDelivered(outs, ms, blob) && Ended(r, more, last, ms[|outs|..], blob)
    ensures Ended(r, outs + more, last, ms, blob)
  {
    JoinDelivered(outs, more, ms, blob);
  }

  /** A stream of responses, cut into feeds of at most 16 KiB in any way, comes out as one output for each: a byte-exact
      copy, or the head, edited if need be, and the document under a verdict that the scan gives on some part of it that
      had arrived: the same document, or the blob in it once. The framing stays, with one last chunk, nothing of one
      message is taken for another, and each message takes its own flag off the queue. If the last one runs until the
      close, it comes out in the same way, or not at all if the scan would still wait with its whole document. */
  lemma StreamDelivered(ms: seq<Message>, queue: seq<bool>, feeds: seq<bytes>, blob: bytes) returns (outs: seq<bytes>, last: bytes)
    requires AllFit(ms, blob) && QueueOk(queue, ms)
    requires Concat(feeds) == WireAll(ms)
    requires forall i :: 0 <= i < |feeds| ==> |feeds[i]| <= FEED_MAX
    ensures var d := FeedAll(Resp(Head, [], queue, false), feeds, blob);
            && d.out == Concat(outs) + last && Ended(d.resp, outs, last, ms, blob)
            && Taken(queue, ms, d.resp.pendingHead, [], 0)
  {
    outs, last := FromStart(Resp(Head, [], queue, false), ms, feeds, blob);
  }

  lemma FromStart(r: Resp, ms: seq<Message>, feeds: seq<bytes>, blob: bytes) returns (outs: seq<bytes>, last: bytes)
    requires r.state.Head? && r.buf == [] && !r.disabled && AllFit(ms, blob) && QueueOk(r.pendingHead, ms)
    requires Concat(feeds) == WireAll(ms)
    requires forall i :: 0 <= i < |feeds| ==> |feeds[i]| <= FEED_MAX
    ensures var d := FeedAll(r, feeds, blob);
            && d.out == Concat(outs) + last && Ended(d.resp, outs, last, ms, blob)
            && Taken(r.pendingHead, ms, d.resp.pendingHead, [], 0)
  {
    assert [] + Concat(feeds) == Concat(feeds);
    AtStart(r, ms, blob);
    outs, last := FeedsDeliver(r, [], if ms == [] then [] else Wire(ms[0]), ms, Wait, feeds, blob);
    assert [] + FeedAll(r, feeds, blob).out == FeedAll(r, feeds, blob).out;
  }

  lemma AtStart(r: Resp, ms: seq<Message>, blob: bytes)
    requires AllFit(ms, blob) && r.state.Head? && r.buf == [] && !r.disabled
    ensures var pend := if ms == [] then [] else Wire(ms[0]);
            Ready(r, [], pend, ms, Wait, blob) && Quiet(r, pend, ms) && Remaining(pend, ms) == WireAll(ms)
  {
    if ms != [] {
      HeadHasBytes(ms[0]);
    }
  }

  // --- documents that decide for themselves ----------------------------------

  /** On such a document every verdict is that on the whole of it, so that the cuts make no difference. */
  lemma OneVerdict(doc: bytes, v: Verdict)
    requires SelfDeciding(doc) && Decided(doc, v)
    ensures v == Decide(doc, true)
  {
    if DecidedEarly(doc, v) {
      var k :| 0 <= k <= |doc| && v == Decide(doc[..k], false);
      assert doc[..k] + doc[k..] == doc;
      DecisionIndependent(doc[..k], doc[k..], false);
    }
  }

  /** What comes out of such a message carries the same head and document however it was cut. */
  lemma CutsMakeNoDifference(m: Message, out: bytes, blob: bytes)
    requires DeliveredOne(m, out, blob) && (Injected(m) ==> SelfDeciding(Doc(m)))
    ensures Delivered(PlanOf(m, blob, Decide(Doc(m), true)), out)
  {
    var v :| Delivered(PlanOf(m, blob, v), out);
    if Injected(m) {
      OneVerdict(Doc(m), v);
    }
  }
}
