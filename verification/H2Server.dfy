/** The HTTP/2 server as the object that is fed and answers, its responses, and its header blocks. */
module H2Server {
  import opened Bytes
  import opened H2

  // --- responses -------------------------------------------------------------

  function WriteAll(frames: seq<Frame>): bytes {
    if frames == [] then [] else FrameBytes(frames[0]) + WriteAll(frames[1..])
  }

  lemma {:induction false} WriteAllMore(a: seq<Frame>, b: seq<Frame>)
    ensures WriteAll(a + b) == WriteAll(a) + WriteAll(b)
  {
    if a == [] {
      assert a + b == b;
    } else {
      assert (a + b)[1..] == a[1..] + b;
      WriteAllMore(a[1..], b);
      Assoc(FrameBytes(a[0]), WriteAll(a[1..]), WriteAll(b));
    }
  }

  /** The frames a peer reads from a byte string. */
  function ReadAll(buf: bytes): seq<Frame>
    decreases |buf|
  {
    match NextFrame(buf)
    case Got(f, rest) => [f] + ReadAll(rest)
    case _ => []
  }

  function BodyFrames(id: nat, body: bytes): seq<Frame>
    decreases |body|
  {
    if |body| <= MAX_FRAME then [Frame(T_DATA, F_END_STREAM, id, body)]
    else [Frame(T_DATA, 0, id, body[..MAX_FRAME])] + BodyFrames(id, body[MAX_FRAME..])
  }

  function ResponseFrames(id: nat, block: bytes, body: bytes): seq<Frame> {
    if body == [] then [Frame(T_HEADERS, F_END_HEADERS + F_END_STREAM, id, block)]
    else [Frame(T_HEADERS, F_END_HEADERS, id, block)] + BodyFrames(id, body)
  }

  function ResponseFields(status: nat, contentType: bytes, body: bytes): seq<Field> {
    [(A(":status"), ToRadix(status, 10)), (A("content-type"), contentType), (A("content-length"), ToRadix(|body|, 10))]
  }

  /** A peer reads of a response's fields its status first, its type, and the size of its body, and nothing else. */
  lemma ResponseFieldsRead(status: nat, contentType: bytes, body: bytes)
    ensures var fields := ResponseFields(status, contentType, body);
            && |fields| == 3 && fields[0].0 == A(":status") && ParseUnsigned(fields[0].1, 10, status) == Some(status)
            && (A("content-type"), contentType) in fields
            && exists size :: (A("content-length"), size) in fields && ParseUnsigned(size, 10, |body|) == Some(|body|)
  {
    NumberRoundTrip(status, 10, status);
    NumberRoundTrip(|body|, 10, |body|);
    var fields := ResponseFields(status, contentType, body);
    assert fields[2] == (A("content-length"), ToRadix(|body|, 10)) && fields[1] == (A("content-type"), contentType);
  }

  function Payloads(frames: seq<Frame>): bytes {
    if frames == [] then [] else frames[0].payload + Payloads(frames[1..])
  }

  predicate Sendable(f: Frame) { |f.payload| <= MAX_STREAM_BYTES && f.id < 0x8000_0000 }

  lemma {:induction false} ReadBack(frames: seq<Frame>)
    requires forall i :: 0 <= i < |frames| ==> Sendable(frames[i])
    ensures ReadAll(WriteAll(frames)) == frames
    decreases |frames|
  {
    if frames != [] {
      FrameRoundTrip(frames[0], WriteAll(frames[1..]));
      ReadBack(frames[1..]);
    }
  }

  /** A body in DATA frames of at most the maximum size, the last one and no other ending the stream. */
  ghost predicate CarriesBody(frames: seq<Frame>, id: nat, body: bytes) {
    && frames != [] && Payloads(frames) == body
    && forall i :: 0 <= i < |frames| ==>
         var f := frames[i];
         && f.ty == T_DATA && f.id == id && 0 < |f.payload| <= MAX_FRAME
         && (Flag(f.flags, F_END_STREAM) <==> i == |frames| - 1)
  }

  lemma {:induction false} BodyFramesCarry(id: nat, body: bytes)
    requires body != []
    ensures CarriesBody(BodyFrames(id, body), id, body)
    decreases |body|
  {
    if |body| <= MAX_FRAME {
      assert Payloads([Frame(T_DATA, F_END_STREAM, id, body)]) == body + [];
    } else {
      BodyFramesCarry(id, body[MAX_FRAME..]);
      var rest := BodyFrames(id, body[MAX_FRAME..]);
      var frames := BodyFrames(id, body);
      assert frames[1..] == rest;
      assert body[..MAX_FRAME] + body[MAX_FRAME..] == body;
    }
  }

  /** What a peer reads of a response: one HEADERS frame that ends the headers, and the whole body in order. */
  lemma ResponseReads(id: nat, block: bytes, body: bytes)
    requires id < 0x8000_0000 && |block| <= MAX_STREAM_BYTES
    ensures var frames := ReadAll(WriteAll(ResponseFrames(id, block, body)));
            && frames != [] && frames[0].ty == T_HEADERS && frames[0].id == id && frames[0].payload == block
            && Flag(frames[0].flags, F_END_HEADERS) && (Flag(frames[0].flags, F_END_STREAM) <==> body == [])
            && (body == [] ==> |frames| == 1) && (body != [] ==> CarriesBody(frames[1..], id, body))
  {
    var frames := ResponseFrames(id, block, body);
    if body != [] {
      BodyFramesCarry(id, body);
      assert frames[1..] == BodyFrames(id, body);
    }
    forall i | 0 <= i < |frames| ensures Sendable(frames[i]) {
      if i > 0 {
        assert frames[i] == BodyFrames(id, body)[i - 1];
      }
    }
    ReadBack(frames);
  }

  // --- taking output in between ----------------------------------------------

  /** The same connection, had nothing been taken from it. */
  function Past(c: Conn, out: bytes, ready: seq<Request>): Conn { c.(out := out + c.out, ready := ready + c.ready) }

  lemma DispatchPast(c: Conn, id: nat, out: bytes, ready: seq<Request>)
    ensures MaybeDispatch(Past(c, out, ready), id) == Past(MaybeDispatch(c, id), out, ready)
  {
    if id in c.streams {
      var st := c.streams[id];
      Assoc(ready, c.ready, [Request(id, st.verb, st.path, st.authority, st.contentType, st.body)]);
    }
  }

  lemma FinishPast(c: Conn, id: nat, hpack: Hpack, out: bytes, ready: seq<Request>)
    ensures FinishHeaders(Past(c, out, ready), id, hpack) == Past(FinishHeaders(c, id, hpack), out, ready)
  {
    if id in c.streams && hpack(c.blocks, c.streams[id].headerBlock).Some? {
      var st := c.streams[id].(headerBlock := [], headersDone := true);
      var fields := hpack(c.blocks, c.streams[id].headerBlock).value;
      DispatchPast(c.(streams := c.streams[id := Record(st, fields)], blocks := c.blocks + [c.streams[id].headerBlock]), id, out, ready);
    }
  }

  lemma HeadersPast(c: Conn, f: Frame, hpack: Hpack, out: bytes, ready: seq<Request>)
    ensures OnHeaders(Past(c, out, ready), f.flags, f.id, f.payload, hpack) == Past(OnHeaders(c, f.flags, f.id, f.payload, hpack), out, ready)
  {
    var fragment := HeaderFragment(f.flags, f.payload);
    if fragment.Some? {
      var st := if f.id in c.streams then c.streams[f.id] else NewStream;
      var st' := st.(headerBlock := st.headerBlock + fragment.value, endStream := Flag(f.flags, F_END_STREAM));
      FinishPast(c.(streams := c.streams[f.id := st']), f.id, hpack, out, ready);
    }
  }

  lemma ContinuationPast(c: Conn, f: Frame, hpack: Hpack, out: bytes, ready: seq<Request>)
    ensures OnContinuation(Past(c, out, ready), f.flags, f.id, f.payload, hpack)
            == Past(OnContinuation(c, f.flags, f.id, f.payload, hpack), out, ready)
  {
    if f.id in c.streams {
      var st := c.streams[f.id];
      var c' := c.(streams := c.streams[f.id := st.(headerBlock := st.headerBlock + f.payload)], continuation := None);
      FinishPast(c', f.id, hpack, out, ready);
    }
  }

  lemma DataPast(c: Conn, f: Frame, out: bytes, ready: seq<Request>)
    ensures OnData(Past(c, out, ready), f.flags, f.id, f.payload) == Past(OnData(c, f.flags, f.id, f.payload), out, ready)
  {
    var p := DataOf(f.flags, f.payload);
    if p.Some? && f.id in c.streams {
      var st := c.streams[f.id];
      var st' := st.(body := st.body + p.value, endStream := st.endStream || Flag(f.flags, F_END_STREAM));
      DispatchPast(c.(streams := c.streams[f.id := st']), f.id, out, ready);
    }
  }

  lemma WrittenPast(c: Conn, g: Frame, out: bytes, ready: seq<Request>)
    ensures Written(Past(c, out, ready), g) == Past(Written(c, g), out, ready)
  {
    Assoc(out, c.out, FrameBytes(g));
  }

  lemma HandlePast(c: Conn, f: Frame, hpack: Hpack, out: bytes, ready: seq<Request>)
    ensures Handle(Past(c, out, ready), f, hpack) == Past(Handle(c, f, hpack), out, ready)
  {
    if f.ty == T_HEADERS {
      HeadersPast(c, f, hpack, out, ready);
    } else if f.ty == T_CONTINUATION {
      ContinuationPast(c, f, hpack, out, ready);
    } else if f.ty == T_DATA {
      DataPast(c, f, out, ready);
    } else {
      WrittenPast(c, Frame(T_SETTINGS, F_ACK, 0, []), out, ready);
      WrittenPast(c, Frame(T_PING, F_ACK, 0, f.payload), out, ready);
    }
  }

  lemma {:induction false} ParsePast(c: Conn, buf: bytes, hpack: Hpack, out: bytes, ready: seq<Request>)
    ensures var p := ParseFrames(c, buf, hpack); ParseFrames(Past(c, out, ready), buf, hpack) == p.(conn := Past(p.conn, out, ready))
    decreases |buf|
  {
    if !c.failed && NextFrame(buf).Got? {
      HandlePast(c, NextFrame(buf).frame, hpack, out, ready);
      ParsePast(Handle(c, NextFrame(buf).frame, hpack), NextFrame(buf).rest, hpack, out, ready);
    }
  }

  lemma GreetPast(s: Server, out: bytes, ready: seq<Request>)
    ensures Greet(s.(conn := Past(s.conn, out, ready))) == Greet(s).(conn := Past(Greet(s).conn, out, ready))
  {
    var a, b := Frame(T_SETTINGS, 0, 0, []), Frame(T_WINDOW_UPDATE, 0, 0, [0x7f, 0xff, 0, 0]);
    WrittenPast(s.conn, a, out, ready);
    WrittenPast(Written(s.conn, a), b, out, ready);
  }

  /** Output and requests taken between two inputs are what would otherwise have come first. */
  lemma TakingChangesNothing(s: Server, data: bytes, hpack: Hpack, out: bytes, ready: seq<Request>)
    ensures var t := OnInput(s, data, hpack);
            OnInput(s.(conn := Past(s.conn, out, ready)), data, hpack) == t.(conn := Past(t.conn, out, ready))
  {
    if !s.conn.failed {
      GreetPast(s, out, ready);
      var g := Greet(s);
      var inbuf := g.inbuf + data;
      ParsePast(g.conn, if g.prefaceSeen then inbuf else if |inbuf| >= |PREFACE| then inbuf[|PREFACE|..] else [], hpack, out, ready);
    }
  }

  // --- header blocks ---------------------------------------------------------

  /** A CONTINUATION frame that continues nothing. */
  predicate Stray(c: Conn, e: Event) { e.Arrives? && e.frame.ty == T_CONTINUATION && c.continuation.None? }

  /** A header block in the making: its stream and its fragments so far. */
  datatype Block = Block(id: nat, text: bytes)

  /** Told by HEADERS and CONTINUATION frames alone: the block being built, if any, and those complete. */
  datatype Told = Told(open: Option<Block>, complete: seq<bytes>)

  function Extended(t: Told, b: Block, ends: bool): Told {
    if ends then Told(None, t.complete + [b.text]) else t.(open := Some(b))
  }

  function Tell(t: Told, e: Event): Told {
    if e.Responds? then t
    else
      var f := e.frame;
      if f.ty == T_HEADERS && HeaderFragment(f.flags, f.payload).Some? then
        Extended(t, Block(f.id, HeaderFragment(f.flags, f.payload).value), Flag(f.flags, F_END_HEADERS))
      else if f.ty == T_CONTINUATION && t.open.Some? then
        Extended(t, Block(f.id, t.open.value.text + f.payload), Flag(f.flags, F_END_HEADERS))
      else t
  }

  function TellAll(evs: seq<Event>): Told {
    if evs == [] then Told(None, []) else Tell(TellAll(evs[..|evs| - 1]), evs[|evs| - 1])
  }

  /** HPACK was given the complete blocks, and the block in the making is the one told. */
  ghost predicate BlocksFollow(c: Conn, t: Told) {
    && c.blocks == t.complete
    && c.continuation == (match t.open case None => None case Some(b) => Some(b.id))
    && forall id :: id in c.streams ==>
         c.streams[id].headerBlock == if t.open.Some? && t.open.value.id == id then t.open.value.text else []
  }

  /** A CONTINUATION that continues nothing changes nothing only if it is empty and ends nothing. */
  predicate Harmless(e: Event) { e.Arrives? && e.frame.payload == [] && !Flag(e.frame.flags, F_END_HEADERS) }

  predicate OnlyHarmless(evs: seq<Event>, hpack: Hpack) {
    evs == [] || (OnlyHarmless(evs[..|evs| - 1], hpack)
                  && (Stray(Run(evs[..|evs| - 1], hpack), evs[|evs| - 1]) ==> Harmless(evs[|evs| - 1])))
  }

  /** At this moment and at every moment before it. */
  ghost predicate AlwaysFollow(evs: seq<Event>, hpack: Hpack) {
    BlocksFollow(Run(evs, hpack), TellAll(evs)) && (evs == [] || AlwaysFollow(evs[..|evs| - 1], hpack))
  }

  lemma FinishBlocks(c: Conn, id: nat, hpack: Hpack)
    requires id in c.streams && !FinishHeaders(c, id, hpack).failed
    ensures var d := FinishHeaders(c, id, hpack);
            && d.blocks == c.blocks + [c.streams[id].headerBlock] && d.continuation == c.continuation
            && d.streams.Keys == c.streams.Keys && d.streams[id].headerBlock == []
            && forall i :: i in c.streams && i != id ==> d.streams[i] == c.streams[i]
  {
    var st := c.streams[id].(headerBlock := [], headersDone := true);
    RecordKeeps(st, hpack(c.blocks, c.streams[id].headerBlock).value);
  }

  lemma HeadersBlocks(c: Conn, t: Told, f: Frame, hpack: Hpack)
    requires BlocksFollow(c, t) && c.continuation.None? && f.ty == T_HEADERS
    requires !OnHeaders(c, f.flags, f.id, f.payload, hpack).failed
    ensures BlocksFollow(OnHeaders(c, f.flags, f.id, f.payload, hpack), Tell(t, Arrives(f)))
  {
    var st := if f.id in c.streams then c.streams[f.id] else NewStream;
    var fragment := HeaderFragment(f.flags, f.payload).value;
    assert st.headerBlock + fragment == fragment;
    if Flag(f.flags, F_END_HEADERS) {
      FinishBlocks(c.(streams := c.streams[f.id := st.(headerBlock := fragment, endStream := Flag(f.flags, F_END_STREAM))]), f.id, hpack);
    }
  }

  lemma ContinuationBlocks(c: Conn, t: Told, f: Frame, hpack: Hpack)
    requires BlocksFollow(c, t) && c.continuation == Some(f.id) && f.ty == T_CONTINUATION
    requires !OnContinuation(c, f.flags, f.id, f.payload, hpack).failed
    ensures BlocksFollow(OnContinuation(c, f.flags, f.id, f.payload, hpack), Tell(t, Arrives(f)))
  {
    var st := c.streams[f.id];
    if Flag(f.flags, F_END_HEADERS) {
      FinishBlocks(c.(streams := c.streams[f.id := st.(headerBlock := st.headerBlock + f.payload)], continuation := None), f.id, hpack);
    }
  }

  lemma HarmlessBlocks(c: Conn, t: Told, e: Event, hpack: Hpack)
    requires !c.failed && BlocksFollow(c, t) && Stray(c, e) && !Apply(c, e, hpack).failed
    ensures BlocksFollow(Apply(c, e, hpack), Tell(t, e)) <==> Harmless(e)
  {
    var f := e.frame;
    var block := c.streams[f.id].headerBlock + f.payload;
    assert block == f.payload;
    var c' := c.(streams := c.streams[f.id := c.streams[f.id].(headerBlock := block)], continuation := None);
    if Flag(f.flags, F_END_HEADERS) {
      FinishBlocks(c', f.id, hpack);
      assert |Apply(c, e, hpack).blocks| == |t.complete| + 1;
    } else {
      assert Apply(c, e, hpack).streams[f.id].headerBlock == f.payload;
    }
  }

  lemma ApplyBlocks(c: Conn, t: Told, e: Event, hpack: Hpack)
    requires !c.failed && BlocksFollow(c, t) && !Stray(c, e) && !Apply(c, e, hpack).failed
    ensures BlocksFollow(Apply(c, e, hpack), Tell(t, e))
  {
    if e.Arrives? && e.frame.ty == T_HEADERS {
      HeadersBlocks(c, t, e.frame, hpack);
    } else if e.Arrives? && e.frame.ty == T_CONTINUATION {
      ContinuationBlocks(c, t, e.frame, hpack);
    }
  }

  /** What HPACK decodes are, at every moment, exactly the contiguous runs of a HEADERS frame and its CONTINUATION frames,
      each run whole, in order, and never mixed with another stream's, if and only if every CONTINUATION that came out of place
      was empty and ended nothing. */
  lemma {:induction false} HeaderBlocksContiguous(evs: seq<Event>, hpack: Hpack)
    requires !Run(evs, hpack).failed
    ensures AlwaysFollow(evs, hpack) <==> OnlyHarmless(evs, hpack)
    decreases |evs|
  {
    if evs != [] {
      var init, e := evs[..|evs| - 1], evs[|evs| - 1];
      FailedStays(Run(init, hpack), e, hpack);
      HeaderBlocksContiguous(init, hpack);
      if AlwaysFollow(init, hpack) {
        if Stray(Run(init, hpack), e) {
          HarmlessBlocks(Run(init, hpack), TellAll(init), e, hpack);
        } else {
          ApplyBlocks(Run(init, hpack), TellAll(init), e, hpack);
        }
      }
    }
  }

  // --- header blocks, strays included ----------------------------------------

  /** What HPACK is really given: the block being built, the blocks complete, and for each stream the payloads of strays that
      have been kept. */
  datatype Heard = Heard(open: Option<Block>, complete: seq<bytes>, kept: map<nat, bytes>)

  function KeptFor(h: Heard, id: nat): bytes { if id in h.kept then h.kept[id] else [] }

  function Gathered(h: Heard, b: Block, ends: bool): Heard {
    Heard(if ends then None else Some(b), h.complete + if ends then [b.text] else [], h.kept - {b.id})
  }

  /** A HEADERS frame begins with what was kept for its stream; a stray that ends a block is a block by itself, behind what was
      kept, and one that ends none is kept. */
  function Hear(h: Heard, e: Event): Heard {
    if e.Responds? then h.(kept := h.kept - {e.id})
    else
      var f := e.frame;
      var ends := Flag(f.flags, F_END_HEADERS);
      if f.ty == T_HEADERS && HeaderFragment(f.flags, f.payload).Some? then
        Gathered(h, Block(f.id, KeptFor(h, f.id) + HeaderFragment(f.flags, f.payload).value), ends)
      else if f.ty == T_CONTINUATION && h.open.Some? then Gathered(h, Block(f.id, h.open.value.text + f.payload), ends)
      else if f.ty == T_CONTINUATION && ends then Gathered(h, Block(f.id, KeptFor(h, f.id) + f.payload), true)
      else if f.ty == T_CONTINUATION then h.(kept := h.kept[f.id := KeptFor(h, f.id) + f.payload])
      else if f.ty == T_RST_STREAM then h.(kept := h.kept - {f.id})
      else h
  }

  function HearAll(evs: seq<Event>): Heard {
    if evs == [] then Heard(None, [], map[]) else Hear(HearAll(evs[..|evs| - 1]), evs[|evs| - 1])
  }

  ghost predicate BlocksHeard(c: Conn, h: Heard) {
    && c.blocks == h.complete
    && c.continuation == (match h.open case None => None case Some(b) => Some(b.id))
    && (forall id :: id in h.kept ==> id in c.streams)
    && (h.open.Some? ==> h.open.value.id !in h.kept)
    && forall id :: id in c.streams ==>
         c.streams[id].headerBlock == if h.open.Some? && h.open.value.id == id then h.open.value.text else KeptFor(h, id)
  }

  lemma HeadersHeard(c: Conn, h: Heard, f: Frame, hpack: Hpack)
    requires BlocksHeard(c, h) && c.continuation.None? && f.ty == T_HEADERS
    requires !OnHeaders(c, f.flags, f.id, f.payload, hpack).failed
    ensures BlocksHeard(OnHeaders(c, f.flags, f.id, f.payload, hpack), Hear(h, Arrives(f)))
  {
    var st := if f.id in c.streams then c.streams[f.id] else NewStream;
    var text := st.headerBlock + HeaderFragment(f.flags, f.payload).value;
    assert st.headerBlock == KeptFor(h, f.id);
    if Flag(f.flags, F_END_HEADERS) {
      FinishBlocks(c.(streams := c.streams[f.id := st.(headerBlock := text, endStream := Flag(f.flags, F_END_STREAM))]), f.id, hpack);
    }
  }

  lemma ContinuationHeard(c: Conn, h: Heard, f: Frame, hpack: Hpack)
    requires BlocksHeard(c, h) && (c.continuation == Some(f.id) || c.continuation.None?) && f.ty == T_CONTINUATION
    requires !OnContinuation(c, f.flags, f.id, f.payload, hpack).failed
    ensures BlocksHeard(OnContinuation(c, f.flags, f.id, f.payload, hpack), Hear(h, Arrives(f)))
  {
    var st := c.streams[f.id];
    if Flag(f.flags, F_END_HEADERS) {
      FinishBlocks(c.(streams := c.streams[f.id := st.(headerBlock := st.headerBlock + f.payload)], continuation := None), f.id, hpack);
      assert h.complete + [st.headerBlock + f.payload] == c.blocks + [st.headerBlock + f.payload];
    }
  }

  lemma ApplyHeard(c: Conn, h: Heard, e: Event, hpack: Hpack)
    requires !c.failed && BlocksHeard(c, h) && !Apply(c, e, hpack).failed
    ensures BlocksHeard(Apply(c, e, hpack), Hear(h, e))
  {
    if e.Arrives? && e.frame.ty == T_HEADERS {
      HeadersHeard(c, h, e.frame, hpack);
    } else if e.Arrives? && e.frame.ty == T_CONTINUATION {
      ContinuationHeard(c, h, e.frame, hpack);
    }
  }

  /** For every run that has not failed, strays or not: what HPACK has been given, and what is kept for each stream. */
  lemma {:induction false} HeaderBlocksHeard(evs: seq<Event>, hpack: Hpack)
    requires !Run(evs, hpack).failed
    ensures BlocksHeard(Run(evs, hpack), HearAll(evs))
    decreases |evs|
  {
    if evs != [] {
      var init, e := evs[..|evs| - 1], evs[|evs| - 1];
      FailedStays(Run(init, hpack), e, hpack);
      HeaderBlocksHeard(init, hpack);
      ApplyHeard(Run(init, hpack), HearAll(init), e, hpack);
    }
  }

  lemma OneMoreHeard(evs: seq<Event>, e: Event, hpack: Hpack)
    ensures HearAll(evs + [e]) == Hear(HearAll(evs), e) && Run(evs + [e], hpack) == Apply(Run(evs, hpack), e, hpack)
  {
    var all := evs + [e];
    assert all[..|all| - 1] == evs;
  }

  lemma HearStray(h: Heard, stray: Frame, next: Frame)
    requires h.open.None? && stray.ty == T_CONTINUATION && next.ty == T_HEADERS && next.id == stray.id
    requires HeaderFragment(next.flags, next.payload).Some? && Flag(next.flags, F_END_HEADERS)
    ensures var kept, fragment := KeptFor(h, stray.id) + stray.payload, HeaderFragment(next.flags, next.payload).value;
            Hear(Hear(h, Arrives(stray)), Arrives(next)).complete
            == h.complete + if Flag(stray.flags, F_END_HEADERS) then [kept, fragment] else [kept + fragment]
  {
    var kept, fragment := KeptFor(h, stray.id) + stray.payload, HeaderFragment(next.flags, next.payload).value;
    if Flag(stray.flags, F_END_HEADERS) {
      assert [] + fragment == fragment;
      assert h.complete + [kept] + [fragment] == h.complete + [kept, fragment];
    }
  }

  /** A CONTINUATION out of place on an open stream is not refused as section 6.10 of RFC 9113 asks. Without END_HEADERS its
      payload is kept, and the next whole block of its stream begins with it; with END_HEADERS it is decoded as a block of its
      own. What earlier strays of the stream had left comes before it. */
  lemma StrayIsKept(evs: seq<Event>, stray: Frame, next: Frame, hpack: Hpack)
    requires !Run(evs + [Arrives(stray)] + [Arrives(next)], hpack).failed
    requires Stray(Run(evs, hpack), Arrives(stray))
    requires next.ty == T_HEADERS && next.id == stray.id && Flag(next.flags, F_END_HEADERS)
    ensures HeaderFragment(next.flags, next.payload).Some?
    ensures var kept, fragment := KeptFor(HearAll(evs), stray.id) + stray.payload, HeaderFragment(next.flags, next.payload).value;
            Run(evs + [Arrives(stray)] + [Arrives(next)], hpack).blocks
            == Run(evs, hpack).blocks + if Flag(stray.flags, F_END_HEADERS) then [kept, fragment] else [kept + fragment]
  {
    var one := evs + [Arrives(stray)];
    var two := one + [Arrives(next)];
    OneMoreHeard(evs, Arrives(stray), hpack);
    OneMoreHeard(one, Arrives(next), hpack);
    FailedStays(Run(one, hpack), Arrives(next), hpack);
    FailedStays(Run(evs, hpack), Arrives(stray), hpack);
    HeaderBlocksHeard(evs, hpack);
    HeaderBlocksHeard(two, hpack);
    NextNeedsFragment(Run(one, hpack), next, hpack);
    HearStray(HearAll(evs), stray, next);
  }

  lemma NextNeedsFragment(c: Conn, f: Frame, hpack: Hpack)
    requires !c.failed && f.ty == T_HEADERS && !Handle(c, f, hpack).failed
    ensures HeaderFragment(f.flags, f.payload).Some?
  {
  }

  // --- the object ------------------------------------------------------------

  class H2Server {
    const hpack: Hpack
    const encoder: Encoder
    var inbuf: bytes
    var prefaceSeen: bool
    var settingsSent: bool
    var blocks: seq<bytes>
    var encoded: seq<seq<Field>>
    var streams: map<nat, Strm>
    var continuation: Option<nat>
    var out: bytes
    var ready: seq<Request>
    var failed: bool

    function C(): Conn reads this { Conn(blocks, streams, continuation, out, ready, failed) }

    function S(): Server reads this { Server(C(), inbuf, prefaceSeen, settingsSent) }

    constructor (hpack: Hpack, encoder: Encoder)
      ensures S() == NewServer && this.hpack == hpack && this.encoder == encoder && encoded == []
    {
      this.hpack, this.encoder := hpack, encoder;
      inbuf, prefaceSeen, settingsSent := [], false, false;
      blocks, encoded, streams, continuation := [], [], map[], None;
      out, ready, failed := [], [], false;
    }

    method TakeOut() returns (taken: bytes)
      modifies this`out
      ensures taken == old(out) && out == []
    {
      taken, out := out, [];
    }

    method TakeRequests() returns (taken: seq<Request>)
      modifies this`ready
      ensures taken == old(ready) && ready == []
    {
      taken, ready := ready, [];
    }

    method OnInput(data: bytes)
      modifies this
      ensures S() == H2.OnInput(old(S()), data, hpack) && encoded == old(encoded)
    {
      if failed {
        return;
      }
      if !settingsSent {
        WriteFrame(T_SETTINGS, 0, 0, []);
        WriteFrame(T_WINDOW_UPDATE, 0, 0, [0x7f, 0xff, 0, 0]);
        settingsSent := true;
      }
      inbuf := inbuf + data;
      if !prefaceSeen {
        if |inbuf| < |PREFACE| {
          return;
        }
        if inbuf[..|PREFACE|] != PREFACE {
          failed := true;
          return;
        }
        inbuf := inbuf[|PREFACE|..];
        prefaceSeen := true;
      }
      ParseInbuf();
    }

    method WriteFrame(ty: byte, flags: byte, id: nat, payload: bytes)
      modifies this`out
      ensures out == old(out) + FrameBytes(Frame(ty, flags, id, payload))
    {
      out := out + Be3(|payload|);
      out := out + [ty, flags];
      out := out + Be4(id % 0x8000_0000);
      out := out + payload;
    }

    method ParseInbuf()
      modifies this`inbuf, this`blocks, this`streams, this`continuation, this`out, this`ready, this`failed
      ensures Parsed(C(), inbuf) == ParseFrames(old(C()), old(inbuf), hpack)
    {
      while !failed
        invariant ParseFrames(C(), inbuf, hpack) == ParseFrames(old(C()), old(inbuf), hpack)
        decreases |inbuf|
      {
        match NextFrame(inbuf)
        case Need => return;
        case TooBig =>
          failed := true;
          return;
        case Got(f, rest) =>
          inbuf := rest;
          OnFrame(f);
      }
    }

    method OnFrame(f: Frame)
      requires !failed
      modifies this`blocks, this`streams, this`continuation, this`out, this`ready, this`failed
      ensures C() == Handle(old(C()), f, hpack)
    {
      if continuation.Some? {
        if f.ty != T_CONTINUATION || f.id != continuation.value {
          failed := true;
          return;
        }
      }
      if f.ty == T_SETTINGS {
        if !Flag(f.flags, F_ACK) {
          WriteFrame(T_SETTINGS, F_ACK, 0, []);
        }
      } else if f.ty == T_PING {
        if !Flag(f.flags, F_ACK) && |f.payload| == 8 {
          WriteFrame(T_PING, F_ACK, 0, f.payload);
        }
      } else if f.ty == T_HEADERS {
        HeadersFrame(f.flags, f.id, f.payload);
      } else if f.ty == T_CONTINUATION {
        ContinuationFrame(f.flags, f.id, f.payload);
      } else if f.ty == T_DATA {
        DataFrame(f.flags, f.id, f.payload);
      } else if f.ty == T_RST_STREAM {
        streams := streams - {f.id};
      } else if f.ty == T_GOAWAY {
        failed := true;
      }
    }

    method HeadersFrame(flags: byte, id: nat, payload: bytes)
      modifies this`blocks, this`streams, this`continuation, this`ready, this`failed
      ensures C() == OnHeaders(old(C()), flags, id, payload, hpack)
    {
      if id == 0 {
        failed := true;
        return;
      }
      var p, pad := payload, 0;
      if Flag(flags, F_PADDED) {
        if p == [] {
          failed := true;
          return;
        }
        pad, p := p[0], p[1..];
      }
      if Flag(flags, F_PRIORITY) {
        if |p| < 5 {
          failed := true;
          return;
        }
        p := p[5..];
      }
      if pad > |p| {
        failed := true;
        return;
      }
      var fragment := p[..|p| - pad];
      var st := if id in streams then streams[id] else NewStream;
      streams := streams[id := st];
      if |st.headerBlock| + |fragment| > MAX_STREAM_BYTES {
        failed := true;
        return;
      }
      ghost var st' := st.(headerBlock := st.headerBlock + fragment, endStream := Flag(flags, F_END_STREAM));
      assert old(streams)[id := st][id := st'] == old(streams)[id := st'];
      streams := streams[id := st.(headerBlock := st.headerBlock + fragment, endStream := Flag(flags, F_END_STREAM))];
      if Flag(flags, F_END_HEADERS) {
        Finish(id);
      } else {
        continuation := Some(id);
      }
    }

    method ContinuationFrame(flags: byte, id: nat, payload: bytes)
      modifies this`blocks, this`streams, this`continuation, this`ready, this`failed
      ensures C() == OnContinuation(old(C()), flags, id, payload, hpack)
    {
      if id !in streams || |streams[id].headerBlock| + |payload| > MAX_STREAM_BYTES {
        failed := true;
        return;
      }
      streams := streams[id := streams[id].(headerBlock := streams[id].headerBlock + payload)];
      if Flag(flags, F_END_HEADERS) {
        continuation := None;
        Finish(id);
      }
    }

    method Finish(id: nat)
      modifies this`blocks, this`streams, this`ready, this`failed
      ensures C() == FinishHeaders(old(C()), id, hpack)
    {
      if id !in streams {
        return;
      }
      var block, st := streams[id].headerBlock, streams[id].(headerBlock := []);
      var decoded := hpack(blocks, block);
      blocks := blocks + [block];
      streams := streams[id := st];
      if decoded.None? {
        failed := true;
        return;
      }
      ghost var done := Record(st.(headersDone := true), decoded.value);
      assert old(streams)[id := st][id := done] == old(streams)[id := done];
      streams := streams[id := Record(st.(headersDone := true), decoded.value)];
      Dispatch(id);
    }

    method DataFrame(flags: byte, id: nat, payload: bytes)
      modifies this`streams, this`ready, this`failed
      ensures C() == OnData(old(C()), flags, id, payload)
    {
      var p := payload;
      if Flag(flags, F_PADDED) {
        if p == [] {
          failed := true;
          return;
        }
        var pad := p[0];
        p := p[1..];
        if pad > |p| {
          failed := true;
          return;
        }
        p := p[..|p| - pad];
      }
      if id !in streams {
        return;
      }
      var st := streams[id];
      if |st.body| + |p| > MAX_STREAM_BYTES {
        failed := true;
        return;
      }
      streams := streams[id := st.(body := st.body + p, endStream := st.endStream || Flag(flags, F_END_STREAM))];
      Dispatch(id);
    }

    method Dispatch(id: nat)
      modifies this`streams, this`ready
      ensures C() == MaybeDispatch(old(C()), id)
    {
      if !(id in streams && streams[id].headersDone && streams[id].endStream && !streams[id].dispatched) {
        return;
      }
      var st := streams[id];
      ready := ready + [Request(id, st.verb, st.path, st.authority, st.contentType, st.body)];
      streams := streams[id := st.(dispatched := true, body := [])];
    }

    /** Queues a whole response and forgets its stream. */
    method Respond(id: nat, status: nat, contentType: bytes, body: bytes)
      modifies this`out, this`streams, this`encoded
      ensures var fields := ResponseFields(status, contentType, body);
              && encoded == old(encoded) + [fields]
              && out == old(out) + WriteAll(ResponseFrames(id, encoder(old(encoded), fields), body))
      ensures streams == old(streams) - {id}
    {
      var fields := ResponseFields(status, contentType, body);
      var block := encoder(encoded, fields);
      encoded := encoded + [fields];
      WriteFrame(T_HEADERS, if body == [] then F_END_HEADERS + F_END_STREAM else F_END_HEADERS, id, block);
      ghost var head := Frame(T_HEADERS, if body == [] then F_END_HEADERS + F_END_STREAM else F_END_HEADERS, id, block);
      WriteOne(head);
      if body != [] {
        WriteBody(id, body);
        WriteAllMore([head], BodyFrames(id, body));
        Assoc(old(out), WriteAll([head]), WriteAll(BodyFrames(id, body)));
      }
      streams := streams - {id};
    }

    method WriteBody(id: nat, body: bytes)
      requires body != []
      modifies this`out
      ensures out == old(out) + WriteAll(BodyFrames(id, body))
    {
      var off := 0;
      ghost var done: seq<Frame> := [];
      assert body[0..] == body && done + BodyFrames(id, body) == BodyFrames(id, body);
      assert old(out) + [] == old(out);
      while off < |body|
        invariant off <= |body|
        invariant out == old(out) + WriteAll(done)
        invariant BodyFrames(id, body) == if off < |body| then done + BodyFrames(id, body[off..]) else done
      {
        var end := Min(off + MAX_FRAME, |body|);
        var last := end == |body|;
        ghost var f := Frame(T_DATA, if last then F_END_STREAM else 0, id, body[off..end]);
        BodyStep(id, body, off, end);
        WriteFrame(T_DATA, if last then F_END_STREAM else 0, id, body[off..end]);
        WriteOne(f);
        WriteAllMore(done, [f]);
        Assoc(old(out), WriteAll(done), WriteAll([f]));
        Assoc(done, [f], BodyFrames(id, body[end..]));
        done := done + [f];
        off := end;
      }
    }
  }

  lemma BodyStep(id: nat, body: bytes, off: nat, end: nat)
    requires off < |body| && end == Min(off + MAX_FRAME, |body|)
    ensures var f := Frame(T_DATA, if end == |body| then F_END_STREAM else 0, id, body[off..end]);
            BodyFrames(id, body[off..]) == if end < |body| then [f] + BodyFrames(id, body[end..]) else [f]
  {
    var rest := body[off..];
    assert rest[..end - off] == body[off..end] && rest[end - off..] == body[end..];
    assert end == |body| ==> rest == body[off..end];
  }

  lemma WriteOne(f: Frame)
    ensures WriteAll([f]) == FrameBytes(f)
  {
    assert FrameBytes(f) + [] == FrameBytes(f);
  }
}
