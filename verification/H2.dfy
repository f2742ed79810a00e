/** The HTTP/2 server side (RFC 9113): frames, header blocks, and streams that become requests. */
module H2 {
  import opened Bytes

  const PREFACE: bytes := A("PRI * HTTP/2.0\r\n\r\nSM\r\n\r\n")
  const FRAME_HEADER: nat := 9
  const MAX_FRAME: nat := 16384
  const MAX_STREAM_BYTES: nat := 64 * 1024

  const T_DATA: byte := 0
  const T_HEADERS: byte := 1
  const T_RST_STREAM: byte := 3
  const T_SETTINGS: byte := 4
  const T_PING: byte := 6
  const T_GOAWAY: byte := 7
  const T_WINDOW_UPDATE: byte := 8
  const T_CONTINUATION: byte := 9

  const F_ACK: byte := 1
  const F_END_STREAM: byte := 1
  const F_END_HEADERS: byte := 4
  const F_PADDED: byte := 8
  const F_PRIORITY: byte := 32

  predicate Flag(flags: byte, bit: byte)
    requires bit > 0
  {
    flags / bit % 2 == 1
  }

  type Field = (bytes, bytes)

  /** HPACK decoding: what a block decodes to after the blocks decoded before it on this connection. */
  type Hpack = (seq<bytes>, bytes) -> Option<seq<Field>>

  /** HPACK encoding of a field list, after those encoded before. */
  type Encoder = (seq<seq<Field>>, seq<Field>) -> bytes

  datatype Frame = Frame(ty: byte, flags: byte, id: nat, payload: bytes)

  datatype Request = Request(streamId: nat, verb: bytes, path: bytes, authority: bytes, contentType: bytes, body: bytes)

  datatype Strm = Strm(verb: bytes, path: bytes, authority: bytes, contentType: bytes, body: bytes,
                       headerBlock: bytes, headersDone: bool, endStream: bool, dispatched: bool)

  const NewStream := Strm([], [], [], [], [], [], false, false, false)

  /** Everything but the bytes still to be framed. */
  datatype Conn = Conn(blocks: seq<bytes>, streams: map<nat, Strm>, continuation: Option<nat>,
                       out: bytes, ready: seq<Request>, failed: bool)

  const NewConn := Conn([], map[], None, [], [], false)

  // --- frames on the wire ----------------------------------------------------

  const B2: nat := 0x1_0000
  const B3: nat := 0x100_0000

  function Be3(n: nat): bytes { [n / B2 % 256, n / 256 % 256, n % 256] }

  function Be4(n: nat): bytes { [n / B3 % 256] + Be3(n) }

  /** One frame as `write_frame` serializes it. */
  function FrameBytes(f: Frame): bytes { Be3(|f.payload|) + [f.ty, f.flags] + Be4(f.id % 0x8000_0000) + f.payload }

  function Number(a: nat, b: nat, c: nat, d: nat): nat { a * B3 + b * B2 + c * 256 + d }

  datatype Next = Need | TooBig | Got(frame: Frame, rest: bytes)

  function NextFrame(buf: bytes): (n: Next)
    ensures n.Got? ==> |n.rest| < |buf|
  {
    if |buf| < FRAME_HEADER then Need
    else
      var len := Number(0, buf[0], buf[1], buf[2]);
      if len > MAX_STREAM_BYTES then TooBig
      else if |buf| < FRAME_HEADER + len then Need
      else
        var id := Number(buf[5], buf[6], buf[7], buf[8]) % 0x8000_0000;
        Got(Frame(buf[3], buf[4], id, buf[FRAME_HEADER..FRAME_HEADER + len]), buf[FRAME_HEADER + len..])
  }

  lemma BeValues(n: nat)
    requires n < 0x1_0000_0000
    ensures n / B3 < 256
    ensures Number(n / B3, n / B2 % 256, n / 256 % 256, n % 256) == n
  {
    assert n / B2 == n / 256 / 256;
    assert n / B3 == n / B2 / 256;
  }

  /** A frame that was written is read back, and what follows is left alone. */
  lemma FrameRoundTrip(f: Frame, rest: bytes)
    requires |f.payload| <= MAX_STREAM_BYTES && f.id < 0x8000_0000
    ensures NextFrame(FrameBytes(f) + rest) == Got(f, rest)
  {
    var buf := FrameBytes(f) + rest;
    BeValues(|f.payload|);
    BeValues(f.id);
    assert buf[..9] == Be3(|f.payload|) + [f.ty, f.flags] + Be4(f.id);
    assert buf[0] == Be3(|f.payload|)[0] && buf[1] == Be3(|f.payload|)[1] && buf[2] == Be3(|f.payload|)[2];
    assert buf[5] == Be4(f.id)[0] && buf[6] == Be4(f.id)[1] && buf[7] == Be4(f.id)[2] && buf[8] == Be4(f.id)[3];
    assert buf[9..9 + |f.payload|] == f.payload && buf[9 + |f.payload|..] == rest;
  }

  // --- what a frame does -----------------------------------------------------

  function Fail(c: Conn): Conn { c.(failed := true) }

  function Written(c: Conn, f: Frame): Conn { c.(out := c.out + FrameBytes(f)) }

  /** Data without its padding (sections 6.1 and 6.2 of RFC 9113). */
  function Unpad(p: bytes, pad: nat): Option<bytes> { if pad > |p| then None else Some(p[..|p| - pad]) }

  function HeaderFragment(flags: byte, payload: bytes): Option<bytes> {
    if Flag(flags, F_PADDED) && payload == [] then None
    else
      var pad := if Flag(flags, F_PADDED) then payload[0] else 0;
      var p := if Flag(flags, F_PADDED) then payload[1..] else payload;
      if Flag(flags, F_PRIORITY) then (if |p| < 5 then None else Unpad(p[5..], pad)) else Unpad(p, pad)
  }

  function DataOf(flags: byte, payload: bytes): Option<bytes> {
    if !Flag(flags, F_PADDED) then Some(payload)
    else if payload == [] then None
    else Unpad(payload[1..], payload[0])
  }

  /** The octet that announces the padding, if the flags say that there is one. */
  function PadOctet(flags: byte, padding: bytes): bytes
    requires |padding| < 256
  {
    if Flag(flags, F_PADDED) then [|padding|] else []
  }

  /** Padding comes off DATA as it was put on. */
  lemma DataPadding(flags: byte, content: bytes, padding: bytes)
    requires |padding| < 256 && (!Flag(flags, F_PADDED) ==> padding == [])
    ensures DataOf(flags, PadOctet(flags, padding) + content + padding) == Some(content)
  {
    var pad := PadOctet(flags, padding);
    assert (content + padding)[..|content|] == content;
    assert (pad + content + padding)[|pad|..] == content + padding;
    assert pad == [] && padding == [] ==> pad + content + padding == content;
  }

  /** Padding and priority come off HEADERS as they were put on. */
  lemma HeadersPadding(flags: byte, content: bytes, padding: bytes, priority: bytes)
    requires |padding| < 256 && (!Flag(flags, F_PADDED) ==> padding == [])
    requires |priority| == if Flag(flags, F_PRIORITY) then 5 else 0
    ensures HeaderFragment(flags, PadOctet(flags, padding) + (priority + (content + padding))) == Some(content)
  {
    var pad, inner := PadOctet(flags, padding), priority + (content + padding);
    assert (content + padding)[..|content|] == content;
    assert inner[|priority|..] == content + padding;
    assert (pad + inner)[|pad|..] == inner;
    assert pad == [] ==> pad + inner == inner;
  }

  function OnSettings(c: Conn, flags: byte): Conn {
    if Flag(flags, F_ACK) then c else Written(c, Frame(T_SETTINGS, F_ACK, 0, []))
  }

  function OnPing(c: Conn, flags: byte, payload: bytes): Conn {
    if Flag(flags, F_ACK) || |payload| != 8 then c else Written(c, Frame(T_PING, F_ACK, 0, payload))
  }

  function Record(st: Strm, fields: seq<Field>): Strm
    decreases |fields|
  {
    if fields == [] then st
    else
      var (name, v) := fields[0];
      var st' := if name == A(":method") then st.(verb := v)
                 else if name == A(":path") then st.(path := v)
                 else if name == A(":authority") then st.(authority := v)
                 else if name == A("content-type") then st.(contentType := v)
                 else st;
      Record(st', fields[1..])
  }

  /** A stream with its headers and its end is surfaced once. */
  function MaybeDispatch(c: Conn, id: nat): Conn {
    if id in c.streams && c.streams[id].headersDone && c.streams[id].endStream && !c.streams[id].dispatched then
      var st := c.streams[id];
      c.(streams := c.streams[id := st.(dispatched := true, body := [])],
         ready := c.ready + [Request(id, st.verb, st.path, st.authority, st.contentType, st.body)])
    else c
  }

  function FinishHeaders(c: Conn, id: nat, hpack: Hpack): Conn {
    if id !in c.streams then c
    else
      var st := c.streams[id].(headerBlock := []);
      var block := c.streams[id].headerBlock;
      match hpack(c.blocks, block)
      case None => Fail(c.(streams := c.streams[id := st], blocks := c.blocks + [block]))
      case Some(fields) =>
        MaybeDispatch(c.(streams := c.streams[id := Record(st.(headersDone := true), fields)], blocks := c.blocks + [block]), id)
  }

  function OnHeaders(c: Conn, flags: byte, id: nat, payload: bytes, hpack: Hpack): Conn {
    if id == 0 then Fail(c)
    else
      match HeaderFragment(flags, payload)
      case None => Fail(c)
      case Some(fragment) =>
        var st := if id in c.streams then c.streams[id] else NewStream;
        if |st.headerBlock| + |fragment| > MAX_STREAM_BYTES then Fail(c.(streams := c.streams[id := st]))
        else
          var st' := st.(headerBlock := st.headerBlock + fragment, endStream := Flag(flags, F_END_STREAM));
          var c' := c.(streams := c.streams[id := st']);
          if Flag(flags, F_END_HEADERS) then FinishHeaders(c', id, hpack) else c'.(continuation := Some(id))
  }

  function OnContinuation(c: Conn, flags: byte, id: nat, payload: bytes, hpack: Hpack): Conn {
    if id !in c.streams || |c.streams[id].headerBlock| + |payload| > MAX_STREAM_BYTES then Fail(c)
    else
      var st := c.streams[id];
      var c' := c.(streams := c.streams[id := st.(headerBlock := st.headerBlock + payload)]);
      if Flag(flags, F_END_HEADERS) then FinishHeaders(c'.(continuation := None), id, hpack) else c'
  }

  function OnData(c: Conn, flags: byte, id: nat, payload: bytes): Conn {
    match DataOf(flags, payload)
    case None => Fail(c)
    case Some(p) =>
      if id !in c.streams then c
      else
        var st := c.streams[id];
        if |st.body| + |p| > MAX_STREAM_BYTES then Fail(c)
        else
          var st' := st.(body := st.body + p, endStream := st.endStream || Flag(flags, F_END_STREAM));
          MaybeDispatch(c.(streams := c.streams[id := st']), id)
  }

  function Handle(c: Conn, f: Frame, hpack: Hpack): Conn {
    if c.continuation.Some? && (f.ty != T_CONTINUATION || f.id != c.continuation.value) then Fail(c)
    else if f.ty == T_SETTINGS then OnSettings(c, f.flags)
    else if f.ty == T_PING then OnPing(c, f.flags, f.payload)
    else if f.ty == T_HEADERS then OnHeaders(c, f.flags, f.id, f.payload, hpack)
    else if f.ty == T_CONTINUATION then OnContinuation(c, f.flags, f.id, f.payload, hpack)
    else if f.ty == T_DATA then OnData(c, f.flags, f.id, f.payload)
    else if f.ty == T_RST_STREAM then c.(streams := c.streams - {f.id})
    else if f.ty == T_GOAWAY then Fail(c)
    else c
  }

  /** The connection and the bytes left over. */
  datatype Parsed = Parsed(conn: Conn, rest: bytes)

  function ParseFrames(c: Conn, buf: bytes, hpack: Hpack): Parsed
    decreases |buf|
  {
    if c.failed then Parsed(c, buf)
    else
      match NextFrame(buf)
      case Need => Parsed(c, buf)
      case TooBig => Parsed(Fail(c), buf)
      case Got(f, rest) => ParseFrames(Handle(c, f, hpack), rest, hpack)
  }

  // --- any cut of the input --------------------------------------------------

  lemma NextStable(buf: bytes, y: bytes)
    ensures NextFrame(buf).Got? ==> NextFrame(buf + y) == Got(NextFrame(buf).frame, NextFrame(buf).rest + y)
    ensures NextFrame(buf).TooBig? ==> NextFrame(buf + y).TooBig?
  {
    if NextFrame(buf).Got? {
      var len := Number(0, buf[0], buf[1], buf[2]);
      assert (buf + y)[9..9 + len] == buf[9..9 + len];
      assert (buf + y)[9 + len..] == buf[9 + len..] + y;
    }
  }

  /** Parsing in two goes is parsing at once; a failed connection only keeps different unread bytes. */
  lemma {:induction false} ParseSplit(c: Conn, buf: bytes, y: bytes, hpack: Hpack)
    ensures var p := ParseFrames(c, buf, hpack);
            if p.conn.failed then ParseFrames(c, buf + y, hpack).conn == p.conn
            else ParseFrames(c, buf + y, hpack) == ParseFrames(p.conn, p.rest + y, hpack)
    decreases |buf|
  {
    NextStable(buf, y);
    if !c.failed && NextFrame(buf).Got? {
      ParseSplit(Handle(c, NextFrame(buf).frame, hpack), NextFrame(buf).rest, y, hpack);
    }
  }

  /** The whole server. */
  datatype Server = Server(conn: Conn, inbuf: bytes, prefaceSeen: bool, settingsSent: bool)

  const NewServer := Server(NewConn, [], false, false)

  function Greet(s: Server): Server {
    if s.settingsSent then s
    else s.(settingsSent := true,
            conn := Written(Written(s.conn, Frame(T_SETTINGS, 0, 0, [])), Frame(T_WINDOW_UPDATE, 0, 0, [0x7f, 0xff, 0, 0])))
  }

  function Receive(s: Server, hpack: Hpack): Server {
    if !s.prefaceSeen && |s.inbuf| < |PREFACE| then s
    else if !s.prefaceSeen && s.inbuf[..|PREFACE|] != PREFACE then s.(conn := Fail(s.conn))
    else
      var p := ParseFrames(s.conn, if s.prefaceSeen then s.inbuf else s.inbuf[|PREFACE|..], hpack);
      s.(conn := p.conn, inbuf := p.rest, prefaceSeen := true)
  }

  function OnInput(s: Server, data: bytes, hpack: Hpack): Server {
    if s.conn.failed then s
    else
      var g := Greet(s);
      Receive(g.(inbuf := g.inbuf + data), hpack)
  }

  /** Equal, but for the unread bytes of a connection that has failed. */
  predicate Same(a: Server, b: Server) { a.(inbuf := b.inbuf) == b && (!a.conn.failed ==> a.inbuf == b.inbuf) }

  lemma ReceiveSplit(s: Server, y: bytes, hpack: Hpack)
    requires !s.conn.failed
    ensures var a := Receive(s, hpack);
            Same(Receive(s.(inbuf := s.inbuf + y), hpack), if a.conn.failed then a else Receive(a.(inbuf := a.inbuf + y), hpack))
  {
    var n := |PREFACE|;
    if s.prefaceSeen {
      ParseSplit(s.conn, s.inbuf, y, hpack);
    } else if |s.inbuf| >= n {
      assert (s.inbuf + y)[..n] == s.inbuf[..n] && (s.inbuf + y)[n..] == s.inbuf[n..] + y;
      ParseSplit(s.conn, s.inbuf[n..], y, hpack);
    }
  }

  lemma InputSplit(s: Server, x: bytes, y: bytes, hpack: Hpack)
    ensures Same(OnInput(s, x + y, hpack), OnInput(OnInput(s, x, hpack), y, hpack))
  {
    if !s.conn.failed {
      var g := Greet(s);
      assert g.inbuf + x + y == g.inbuf + (x + y);
      ReceiveSplit(g.(inbuf := g.inbuf + x), y, hpack);
      ReceiveKeepsGreeting(g.(inbuf := g.inbuf + x), hpack);
    }
  }

  lemma ReceiveKeepsGreeting(s: Server, hpack: Hpack)
    ensures Receive(s, hpack).settingsSent == s.settingsSent
  {
  }

  lemma SameInput(a: Server, b: Server, y: bytes, hpack: Hpack)
    requires Same(a, b)
    ensures Same(OnInput(a, y, hpack), OnInput(b, y, hpack))
  {
  }

  function Inputs(s: Server, segs: seq<bytes>, hpack: Hpack): Server
    decreases |segs|
  {
    if segs == [] then s else OnInput(Inputs(s, segs[..|segs| - 1], hpack), segs[|segs| - 1], hpack)
  }

  /** However the input is cut, the output, the requests, the streams and the failure are those of the whole. */
  lemma {:induction false} SegmentationIndependent(s: Server, segs: seq<bytes>, hpack: Hpack)
    requires segs != []
    ensures Same(OnInput(s, Concat(segs), hpack), Inputs(s, segs, hpack))
    decreases |segs|
  {
    var init, last := segs[..|segs| - 1], segs[|segs| - 1];
    assert segs == init + [last];
    ConcatAppend(init, [last]);
    assert Concat([last]) == last;
    if init == [] {
      assert Concat(segs) == last;
    } else {
      SegmentationIndependent(s, init, hpack);
      InputSplit(s, Concat(init), last, hpack);
      SameInput(OnInput(s, Concat(init), hpack), Inputs(s, init, hpack), last, hpack);
    }
  }

  // --- the body of each stream -----------------------------------------------

  /** What happens to a connection: a frame arrives, or a response is queued and its stream forgotten. */
  datatype Event = Arrives(frame: Frame) | Responds(id: nat)

  function Apply(c: Conn, e: Event, hpack: Hpack): Conn {
    match e
    case Arrives(f) => if c.failed then c else Handle(c, f, hpack)
    case Responds(id) => c.(streams := c.streams - {id})
  }

  function Run(evs: seq<Event>, hpack: Hpack): Conn {
    if evs == [] then NewConn else Apply(Run(evs[..|evs| - 1], hpack), evs[|evs| - 1], hpack)
  }

  /** Told by the frames of stream `id` alone: the data since its headers first opened it, if it is open. */
  function Data(evs: seq<Event>, id: nat): Option<bytes> {
    if evs == [] then None
    else
      var before := Data(evs[..|evs| - 1], id);
      match evs[|evs| - 1]
      case Responds(i) => if i == id then None else before
      case Arrives(f) =>
        if f.id != id then before
        else if f.ty == T_RST_STREAM then None
        else if f.ty == T_HEADERS then (if before.None? then Some([]) else before)
        else if f.ty == T_DATA && before.Some? && DataOf(f.flags, f.payload).Some? then
          Some(before.value + DataOf(f.flags, f.payload).value)
        else before
  }

  /** Every stream that has not been surfaced holds exactly its own data. */
  ghost predicate BodiesFollow(c: Conn, evs: seq<Event>) {
    && (forall id :: id in c.streams <==> Data(evs, id).Some?)
    && (forall id :: id in c.streams && !c.streams[id].dispatched ==> c.streams[id].body == Data(evs, id).value)
  }

  /** At most one request surfaces, on this stream, with the body it has here; the other streams are as they were. */
  ghost predicate Surfaces(c: Conn, d: Conn, id: nat, body: bytes) {
    && d.streams.Keys == c.streams.Keys && id in c.streams
    && (forall i :: i in c.streams && i != id ==> d.streams[i] == c.streams[i])
    && (d.ready == c.ready ==> d.streams[id].dispatched == c.streams[id].dispatched && d.streams[id].body == c.streams[id].body)
    && (d.ready != c.ready ==> |d.ready| == |c.ready| + 1 && d.ready[..|c.ready|] == c.ready
                               && d.ready[|c.ready|].streamId == id && d.ready[|c.ready|].body == body
                               && !c.streams[id].dispatched && d.streams[id].dispatched)
  }

  lemma DispatchSurfaces(c: Conn, id: nat)
    requires id in c.streams
    ensures Surfaces(c, MaybeDispatch(c, id), id, c.streams[id].body)
  {
  }

  lemma {:induction false} RecordKeeps(st: Strm, fields: seq<Field>)
    ensures var r := Record(st, fields);
            r.body == st.body && r.dispatched == st.dispatched && r.headersDone == st.headersDone
            && r.endStream == st.endStream && r.headerBlock == st.headerBlock
    decreases |fields|
  {
    if fields != [] {
      RecordKeeps(Record(st, fields[..1]), fields[1..]);
      assert Record(st, fields) == Record(Record(st, fields[..1]), fields[1..]);
    }
  }

  lemma FinishSurfaces(c: Conn, id: nat, hpack: Hpack)
    requires id in c.streams
    ensures var d := FinishHeaders(c, id, hpack); d.failed || Surfaces(c, d, id, c.streams[id].body)
  {
    var block := c.streams[id].headerBlock;
    var fields := hpack(c.blocks, block);
    if fields.Some? {
      var st := c.streams[id].(headerBlock := [], headersDone := true);
      RecordKeeps(st, fields.value);
      DispatchSurfaces(c.(streams := c.streams[id := Record(st, fields.value)], blocks := c.blocks + [block]), id);
    }
  }

  /** What a frame does to the set of open streams and to the request it may surface. */
  lemma HandleSurfaces(c: Conn, f: Frame, hpack: Hpack) returns (mid: Conn)
    requires !c.failed && !Handle(c, f, hpack).failed
    requires f.ty == T_HEADERS || f.ty == T_CONTINUATION || (f.ty == T_DATA && f.id in c.streams)
    ensures f.id in mid.streams && mid.ready == c.ready
    ensures mid.streams.Keys == c.streams.Keys + {f.id} && (f.ty != T_HEADERS ==> f.id in c.streams)
    ensures forall i :: i in c.streams && i != f.id ==> mid.streams[i] == c.streams[i]
    ensures var was := if f.id in c.streams then c.streams[f.id] else NewStream;
            mid.streams[f.id].dispatched == was.dispatched
            && mid.streams[f.id].body == was.body + if f.ty == T_DATA then DataOf(f.flags, f.payload).value else []
    ensures f.ty == T_DATA ==> DataOf(f.flags, f.payload).Some?
    ensures Surfaces(mid, Handle(c, f, hpack), f.id, mid.streams[f.id].body)
  {
    var id := f.id;
    var st := if id in c.streams then c.streams[id] else NewStream;
    assert st.body + [] == st.body;
    if f.ty == T_HEADERS {
      var st' := st.(headerBlock := st.headerBlock + HeaderFragment(f.flags, f.payload).value, endStream := Flag(f.flags, F_END_STREAM));
      mid := c.(streams := c.streams[id := st']);
      FinishSurfaces(mid, id, hpack);
    } else if f.ty == T_CONTINUATION {
      mid := c.(streams := c.streams[id := st.(headerBlock := st.headerBlock + f.payload)],
                continuation := if Flag(f.flags, F_END_HEADERS) then None else c.continuation);
      FinishSurfaces(mid, id, hpack);
    } else {
      var p := DataOf(f.flags, f.payload).value;
      mid := c.(streams := c.streams[id := st.(body := st.body + p, endStream := st.endStream || Flag(f.flags, F_END_STREAM))]);
      DispatchSurfaces(mid, id);
    }
  }

  /** One more event keeps every body in step, and a request that surfaces carries its stream's data. */
  lemma ApplyFollows(c: Conn, init: seq<Event>, e: Event, hpack: Hpack)
    requires !c.failed && BodiesFollow(c, init) && !Apply(c, e, hpack).failed
    ensures var d := Apply(c, e, hpack);
            && BodiesFollow(d, init + [e])
            && c.ready <= d.ready && |d.ready| <= |c.ready| + 1
            && (|d.ready| > |c.ready| ==> Data(init + [e], d.ready[|c.ready|].streamId) == Some(d.ready[|c.ready|].body))
  {
    var evs := init + [e];
    assert evs[..|evs| - 1] == init;
    if e.Arrives? && (e.frame.ty == T_HEADERS || e.frame.ty == T_CONTINUATION || (e.frame.ty == T_DATA && e.frame.id in c.streams)) {
      var mid := HandleSurfaces(c, e.frame, hpack);
      SurfacedFollows(c, mid, Apply(c, e, hpack), init, e.frame);
    } else {
      assert Apply(c, e, hpack).ready == c.ready;
    }
  }

  lemma SurfacedFollows(c: Conn, mid: Conn, d: Conn, init: seq<Event>, f: Frame)
    requires BodiesFollow(c, init)
    requires f.ty == T_HEADERS || ((f.ty == T_CONTINUATION || f.ty == T_DATA) && f.id in c.streams)
    requires f.ty == T_DATA ==> DataOf(f.flags, f.payload).Some?
    requires f.id in mid.streams && mid.ready == c.ready && mid.streams.Keys == c.streams.Keys + {f.id}
    requires forall i :: i in c.streams && i != f.id ==> mid.streams[i] == c.streams[i]
    requires var was := if f.id in c.streams then c.streams[f.id] else NewStream;
             mid.streams[f.id].dispatched == was.dispatched
             && mid.streams[f.id].body == was.body + if f.ty == T_DATA then DataOf(f.flags, f.payload).value else []
    requires Surfaces(mid, d, f.id, mid.streams[f.id].body)
    ensures BodiesFollow(d, init + [Arrives(f)])
    ensures c.ready <= d.ready && |d.ready| <= |c.ready| + 1
    ensures |d.ready| > |c.ready| ==> Data(init + [Arrives(f)], d.ready[|c.ready|].streamId) == Some(d.ready[|c.ready|].body)
  {
    var evs := init + [Arrives(f)];
    assert evs[..|evs| - 1] == init;
    if f.ty != T_DATA && f.id in c.streams {
      assert c.streams[f.id].body + [] == c.streams[f.id].body;
    }
  }

  // --- a whole run -----------------------------------------------------------

  /** After how many events each request surfaced. */
  function Moments(evs: seq<Event>, hpack: Hpack): seq<nat> {
    if evs == [] then []
    else
      var init := evs[..|evs| - 1];
      Moments(init, hpack) + if |Run(evs, hpack).ready| > |Run(init, hpack).ready| then [|evs|] else []
  }

  predicate Removes(e: Event, id: nat) {
    match e
    case Responds(i) => i == id
    case Arrives(f) => f.ty == T_RST_STREAM && f.id == id
  }

  predicate RemovedBetween(evs: seq<Event>, lo: nat, hi: nat, id: nat) {
    exists m :: lo <= m < hi <= |evs| && Removes(evs[m], id)
  }

  lemma RemovedPrefix(evs: seq<Event>, more: seq<Event>, lo: nat, hi: nat, id: nat)
    requires hi <= |evs|
    ensures RemovedBetween(evs, lo, hi, id) <==> RemovedBetween(evs + more, lo, hi, id)
  {
    if RemovedBetween(evs, lo, hi, id) {
      var m :| lo <= m < hi && Removes(evs[m], id);
      assert Removes((evs + more)[m], id);
    }
  }

  lemma FailedStays(c: Conn, e: Event, hpack: Hpack)
    ensures c.failed ==> Apply(c, e, hpack).failed
    ensures Apply(c, e, hpack).failed ==> Apply(c, e, hpack).ready == c.ready
  {
    if e.Arrives? && !c.failed {
      HandleFailed(c, e.frame, hpack);
    }
  }

  lemma HandleFailed(c: Conn, f: Frame, hpack: Hpack)
    requires !c.failed
    ensures Handle(c, f, hpack).failed ==> Handle(c, f, hpack).ready == c.ready
  {
  }

  /** A surfaced stream stays marked until it is removed, and a request surfaces only from an unmarked one. */
  lemma MarkKept(c: Conn, e: Event, id: nat, hpack: Hpack)
    requires !c.failed && !Apply(c, e, hpack).failed
    requires id in c.streams && c.streams[id].dispatched
    ensures var d := Apply(c, e, hpack);
            && (!Removes(e, id) ==> id in d.streams && d.streams[id].dispatched)
            && (d.ready != c.ready ==> |d.ready| == |c.ready| + 1 && d.ready[|c.ready|].streamId != id)
  {
    if e.Arrives? && (e.frame.ty == T_HEADERS || e.frame.ty == T_CONTINUATION || (e.frame.ty == T_DATA && e.frame.id in c.streams)) {
      var mid := HandleSurfaces(c, e.frame, hpack);
    }
  }

  lemma NewMark(c: Conn, e: Event, hpack: Hpack)
    requires !c.failed && !Apply(c, e, hpack).failed && Apply(c, e, hpack).ready != c.ready
    ensures var d := Apply(c, e, hpack);
            |d.ready| == |c.ready| + 1 && d.ready[|c.ready|].streamId in d.streams && d.streams[d.ready[|c.ready|].streamId].dispatched
  {
    if e.Arrives? && (e.frame.ty == T_HEADERS || e.frame.ty == T_CONTINUATION || (e.frame.ty == T_DATA && e.frame.id in c.streams)) {
      var mid := HandleSurfaces(c, e.frame, hpack);
    }
  }

  /** The requests so far, their moments, and what they say of the run. */
  ghost predicate Faithful(c: Conn, evs: seq<Event>, ms: seq<nat>) {
    && |ms| == |c.ready|
    && (forall i :: 0 <= i < |ms| ==> ms[i] <= |evs| && Data(evs[..ms[i]], c.ready[i].streamId) == Some(c.ready[i].body))
    && (forall i, j :: 0 <= i < j < |ms| ==> ms[i] < ms[j])
    && (forall i, j :: 0 <= i < j < |ms| && c.ready[i].streamId == c.ready[j].streamId ==>
          RemovedBetween(evs, ms[i], ms[j], c.ready[i].streamId))
  }

  /** Every surfaced request either had its stream removed since or left it marked. */
  ghost predicate Marked(c: Conn, evs: seq<Event>, ms: seq<nat>)
    requires |ms| == |c.ready|
  {
    forall i :: 0 <= i < |ms| ==>
      var id := c.ready[i].streamId;
      RemovedBetween(evs, ms[i], |evs|, id) || (id in c.streams && c.streams[id].dispatched)
  }

  lemma FaithfulPrefix(c: Conn, d: Conn, evs: seq<Event>, e: Event, ms: seq<nat>)
    requires Faithful(c, evs, ms) && d.ready == c.ready
    ensures Faithful(d, evs + [e], ms)
  {
    forall i | 0 <= i < |ms| ensures (evs + [e])[..ms[i]] == evs[..ms[i]] {
    }
    forall i, j | 0 <= i < j < |ms| && c.ready[i].streamId == c.ready[j].streamId
      ensures RemovedBetween(evs + [e], ms[i], ms[j], c.ready[i].streamId) {
      RemovedPrefix(evs, [e], ms[i], ms[j], c.ready[i].streamId);
    }
  }

  lemma FaithfulMore(c: Conn, e: Event, evs: seq<Event>, ms: seq<nat>, hpack: Hpack)
    requires !c.failed && !Apply(c, e, hpack).failed && BodiesFollow(c, evs)
    requires Faithful(c, evs, ms) && Marked(c, evs, ms) && Apply(c, e, hpack).ready != c.ready
    requires forall i :: 0 <= i < |ms| ==> ms[i] <= |evs|
    ensures Faithful(Apply(c, e, hpack), evs + [e], ms + [|evs| + 1])
  {
    var d, all := Apply(c, e, hpack), evs + [e];
    ApplyFollows(c, evs, e, hpack);
    NewMark(c, e, hpack);
    assert all[..|all|] == all;
    forall i | 0 <= i < |ms| ensures all[..ms[i]] == evs[..ms[i]] {
    }
    var ms' := ms + [|evs| + 1];
    forall i, j | 0 <= i < j < |ms'| && d.ready[i].streamId == d.ready[j].streamId
      ensures RemovedBetween(all, ms'[i], ms'[j], d.ready[i].streamId) {
      var id := d.ready[i].streamId;
      assert d.ready[i] == c.ready[i];
      if j < |ms| {
        assert d.ready[j] == c.ready[j];
        RemovedPrefix(evs, [e], ms[i], ms[j], id);
      } else {
        if id in c.streams && c.streams[id].dispatched {
          MarkKept(c, e, id, hpack);
        }
        RemovedPrefix(evs, [e], ms[i], |evs|, id);
        assert RemovedBetween(all, ms[i], |evs|, id);
      }
    }
  }

  lemma MarksFollow(c: Conn, e: Event, evs: seq<Event>, ms: seq<nat>, hpack: Hpack)
    requires !c.failed && !Apply(c, e, hpack).failed && |ms| == |c.ready| && Marked(c, evs, ms)
    requires forall i :: 0 <= i < |ms| ==> ms[i] <= |evs|
    ensures var d := Apply(c, e, hpack);
            && (d.ready == c.ready ==> Marked(d, evs + [e], ms))
            && (d.ready != c.ready && |d.ready| == |c.ready| + 1 && d.ready[..|c.ready|] == c.ready ==>
                  Marked(d, evs + [e], ms + [|evs| + 1]))
  {
    var d, all := Apply(c, e, hpack), evs + [e];
    if d.ready != c.ready {
      NewMark(c, e, hpack);
    }
    forall i | 0 <= i < |ms| ensures var id := c.ready[i].streamId;
        RemovedBetween(all, ms[i], |all|, id) || (id in d.streams && d.streams[id].dispatched) {
      var id := c.ready[i].streamId;
      if RemovedBetween(evs, ms[i], |evs|, id) {
        var m :| ms[i] <= m < |evs| && Removes(evs[m], id);
        assert Removes(all[m], id);
      } else {
        MarkKept(c, e, id, hpack);
        assert Removes(e, id) ==> Removes(all[|evs|], id);
      }
    }
  }

  lemma {:induction false} RunFaithful(evs: seq<Event>, hpack: Hpack)
    ensures var c, ms := Run(evs, hpack), Moments(evs, hpack);
            Faithful(c, evs, ms) && (!c.failed ==> BodiesFollow(c, evs) && Marked(c, evs, ms))
    decreases |evs|
  {
    if evs != [] {
      var init, e := evs[..|evs| - 1], evs[|evs| - 1];
      assert evs == init + [e];
      RunFaithful(init, hpack);
      StepFaithful(Run(init, hpack), init, e, Moments(init, hpack), hpack);
    }
  }

  lemma StepFaithful(c: Conn, evs: seq<Event>, e: Event, ms: seq<nat>, hpack: Hpack)
    requires Faithful(c, evs, ms) && (!c.failed ==> BodiesFollow(c, evs) && Marked(c, evs, ms))
    ensures var d := Apply(c, e, hpack);
            var ms' := ms + if |d.ready| > |c.ready| then [|evs + [e]|] else [];
            Faithful(d, evs + [e], ms') && (!d.failed ==> BodiesFollow(d, evs + [e]) && Marked(d, evs + [e], ms'))
  {
    var d := Apply(c, e, hpack);
    FailedStays(c, e, hpack);
    assert ms + [] == ms;
    if !d.failed {
      ApplyFollows(c, evs, e, hpack);
      MarksFollow(c, e, evs, ms, hpack);
    }
    if d.ready == c.ready {
      FaithfulPrefix(c, d, evs, e, ms);
    } else {
      FaithfulMore(c, e, evs, ms, hpack);
    }
  }

  /** Under any interleaving of streams, resets and responses: the k-th request surfaced at a moment of its own, with
      exactly the unpadded data its stream had received since it was opened, and a stream that surfaces twice was
      closed and opened again in between. */
  lemma RequestsCarryTheirData(evs: seq<Event>, hpack: Hpack)
    ensures Faithful(Run(evs, hpack), evs, Moments(evs, hpack))
  {
    RunFaithful(evs, hpack);
  }
}
