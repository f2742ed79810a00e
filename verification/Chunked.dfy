/** Chunked transfer coding (section 7.1 of RFC 9112): the incremental reader and the chunk writer. */
module Chunked {
  import opened Bytes

  const MAX_HEADER_BYTES: nat := 64 * 1024
  const MAX_BODY_CAPTURE: nat := 512 * 1024
  const LAST_CHUNK: bytes := [48, 13, 10, 13, 10]

  datatype Step = NeedMore | Done | Error

  datatype ChunkState =
    | Size(line: bytes)
    | Data(remaining: nat)
    | DataCrlf
    | Trailer(line: bytes)

  function TrimCrlf(line: bytes): bytes {
    if line != [] && (line[|line| - 1] == LF || line[|line| - 1] == CR) then TrimCrlf(line[..|line| - 1]) else line
  }

  /** The number before any `;` extension of a chunk-size line. */
  function LeadingNumber(line: bytes): Option<nat> {
    ParseUnsigned(Trim(Split(line, 59)[0]), 16, USIZE_MAX)
  }

  /** The number a chunk-size line announces, its line ending stripped. */
  function ChunkSize(line: bytes): Option<nat> {
    if line != [] && (line[|line| - 1] == LF || line[|line| - 1] == CR) then ChunkSize(line[..|line| - 1])
    else LeadingNumber(line)
  }

  // --- the coding, one byte at a time ----------------------------------------

  /** Where a byte-at-a-time decoder stands. */
  datatype Decoder =
    | InSize(line: bytes)
    | InData(remaining: nat)
    | AtCrlf
    | AtLf
    | InTrailer(line: bytes)
    | Finished
    | Bad(line: bytes)

  predicate Halted(c: Decoder) { c.Finished? || c.Bad? }

  /** A halted decoder stays where it is. */
  function Advance(c: Decoder, b: byte): Decoder {
    match c
    case InSize(line) =>
      if b != LF then InSize(line + [b])
      else (match ChunkSize(line + [b])
            case None => Bad(line + [b])
            case Some(n) => if n == 0 then InTrailer([]) else InData(n))
    case InData(n) => if n <= 1 then AtCrlf else InData(n - 1)
    case AtCrlf => if b == CR then AtLf else InSize([])
    case AtLf => InSize([])
    case InTrailer(line) =>
      if b != LF then InTrailer(line + [b])
      else if TrimCrlf(line + [b]) == [] then Finished else InTrailer([])
    case _ => c
  }

  /** Where the bytes `x` lead. */
  function Feed(c: Decoder, x: bytes): Decoder
    decreases |x|
  {
    if x == [] then c else Feed(Advance(c, x[0]), x[1..])
  }

  /** The body bytes among `x`. */
  function Body(c: Decoder, x: bytes): bytes
    decreases |x|
  {
    if x == [] then [] else (if c.InData? then [x[0]] else []) + Body(Advance(c, x[0]), x[1..])
  }

  /** How many of the bytes `x` are taken before the decoder halts. */
  function Used(c: Decoder, x: bytes): (n: nat)
    ensures n <= |x|
    decreases |x|
  {
    if x == [] || Halted(c) then 0 else 1 + Used(Advance(c, x[0]), x[1..])
  }

  lemma {:induction false} FeedHalted(c: Decoder, x: bytes)
    requires Halted(c)
    ensures Feed(c, x) == c && Body(c, x) == [] && Used(c, x) == 0
  {
    if x != [] {
      FeedHalted(c, x[1..]);
    }
  }

  /** Decoding does not depend on how the bytes were cut. */
  lemma {:induction false} FeedSplit(c: Decoder, x: bytes, y: bytes)
    ensures Feed(c, x + y) == Feed(Feed(c, x), y)
    ensures Body(c, x + y) == Body(c, x) + Body(Feed(c, x), y)
    decreases |x|
  {
    if x == [] {
      assert x + y == y;
    } else {
      assert (x + y)[1..] == x[1..] + y;
      FeedSplit(Advance(c, x[0]), x[1..], y);
    }
  }

  lemma {:induction false} UsedSplit(c: Decoder, x: bytes, y: bytes)
    ensures Used(c, x + y) == if Halted(Feed(c, x)) then Used(c, x) else |x| + Used(Feed(c, x), y)
    ensures !Halted(Feed(c, x)) ==> Used(c, x) == |x|
    decreases |x|
  {
    if Halted(c) {
      FeedHalted(c, x);
    } else if x == [] {
      assert x + y == y;
    } else {
      assert (x + y)[1..] == x[1..] + y;
      UsedSplit(Advance(c, x[0]), x[1..], y);
    }
  }

  lemma {:induction false} FeedData(n: nat, x: bytes)
    requires 0 < n
    ensures |x| < n ==> Feed(InData(n), x) == InData(n - |x|)
    ensures |x| == n ==> Feed(InData(n), x) == AtCrlf
    ensures |x| <= n ==> Body(InData(n), x) == x
  {
    if |x| > 0 {
      if n == 1 {
        assert |x| == 1 ==> x[1..] == [];
      } else {
        FeedData(n - 1, x[1..]);
      }
    }
  }

  lemma {:induction false} FeedOpenLine(c: Decoder, x: bytes)
    requires c.InSize? || c.InTrailer?
    requires forall i :: 0 <= i < |x| ==> x[i] != LF
    ensures Feed(c, x) == c.(line := c.line + x)
    ensures Body(c, x) == []
    decreases |x|
  {
    if x != [] {
      var c' := c.(line := c.line + [x[0]]);
      assert Advance(c, x[0]) == c';
      FeedOpenLine(c', x[1..]);
      assert c'.line + x[1..] == c.line + x;
    } else {
      assert c.line + x == c.line;
    }
  }

  /** A whole line, its line feed included. */
  lemma FeedLine(c: Decoder, x: bytes, p: nat)
    requires c.InSize? || c.InTrailer?
    requires p < |x| && x[p] == LF && forall i :: 0 <= i < p ==> x[i] != LF
    ensures Feed(c, x[..p + 1]) == Advance(c.(line := c.line + x[..p]), LF)
    ensures Body(c, x[..p + 1]) == []
  {
    var open := c.(line := c.line + x[..p]);
    assert x[..p + 1] == x[..p] + [LF];
    FeedOpenLine(c, x[..p]);
    FeedSplit(c, x[..p], [LF]);
    FeedOne(open, LF);
  }

  lemma FeedOne(c: Decoder, b: byte)
    requires c.InSize? || c.InTrailer?
    ensures Feed(c, [b]) == Advance(c, b) && Body(c, [b]) == []
  {
    assert [b][1..] == [];
    assert Feed(c, [b]) == Feed(Advance(c, b), []);
    assert Body(c, [b]) == Body(Advance(c, b), []);
  }

  lemma FeedCrlf(x: bytes)
    requires x != [] && (x[0] == CR ==> |x| >= 2)
    ensures var n := if x[0] == CR then 2 else 1; Feed(AtCrlf, x[..n]) == InSize([]) && Body(AtCrlf, x[..n]) == []
  {
    if x[0] == CR {
      var y := x[..2];
      assert Feed(AtCrlf, y) == Feed(AtLf, y[1..]) == Feed(InSize([]), y[1..][1..]);
      assert Body(AtCrlf, y) == Body(AtLf, y[1..]) == Body(InSize([]), y[1..][1..]);
      assert y[1..][1..] == [];
    } else {
      assert x[..1][1..] == [];
    }
  }

  // --- the reader ------------------------------------------------------------

  function Start(s: ChunkState): Decoder {
    match s
    case Size(line) => InSize(line)
    case Data(n) => if n == 0 then AtCrlf else InData(n)
    case DataCrlf => AtCrlf
    case Trailer(line) => InTrailer(line)
  }

  /** What one `consume` does to the buffer it is given. */
  datatype Decoded = Decoded(step: Step, state: ChunkState, rest: bytes, data: bytes)

  /** How much of an unfinished line sits in this one buffer. */
  function OpenLine(c: Decoder, buf: bytes): nat {
    if c.InSize? || c.InTrailer? then Min(|c.line|, |buf|) else 0
  }

  function Closed(c: Decoder, buf: bytes, open: nat): Decoded
    requires c.InSize? || c.InTrailer? ==> open <= |c.line|
    requires open <= |buf|
  {
    match c
    case InSize(line) => Decoded(Error, Size(line[..|line| - open]), buf[|buf| - open..], [])
    case InTrailer(line) => Decoded(Error, Trailer(line[..|line| - open]), buf[|buf| - open..], [])
    case _ => Decoded(Error, DataCrlf, [], [])
  }

  /** `consume` told by the byte-at-a-time decoder: it takes the same bytes, except that a lone CR stays behind
      and that an unfinished line with more than the cap of it in one buffer is an error. */
  function Decode(s: ChunkState, buf: bytes): Decoded {
    Outcome(Feed(Start(s), buf), Used(Start(s), buf), Body(Start(s), buf), buf)
  }

  function Outcome(c: Decoder, used: nat, data: bytes, buf: bytes): Decoded
    requires used <= |buf|
  {
    var open := OpenLine(c, buf);
    if open > MAX_HEADER_BYTES then Closed(c, buf, open).(data := data)
    else
      match c
      case Finished => Decoded(Done, Trailer([]), buf[used..], data)
      case Bad(line) => Decoded(Error, Size(line), buf[used..], data)
      case InSize(line) => Decoded(NeedMore, Size(line), [], data)
      case InTrailer(line) => Decoded(NeedMore, Trailer(line), [], data)
      case InData(n) => Decoded(NeedMore, Data(n), [], data)
      case AtCrlf => Decoded(NeedMore, DataCrlf, [], data)
      case AtLf => Decoded(NeedMore, DataCrlf, if buf == [] then [] else [buf[|buf| - 1]], data)
  }

  // --- the capture cap -------------------------------------------------------

  /** Body bytes kept so far, how many were on the wire, and whether some were dropped. */
  datatype Capture = Capture(bytes: bytes, wireLen: nat, truncated: bool)

  const EmptyCapture := Capture([], 0, false)

  function PushCapped(c: Capture, data: bytes): Capture {
    var room := Max(MAX_BODY_CAPTURE - |c.bytes|, 0);
    Capture(c.bytes + data[..Min(room, |data|)], c.wireLen + |data|, c.truncated || room < |data|)
  }

  /** Pushing in pieces is pushing at once. */
  lemma PushCappedTwice(c: Capture, x: bytes, y: bytes)
    ensures PushCapped(PushCapped(c, x), y) == PushCapped(c, x + y)
  {
    var room := Max(MAX_BODY_CAPTURE - |c.bytes|, 0);
    if room < |x| {
      assert (x + y)[..room] == x[..room];
    } else {
      assert (x + y)[..Min(room, |x + y|)] == x + y[..Min(room - |x|, |y|)];
    }
  }

  lemma PushMore(c: Capture, x: bytes, kept: Capture, y: bytes)
    requires kept == PushCapped(c, x)
    ensures PushCapped(kept, y) == PushCapped(c, x + y)
  {
    PushCappedTwice(c, x, y);
  }

  lemma PushCappedNothing(c: Capture)
    ensures PushCapped(c, []) == c
  {
    assert c.bytes + [] == c.bytes;
  }

  // --- consume, turn by turn -------------------------------------------------

  /** One turn of the loop in `consume`: bytes are taken, or the call returns. */
  datatype Turn =
    | Take(used: nat, state: ChunkState, data: bytes)
    | Return(step: Step, state: ChunkState, rest: bytes)

  function TakeTurn(s: ChunkState, buf: bytes): (t: Turn)
    ensures t.Take? ==> t.used <= |buf|
  {
    match s
    case Size(line) =>
      (match IndexOf(buf, LF)
       case None => if |buf| > MAX_HEADER_BYTES then Return(Error, s, buf) else Return(NeedMore, Size(line + buf), [])
       case Some(p) =>
         match ChunkSize(line + buf[..p + 1])
         case None => Return(Error, Size(line + buf[..p + 1]), buf[p + 1..])
         case Some(n) => Take(p + 1, if n == 0 then Trailer([]) else Data(n), []))
    case Data(n) =>
      if n == 0 then Take(0, DataCrlf, [])
      else if buf == [] then Return(NeedMore, s, [])
      else var k := Min(n, |buf|); Take(k, Data(n - k), buf[..k])
    case DataCrlf =>
      if buf == [] || (buf[0] == CR && |buf| < 2) then Return(NeedMore, s, buf)
      else Take(if buf[0] == CR then 2 else 1, Size([]), [])
    case Trailer(line) =>
      (match IndexOf(buf, LF)
       case None => if |buf| > MAX_HEADER_BYTES then Return(Error, s, buf) else Return(NeedMore, Trailer(line + buf), [])
       case Some(p) =>
         if TrimCrlf(line + buf[..p + 1]) == [] then Return(Done, Trailer([]), buf[p + 1..])
         else Take(p + 1, Trailer([]), []))
  }

  lemma TurnProgress(s: ChunkState, buf: bytes)
    requires TakeTurn(s, buf).Take?
    ensures TakeTurn(s, buf).used > 0 || (s.Data? && TakeTurn(s, buf).state.DataCrlf?)
  {
  }

  /** A whole line, its line feed included, read by a reader at the start or in the middle of it. */
  lemma WholeLine(s: ChunkState, buf: bytes, p: nat)
    requires s.Size? || s.Trailer?
    requires p < |buf| && buf[p] == LF && forall i :: 0 <= i < p ==> buf[i] != LF
    ensures Body(Start(s), buf[..p + 1]) == []
    ensures var line := s.line + buf[..p + 1];
            Feed(Start(s), buf[..p + 1]) ==
            if s.Trailer? then (if TrimCrlf(line) == [] then Finished else InTrailer([]))
            else match ChunkSize(line)
                 case None => Bad(line)
                 case Some(n) => if n == 0 then InTrailer([]) else InData(n)
  {
    FeedLine(Start(s), buf, p);
    assert s.line + buf[..p] + [LF] == s.line + buf[..p + 1];
  }

  lemma TakeTurnFeeds(s: ChunkState, buf: bytes)
    requires TakeTurn(s, buf).Take?
    ensures var t := TakeTurn(s, buf);
            Feed(Start(s), buf[..t.used]) == Start(t.state) && Body(Start(s), buf[..t.used]) == t.data
  {
    match s
    case Size(_) => WholeLine(s, buf, IndexOf(buf, LF).value);
    case Data(n) =>
      if n > 0 {
        FeedData(n, buf[..Min(n, |buf|)]);
      }
    case DataCrlf => FeedCrlf(buf);
    case Trailer(_) => WholeLine(s, buf, IndexOf(buf, LF).value);
  }

  /** Midway through `consume`: `taken` is what has left the buffer since the reader was in state `s0`. */
  ghost predicate Midway(s0: ChunkState, taken: bytes, data: bytes, s: ChunkState) {
    && Feed(Start(s0), taken) == Start(s)
    && Body(Start(s0), taken) == data
    && ((s.Size? || s.Trailer?) && s.line != [] ==> taken == [])
  }

  lemma TurnTaken(s0: ChunkState, taken: bytes, data: bytes, s: ChunkState, buf: bytes)
    requires Midway(s0, taken, data, s)
    requires TakeTurn(s, buf).Take?
    ensures var t := TakeTurn(s, buf); Midway(s0, taken + buf[..t.used], data + t.data, t.state)
  {
    var t := TakeTurn(s, buf);
    TakeTurnFeeds(s, buf);
    PieceTaken(s0, taken, data, s, buf[..t.used], t.state, t.data);
  }

  lemma PieceTaken(s0: ChunkState, taken: bytes, data: bytes, s: ChunkState, piece: bytes, s': ChunkState, d: bytes)
    requires Midway(s0, taken, data, s)
    requires Feed(Start(s), piece) == Start(s') && Body(Start(s), piece) == d
    requires (s'.Size? || s'.Trailer?) ==> s'.line == []
    ensures Midway(s0, taken + piece, data + d, s')
  {
    FeedSplit(Start(s0), taken, piece);
  }

  lemma LineReturns(s0: ChunkState, taken: bytes, data: bytes, s: ChunkState, buf: bytes)
    requires Midway(s0, taken, data, s)
    requires TakeTurn(s, buf).Return?
    requires (s.Size? || s.Trailer?) && IndexOf(buf, LF).None?
    ensures var t := TakeTurn(s, buf); Decode(s0, taken + buf) == Decoded(t.step, t.state, t.rest, data)
  {
    var all := taken + buf;
    FeedOpenLine(Start(s), buf);
    FeedSplit(Start(s0), taken, buf);
    assert data + [] == data;
    var whole := s.line + buf;
    assert OpenLine(Feed(Start(s0), all), all) == |buf| by {
      if s.line == [] {
        assert whole == buf;
      } else {
        assert taken == [];
      }
    }
    assert whole[..|whole| - |buf|] == s.line;
    assert all[|all| - |buf|..] == buf;
  }

  lemma DecodeHalts(s0: ChunkState, pre: bytes, rest: bytes)
    requires Halted(Feed(Start(s0), pre)) && Used(Start(s0), pre) == |pre|
    ensures var c := Feed(Start(s0), pre);
            Decode(s0, pre + rest) == if c.Bad? then Decoded(Error, Size(c.line), rest, Body(Start(s0), pre))
                                      else Decoded(Done, Trailer([]), rest, Body(Start(s0), pre))
  {
    FeedSplit(Start(s0), pre, rest);
    FeedHalted(Feed(Start(s0), pre), rest);
    UsedSplit(Start(s0), pre, rest);
    assert Body(Start(s0), pre) + [] == Body(Start(s0), pre);
    assert (pre + rest)[|pre|..] == rest;
  }

  /** Midway, a line that ends the coding was taken too. */
  lemma LineTaken(s0: ChunkState, taken: bytes, data: bytes, s: ChunkState, line: bytes)
    requires Midway(s0, taken, data, s)
    requires Halted(Feed(Start(s), line)) && Body(Start(s), line) == [] && Used(Start(s), line) == |line|
    ensures Feed(Start(s0), taken + line) == Feed(Start(s), line)
    ensures Body(Start(s0), taken + line) == data
    ensures Used(Start(s0), taken + line) == |taken + line|
  {
    FeedSplit(Start(s0), taken, line);
    UsedSplit(Start(s0), taken, line);
    assert data + [] == data;
    assert !Halted(Start(s));
  }

  lemma LineEndReturns(s0: ChunkState, taken: bytes, data: bytes, s: ChunkState, buf: bytes, p: nat)
    requires Midway(s0, taken, data, s)
    requires s.Size? || s.Trailer?
    requires IndexOf(buf, LF) == Some(p)
    requires var line := s.line + buf[..p + 1]; if s.Size? then ChunkSize(line).None? else TrimCrlf(line) == []
    ensures Decode(s0, taken + buf) == if s.Size? then Decoded(Error, Size(s.line + buf[..p + 1]), buf[p + 1..], data)
                                       else Decoded(Done, Trailer([]), buf[p + 1..], data)
  {
    WholeLine(s, buf, p);
    UsedHalts(Start(s), buf, p);
    LineTaken(s0, taken, data, s, buf[..p + 1]);
    DecodeHalts(s0, taken + buf[..p + 1], buf[p + 1..]);
    MoveFront(taken, buf, p + 1);
  }

  /** The decoder halts at the end of the line and not before. */
  lemma UsedHalts(c: Decoder, x: bytes, p: nat)
    requires c.InSize? || c.InTrailer?
    requires p < |x| && x[p] == LF && forall i :: 0 <= i < p ==> x[i] != LF
    ensures Used(c, x[..p + 1]) == p + 1
  {
    FeedOpenLine(c, x[..p]);
    assert x[..p + 1] == x[..p] + [LF];
    UsedSplit(c, x[..p], [LF]);
  }

  lemma BlockedReturns(s0: ChunkState, taken: bytes, data: bytes, s: ChunkState, buf: bytes)
    requires Midway(s0, taken, data, s)
    requires (s.Data? && s.remaining > 0 && buf == []) || (s.DataCrlf? && (buf == [] || buf == [CR]))
    ensures Decode(s0, taken + buf) == Decoded(NeedMore, s, buf, data)
  {
    FeedSplit(Start(s0), taken, buf);
    assert data + [] == data;
    if buf != [] {
      assert (taken + buf)[|taken + buf| - 1] == CR;
    }
  }

  lemma TurnReturns(s0: ChunkState, taken: bytes, data: bytes, s: ChunkState, buf: bytes)
    requires Midway(s0, taken, data, s)
    requires TakeTurn(s, buf).Return?
    ensures var t := TakeTurn(s, buf); Decode(s0, taken + buf) == Decoded(t.step, t.state, t.rest, data)
  {
    if s.Size? || s.Trailer? {
      var pos := IndexOf(buf, LF);
      if pos.None? {
        LineReturns(s0, taken, data, s, buf);
      } else {
        LineEndReturns(s0, taken, data, s, buf, pos.value);
      }
    } else {
      BlockedReturns(s0, taken, data, s, buf);
    }
  }

  // --- any segmentation ------------------------------------------------------

  /** A reader with the buffer it works on and the body bytes it has delivered so far. */
  datatype Reading = Reading(step: Step, state: ChunkState, buf: bytes, data: bytes)

  const Fresh := Reading(NeedMore, Size([]), [], [])

  /** More bytes arrive; a reader that has returned for good leaves them alone. */
  function Receive(r: Reading, seg: bytes): Reading {
    if !r.step.NeedMore? then r.(buf := r.buf + seg)
    else
      var d := Decode(r.state, r.buf + seg);
      Reading(d.step, d.state, d.rest, r.data + d.data)
  }

  function ReceiveAll(segs: seq<bytes>): Reading {
    if segs == [] then Fresh else Receive(ReceiveAll(segs[..|segs| - 1]), segs[|segs| - 1])
  }

  /** After the bytes `all`, `r` is where the byte-at-a-time decoder is. */
  ghost predicate Follows(r: Reading, all: bytes) {
    var c := Feed(InSize([]), all);
    && r.data == Body(InSize([]), all)
    && match r.step
       case Done => c.Finished? && r.buf == all[Used(InSize([]), all)..]
       case Error => c.Bad? && r.buf == all[Used(InSize([]), all)..]
       case NeedMore => !Halted(c) && c == (if r.buf == [] then Start(r.state) else AtLf)
                        && (r.buf == [] || (r.buf == [CR] && r.state.DataCrlf?))
  }

  lemma FeedRest(r: Reading, all: bytes, seg: bytes)
    requires Follows(r, all) && r.step.NeedMore?
    ensures var c := Feed(InSize([]), all);
            Feed(Start(r.state), r.buf + seg) == Feed(c, seg) && Body(Start(r.state), r.buf + seg) == Body(c, seg)
            && Used(Start(r.state), r.buf + seg) == |r.buf| + Used(c, seg)
  {
    if r.buf == [] {
      assert r.buf + seg == seg;
    } else {
      FeedSplit(AtCrlf, [CR], seg);
      UsedSplit(AtCrlf, [CR], seg);
      assert Feed(AtCrlf, [CR]) == Feed(AtLf, [CR][1..]) == AtLf;
      assert Body(AtCrlf, [CR]) == Body(AtLf, [CR][1..]) == [];
      assert [] + Body(AtLf, seg) == Body(AtLf, seg);
    }
  }

  lemma ReturnedFollows(r: Reading, all: bytes, seg: bytes)
    requires Follows(r, all) && !r.step.NeedMore?
    ensures Follows(Receive(r, seg), all + seg)
  {
    var c, u := Feed(InSize([]), all), Used(InSize([]), all);
    FeedSplit(InSize([]), all, seg);
    UsedSplit(InSize([]), all, seg);
    FeedHalted(c, seg);
    assert r.data + [] == r.data;
    assert (all + seg)[u..] == all[u..] + seg;
  }

  lemma {:induction false} DataRemains(c: Decoder, x: bytes)
    requires c.InData? ==> c.remaining > 0
    ensures Feed(c, x).InData? ==> Feed(c, x).remaining > 0
    decreases |x|
  {
    if x != [] {
      DataRemains(Advance(c, x[0]), x[1..]);
    }
  }

  /** One more segment keeps the reader in step, unless the line cap fires. */
  lemma ReceiveFollows(r: Reading, all: bytes, seg: bytes)
    requires Follows(r, all)
    requires r.step.NeedMore? ==> OpenLine(Feed(InSize([]), all + seg), r.buf + seg) <= MAX_HEADER_BYTES
    ensures Follows(Receive(r, seg), all + seg)
  {
    if r.step.NeedMore? {
      NeedyFollows(r, all, seg);
    } else {
      ReturnedFollows(r, all, seg);
    }
  }

  lemma NeedyFollows(r: Reading, all: bytes, seg: bytes)
    requires Follows(r, all) && r.step.NeedMore?
    requires OpenLine(Feed(InSize([]), all + seg), r.buf + seg) <= MAX_HEADER_BYTES
    ensures Follows(Receive(r, seg), all + seg)
  {
    var c, buf := Feed(InSize([]), all), r.buf + seg;
    var c', u, d := Feed(c, seg), Used(c, seg), Body(c, seg);
    FeedSplit(InSize([]), all, seg);
    UsedSplit(InSize([]), all, seg);
    FeedRest(r, all, seg);
    DataRemains(InSize([]), all + seg);
    if c' == AtLf {
      ComesAfterCr(Start(r.state), buf);
    }
    OutcomeFollows(c', |r.buf| + u, d, buf);
    SuffixAfter(r.buf, seg, u);
    SuffixAfter(all, seg, u);
    Concluded(r, Outcome(c', |r.buf| + u, d, buf), all + seg, seg[u..]);
  }

  lemma Concluded(r: Reading, d: Decoded, all: bytes, tail: bytes)
    requires r.data + d.data == Body(InSize([]), all)
    requires tail == all[Used(InSize([]), all)..]
    requires var c := Feed(InSize([]), all);
             match d.step
             case Done => c.Finished? && d.rest == tail
             case Error => c.Bad? && d.rest == tail
             case NeedMore => !Halted(c) && c == (if d.rest == [] then Start(d.state) else AtLf)
                              && (d.rest == [] || (d.rest == [CR] && d.state.DataCrlf?))
    ensures Follows(Reading(d.step, d.state, d.rest, r.data + d.data), all)
  {
  }

  lemma OutcomeFollows(c: Decoder, used: nat, data: bytes, buf: bytes)
    requires used <= |buf| && OpenLine(c, buf) <= MAX_HEADER_BYTES
    requires c == AtLf ==> buf != [] && buf[|buf| - 1] == CR
    requires c.InData? ==> c.remaining > 0
    ensures var d := Outcome(c, used, data, buf);
            && d.data == data
            && match d.step
               case Done => c.Finished? && d.rest == buf[used..]
               case Error => c.Bad? && d.rest == buf[used..]
               case NeedMore => !Halted(c) && c == (if d.rest == [] then Start(d.state) else AtLf)
                                && (d.rest == [] || (d.rest == [CR] && d.state.DataCrlf?))
  {
  }

  /** The decoder waits for a line feed only just after a CR. */
  lemma ComesAfterCr(c: Decoder, x: bytes)
    requires Feed(c, x) == AtLf && c != AtLf
    ensures x != [] && x[|x| - 1] == CR
  {
    var pre, last := x[..|x| - 1], x[|x| - 1..];
    assert x == pre + last;
    FeedSplit(c, pre, last);
    assert Feed(Feed(c, pre), last) == Feed(Advance(Feed(c, pre), last[0]), last[1..]);
  }

  /** However a stream is cut into segments of less than the line cap, the reader ends where the
      byte-at-a-time decoder ends on the whole stream: the same verdict, the same body, and, once the
      body is complete, exactly the bytes after it left over. */
  lemma {:induction false} SegmentationIndependent(segs: seq<bytes>)
    requires forall i :: 0 <= i < |segs| ==> |segs[i]| < MAX_HEADER_BYTES
    ensures Follows(ReceiveAll(segs), Concat(segs))
  {
    if segs != [] {
      var init, last := segs[..|segs| - 1], segs[|segs| - 1];
      SegmentationIndependent(init);
      ReceiveFollows(ReceiveAll(init), Concat(init), last);
      assert segs == init + [last];
      ConcatAppend(init, [last]);
      assert Concat([last]) == last;
    }
  }

  /** The same for segments of any size, when no line of the stream is longer than the cap. */
  lemma {:induction false} SegmentationIndependentShortLines(segs: seq<bytes>)
    requires forall k :: 0 <= k <= |Concat(segs)| ==>
               var c := Feed(InSize([]), Concat(segs)[..k]); (c.InSize? || c.InTrailer?) ==> |c.line| <= MAX_HEADER_BYTES
    ensures Follows(ReceiveAll(segs), Concat(segs))
  {
    if segs != [] {
      var init, last := segs[..|segs| - 1], segs[|segs| - 1];
      assert segs == init + [last];
      ConcatAppend(init, [last]);
      assert Concat([last]) == last;
      var all := Concat(segs);
      forall k | 0 <= k <= |Concat(init)| ensures Concat(init)[..k] == all[..k] {
      }
      SegmentationIndependentShortLines(init);
      assert all[..|all|] == all;
      ReceiveFollows(ReceiveAll(init), Concat(init), last);
    }
  }

  // --- writing chunks --------------------------------------------------------

  /** `data` as one chunk; nothing for no data, which would end the body. */
  function Rechunk(data: bytes): bytes {
    if data == [] then [] else ToRadix(|data|, 16) + CRLF + data + CRLF
  }

  function RechunkAll(parts: seq<bytes>): bytes {
    if parts == [] then [] else Rechunk(parts[0]) + RechunkAll(parts[1..])
  }

  lemma SizeLineReads(hex: bytes)
    requires |hex| >= 1 && forall i :: 0 <= i < |hex| ==> 48 <= hex[i] <= 57 || 97 <= hex[i] <= 102
    ensures ChunkSize(hex + CRLF) == ParseUnsigned(hex, 16, USIZE_MAX)
  {
    var l1 := hex + CRLF;
    assert l1[..|l1| - 1] == hex + [CR];
    assert (hex + [CR])[..|hex|] == hex;
    assert ChunkSize(l1) == ChunkSize(hex + [CR]) == ChunkSize(hex) == LeadingNumber(hex);
    assert Split(hex, 59) == [hex];
    assert Trim(hex) == hex;
  }

  lemma RechunkHeaderDecodes(n: nat)
    requires 0 < n <= USIZE_MAX
    ensures var line := ToRadix(n, 16) + CRLF; Feed(InSize([]), line) == InData(n) && Body(InSize([]), line) == []
  {
    var hex := ToRadix(n, 16);
    var line := hex + CRLF;
    SizeLineReads(hex);
    NumberRoundTrip(n, 16, USIZE_MAX);
    FeedLine(InSize([]), line, |line| - 1);
    assert line[..|line|] == line;
    assert [] + line[..|line| - 1] + [LF] == line;
  }

  /** A chunk that was written reads back as its data, and leaves the reader ready for the next. */
  lemma RechunkDecodes(data: bytes)
    requires |data| <= USIZE_MAX
    ensures Feed(InSize([]), Rechunk(data)) == InSize([]) && Body(InSize([]), Rechunk(data)) == data
  {
    if data != [] {
      var line := ToRadix(|data|, 16) + CRLF;
      RechunkHeaderDecodes(|data|);
      FeedData(|data|, data);
      FeedCrlf(CRLF);
      assert CRLF[..2] == CRLF;
      FeedSplit(InSize([]), line, data);
      FeedSplit(InSize([]), line + data, CRLF);
      assert [] + data + [] == data;
    }
  }

  lemma EmptyTrailerEnds()
    ensures Feed(InTrailer([]), CRLF) == Finished && Body(InTrailer([]), CRLF) == [] && Used(InTrailer([]), CRLF) == 2
  {
    FeedLine(InTrailer([]), CRLF, 1);
    assert CRLF[..2] == CRLF && [] + CRLF[..1] + [LF] == CRLF;
    assert TrimCrlf(CRLF) == TrimCrlf(CRLF[..1]) == TrimCrlf(CRLF[..1][..0]) == [];
    UsedHalts(InTrailer([]), CRLF, 1);
  }

  lemma ZeroLineDecodes()
    ensures Feed(InSize([]), [48] + CRLF) == InTrailer([]) && Body(InSize([]), [48] + CRLF) == []
  {
    var zero: bytes := [48];
    var line := zero + CRLF;
    assert ToRadix(0, 16) == zero;
    SizeLineReads(zero);
    NumberRoundTrip(0, 16, USIZE_MAX);
    FeedLine(InSize([]), line, 2);
    assert line[..3] == line && [] + line[..2] + [LF] == line;
  }

  lemma LastChunkDecodes()
    ensures Feed(InSize([]), LAST_CHUNK) == Finished && Body(InSize([]), LAST_CHUNK) == []
    ensures Used(InSize([]), LAST_CHUNK) == |LAST_CHUNK|
  {
    ZeroLineDecodes();
    EmptyTrailerEnds();
    assert LAST_CHUNK == [48] + CRLF + CRLF;
    FeedSplit(InSize([]), [48] + CRLF, CRLF);
    UsedSplit(InSize([]), [48] + CRLF, CRLF);
  }

  lemma {:induction false} RechunkAllDecodes(parts: seq<bytes>)
    requires forall i :: 0 <= i < |parts| ==> |parts[i]| <= USIZE_MAX
    ensures Feed(InSize([]), RechunkAll(parts)) == InSize([])
    ensures Body(InSize([]), RechunkAll(parts)) == Concat(parts)
  {
    if parts != [] {
      RechunkDecodes(parts[0]);
      RechunkAllDecodes(parts[1..]);
      FeedSplit(InSize([]), Rechunk(parts[0]), RechunkAll(parts[1..]));
    }
  }

  /** The reader inverts the writer: any chunks followed by the last chunk decode to the joined data, using
      exactly those bytes and none of what follows. */
  lemma ReaderInvertsWriter(parts: seq<bytes>, next: bytes)
    requires forall i :: 0 <= i < |parts| ==> |parts[i]| <= USIZE_MAX
    ensures Decode(Size([]), RechunkAll(parts) + LAST_CHUNK + next) == Decoded(Done, Trailer([]), next, Concat(parts))
  {
    var pre := RechunkAll(parts) + LAST_CHUNK;
    RechunkAllDecodes(parts);
    LastChunkDecodes();
    FeedSplit(InSize([]), RechunkAll(parts), LAST_CHUNK);
    UsedSplit(InSize([]), RechunkAll(parts), LAST_CHUNK);
    assert Concat(parts) + [] == Concat(parts);
    DecodeHalts(Size([]), pre, next);
  }

  /** What is kept is the front of the body up to the cap; its true length is counted. */
  lemma KeptIsCappedPrefix(data: bytes)
    ensures PushCapped(EmptyCapture, data)
            == Capture(data[..Min(MAX_BODY_CAPTURE, |data|)], |data|, |data| > MAX_BODY_CAPTURE)
  {
  }

  class ChunkReader {
    var state: ChunkState

    constructor ()
      ensures state == Size([])
    {
      state := Size([]);
    }

    /** One turn of the loop in `Consume`. */
    method TurnOnce(buf: bytes) returns (stop: Option<Step>, rest: bytes, piece: bytes)
      modifies this
      ensures match TakeTurn(old(state), buf)
              case Take(n, s, d) => stop == None && state == s && rest == buf[n..] && piece == d
              case Return(step, s, r) => stop == Some(step) && state == s && rest == r && piece == []
    {
      stop, rest, piece := None, buf, [];
      match state
      case Size(line) =>
        var pos := IndexOf(buf, LF);
        if pos.None? {
          if |buf| > MAX_HEADER_BYTES {
            return Some(Error), buf, [];
          }
          state := Size(line + buf);
          return Some(NeedMore), [], [];
        }
        rest := buf[pos.value + 1..];
        var size := ChunkSize(line + buf[..pos.value + 1]);
        if size.None? {
          state := Size(line + buf[..pos.value + 1]);
          return Some(Error), rest, [];
        }
        state := if size.value == 0 then Trailer([]) else Data(size.value);
      case Data(remaining) =>
        if remaining == 0 {
          state := DataCrlf;
        } else {
          var n := Min(remaining, |buf|);
          if n == 0 {
            return Some(NeedMore), buf, [];
          }
          piece, rest := buf[..n], buf[n..];
          state := Data(remaining - n);
        }
      case DataCrlf =>
        if buf == [] {
          return Some(NeedMore), buf, [];
        }
        if buf[0] == CR {
          if |buf| < 2 {
            return Some(NeedMore), buf, [];
          }
          rest := buf[2..];
        } else {
          rest := buf[1..];
        }
        state := Size([]);
      case Trailer(line) =>
        var pos := IndexOf(buf, LF);
        if pos.None? {
          if |buf| > MAX_HEADER_BYTES {
            return Some(Error), buf, [];
          }
          state := Trailer(line + buf);
          return Some(NeedMore), [], [];
        }
        var done := TrimCrlf(line + buf[..pos.value + 1]) == [];
        rest := buf[pos.value + 1..];
        state := Trailer([]);
        if done {
          return Some(Done), rest, [];
        }
    }

    /** Decodes as much of `buf` as belongs to the body; `rest` is what it leaves in the buffer. */
    method Consume(buf: bytes, captured: Capture) returns (step: Step, rest: bytes, kept: Capture)
      modifies this
      ensures Decoded(step, state, rest, Decode(old(state), buf).data) == Decode(old(state), buf)
      ensures kept == PushCapped(captured, Decode(old(state), buf).data)
    {
      rest, kept := buf, captured;
      ghost var s0, taken: bytes, data: bytes := state, [], [];
      PushCappedNothing(captured);
      while true
        invariant taken + rest == buf
        invariant Midway(s0, taken, data, state)
        invariant kept == PushCapped(captured, data)
        decreases |rest|, if state.Data? then 1 else 0
      {
        ghost var turn, before, was := TakeTurn(state, rest), rest, state;
        if turn.Return? {
          TurnReturns(s0, taken, data, state, rest);
        } else {
          TurnTaken(s0, taken, data, state, rest);
          TurnProgress(state, rest);
          MoveFront(taken, rest, turn.used);
        }
        var stop, left, piece := TurnOnce(rest);
        if stop.Some? {
          return stop.value, left, kept;
        }
        rest := left;
        PushMore(captured, data, kept, piece);
        kept := PushCapped(kept, piece);
        taken, data := taken + before[..turn.used], data + piece;
      }
    }
  }
}
