/** The filter on a DNS-over-TLS connection (section 3.3 of RFC 7858): length-prefixed messages, each passed on or answered. */
module Dot {
  import opened Bytes
  import opened Dns

  const MAX_PENDING: nat := 128 * 1024
  const U16_MAX: nat := 0xFFFF

  function Be2(n: nat): bytes { [n / 256 % 256, n % 256] }

  /** A message with its length in front, cut to what the length can say. */
  function Framed(msg: bytes): bytes {
    var len := Min(|msg|, U16_MAX);
    Be2(len) + msg[..len]
  }

  /** The name that a frame's query asks for, if it is one to be blocked. */
  function BlockedName(msg: bytes, blocked: bytes -> bool): Option<bytes> {
    match ParseQuery(msg)
    case None => None
    case Some(p) => if blocked(p.q.name) then Some(p.q.name) else None
  }

  /** What has been decided: bytes for the resolver, bytes for the app, the names blocked, and what is still pending. */
  datatype Filtered = Filtered(pending: bytes, toUpstream: bytes, toApp: bytes, names: seq<bytes>)

  function FrameSize(buf: bytes): nat
    requires |buf| >= 2
  {
    2 + buf[0] as nat * 256 + buf[1]
  }

  function Answer(msg: bytes): bytes
    requires ParseQuery(msg).Some?
  {
    Framed(NxDomain(msg, ParseQuery(msg).value.q))
  }

  /** Where one whole frame goes. */
  function Route(framed: bytes, blocked: bytes -> bool): Filtered
    requires |framed| >= 2
  {
    var msg := framed[2..];
    match BlockedName(msg, blocked)
    case None => Filtered([], framed, [], [])
    case Some(name) => Filtered([], [], Answer(msg), [name])
  }

  /** A query that was written is answered if its name is blocked, and passed on as it is if not: the name is its labels in lower
      case with dots between them. */
  lemma WrittenQueryRouted(header: bytes, labels: seq<bytes>, qtype: nat, qclass: nat, rest: bytes, blocked: bytes -> bool)
    returns (name: bytes)
    requires |header| == 12 && header[2] < 8 && (header[4] != 0 || header[5] != 0) && qtype < 0x1_0000 && qclass < 0x1_0000
    requires forall i :: 0 <= i < |labels| ==> IsLabel(labels[i]) && NoDot(labels[i])
    ensures NameHas(name, labels)
    ensures var msg := header + EncodeQuestion(labels, qtype, qclass) + rest;
            && ParseQuery(msg).Some?
            && forall framed: bytes :: |framed| >= 2 && framed[2..] == msg ==>
                 Route(framed, blocked) == if blocked(name) then Filtered([], [], Answer(msg), [name]) else Filtered([], framed, [], [])
  {
    var q := QuestionReads(header, labels, qtype, qclass, rest);
    var msg := header + EncodeQuestion(labels, qtype, qclass) + rest;
    assert msg[2] == header[2] && msg[4] == header[4] && msg[5] == header[5];
    QueryIff(msg);
    name := q.name;
  }

  function Then(a: Filtered, b: Filtered): Filtered {
    Filtered(b.pending, a.toUpstream + b.toUpstream, a.toApp + b.toApp, a.names + b.names)
  }

  /** All the whole frames at the front of `buf`. */
  function Drain(buf: bytes, blocked: bytes -> bool): Filtered
    decreases |buf|
  {
    if |buf| < 2 || |buf| < FrameSize(buf) then Filtered(buf, [], [], [])
    else Then(Route(buf[..FrameSize(buf)], blocked), Drain(buf[FrameSize(buf)..], blocked))
  }

  // --- any cut ---------------------------------------------------------------

  lemma ThenAssoc(a: Filtered, b: Filtered, c: Filtered)
    ensures Then(Then(a, b), c) == Then(a, Then(b, c))
  {
    Assoc(a.toUpstream, b.toUpstream, c.toUpstream);
    Assoc(a.toApp, b.toApp, c.toApp);
    Assoc(a.names, b.names, c.names);
  }

  lemma ThenNothing(buf: bytes, f: Filtered)
    ensures Then(Filtered(buf, [], [], []), f) == f
  {
    assert [] + f.toUpstream == f.toUpstream && [] + f.toApp == f.toApp && [] + f.names == f.names;
  }

  /** Filtering in two goes is filtering at once. */
  lemma {:induction false} DrainSplit(x: bytes, y: bytes, blocked: bytes -> bool)
    ensures Drain(x + y, blocked) == Then(Drain(x, blocked), Drain(Drain(x, blocked).pending + y, blocked))
    decreases |x|
  {
    if |x| < 2 || |x| < FrameSize(x) {
      ThenNothing(x, Drain(x + y, blocked));
    } else {
      var n := FrameSize(x);
      assert (x + y)[..n] == x[..n] && (x + y)[n..] == x[n..] + y;
      DrainSplit(x[n..], y, blocked);
      ThenAssoc(Route(x[..n], blocked), Drain(x[n..], blocked), Drain(Drain(x[n..], blocked).pending + y, blocked));
    }
  }

  function DrainAll(segs: seq<bytes>, blocked: bytes -> bool): Filtered {
    if segs == [] then Filtered([], [], [], [])
    else
      var before := DrainAll(segs[..|segs| - 1], blocked);
      Then(before, Drain(before.pending + segs[|segs| - 1], blocked))
  }

  /** However the stream is cut, the same bytes go the same ways. */
  lemma {:induction false} SegmentationIndependent(segs: seq<bytes>, blocked: bytes -> bool)
    ensures DrainAll(segs, blocked) == Drain(Concat(segs), blocked)
  {
    if segs != [] {
      var init, last := segs[..|segs| - 1], segs[|segs| - 1];
      assert segs == init + [last];
      ConcatAppend(init, [last]);
      assert Concat([last]) == last;
      SegmentationIndependent(init, blocked);
      DrainSplit(Concat(init), last, blocked);
    }
  }

  // --- frame by frame --------------------------------------------------------

  /** The messages as they are framed on the wire. */
  function Wire(msgs: seq<bytes>): bytes { if msgs == [] then [] else Framed(msgs[0]) + Wire(msgs[1..]) }

  predicate AllSmall(msgs: seq<bytes>) { forall i :: 0 <= i < |msgs| ==> |msgs[i]| <= U16_MAX }

  /** The messages that are passed on. */
  function Passed(msgs: seq<bytes>, blocked: bytes -> bool): seq<bytes> {
    if msgs == [] then [] else (if BlockedName(msgs[0], blocked).None? then [msgs[0]] else []) + Passed(msgs[1..], blocked)
  }

  /** The answers to the messages that are not. */
  function Refused(msgs: seq<bytes>, blocked: bytes -> bool): seq<bytes> {
    if msgs == [] then []
    else (if BlockedName(msgs[0], blocked).Some? then [NxDomain(msgs[0], ParseQuery(msgs[0]).value.q)] else [])
         + Refused(msgs[1..], blocked)
  }

  lemma FrameReads(msg: bytes, rest: bytes)
    requires |msg| <= U16_MAX
    ensures var buf := Framed(msg) + rest;
            && |buf| >= 2 && FrameSize(buf) == |Framed(msg)| == 2 + |msg|
            && buf[..FrameSize(buf)] == Framed(msg) && buf[FrameSize(buf)..] == rest && Framed(msg)[2..] == msg
  {
    var buf := Framed(msg) + rest;
    assert msg[..|msg|] == msg;
    assert buf[0] == |msg| / 256 % 256 && buf[1] == |msg| % 256;
  }

  /** An answer is no longer than its query, so that its length fits in front and none of it is cut off. */
  lemma AnswerWhole(msg: bytes)
    requires ParseQuery(msg).Some? && |msg| <= U16_MAX
    ensures |NxDomain(msg, ParseQuery(msg).value.q)| <= |msg|
  {
    NxDomainHeader(msg, ParseQuery(msg).value.q);
  }

  lemma WireCons(a: bytes, rest: seq<bytes>)
    ensures Wire([a] + rest) == Framed(a) + Wire(rest)
  {
    assert ([a] + rest)[1..] == rest;
  }

  /** What becomes of the messages: some passed on as they are, the others answered, and `rest` kept. */
  ghost predicate OneWay(f: Filtered, msgs: seq<bytes>, rest: bytes, blocked: bytes -> bool) {
    && f.pending == rest && f.toUpstream == Wire(Passed(msgs, blocked)) && f.toApp == Wire(Refused(msgs, blocked))
    && |Passed(msgs, blocked)| + |Refused(msgs, blocked)| == |msgs| && |f.names| == |Refused(msgs, blocked)|
    && AllSmall(Refused(msgs, blocked))
  }

  /** Each message goes exactly one way, in order: as it is to the resolver, or, if and only if its name is blocked, as
      one whole answer to the app. What is not yet a whole frame is kept. */
  lemma {:induction false} EachFrameOneWay(msgs: seq<bytes>, rest: bytes, blocked: bytes -> bool)
    requires AllSmall(msgs)
    requires |rest| < 2 || |rest| < FrameSize(rest)
    ensures OneWay(Drain(Wire(msgs) + rest, blocked), msgs, rest, blocked)
    decreases |msgs|
  {
    if msgs == [] {
      assert [] + rest == rest;
    } else {
      EachFrameOneWay(msgs[1..], rest, blocked);
      FirstFrame(msgs, rest, blocked);
      OneFrame(msgs, Drain(Wire(msgs[1..]) + rest, blocked), rest, blocked);
    }
  }

  lemma FirstFrame(msgs: seq<bytes>, rest: bytes, blocked: bytes -> bool)
    requires AllSmall(msgs) && msgs != []
    ensures |Framed(msgs[0])| >= 2 && Framed(msgs[0])[2..] == msgs[0]
    ensures Drain(Wire(msgs) + rest, blocked) == Then(Route(Framed(msgs[0]), blocked), Drain(Wire(msgs[1..]) + rest, blocked))
  {
    Assoc(Framed(msgs[0]), Wire(msgs[1..]), rest);
    FrameReads(msgs[0], Wire(msgs[1..]) + rest);
  }

  lemma OneFrame(msgs: seq<bytes>, f: Filtered, rest: bytes, blocked: bytes -> bool)
    requires AllSmall(msgs) && msgs != [] && |Framed(msgs[0])| >= 2 && Framed(msgs[0])[2..] == msgs[0]
    requires OneWay(f, msgs[1..], rest, blocked)
    ensures OneWay(Then(Route(Framed(msgs[0]), blocked), f), msgs, rest, blocked)
  {
    var msg, others := msgs[0], msgs[1..];
    if BlockedName(msg, blocked).None? {
      WireCons(msg, Passed(others, blocked));
      assert [] + Refused(others, blocked) == Refused(others, blocked);
      assert [] + f.toApp == f.toApp && [] + f.names == f.names;
    } else {
      var answer := NxDomain(msg, ParseQuery(msg).value.q);
      AnswerWhole(msg);
      WireCons(answer, Refused(others, blocked));
      assert [] + Passed(others, blocked) == Passed(others, blocked);
      assert [] + f.toUpstream == f.toUpstream;
    }
  }

  // --- the object ------------------------------------------------------------

  class Dot {
    var appBuf: bytes
    var passthrough: bool

    /** A frame is never too long to wait for, so the filter never gives up on the framing. */
    ghost predicate Valid() reads this { !passthrough && (|appBuf| < 2 || |appBuf| < FrameSize(appBuf)) }

    constructor ()
      ensures Valid() && appBuf == []
    {
      appBuf, passthrough := [], false;
    }

    method OnAppData(data: bytes, blocked: bytes -> bool) returns (toUpstream: bytes, toApp: bytes, names: seq<bytes>)
      requires Valid()
      modifies this
      ensures Valid() && Filtered(appBuf, toUpstream, toApp, names) == Drain(old(appBuf) + data, blocked)
    {
      toUpstream, toApp, names := [], [], [];
      if passthrough {
        toUpstream := data;
        return;
      }
      appBuf := appBuf + data;
      ThenNothing(appBuf, Drain(appBuf, blocked));
      while true
        invariant !passthrough
        invariant Drain(old(appBuf) + data, blocked) == Then(Filtered([], toUpstream, toApp, names), Drain(appBuf, blocked))
        decreases |appBuf|
      {
        if |appBuf| < 2 {
          break;
        }
        var total := FrameSize(appBuf);
        if |appBuf| < total {
          if total > MAX_PENDING {
            // a two-byte length never reaches the limit: the filter does not give up on the framing
            assert false;
          }
          break;
        }
        var up, app, hit := TakeFrame(total, blocked);
        ThenAssoc(Filtered([], toUpstream, toApp, names), Filtered([], up, app, hit), Drain(appBuf, blocked));
        toUpstream, toApp, names := toUpstream + up, toApp + app, names + hit;
      }
      assert toUpstream + [] == toUpstream && toApp + [] == toApp && names + [] == names;
    }

    /** Takes one whole frame off the buffer. */
    method TakeFrame(total: nat, blocked: bytes -> bool) returns (toUpstream: bytes, toApp: bytes, names: seq<bytes>)
      requires 2 <= |appBuf| && total == FrameSize(appBuf) <= |appBuf|
      modifies this`appBuf
      ensures appBuf == old(appBuf)[total..]
      ensures Drain(old(appBuf), blocked) == Then(Filtered([], toUpstream, toApp, names), Drain(appBuf, blocked))
    {
      var framed := appBuf[..total];
      appBuf := appBuf[total..];
      var msg := framed[2..];
      var name := BlockedName(msg, blocked);
      if name.Some? {
        return [], Answer(msg), [name.value];
      }
      return framed, [], [];
    }
  }
}
