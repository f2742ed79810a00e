/** Requests on their way to a forward proxy: each origin-form request line becomes absolute-form
    (section 3.2.2 of RFC 9112), everything else is passed on as it is. */
module HttpForward {
  import opened Bytes
  import opened HeadEdit
  import HttpHead

  const MAX_HEAD: nat := 64 * 1024
  const U64_MAX: nat := 0xFFFF_FFFF_FFFF_FFFF

  /** "http://" */
  const SCHEME: bytes := [104, 116, 116, 112, 58, 47, 47]

  datatype Error = HeadTooLarge | BadRequestLine | ChunkedBodyUnsupported

  datatype State = Head | Body(remaining: nat)

  // --- one head --------------------------------------------------------------

  datatype RequestLine = RequestLine(verb: bytes, target: bytes, version: bytes)

  function ParseRequestLine(line: bytes): Option<RequestLine> {
    if !Utf8(line) then None
    else
      match IndexOf(line, SP)
      case None => None
      case Some(i) =>
        var rest := line[i + 1..];
        match IndexOf(rest, SP)
        case None => None
        case Some(j) =>
          var l := RequestLine(line[..i], rest[..j], rest[j + 1..]);
          if l.verb == [] || l.target == [] || !(A("HTTP/") <= l.version) then None else Some(l)
  }

  /** The name and value of a header line that is text with a colon. */
  function SplitHeader(line: bytes): Option<(bytes, bytes)> {
    if !Utf8(line) then None
    else match IndexOf(line, 58) case None => None case Some(c) => Some((TrimEnd(line[..c]), TrimStart(line[c + 1..])))
  }

  /** A header line is read as its name, up to the first colon, and its value, without the white space at the colon. */
  lemma HeaderReads(name: bytes, value: bytes)
    requires Utf8(name + [58] + value) && forall i :: 0 <= i < |name| ==> name[i] != 58
    ensures SplitHeader(name + [58] + value) == Some((TrimEnd(name), TrimStart(value)))
  {
    var line := name + [58] + value;
    assert line[|name|] == 58 && IndexOf(line, 58) == Some(|name|);
    assert line[..|name|] == name && line[|name| + 1..] == value;
  }

  /** What the headers say: the last Host, the last Content-Length, and whether any coding is chunked. */
  datatype Seen = Seen(host: Option<bytes>, length: nat, chunked: bool)

  function See(s: Seen, line: bytes): Seen {
    match SplitHeader(line)
    case None => s
    case Some((name, value)) =>
      if EqIgnoreCase(name, A("host")) then s.(host := Some(value))
      else if EqIgnoreCase(name, A("content-length")) then
        s.(length := match ParseUnsigned(Trim(value), 10, U64_MAX) case None => 0 case Some(n) => n)
      else if EqIgnoreCase(name, A("transfer-encoding")) && Find(Lower(value), A("chunked")).Some? then s.(chunked := true)
      else s
  }

  function SeeAll(s: Seen, lines: seq<bytes>): Seen
    decreases |lines|
  {
    if lines == [] || lines[0] == [] then s else SeeAll(See(s, lines[0]), lines[1..])
  }

  /** The value of the last header with this name, as an independent reading of the lines. */
  function LastNamed(lines: seq<bytes>, name: bytes): Option<bytes>
    decreases |lines|
  {
    if lines == [] || lines[0] == [] then None
    else
      var later := LastNamed(lines[1..], name);
      var here := SplitHeader(lines[0]);
      if later.Some? then later
      else if here.Some? && EqIgnoreCase(here.value.0, name) then Some(here.value.1)
      else None
  }

  function LengthOf(value: bytes): nat { match ParseUnsigned(Trim(value), 10, U64_MAX) case None => 0 case Some(n) => n }

  /** The last Host and the last Content-Length win; a length that does not parse counts as none. */
  lemma {:induction false} LastWins(s: Seen, lines: seq<bytes>)
    ensures var r := SeeAll(s, lines);
            && r.host == (var h := LastNamed(lines, A("host")); if h.Some? then h else s.host)
            && r.length == (var l := LastNamed(lines, A("content-length")); if l.Some? then LengthOf(l.value) else s.length)
    decreases |lines|
  {
    if lines != [] && lines[0] != [] {
      LastWins(See(s, lines[0]), lines[1..]);
      SeesOne(s, lines[0]);
    }
  }

  lemma SeesOne(s: Seen, line: bytes)
    ensures var r, h := See(s, line), SplitHeader(line);
            && r.host == (if h.Some? && EqIgnoreCase(h.value.0, A("host")) then Some(h.value.1) else s.host)
            && r.length == (if h.Some? && EqIgnoreCase(h.value.0, A("content-length")) then LengthOf(h.value.1) else s.length)
  {
    assert |A("host")| == 4 && |A("content-length")| == 14;
  }

  /** The request line and what follows it, the headers and the blank line. */
  datatype Parts = Parts(line: bytes, l: RequestLine, rest: bytes, seen: Seen)

  function HeadParts(head: bytes): Option<Parts> {
    match Find(head, CRLF)
    case None => None
    case Some(p) =>
      match ParseRequestLine(head[..p])
      case None => None
      case Some(l) => Some(Parts(head[..p], l, head[p + 2..], SeeAll(Seen(None, 0, false), CrlfLines(head[p + 2..]))))
  }

  lemma LineWords(line: bytes)
    requires ParseRequestLine(line).Some?
    ensures var l := ParseRequestLine(line).value; line == l.verb + [SP] + (l.target + [SP] + l.version)
  {
    var i := IndexOf(line, SP).value;
    var rest := line[i + 1..];
    var j := IndexOf(rest, SP).value;
    assert line == line[..i] + [SP] + rest && rest == rest[..j] + [SP] + rest[j + 1..];
  }

  /** The parts make up the head. */
  lemma PartsMakeHead(head: bytes)
    requires HeadParts(head).Some?
    ensures var p := HeadParts(head).value;
            && head == p.line + CRLF + p.rest && Find(head, CRLF) == Some(|p.line|)
            && ParseRequestLine(p.line) == Some(p.l) && p.line == p.l.verb + [SP] + (p.l.target + [SP] + p.l.version)
  {
    var p := Find(head, CRLF).value;
    assert head == head[..p] + head[p..p + 2] + head[p + 2..];
    LineWords(head[..p]);
  }

  function Authority(seen: Seen, fallback: bytes): bytes {
    if seen.host.Some? && Trim(seen.host.value) != [] then Trim(seen.host.value) else fallback
  }

  function Slash(target: bytes): bool { target != [] && target[0] == 47 }

  /** What goes in front of the target. */
  function Insertion(p: Parts, fallback: bytes): bytes {
    if Slash(p.l.target) then SCHEME + Authority(p.seen, fallback) else []
  }

  function RewrittenHead(p: Parts, fallback: bytes): bytes {
    if Slash(p.l.target) then
      p.l.verb + ([SP] + SCHEME) + Authority(p.seen, fallback) + p.l.target + [SP] + p.l.version + CRLF + p.rest
    else p.line + CRLF + p.rest
  }

  /** A line of three words, and what follows it, cut in front of the second word. */
  lemma CutAtTarget(l: RequestLine, line: bytes, rest: bytes)
    requires line == l.verb + [SP] + (l.target + [SP] + l.version)
    ensures var head, n := line + CRLF + rest, |l.verb| + 1;
            && head[..n] == l.verb + [SP] && head[n..] == l.target + [SP] + l.version + CRLF + rest
  {
    var a, b := l.verb + [SP], l.target + [SP] + l.version;
    assert line + CRLF + rest == a + (b + CRLF + rest);
  }

  lemma InsertedInFront(verb: bytes, a: bytes, tail: bytes)
    ensures verb + ([SP] + SCHEME) + a + tail == verb + [SP] + (SCHEME + a) + tail
  {
    assert verb + ([SP] + SCHEME) + a == verb + [SP] + (SCHEME + a);
  }

  lemma Tails(pre: bytes, l: RequestLine, rest: bytes)
    ensures pre + l.target + [SP] + l.version + CRLF + rest == pre + (l.target + [SP] + l.version + CRLF + rest)
  {
  }

  /** A rewritten head is the head with one insertion in front of its target. */
  lemma RewriteInserts(head: bytes, fallback: bytes)
    requires HeadParts(head).Some?
    ensures var p := HeadParts(head).value;
            var n := |p.l.verb| + 1;
            n <= |head| && RewrittenHead(p, fallback) == head[..n] + Insertion(p, fallback) + head[n..]
  {
    PartsMakeHead(head);
    InsertionMade(head, HeadParts(head).value, fallback);
  }

  lemma InsertionMade(head: bytes, p: Parts, fallback: bytes)
    requires head == p.line + CRLF + p.rest && p.line == p.l.verb + [SP] + (p.l.target + [SP] + p.l.version)
    ensures var n := |p.l.verb| + 1;
            n <= |head| && RewrittenHead(p, fallback) == head[..n] + Insertion(p, fallback) + head[n..]
  {
    var n, a := |p.l.verb| + 1, Authority(p.seen, fallback);
    CutAtTarget(p.l, p.line, p.rest);
    if Slash(p.l.target) {
      InsertedInFront(p.l.verb, a, head[n..]);
      Tails(p.l.verb + ([SP] + SCHEME) + a, p.l, p.rest);
    } else {
      assert head[..n] + [] + head[n..] == head;
    }
  }

  // --- the stream ------------------------------------------------------------

  datatype Pushed = Pushed(state: State, head: bytes, out: bytes) | Failed(error: Error)

  function Prepend(out: bytes, p: Pushed): Pushed { if p.Pushed? then p.(out := out + p.out) else p }

  function AfterHead(seen: Seen): State { if seen.length > 0 then Body(seen.length) else Head }

  /** Everything that the bytes `buf` lead to from a state. */
  function Drive(st: State, buf: bytes, fallback: bytes): Pushed
    decreases |buf|, if st.Body? then 1 else 0
  {
    match st
    case Body(n) =>
      if |buf| < n then Pushed(Body(n - |buf|), [], buf) else Prepend(buf[..n], Drive(Head, buf[n..], fallback))
    case Head =>
      match FindHeaderEnd(buf)
      case None => if |buf| > MAX_HEAD then Failed(HeadTooLarge) else Pushed(Head, buf, [])
      case Some(end) =>
        match HeadParts(buf[..end])
        case None => Failed(BadRequestLine)
        case Some(p) =>
          if p.seen.chunked then Failed(ChunkedBodyUnsupported)
          else Prepend(RewrittenHead(p, fallback), Drive(AfterHead(p.seen), buf[end..], fallback))
  }

  lemma PrependTwice(a: bytes, b: bytes, p: Pushed)
    ensures Prepend(a, Prepend(b, p)) == Prepend(a + b, p)
  {
    if p.Pushed? {
      Assoc(a, b, p.out);
    }
  }

  lemma HeaderEndStable(x: bytes, y: bytes)
    requires FindHeaderEnd(x).Some?
    ensures FindHeaderEnd(x + y) == FindHeaderEnd(x)
    ensures (x + y)[..FindHeaderEnd(x).value] == x[..FindHeaderEnd(x).value]
    ensures (x + y)[FindHeaderEnd(x).value..] == x[FindHeaderEnd(x).value..] + y
  {
    FindStable(x, y, CRLFCRLF);
  }

  /** What two pushes come to, `p` the first of them, is `whole`. */
  ghost predicate Joins(p: Pushed, y: bytes, whole: Pushed, fallback: bytes) {
    match p
    case Pushed(s, h, out) => whole == Prepend(out, Drive(s, h + y, fallback))
    case Failed(e) => e.HeadTooLarge? || whole == Failed(e)
  }

  /** Two pushes are one, unless a head has grown too large in between; other failures are final. */
  lemma {:induction false} DriveSplit(st: State, x: bytes, y: bytes, fallback: bytes)
    ensures Joins(Drive(st, x, fallback), y, Drive(st, x + y, fallback), fallback)
    decreases |x|, if st.Body? then 1 else 0, 1
  {
    if st.Body? {
      BodyJoins(st.remaining, x, y, fallback);
    } else if FindHeaderEnd(x).Some? {
      HeadJoins(x, FindHeaderEnd(x).value, y, fallback);
    } else {
      PartialJoins(x, y, fallback);
    }
  }

  lemma PartialJoins(x: bytes, y: bytes, fallback: bytes)
    requires FindHeaderEnd(x).None?
    ensures Joins(Drive(Head, x, fallback), y, Drive(Head, x + y, fallback), fallback)
  {
    PrependNothing(Drive(Head, x + y, fallback));
  }

  lemma BodyJoins(n: nat, x: bytes, y: bytes, fallback: bytes)
    ensures Joins(Drive(Body(n), x, fallback), y, Drive(Body(n), x + y, fallback), fallback)
    decreases |x|, 1, 0
  {
    if |x| < n {
      BodySplit(n, x, y, fallback);
      BodyPart(n, x, fallback);
    } else {
      assert (x + y)[..n] == x[..n] && (x + y)[n..] == x[n..] + y;
      BodyWhole(n, x, fallback);
      BodyWhole(n, x + y, fallback);
      DriveSplit(Head, x[n..], y, fallback);
      SplitAfter(x[..n], Drive(Head, x[n..], fallback), y, Drive(Head, x[n..] + y, fallback), fallback);
    }
  }

  lemma HeadJoins(x: bytes, end: nat, y: bytes, fallback: bytes)
    requires FindHeaderEnd(x) == Some(end)
    ensures Joins(Drive(Head, x, fallback), y, Drive(Head, x + y, fallback), fallback)
    decreases |x|, 0, 0
  {
    var p := HeadParts(x[..end]);
    if p.Some? {
      DriveSplit(AfterHead(p.value.seen), x[end..], y, fallback);
    }
    HeadSplit(x, y, end, fallback);
  }

  lemma PrependNothing(p: Pushed)
    ensures Prepend([], p) == p
  {
    if p.Pushed? {
      assert [] + p.out == p.out;
    }
  }

  lemma SplitAfter(out: bytes, p: Pushed, y: bytes, whole: Pushed, fallback: bytes)
    requires Joins(p, y, whole, fallback)
    ensures Joins(Prepend(out, p), y, Prepend(out, whole), fallback)
  {
    if p.Pushed? {
      PrependTwice(out, p.out, Drive(p.state, p.head + y, fallback));
    }
  }

  /** What comes of a head that has ended: `d` is what the rest leads to. */
  function Headed(p: Option<Parts>, d: Pushed, fallback: bytes): Pushed {
    if p.None? then Failed(BadRequestLine)
    else if p.value.seen.chunked then Failed(ChunkedBodyUnsupported)
    else Prepend(RewrittenHead(p.value, fallback), d)
  }

  lemma HeadWhole(buf: bytes, p: Option<Parts>, rest: bytes, fallback: bytes)
    requires FindHeaderEnd(buf).Some?
    requires var end := FindHeaderEnd(buf).value; p == HeadParts(buf[..end]) && rest == buf[end..]
    ensures Drive(Head, buf, fallback) ==
            Headed(p, if p.Some? then Drive(AfterHead(p.value.seen), rest, fallback) else Failed(BadRequestLine), fallback)
  {
  }

  lemma HeadSplit(x: bytes, y: bytes, end: nat, fallback: bytes)
    requires FindHeaderEnd(x) == Some(end)
    requires var p := HeadParts(x[..end]);
             p.Some? && !p.value.seen.chunked ==>
               Joins(Drive(AfterHead(p.value.seen), x[end..], fallback), y, Drive(AfterHead(p.value.seen), x[end..] + y, fallback), fallback)
    ensures Joins(Drive(Head, x, fallback), y, Drive(Head, x + y, fallback), fallback)
  {
    HeaderEndStable(x, y);
    var p := HeadParts(x[..end]);
    HeadWhole(x, p, x[end..], fallback);
    HeadWhole(x + y, p, x[end..] + y, fallback);
    if p.Some? && !p.value.seen.chunked {
      var st := AfterHead(p.value.seen);
      SplitAfter(RewrittenHead(p.value, fallback), Drive(st, x[end..], fallback), y, Drive(st, x[end..] + y, fallback), fallback);
    }
  }

  lemma BodyWhole(n: nat, buf: bytes, fallback: bytes)
    requires |buf| >= n
    ensures Drive(Body(n), buf, fallback) == Prepend(buf[..n], Drive(Head, buf[n..], fallback))
  {
  }

  lemma BodyPart(n: nat, buf: bytes, fallback: bytes)
    requires |buf| < n
    ensures Drive(Body(n), buf, fallback) == Pushed(Body(n - |buf|), [], buf)
  {
  }

  lemma BodySplit(n: nat, x: bytes, y: bytes, fallback: bytes)
    requires |x| < n
    ensures Drive(Body(n), x + y, fallback) == Prepend(x, Drive(Body(n - |x|), y, fallback))
    ensures [] + y == y
  {
    var m := n - |x|;
    assert [] + y == y;
    if |y| < m {
      BodyPart(n, x + y, fallback);
      BodyPart(m, y, fallback);
    } else {
      BodyWhole(n, x + y, fallback);
      BodyWhole(m, y, fallback);
      assert (x + y)[..n] == x + y[..m] && (x + y)[n..] == y[m..];
      PrependTwice(x, y[..m], Drive(Head, y[m..], fallback));
    }
  }

  /** Pushing segment by segment. */
  function PushAll(segs: seq<bytes>, fallback: bytes): Pushed {
    if segs == [] then Pushed(Head, [], [])
    else
      match PushAll(segs[..|segs| - 1], fallback)
      case Failed(e) => Failed(e)
      case Pushed(s, h, out) => Prepend(out, Drive(s, h + segs[|segs| - 1], fallback))
  }

  /** However a stream is cut, pushing it in pieces is pushing it at once, unless some piece ended in a head that was
      already over the limit. */
  lemma {:induction false} SegmentationIndependent(segs: seq<bytes>, fallback: bytes)
    ensures PushAll(segs, fallback) == Drive(Head, Concat(segs), fallback) || PushAll(segs, fallback) == Failed(HeadTooLarge)
  {
    if segs == [] {
      assert FindHeaderEnd([]).None?;
    } else {
      var init, last := segs[..|segs| - 1], segs[|segs| - 1];
      assert segs == init + [last];
      ConcatAppend(init, [last]);
      assert Concat([last]) == last;
      SegmentationIndependent(init, fallback);
      DriveSplit(Head, Concat(init), last, fallback);
    }
  }

  /** No head of the stream, the last unfinished one included, is ever over the limit while its end is still to come. */
  predicate HeadsFit(st: State, buf: bytes, fallback: bytes)
    decreases |buf|, if st.Body? then 1 else 0
  {
    match st
    case Body(n) => |buf| < n || HeadsFit(Head, buf[n..], fallback)
    case Head =>
      match FindHeaderEnd(buf)
      case None => |buf| <= MAX_HEAD
      case Some(end) =>
        && end <= MAX_HEAD + 1
        && match HeadParts(buf[..end]) case None => true case Some(p) => p.seen.chunked || HeadsFit(AfterHead(p.seen), buf[end..], fallback)
  }

  lemma {:induction false} FitsInPart(st: State, x: bytes, y: bytes, fallback: bytes)
    requires HeadsFit(st, x + y, fallback)
    ensures Drive(st, x, fallback) != Failed(HeadTooLarge)
    decreases |x|, if st.Body? then 1 else 0
  {
    match st
    case Body(n) =>
      if |x| >= n {
        assert (x + y)[n..] == x[n..] + y;
        FitsInPart(Head, x[n..], y, fallback);
      }
    case Head =>
      var end := FindHeaderEnd(x);
      if end.Some? {
        HeaderEndStable(x, y);
        var p := HeadParts(x[..end.value]);
        if p.Some? && !p.value.seen.chunked {
          FitsInPart(AfterHead(p.value.seen), x[end.value..], y, fallback);
        }
      } else if FindHeaderEnd(x + y).Some? {
        FindLater(x, y, CRLFCRLF);
      }
  }

  /** A stream with a head over the limit is refused when it is cut in front of the last byte of that head. */
  lemma {:induction false} OverlongRefused(st: State, buf: bytes, fallback: bytes) returns (n: nat)
    requires !HeadsFit(st, buf, fallback)
    ensures n <= |buf| && Drive(st, buf[..n], fallback) == Failed(HeadTooLarge)
    decreases |buf|, if st.Body? then 2 else 1
  {
    if st.Body? {
      AfterBodyOverlong(st.remaining, buf, fallback);
      n := OverlongRefused(Head, buf[st.remaining..], fallback);
      BehindBody(st.remaining, buf, n, fallback);
      n := st.remaining + n;
    } else if FindHeaderEnd(buf).None? {
      n := |buf|;
      UnendedOverlong(buf, fallback);
    } else {
      n := OverlongHead(buf, FindHeaderEnd(buf).value, fallback);
    }
  }

  lemma {:induction false} OverlongHead(buf: bytes, end: nat, fallback: bytes) returns (n: nat)
    requires FindHeaderEnd(buf) == Some(end) && !HeadsFit(Head, buf, fallback)
    ensures n <= |buf| && Drive(Head, buf[..n], fallback) == Failed(HeadTooLarge)
    decreases |buf|, 0
  {
    if end > MAX_HEAD + 1 {
      n := end - 1;
      Unended(buf, n, fallback);
    } else {
      var st := RestOverlong(buf, end, fallback);
      var tail := buf[end..];
      n := OverlongRefused(st, tail, fallback);
      n := BehindHead(buf, end, st, tail, n, fallback);
    }
  }

  lemma AfterBodyOverlong(b: nat, buf: bytes, fallback: bytes)
    requires !HeadsFit(Body(b), buf, fallback)
    ensures b <= |buf| && !HeadsFit(Head, buf[b..], fallback)
  {
  }

  lemma UnendedOverlong(buf: bytes, fallback: bytes)
    requires FindHeaderEnd(buf).None? && !HeadsFit(Head, buf, fallback)
    ensures buf[..|buf|] == buf && Drive(Head, buf, fallback) == Failed(HeadTooLarge)
  {
  }

  lemma Unended(buf: bytes, n: nat, fallback: bytes)
    requires FindHeaderEnd(buf).Some? && MAX_HEAD < n < FindHeaderEnd(buf).value
    ensures Drive(Head, buf[..n], fallback) == Failed(HeadTooLarge)
  {
    NoEndYet(buf, n);
  }

  lemma RestOverlong(buf: bytes, end: nat, fallback: bytes) returns (st: State)
    requires FindHeaderEnd(buf) == Some(end) && end <= MAX_HEAD + 1 && !HeadsFit(Head, buf, fallback)
    ensures HeadParts(buf[..end]).Some? && !HeadParts(buf[..end]).value.seen.chunked
    ensures st == AfterHead(HeadParts(buf[..end]).value.seen) && !HeadsFit(st, buf[end..], fallback)
  {
    st := AfterHead(HeadParts(buf[..end]).value.seen);
  }

  lemma BehindBody(b: nat, buf: bytes, n: nat, fallback: bytes)
    requires b <= |buf| && n <= |buf[b..]| && Drive(Head, buf[b..][..n], fallback) == Failed(HeadTooLarge)
    ensures Drive(Body(b), buf[..b + n], fallback) == Failed(HeadTooLarge)
  {
    assert buf[..b + n][b..] == buf[b..][..n];
    BodyWhole(b, buf[..b + n], fallback);
  }

  lemma BehindHead(buf: bytes, end: nat, st: State, tail: bytes, m: nat, fallback: bytes) returns (n: nat)
    requires FindHeaderEnd(buf) == Some(end) && tail == buf[end..] && m <= |tail|
    requires HeadParts(buf[..end]).Some? && !HeadParts(buf[..end]).value.seen.chunked && st == AfterHead(HeadParts(buf[..end]).value.seen)
    requires Drive(st, tail[..m], fallback) == Failed(HeadTooLarge)
    ensures n <= |buf| && Drive(Head, buf[..n], fallback) == Failed(HeadTooLarge)
  {
    n := end + m;
    var head, part := buf[..end], tail[..m];
    HeadEndsItself(buf);
    HeaderEndStable(head, part);
    assert buf[..n] == head + part;
    HeadWhole(head + part, HeadParts(head), part, fallback);
  }

  lemma NoEndYet(buf: bytes, n: nat)
    requires FindHeaderEnd(buf).Some? && n < FindHeaderEnd(buf).value
    ensures FindHeaderEnd(buf[..n]).None?
  {
    assert buf[..n] + buf[n..] == buf;
    if FindHeaderEnd(buf[..n]).Some? {
      HeaderEndStable(buf[..n], buf[n..]);
    }
  }

  /** No cut of a stream is refused for the length of a head exactly when its heads are within the limit. */
  lemma {:induction false} NoCutTooLargeIff(s: bytes, fallback: bytes)
    ensures (forall segs :: Concat(segs) == s ==> PushAll(segs, fallback) != Failed(HeadTooLarge)) <==> HeadsFit(Head, s, fallback)
  {
    if HeadsFit(Head, s, fallback) {
      assert s + [] == s;
      forall segs | Concat(segs) == s ensures PushAll(segs, fallback) != Failed(HeadTooLarge) {
        NeverTooLarge(segs, [], fallback);
      }
    } else {
      var n := OverlongRefused(Head, s, fallback);
      TwoPushes(s[..n], s[n..], fallback);
      assert s[..n] + s[n..] == s;
    }
  }

  lemma TwoPushes(x: bytes, y: bytes, fallback: bytes)
    requires Drive(Head, x, fallback).Failed?
    ensures Concat([x, y]) == x + y && PushAll([x, y], fallback) == Drive(Head, x, fallback)
  {
    assert [x, y][..1] == [x] && [x][..0] == [] && [x, y] == [x] + [y];
    ConcatAppend([x], [y]);
    assert Concat([x]) == x && Concat([y]) == y;
    assert [] + x == x;
    assert PushAll([x], fallback) == Drive(Head, x, fallback);
  }

  /** When all heads are within the limit, the cut never matters. */
  lemma {:induction false} CutNeverMatters(segs: seq<bytes>, fallback: bytes)
    requires HeadsFit(Head, Concat(segs), fallback)
    ensures PushAll(segs, fallback) == Drive(Head, Concat(segs), fallback)
  {
    assert Concat(segs) + [] == Concat(segs);
    NeverTooLarge(segs, [], fallback);
    SegmentationIndependent(segs, fallback);
  }

  lemma {:induction false} NeverTooLarge(segs: seq<bytes>, later: bytes, fallback: bytes)
    requires HeadsFit(Head, Concat(segs) + later, fallback)
    ensures PushAll(segs, fallback) != Failed(HeadTooLarge)
    decreases |segs|
  {
    if segs != [] {
      var init, last := segs[..|segs| - 1], segs[|segs| - 1];
      assert segs == init + [last];
      ConcatAppend(init, [last]);
      assert Concat([last]) == last;
      Assoc(Concat(init), last, later);
      NeverTooLarge(init, last + later, fallback);
      SegmentationIndependent(init, fallback);
      FitsInPart(Head, Concat(segs), later, fallback);
      DriveSplit(Head, Concat(init), last, fallback);
    }
  }

  // --- what was inserted -----------------------------------------------------

  /** A stretch of the input with the place where something was inserted. */
  datatype Piece = Piece(before: bytes, inserted: bytes, after: bytes)

  function Original(ps: seq<Piece>): bytes {
    if ps == [] then [] else ps[0].before + ps[0].after + Original(ps[1..])
  }

  function Sent(ps: seq<Piece>): bytes {
    if ps == [] then [] else ps[0].before + ps[0].inserted + ps[0].after + Sent(ps[1..])
  }

  /** Nothing, or a scheme and an authority, in front of a path. */
  predicate ProperInsertion(p: Piece) {
    p.inserted == [] || (SCHEME <= p.inserted && Slash(p.after))
  }

  lemma PieceInFront(p: Piece, ps: seq<Piece>, input: bytes, held: bytes, out: bytes)
    requires Original(ps) + held == input && Sent(ps) == out
    ensures Original([p] + ps) + held == p.before + p.after + input
    ensures Sent([p] + ps) == p.before + p.inserted + p.after + out
  {
    assert ([p] + ps)[1..] == ps;
    Assoc(p.before + p.after, Original(ps), held);
  }

  /** The pieces tell a push: what came in, what was held back of it, and what was sent. */
  ghost predicate Tells(ps: seq<Piece>, d: Pushed, buf: bytes) {
    && d.Pushed? && Original(ps) + d.head == buf && Sent(ps) == d.out
    && forall i :: 0 <= i < |ps| ==> ProperInsertion(ps[i])
  }

  lemma TellsMore(p: Piece, ps: seq<Piece>, d: Pushed, rest: bytes, front: bytes, out: bytes)
    requires Tells(ps, d, rest) && ProperInsertion(p) && p.before + p.after == front && p.before + p.inserted + p.after == out
    ensures Tells([p] + ps, Prepend(out, d), front + rest)
  {
    PieceInFront(p, ps, rest, d.head, d.out);
  }

  lemma TellsHead(head: bytes, ps: seq<Piece>, d: Pushed, rest: bytes, fallback: bytes) returns (p: Piece)
    requires HeadParts(head).Some? && Tells(ps, d, rest)
    ensures Tells([p] + ps, Prepend(RewrittenHead(HeadParts(head).value, fallback), d), head + rest)
  {
    var parts := HeadParts(head).value;
    var n := |parts.l.verb| + 1;
    RewriteInserts(head, fallback);
    TargetFollows(head);
    p := Piece(head[..n], Insertion(parts, fallback), head[n..]);
    TellsMore(p, ps, d, rest, head, RewrittenHead(parts, fallback));
  }

  /** Taking the insertions out of what was sent gives back what came in, but for the head still held. */
  lemma {:induction false} DeletingRecovers(st: State, buf: bytes, fallback: bytes) returns (ps: seq<Piece>)
    requires Drive(st, buf, fallback).Pushed?
    ensures Tells(ps, Drive(st, buf, fallback), buf)
    decreases |buf|, if st.Body? then 1 else 0, 1
  {
    if st.Body? {
      ps := BodyRecovers(st.remaining, buf, fallback);
    } else if FindHeaderEnd(buf).Some? {
      ps := HeadsRecover(buf, FindHeaderEnd(buf).value, fallback);
    } else {
      ps := [];
      assert [] + buf == buf;
    }
  }

  lemma BodyRecovers(n: nat, buf: bytes, fallback: bytes) returns (ps: seq<Piece>)
    requires Drive(Body(n), buf, fallback).Pushed?
    ensures Tells(ps, Drive(Body(n), buf, fallback), buf)
    decreases |buf|, 1, 0
  {
    if |buf| < n {
      ps := [Piece(buf, [], [])];
      BodyPart(n, buf, fallback);
      OneTells(buf, Body(n - |buf|));
    } else {
      BodyWhole(n, buf, fallback);
      var rest := DeletingRecovers(Head, buf[n..], fallback);
      ps := [Piece(buf[..n], [], [])] + rest;
      BodyTells(buf[..n], rest, Drive(Head, buf[n..], fallback), buf[n..]);
      assert buf[..n] + buf[n..] == buf;
    }
  }

  lemma OneTells(buf: bytes, st: State)
    ensures Tells([Piece(buf, [], [])], Pushed(st, [], buf), buf)
  {
    OnePiece(Piece(buf, [], []));
    assert buf + [] + [] == buf && buf + [] == buf;
  }

  lemma BodyTells(front: bytes, ps: seq<Piece>, d: Pushed, rest: bytes)
    requires Tells(ps, d, rest)
    ensures Tells([Piece(front, [], [])] + ps, Prepend(front, d), front + rest)
  {
    assert front + [] + [] == front && front + [] == front;
    TellsMore(Piece(front, [], []), ps, d, rest, front, front);
  }

  lemma HeadsRecover(buf: bytes, end: nat, fallback: bytes) returns (ps: seq<Piece>)
    requires FindHeaderEnd(buf) == Some(end) && Drive(Head, buf, fallback).Pushed?
    ensures Tells(ps, Drive(Head, buf, fallback), buf)
    decreases |buf|, 0, 0
  {
    var head, tail := buf[..end], buf[end..];
    HeadWhole(buf, HeadParts(head), tail, fallback);
    var st := AfterHead(HeadParts(head).value.seen);
    var rest := DeletingRecovers(st, tail, fallback);
    ps := HeadRecovers(head, tail, buf, rest, Drive(st, tail, fallback), fallback);
  }

  lemma HeadRecovers(head: bytes, tail: bytes, buf: bytes, rest: seq<Piece>, d: Pushed, fallback: bytes) returns (ps: seq<Piece>)
    requires HeadParts(head).Some? && Tells(rest, d, tail) && !HeadParts(head).value.seen.chunked
    requires |head| <= |buf| && head == buf[..|head|] && tail == buf[|head|..]
    ensures Tells(ps, Headed(HeadParts(head), d, fallback), buf)
  {
    var p := TellsHead(head, rest, d, tail, fallback);
    assert head + tail == buf;
    ps := [p] + rest;
  }

  lemma OnePiece(p: Piece)
    ensures Original([p]) == p.before + p.after && Sent([p]) == p.before + p.inserted + p.after
  {
    assert [p][1..] == [];
    assert p.before + p.after + [] == p.before + p.after;
    assert p.before + p.inserted + p.after + [] == p.before + p.inserted + p.after;
  }

  lemma TargetFollows(head: bytes)
    requires HeadParts(head).Some?
    ensures var p := HeadParts(head).value; Slash(p.l.target) ==> Slash(head[|p.l.verb| + 1..])
  {
    PartsMakeHead(head);
    var p := HeadParts(head).value;
    CutAtTarget(p.l, p.line, p.rest);
  }

  // --- the head in bytes -----------------------------------------------------

  predicate NoSpace(w: bytes) { forall i :: 0 <= i < |w| ==> w[i] != SP }

  /** The first line of the head is these three words, and `rest` follows it; the last word may have spaces in it. */
  predicate HeadIs(head: bytes, verb: bytes, target: bytes, version: bytes, rest: bytes) {
    var line := verb + [SP] + (target + [SP] + version);
    && head == line + CRLF + rest && Find(head, CRLF) == Some(|line|) && FindHeaderEnd(head) == Some(|head|)
    && Utf8(line) && NoSpace(verb) && NoSpace(target) && verb != [] && target != [] && A("HTTP/") <= version
  }

  /** Some header says a transfer coding that contains chunked. */
  function SaysChunked(lines: seq<bytes>): bool {
    if lines == [] || lines[0] == [] then false
    else
      var h := SplitHeader(lines[0]);
      || (h.Some? && EqIgnoreCase(h.value.0, A("transfer-encoding")) && Find(Lower(h.value.1), A("chunked")).Some?)
      || SaysChunked(lines[1..])
  }

  lemma NamesApart(name: bytes)
    ensures EqIgnoreCase(name, A("transfer-encoding")) ==> !EqIgnoreCase(name, A("host")) && !EqIgnoreCase(name, A("content-length"))
  {
    assert |A("host")| == 4 && |A("content-length")| == 14 && |A("transfer-encoding")| == 17;
  }

  lemma {:induction false} ChunkedSeen(s: Seen, lines: seq<bytes>)
    ensures SeeAll(s, lines).chunked <==> s.chunked || SaysChunked(lines)
    decreases |lines|
  {
    if lines != [] && lines[0] != [] {
      ChunkedSeen(See(s, lines[0]), lines[1..]);
      var h := SplitHeader(lines[0]);
      if h.Some? {
        NamesApart(h.value.0);
      }
    }
  }

  /** The last Host, unless it is blank, or else the fallback. */
  predicate AuthorityIs(lines: seq<bytes>, fallback: bytes, a: bytes) {
    var h := LastNamed(lines, A("host"));
    if h.Some? && Trim(h.value) != [] then a == Trim(h.value) else a == fallback
  }

  /** Where the words of the line are. */
  lemma WordsApart(verb: bytes, target: bytes, version: bytes)
    requires NoSpace(verb) && NoSpace(target)
    ensures var line := verb + [SP] + (target + [SP] + version);
            && IndexOf(line, SP) == Some(|verb|) && line[..|verb|] == verb
            && line[|verb| + 1..] == target + [SP] + version
            && IndexOf(target + [SP] + version, SP) == Some(|target|)
            && (target + [SP] + version)[..|target|] == target && (target + [SP] + version)[|target| + 1..] == version
  {
    var line, rest := verb + [SP] + (target + [SP] + version), target + [SP] + version;
    assert line[|verb|] == SP && rest[|target|] == SP;
  }

  lemma HeadIsParsed(head: bytes, verb: bytes, target: bytes, version: bytes, rest: bytes)
    requires HeadIs(head, verb, target, version, rest)
    ensures var line := verb + [SP] + (target + [SP] + version);
            HeadParts(head) == Some(Parts(line, RequestLine(verb, target, version), rest, SeeAll(Seen(None, 0, false), CrlfLines(rest))))
  {
    var line := verb + [SP] + (target + [SP] + version);
    WordsApart(verb, target, version);
    assert head[..|line|] == line && head[|line| + 2..] == rest;
  }

  lemma InBytes(p: Parts, fallback: bytes)
    requires p.l.target != []
    ensures RewrittenHead(p, fallback)
            == if p.l.target[0] == 47 then
                 p.l.verb + [SP] + A("http://") + Authority(p.seen, fallback) + p.l.target + [SP] + p.l.version + CRLF + p.rest
               else p.line + CRLF + p.rest
  {
    assert SCHEME == A("http://");
    assert p.l.verb + ([SP] + SCHEME) == p.l.verb + [SP] + SCHEME;
  }

  /** A head whose target is a path comes out with "http://" and the authority in front of that target, and otherwise byte for byte;
      any other head comes out as it is. What follows is the body that its last Content-Length says. A head with a chunked coding is
      refused. */
  lemma HeadComesOut(head: bytes, verb: bytes, target: bytes, version: bytes, rest: bytes, tail: bytes, fallback: bytes)
    returns (a: bytes, out: bytes)
    requires HeadIs(head, verb, target, version, rest)
    ensures AuthorityIs(CrlfLines(rest), fallback, a)
    ensures out == if target[0] == 47 then verb + [SP] + A("http://") + a + target + [SP] + version + CRLF + rest else head
    ensures var n := LastNamed(CrlfLines(rest), A("content-length"));
            var length := if n.Some? then LengthOf(n.value) else 0;
            Drive(Head, head + tail, fallback) == if SaysChunked(CrlfLines(rest)) then Failed(ChunkedBodyUnsupported)
                                                  else Prepend(out, Drive(if length > 0 then Body(length) else Head, tail, fallback))
  {
    var lines := CrlfLines(rest);
    HeadIsParsed(head, verb, target, version, rest);
    var p := HeadParts(head).value;
    LastWins(Seen(None, 0, false), lines);
    ChunkedSeen(Seen(None, 0, false), lines);
    a := Authority(p.seen, fallback);
    out := RewrittenHead(p, fallback);
    InBytes(p, fallback);
    HeaderEndStable(head, tail);
    assert head[..|head|] == head && head[|head|..] + tail == tail;
    HeadWhole(head + tail, Some(p), tail, fallback);
  }

  // --- rewriting again -------------------------------------------------------

  /** An authority that fits a request line: text without a space or a carriage return. */
  predicate Fits(a: bytes) { Utf8(a) && forall i :: 0 <= i < |a| ==> a[i] != SP && a[i] != CR }

  /** Text put in after a space does not disturb where the first line or head end is. */
  lemma InsertionFinds(pre: bytes, ins: bytes, tail: bytes, needle: bytes, p: nat)
    requires needle != [] && needle[0] == CR && forall k :: 0 <= k < |needle| ==> needle[k] != SP
    requires pre != [] && pre[|pre| - 1] == SP && forall i :: 0 <= i < |ins| ==> ins[i] != CR
    requires Find(pre + tail, needle) == Some(p) && p >= |pre|
    ensures Find(pre + ins + tail, needle) == Some(p + |ins|)
  {
    var h, g, m := pre + tail, pre + ins + tail, |needle|;
    assert g[p + |ins|..p + |ins| + m] == h[p..p + m];
    forall j | 0 <= j < p + |ins| ensures !At(g, needle, j) {
      if j < |pre| && j + m <= |pre| {
        assert g[j..j + m] == h[j..j + m];
        assert !At(h, needle, j);
      } else if j < |pre| {
        DiffersAt(g, needle, j, |pre| - 1 - j);
      } else if j < |pre| + |ins| {
        DiffersAt(g, needle, j, 0);
      } else {
        assert j + m <= |g| ==> g[j..j + m] == h[j - |ins|..j - |ins| + m];
        assert !At(h, needle, j - |ins|);
      }
    }
    FindUnique(g, needle, p + |ins|);
  }

  lemma HeadEndsItself(buf: bytes)
    requires FindHeaderEnd(buf).Some?
    ensures var end := FindHeaderEnd(buf).value; FindHeaderEnd(buf[..end]) == Some(end)
  {
    var end := FindHeaderEnd(buf).value;
    var head, tail := buf[..end], buf[end..];
    assert head + tail == buf;
    AtPrefix(head, tail, CRLFCRLF, end - 4);
    forall j | 0 <= j < end - 4 ensures !At(head, CRLFCRLF, j) {
      AtPrefix(head, tail, CRLFCRLF, j);
    }
    FindUnique(head, CRLFCRLF, end - 4);
  }

  lemma LineAgain(line: bytes, ins: bytes)
    requires ParseRequestLine(line).Some? && Fits(ins)
    ensures var l := ParseRequestLine(line).value;
            ParseRequestLine(l.verb + [SP] + ins + (l.target + [SP] + l.version))
            == Some(RequestLine(l.verb, ins + l.target, l.version))
  {
    var l := ParseRequestLine(line).value;
    LineWords(line);
    var tail := l.target + [SP] + l.version;
    Utf8Split(l.verb, SP, tail);
    AsciiIsUtf8([SP]);
    Utf8Concat(l.verb, [SP]);
    Utf8Concat(l.verb + [SP], ins);
    Utf8Concat(l.verb + [SP] + ins, tail);
    WordsRead(l, ins);
  }

  lemma WordsRead(l: RequestLine, ins: bytes)
    requires Fits(ins) && Utf8(l.verb + [SP] + ins + (l.target + [SP] + l.version))
    requires forall i :: 0 <= i < |l.verb| ==> l.verb[i] != SP
    requires forall i :: 0 <= i < |l.target| ==> l.target[i] != SP
    requires l.verb != [] && l.target != [] && A("HTTP/") <= l.version
    ensures ParseRequestLine(l.verb + [SP] + ins + (l.target + [SP] + l.version)) == Some(RequestLine(l.verb, ins + l.target, l.version))
  {
    var line := l.verb + [SP] + ins + (l.target + [SP] + l.version);
    var rest := ins + l.target + [SP] + l.version;
    assert line == l.verb + [SP] + rest;
    FirstSpace(l.verb, rest);
    FirstSpace(ins + l.target, l.version);
  }

  lemma FirstSpace(a: bytes, b: bytes)
    requires forall i :: 0 <= i < |a| ==> a[i] != SP
    ensures IndexOf(a + [SP] + b, SP) == Some(|a|) && (a + [SP] + b)[..|a|] == a && (a + [SP] + b)[|a| + 1..] == b
  {
    assert (a + [SP] + b)[|a|] == SP;
  }

  /** A rewritten head is one head, with the same headers, and rewriting it changes nothing. */
  lemma HeadAgain(head: bytes, fallback: bytes, other: bytes)
    requires FindHeaderEnd(head) == Some(|head|) && HeadParts(head).Some?
    requires Slash(HeadParts(head).value.l.target) ==> Fits(Authority(HeadParts(head).value.seen, fallback))
    ensures StaysAsItIs(RewrittenHead(HeadParts(head).value, fallback), HeadParts(head).value.seen, other)
  {
    var p := HeadParts(head).value;
    PartsMakeHead(head);
    if Slash(p.l.target) {
      AbsoluteAgain(head, p, fallback, RewrittenHead(p, fallback), other);
    }
  }

  lemma FitsInsertion(a: bytes)
    requires Fits(a)
    ensures Fits(SCHEME + a)
  {
    SchemeFits();
    FitsJoined(SCHEME, a);
  }

  lemma SchemeFits()
    ensures Fits(SCHEME)
  {
    AsciiIsUtf8(SCHEME);
    assert |SCHEME| == 7;
  }

  lemma FitsJoined(a: bytes, b: bytes)
    requires Fits(a) && Fits(b)
    ensures Fits(a + b)
  {
    Utf8Concat(a, b);
  }

  /** `again` is one head with these headers, and rewriting it changes nothing. */
  ghost predicate StaysAsItIs(again: bytes, seen: Seen, other: bytes) {
    && FindHeaderEnd(again) == Some(|again|)
    && HeadParts(again).Some? && HeadParts(again).value.seen == seen
    && RewrittenHead(HeadParts(again).value, other) == again
  }

  lemma AbsoluteAgain(head: bytes, p: Parts, fallback: bytes, again: bytes, other: bytes)
    requires FindHeaderEnd(head) == Some(|head|) && HeadParts(head) == Some(p) && Slash(p.l.target)
    requires again == RewrittenHead(p, fallback) && Fits(Authority(p.seen, fallback))
    ensures StaysAsItIs(again, p.seen, other)
  {
    PartsMakeHead(head);
    RewriteInserts(head, fallback);
    FitsInsertion(Authority(p.seen, fallback));
    CutAtTarget(p.l, p.line, p.rest);
    InsertedAgain(head, p, Insertion(p, fallback), again, other);
  }

  lemma InsertedAgain(head: bytes, p: Parts, ins: bytes, again: bytes, other: bytes)
    requires FindHeaderEnd(head) == Some(|head|) && head == p.line + CRLF + p.rest && Find(head, CRLF) == Some(|p.line|)
    requires ParseRequestLine(p.line) == Some(p.l) && p.line == p.l.verb + [SP] + (p.l.target + [SP] + p.l.version)
    requires p.seen == SeeAll(Seen(None, 0, false), CrlfLines(p.rest))
    requires again == p.l.verb + [SP] + ins + (p.l.target + [SP] + p.l.version + CRLF + p.rest)
    requires Fits(ins) && SCHEME <= ins
    ensures StaysAsItIs(again, p.seen, other)
  {
    var line := p.l.verb + [SP] + ins + (p.l.target + [SP] + p.l.version);
    EndsAgain(head, p.line, p.l, p.rest, ins, again);
    LineAgain(p.line, ins);
    LongerLine(p, ins, line, again);
    PartsAgain(p, ins, line, again, other);
  }

  lemma LongerLine(p: Parts, ins: bytes, line: bytes, again: bytes)
    requires line == p.l.verb + [SP] + ins + (p.l.target + [SP] + p.l.version)
    requires again == p.l.verb + [SP] + ins + (p.l.target + [SP] + p.l.version + CRLF + p.rest)
    requires p.line == p.l.verb + [SP] + (p.l.target + [SP] + p.l.version)
    ensures |line| == |p.line| + |ins| && again == line + CRLF + p.rest
  {
  }

  /** Where the first line and the head end, with the insertion. */
  lemma EndsAgain(head: bytes, line: bytes, l: RequestLine, rest: bytes, ins: bytes, again: bytes)
    requires FindHeaderEnd(head) == Some(|head|) && head == line + CRLF + rest && Find(head, CRLF) == Some(|line|)
    requires line == l.verb + [SP] + (l.target + [SP] + l.version) && Fits(ins)
    requires again == l.verb + [SP] + ins + (l.target + [SP] + l.version + CRLF + rest)
    ensures FindHeaderEnd(again) == Some(|again|) && Find(again, CRLF) == Some(|line| + |ins|)
  {
    CutAtTarget(l, line, rest);
    var pre, tail := l.verb + [SP], l.target + [SP] + l.version + CRLF + rest;
    CutAndJoined(head, |pre|);
    EndsMove(head, pre, ins, tail, |line|);
  }

  lemma CutAndJoined(s: bytes, n: nat)
    requires n <= |s|
    ensures s == s[..n] + s[n..]
  {
  }

  lemma EndsMove(head: bytes, pre: bytes, ins: bytes, tail: bytes, p: nat)
    requires head == pre + tail && FindHeaderEnd(head) == Some(|head|) && Find(head, CRLF) == Some(p) && |pre| <= p
    requires pre != [] && pre[|pre| - 1] == SP && forall i :: 0 <= i < |ins| ==> ins[i] != CR
    ensures FindHeaderEnd(pre + ins + tail) == Some(|pre + ins + tail|) && Find(pre + ins + tail, CRLF) == Some(p + |ins|)
  {
    BlankLineIsCrlf(head, |head| - 4);
    InsertionFinds(pre, ins, tail, CRLF, p);
    InsertionFinds(pre, ins, tail, CRLFCRLF, |head| - 4);
  }

  lemma BlankLineIsCrlf(head: bytes, e: nat)
    requires At(head, CRLFCRLF, e)
    ensures At(head, CRLF, e)
  {
    assert head[e..e + 2] == head[e..e + 4][..2];
  }

  lemma PartsAgain(p: Parts, ins: bytes, line: bytes, again: bytes, other: bytes)
    requires again == line + CRLF + p.rest && Find(again, CRLF) == Some(|line|)
    requires ParseRequestLine(line) == Some(RequestLine(p.l.verb, ins + p.l.target, p.l.version))
    requires p.seen == SeeAll(Seen(None, 0, false), CrlfLines(p.rest))
    requires SCHEME <= ins
    ensures HeadParts(again).Some? && HeadParts(again).value.seen == p.seen
    ensures RewrittenHead(HeadParts(again).value, other) == again
  {
    assert again[..|line|] == line && again[|line| + 2..] == p.rest;
    assert (ins + p.l.target)[0] == SCHEME[0];
  }

  /** Every authority the stream has rewritten in fits a request line. */
  predicate AuthoritiesFit(st: State, buf: bytes, fallback: bytes)
    decreases |buf|, if st.Body? then 1 else 0
  {
    match st
    case Body(n) => |buf| < n || AuthoritiesFit(Head, buf[n..], fallback)
    case Head =>
      match FindHeaderEnd(buf)
      case None => true
      case Some(end) =>
        match HeadParts(buf[..end])
        case None => true
        case Some(p) =>
          && (Slash(p.l.target) ==> Fits(Authority(p.seen, fallback)))
          && (p.seen.chunked || AuthoritiesFit(AfterHead(p.seen), buf[end..], fallback))
  }

  lemma {:induction false} DrivenAgain(st: State, buf: bytes, fallback: bytes, other: bytes)
    requires Drive(st, buf, fallback).Pushed? && AuthoritiesFit(st, buf, fallback)
    requires st.Body? ==> st.remaining > 0
    ensures var d := Drive(st, buf, fallback); Drive(st, d.out, other) == Pushed(d.state, [], d.out)
    decreases |buf|, if st.Body? then 1 else 0
  {
    match st
    case Body(n) =>
      if |buf| >= n {
        var d := Drive(Head, buf[n..], fallback);
        DrivenAgain(Head, buf[n..], fallback, other);
        assert (buf[..n] + d.out)[..n] == buf[..n] && (buf[..n] + d.out)[n..] == d.out;
        BodyWhole(n, buf[..n] + d.out, other);
      }
    case Head =>
      var end := FindHeaderEnd(buf);
      if end.Some? {
        var head, tail := buf[..end.value], buf[end.value..];
        var p := HeadParts(head).value;
        HeadEndsItself(buf);
        HeadAgain(head, fallback, other);
        DrivenAgain(AfterHead(p.seen), tail, fallback, other);
        AgainInFront(RewrittenHead(p, fallback), p.seen, Drive(AfterHead(p.seen), tail, fallback), other);
      } else {
        assert FindHeaderEnd([]).None?;
      }
  }

  lemma AgainInFront(again: bytes, seen: Seen, d: Pushed, other: bytes)
    requires StaysAsItIs(again, seen, other) && !seen.chunked
    requires d.Pushed? && Drive(AfterHead(seen), d.out, other) == Pushed(d.state, [], d.out)
    ensures Drive(Head, again + d.out, other) == Pushed(d.state, [], again + d.out)
  {
    HeaderEndStable(again, d.out);
    assert again[..|again|] == again && again[|again|..] + d.out == d.out;
    HeadWhole(again + d.out, HeadParts(again), d.out, other);
  }

  /** What was sent, sent through another rewriter, is left as it is, however it was cut on the way in and is cut again. */
  lemma RewritingAgainIsIdentity(segs: seq<bytes>, fallback: bytes, again: seq<bytes>, other: bytes)
    requires PushAll(segs, fallback).Pushed? && AuthoritiesFit(Head, Concat(segs), fallback)
    requires Concat(again) == PushAll(segs, fallback).out && HeadsFit(Head, Concat(again), other)
    ensures PushAll(again, other) == Pushed(PushAll(segs, fallback).state, [], PushAll(segs, fallback).out)
  {
    SegmentationIndependent(segs, fallback);
    DrivenAgain(Head, Concat(segs), fallback, other);
    CutNeverMatters(again, other);
  }

  // --- the object ------------------------------------------------------------

  datatype HeadOutcome = HeadOk(out: bytes, length: nat) | HeadErr(error: Error)

  /** `rewrite_head`, scanning the headers line by line. */
  method RewriteHead(head: bytes, fallback: bytes) returns (r: HeadOutcome)
    ensures r == match HeadParts(head)
                 case None => HeadErr(BadRequestLine)
                 case Some(p) => if p.seen.chunked then HeadErr(ChunkedBodyUnsupported)
                                 else HeadOk(RewrittenHead(p, fallback), p.seen.length)
  {
    var firstCrlf := Find(head, CRLF);
    if firstCrlf.None? {
      return HeadErr(BadRequestLine);
    }
    var line, rest := head[..firstCrlf.value], head[firstCrlf.value + 2..];
    var l := ParseRequestLine(line);
    if l.None? {
      return HeadErr(BadRequestLine);
    }
    var lines := HeadEdit.SplitCrlfLines(rest);
    var seen := ScanHeaders(lines);
    if seen.chunked {
      return HeadErr(ChunkedBodyUnsupported);
    }
    r := HeadOk(RewrittenHead(Parts(line, l.value, rest, seen), fallback), seen.length);
  }

  method ScanHeaders(lines: seq<bytes>) returns (seen: Seen)
    ensures seen == SeeAll(Seen(None, 0, false), lines)
  {
    seen := Seen(None, 0, false);
    var i := 0;
    assert lines[0..] == lines;
    while i < |lines|
      invariant i <= |lines| && SeeAll(seen, lines[i..]) == SeeAll(Seen(None, 0, false), lines)
    {
      if lines[i] == [] {
        return;
      }
      assert lines[i..][1..] == lines[i + 1..];
      seen := See(seen, lines[i]);
      i := i + 1;
    }
  }

  datatype Outcome = Ok(out: bytes) | Err(error: Error)

  class HttpForward {
    const fallback: bytes
    var state: State
    var head: bytes

    /** Between calls an unfinished head is held, and nothing while a body streams. */
    ghost predicate Valid() reads this {
      match state
      case Head => FindHeaderEnd(head).None? && |head| <= MAX_HEAD
      case Body(n) => head == [] && n > 0
    }

    constructor (fallback: bytes)
      ensures Valid() && state == Head && head == [] && this.fallback == fallback
    {
      this.fallback, state, head := fallback, Head, [];
    }

    method Push(input: bytes) returns (r: Outcome)
      requires Valid()
      modifies this
      ensures match Drive(old(state), old(head) + input, fallback)
              case Failed(e) => r == Err(e)
              case Pushed(s, h, out) => r == Ok(out) && state == s && head == h && Valid()
    {
      var rest, out: bytes := input, [];
      PrependNothing(Drive(state, head + input, fallback));
      while rest != []
        invariant Valid()
        invariant Drive(old(state), old(head) + input, fallback) == Prepend(out, Drive(state, head + rest, fallback))
        decreases |rest|
      {
        var stop, used, emitted := PushOnce(rest);
        if stop.Some? {
          return Err(stop.value);
        }
        PrependTwice(out, emitted, Drive(state, head + rest[used..], fallback));
        out, rest := out + emitted, rest[used..];
      }
      assert head + [] == head;
      DriveHeld(state, head, fallback);
      assert out + [] == out;
      r := Ok(out);
    }

    /** One turn of the loop in `Push`. */
    method PushOnce(rest: bytes) returns (stop: Option<Error>, used: nat, emitted: bytes)
      requires Valid() && rest != []
      modifies this
      ensures used <= |rest| && (stop.None? ==> Valid() && 0 < used)
      ensures stop.Some? ==> Drive(old(state), old(head) + rest, fallback) == Failed(stop.value)
      ensures stop.None? ==> Drive(old(state), old(head) + rest, fallback) == Prepend(emitted, Drive(state, head + rest[used..], fallback))
    {
      if state.Body? {
        used, emitted := BodyOnce(rest);
        stop := None;
      } else {
        stop, used, emitted := HeadOnce(rest);
      }
    }

    method BodyOnce(rest: bytes) returns (used: nat, emitted: bytes)
      requires Valid() && rest != [] && state.Body?
      modifies this`state
      ensures 0 < used <= |rest| && Valid()
      ensures Drive(old(state), old(head) + rest, fallback) == Prepend(emitted, Drive(state, head + rest[used..], fallback))
    {
      var remaining := state.remaining;
      var take := Min(remaining, |rest|);
      emitted, used := rest[..take], take;
      assert head + rest == rest && head + rest[take..] == rest[take..];
      if remaining == take {
        state := Head;
        BodyWhole(remaining, rest, fallback);
        assert FindHeaderEnd([]).None?;
      } else {
        state := Body(remaining - take);
        BodyPart(remaining, rest, fallback);
        BodyPart(remaining - take, [], fallback);
        assert rest[take..] == [] && rest[..take] == rest;
        assert rest + [] == rest;
      }
    }

    method HeadOnce(rest: bytes) returns (stop: Option<Error>, used: nat, emitted: bytes)
      requires Valid() && rest != [] && state.Head?
      modifies this
      ensures used <= |rest| && (stop.None? ==> Valid() && 0 < used)
      ensures Continues(Drive(Head, old(head) + rest, fallback), stop, emitted, Drive(state, head + rest[used..], fallback))
    {
      ghost var held := head;
      var prev := |head|;
      head := head + rest;
      var end := FindHeaderEnd(head);
      if end.None? {
        used, emitted := |rest|, [];
        HeadUnfinished(head, fallback);
        stop := if |head| > MAX_HEAD then Some(HeadTooLarge) else None;
        assert head + rest[|rest|..] == head;
        PrependNothing(Drive(Head, head, fallback));
        return;
      }
      HeadResult(held, rest, end.value, fallback);
      stop, emitted := HeadDone(end.value);
      used := Min(Max(end.value - prev, 0), |rest|);
      Onward(head, rest, used);
    }

    /** The head is whole, up to `end`. */
    method HeadDone(end: nat) returns (stop: Option<Error>, emitted: bytes)
      requires state.Head? && FindHeaderEnd(head) == Some(end)
      modifies this
      ensures var p := HeadParts(old(head)[..end]);
              if p.None? then stop == Some(BadRequestLine)
              else if p.value.seen.chunked then stop == Some(ChunkedBodyUnsupported)
              else stop == None && emitted == RewrittenHead(p.value, fallback) && state == AfterHead(p.value.seen) && head == []
      ensures stop.None? ==> Valid()
    {
      var rewritten := RewriteHead(head[..end], fallback);
      if rewritten.HeadErr? {
        return Some(rewritten.error), [];
      }
      stop, emitted := None, rewritten.out;
      head := [];
      state := if rewritten.length > 0 then Body(rewritten.length) else Head;
      assert FindHeaderEnd([]).None?;
    }

  }

  /** Either `d` is the failure that `stop` names, or it is what was emitted and then `after`. */
  predicate Continues(d: Pushed, stop: Option<Error>, emitted: bytes, after: Pushed) {
    if stop.Some? then d == Failed(stop.value) else d == Prepend(emitted, after)
  }

  lemma Onward(head: bytes, rest: bytes, used: nat)
    requires used <= |rest|
    ensures head == [] ==> head + rest[used..] == rest[used..]
  {
  }

  /** A head that was unfinished ends in the new bytes; what it comes to, and what comes after it. */
  lemma HeadResult(held: bytes, rest: bytes, end: nat, fallback: bytes)
    requires FindHeaderEnd(held).None? && FindHeaderEnd(held + rest) == Some(end)
    ensures |held| < end <= |held| + |rest|
    ensures var p, d := HeadParts((held + rest)[..end]), Drive(Head, held + rest, fallback);
            if p.None? then d == Failed(BadRequestLine)
            else if p.value.seen.chunked then d == Failed(ChunkedBodyUnsupported)
            else d == Prepend(RewrittenHead(p.value, fallback), Drive(AfterHead(p.value.seen), rest[end - |held|..], fallback))
  {
    FindLater(held, rest, CRLFCRLF);
    assert (held + rest)[end..] == rest[end - |held|..];
    HeadWhole(held + rest, HeadParts((held + rest)[..end]), rest[end - |held|..], fallback);
  }

  lemma HeadUnfinished(buf: bytes, fallback: bytes)
    requires FindHeaderEnd(buf).None?
    ensures Drive(Head, buf, fallback) == if |buf| > MAX_HEAD then Failed(HeadTooLarge) else Pushed(Head, buf, [])
  {
  }

  /** What is held leads nowhere by itself. */
  lemma DriveHeld(st: State, held: bytes, fallback: bytes)
    requires if st.Body? then held == [] && st.remaining > 0 else FindHeaderEnd(held).None? && |held| <= MAX_HEAD
    ensures Drive(st, held, fallback) == Pushed(st, held, [])
  {
  }
}
