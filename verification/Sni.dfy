/** Reading the server name out of the first TLS record (RFC 8446 and section 3 of RFC 6066). */
module Sni {
  import opened Bytes

  datatype Peek = NeedMore | Found(host: bytes) | NoName

  function U16(b: bytes, o: nat): Option<nat> {
    if o + 1 < |b| then Some(b[o] as nat * 256 + b[o + 1]) else None
  }

  /** The first host name among the entries of a server_name list from `pos` on. */
  function NameFrom(ext: bytes, pos: nat, end: nat): (r: Peek)
    requires end <= |ext|
    ensures !r.NeedMore?
    decreases end - pos
  {
    if pos + 3 > end then NoName
    else
      var len := ext[pos + 1] as nat * 256 + ext[pos + 2];
      var start := pos + 3;
      if start + len > end then NoName
      else if ext[pos] == 0 then
        (if Utf8(ext[start..start + len]) && len > 0 then Found(Lower(ext[start..start + len])) else NoName)
      else NameFrom(ext, start + len, end)
  }

  function ParseServerName(ext: bytes): (r: Peek)
    ensures !r.NeedMore?
  {
    match U16(ext, 0)
    case None => NoName
    case Some(len) => NameFrom(ext, 2, Min(2 + len, |ext|))
  }

  /** The name in the first server_name extension from `pos` on. */
  function ExtensionFrom(hs: bytes, pos: nat, end: nat): (r: Peek)
    requires end <= |hs|
    ensures !r.NeedMore?
    decreases end - pos
  {
    if pos + 4 > end then NoName
    else
      var ty := hs[pos] as nat * 256 + hs[pos + 1];
      var len := hs[pos + 2] as nat * 256 + hs[pos + 3];
      if pos + 4 + len > end then NoName
      else if ty == 0 then ParseServerName(hs[pos + 4..pos + 4 + len])
      else ExtensionFrom(hs, pos + 4 + len, end)
  }

  function At8(b: bytes, o: nat): Option<nat> { if o < |b| then Some(b[o]) else None }

  /** Where the extensions of a ClientHello begin and end. */
  function ExtensionsOf(hs: bytes): (r: Option<(nat, nat)>)
    ensures r.Some? ==> r.value.1 <= |hs|
  {
    match At8(hs, 38)
    case None => None
    case Some(sid) =>
      match U16(hs, 39 + sid)
      case None => None
      case Some(cs) =>
        match At8(hs, 41 + sid + cs)
        case None => None
        case Some(cm) =>
          match U16(hs, 42 + sid + cs + cm)
          case None => None
          case Some(total) =>
            var pos := 44 + sid + cs + cm;
            if pos + total > |hs| then None else Some((pos, pos + total))
  }

  function ParseClientHello(hs: bytes): (r: Peek)
    ensures !r.NeedMore?
  {
    if |hs| < 4 || hs[0] != 1 then NoName
    else match ExtensionsOf(hs) case None => NoName case Some((pos, end)) => ExtensionFrom(hs, pos, end)
  }

  /** The end of the first record, once its header is there. */
  function RecordEnd(buf: bytes): nat
    requires |buf| >= 5
  {
    5 + buf[3] as nat * 256 + buf[4]
  }

  function PeekSni(buf: bytes): Peek {
    if |buf| < 5 then NeedMore
    else if buf[0] != 0x16 then NoName
    else if |buf| < RecordEnd(buf) then NeedMore
    else ParseClientHello(buf[5..RecordEnd(buf)])
  }

  // --- as loops --------------------------------------------------------------

  method ScanServerName(ext: bytes) returns (r: Peek)
    ensures r == ParseServerName(ext)
  {
    var listLen := U16(ext, 0);
    if listLen.None? {
      return NoName;
    }
    var listEnd := Min(2 + listLen.value, |ext|);
    var pos := 2;
    while pos + 3 <= listEnd
      invariant ParseServerName(ext) == NameFrom(ext, pos, listEnd)
      decreases listEnd - pos
    {
      var nameLen := U16(ext, pos + 1).value;
      var start := pos + 3;
      var end := start + nameLen;
      if end > listEnd {
        return NoName;
      }
      if ext[pos] == 0 {
        return if Utf8(ext[start..end]) && ext[start..end] != [] then Found(Lower(ext[start..end])) else NoName;
      }
      pos := end;
    }
    return NoName;
  }

  method ScanClientHello(hs: bytes) returns (r: Peek)
    ensures r == ParseClientHello(hs)
  {
    if |hs| < 4 || hs[0] != 1 {
      return NoName;
    }
    var range := ExtensionsOf(hs);
    if range.None? {
      return NoName;
    }
    var (pos, extEnd) := range.value;
    while pos + 4 <= extEnd
      invariant ParseClientHello(hs) == ExtensionFrom(hs, pos, extEnd)
      decreases extEnd - pos
    {
      var body := pos + 4;
      var bodyEnd := body + U16(hs, pos + 2).value;
      if bodyEnd > extEnd {
        return NoName;
      }
      if U16(hs, pos).value == 0 {
        r := ScanServerName(hs[body..bodyEnd]);
        return;
      }
      pos := bodyEnd;
    }
    return NoName;
  }

  // --- more bytes ------------------------------------------------------------

  /** Once it has an answer, more bytes never change it. */
  lemma PeekStable(buf: bytes, y: bytes)
    requires !PeekSni(buf).NeedMore?
    ensures PeekSni(buf + y) == PeekSni(buf)
  {
    if buf[0] == 0x16 {
      assert (buf + y)[5..RecordEnd(buf)] == buf[5..RecordEnd(buf)];
    }
  }

  const SNI_PEEK_CAP: nat := 16 * 1024

  /** The bytes are the start of something whose first record, if there is one, fits the peek buffer. */
  predicate RecordFits(s: bytes) { |s| >= 5 && s[0] == 0x16 ==> RecordEnd(s) <= SNI_PEEK_CAP }

  /** A flow waiting for its name: what it has buffered, and its answer once it has one. */
  datatype Deferred = Waiting(buf: bytes) | Settled(sni: Option<bytes>, buffered: bytes)

  /** More app bytes for a waiting flow, as in `classify_pending`. */
  function Classify(d: Deferred, data: bytes): Deferred {
    match d
    case Settled(_, _) => d
    case Waiting(old_) =>
      var buf := old_ + data;
      var peek := PeekSni(buf);
      if peek.NeedMore? && |buf| <= SNI_PEEK_CAP then Waiting(buf)
      else Settled(if peek.Found? then Some(peek.host) else None, buf)
  }

  function ClassifyAll(segs: seq<bytes>): Deferred {
    if segs == [] then Waiting([]) else Classify(ClassifyAll(segs[..|segs| - 1]), segs[|segs| - 1])
  }

  function NameOf(p: Peek): Option<bytes> { if p.Found? then Some(p.host) else None }

  /** Too much buffered without an answer happens only when the record does not fit. */
  lemma CapMeansAnswer(buf: bytes)
    requires RecordFits(buf) && |buf| > SNI_PEEK_CAP
    ensures !PeekSni(buf).NeedMore?
  {
  }

  /** However a stream is cut, as long as its first record fits: the flow waits exactly while the name cannot be told,
      keeps everything it was given meanwhile, and then settles on the name that the whole stream shows. */
  lemma {:induction false} ClassificationIndependent(segs: seq<bytes>)
    requires RecordFits(Concat(segs))
    ensures var d, all := ClassifyAll(segs), Concat(segs);
            && (d.Waiting? <==> PeekSni(all).NeedMore?)
            && (d.Waiting? ==> d.buf == all)
            && (d.Settled? ==> d.sni == NameOf(PeekSni(all)) && d.buffered <= all)
  {
    if segs != [] {
      var init, last := segs[..|segs| - 1], segs[|segs| - 1];
      assert segs == init + [last];
      ConcatAppend(init, [last]);
      assert Concat([last]) == last;
      var before, all := Concat(init), Concat(segs);
      assert |before| >= 5 ==> before[..5] == all[..5];
      ClassificationIndependent(init);
      if ClassifyAll(init).Settled? {
        PeekStable(before, last);
      } else if |all| > SNI_PEEK_CAP {
        CapMeansAnswer(all);
      }
    }
  }

  // --- a ClientHello that is built -------------------------------------------

  function Be2(n: nat): bytes { [n / 256 % 256, n % 256] }

  datatype Ext = Ext(ty: nat, body: bytes)

  function ExtBytes(e: Ext): bytes { Be2(e.ty) + (Be2(|e.body|) + e.body) }

  function Exts(es: seq<Ext>): bytes { if es == [] then [] else ExtBytes(es[0]) + Exts(es[1..]) }

  predicate Writable(e: Ext) { e.ty < 0x1_0000 && |e.body| < 0x1_0000 }

  /** The first server_name extension decides. */
  function FirstName(es: seq<Ext>): Peek {
    if es == [] then NoName else if es[0].ty == 0 then ParseServerName(es[0].body) else FirstName(es[1..])
  }

  lemma Be2Reads(n: nat, pre: bytes, post: bytes)
    requires n < 0x1_0000
    ensures U16(pre + Be2(n) + post, |pre|) == Some(n)
  {
    var b := pre + Be2(n) + post;
    assert b[|pre|] == Be2(n)[0] && b[|pre| + 1] == Be2(n)[1];
  }

  lemma ExtReads(e: Ext, pre: bytes, post: bytes)
    requires Writable(e)
    ensures var hs, p := pre + ExtBytes(e) + post, |pre|;
            && p + 4 + |e.body| <= |hs| && U16(hs, p) == Some(e.ty) && U16(hs, p + 2) == Some(|e.body|)
            && hs[p + 4..p + 4 + |e.body|] == e.body
  {
    var hs := pre + ExtBytes(e) + post;
    Be2Reads(e.ty, pre, Be2(|e.body|) + e.body + post);
    assert hs == pre + Be2(e.ty) + (Be2(|e.body|) + e.body + post);
    Be2Reads(|e.body|, pre + Be2(e.ty), e.body + post);
    assert hs == pre + Be2(e.ty) + Be2(|e.body|) + (e.body + post);
  }

  lemma ExtensionStep(hs: bytes, p: nat, end: nat, e: Ext)
    requires Writable(e) && p + 4 + |e.body| <= end <= |hs|
    requires U16(hs, p) == Some(e.ty) && U16(hs, p + 2) == Some(|e.body|) && hs[p + 4..p + 4 + |e.body|] == e.body
    ensures ExtensionFrom(hs, p, end) == if e.ty == 0 then ParseServerName(e.body) else ExtensionFrom(hs, p + 4 + |e.body|, end)
  {
  }

  lemma Regroup(pre: bytes, x: bytes, tail: bytes, post: bytes)
    ensures pre + (x + tail) == pre + x + tail
    ensures pre + (x + tail) + post == pre + x + (tail + post)
  {
  }

  lemma ExtsSplit(pre: bytes, es: seq<Ext>, post: bytes)
    requires es != []
    ensures pre + Exts(es) == pre + ExtBytes(es[0]) + Exts(es[1..])
    ensures pre + Exts(es) + post == pre + ExtBytes(es[0]) + (Exts(es[1..]) + post)
    ensures |pre + ExtBytes(es[0])| == |pre| + 4 + |es[0].body|
  {
    Regroup(pre, ExtBytes(es[0]), Exts(es[1..]), post);
  }

  lemma ExtRead(pre: bytes, e: Ext, tail: bytes, post: bytes, hs: bytes, end: nat)
    requires Writable(e) && hs == pre + ExtBytes(e) + (tail + post) && end == |pre + ExtBytes(e) + tail|
    ensures end <= |hs|
    ensures ExtensionFrom(hs, |pre|, end) ==
            if e.ty == 0 then ParseServerName(e.body) else ExtensionFrom(hs, |pre + ExtBytes(e)|, end)
  {
    ExtReads(e, pre, tail + post);
    ExtensionStep(hs, |pre|, end, e);
  }

  lemma {:induction false} ExtensionsRead(pre: bytes, es: seq<Ext>, post: bytes)
    requires forall i :: 0 <= i < |es| ==> Writable(es[i])
    ensures ExtensionFrom(pre + Exts(es) + post, |pre|, |pre + Exts(es)|) == FirstName(es)
    decreases |es|
  {
    if es != [] {
      var e := es[0];
      ExtsSplit(pre, es, post);
      ExtRead(pre, e, Exts(es[1..]), post, pre + Exts(es) + post, |pre + Exts(es)|);
      ExtensionsRead(pre + ExtBytes(e), es[1..], post);
      Assoc(pre + ExtBytes(e), Exts(es[1..]), post);
    }
  }

  /** The parts of a ClientHello before its extensions. */
  datatype Hello = Hello(fixed: bytes, sid: bytes, suites: bytes, methods_: bytes, es: seq<Ext>)

  predicate WritableHello(h: Hello) {
    && |h.fixed| == 37 && |h.sid| < 256 && |h.suites| < 0x1_0000 && |h.methods_| < 256
    && (forall i :: 0 <= i < |h.es| ==> Writable(h.es[i])) && |Exts(h.es)| < 0x1_0000
  }

  function HelloStart(h: Hello): bytes
    requires WritableHello(h)
  {
    [1] + h.fixed + ([|h.sid|] + h.sid) + (Be2(|h.suites|) + h.suites) + ([|h.methods_|] + h.methods_) + Be2(|Exts(h.es)|)
  }

  lemma HelloReads(h: Hello)
    requires WritableHello(h)
    ensures ParseClientHello(HelloStart(h) + Exts(h.es)) == FirstName(h.es)
  {
    var hs := HelloStart(h) + Exts(h.es);
    var a := [1] + h.fixed;
    var b := a + ([|h.sid|] + h.sid);
    var c := b + (Be2(|h.suites|) + h.suites);
    var d := c + ([|h.methods_|] + h.methods_);
    var x, y, z := Exts(h.es), |h.sid|, |h.suites|;
    assert hs[0] == 1 && hs[38] == y;
    assert hs == b + Be2(z) + (h.suites + ([|h.methods_|] + h.methods_) + Be2(|x|) + x);
    Be2Reads(z, b, h.suites + ([|h.methods_|] + h.methods_) + Be2(|x|) + x);
    assert hs[41 + y + z] == |h.methods_|;
    Be2Reads(|x|, d, x);
    assert hs == d + Be2(|x|) + x;
    assert ExtensionsOf(hs) == Some((|HelloStart(h)|, |hs|));
    ExtensionsRead(HelloStart(h), h.es, []);
    assert HelloStart(h) + Exts(h.es) + [] == hs;
  }

  /** A handshake message as one TLS record. */
  function Record(version: bytes, hs: bytes): bytes { [0x16] + version + Be2(|hs|) + hs }

  /** The name read off a record that carries a ClientHello is the one its first server_name extension gives,
      whatever follows the record. */
  lemma PeekFindsName(h: Hello, version: bytes, rest: bytes)
    requires WritableHello(h) && |version| == 2 && |HelloStart(h) + Exts(h.es)| < 0x1_0000
    ensures PeekSni(Record(version, HelloStart(h) + Exts(h.es)) + rest) == FirstName(h.es)
  {
    var hs := HelloStart(h) + Exts(h.es);
    var buf := Record(version, hs) + rest;
    assert buf[0] == 0x16 && buf[3] == Be2(|hs|)[0] && buf[4] == Be2(|hs|)[1];
    assert RecordEnd(buf) == 5 + |hs|;
    assert buf[5..5 + |hs|] == hs;
    HelloReads(h);
  }

  /** The body of a server_name extension with one host name, after entries of other types. */
  function NameEntry(ty: byte, name: bytes): bytes { [ty] + Be2(|name|) + name }

  lemma NameLayout(name: bytes, ext: bytes)
    requires |name| + 3 < 0x1_0000 && ext == Be2(|name| + 3) + NameEntry(0, name)
    ensures |ext| == 5 + |name| && U16(ext, 0) == Some(|name| + 3) && ext[2] == 0
    ensures U16(ext, 3) == Some(|name|) && ext[5..] == name
  {
    var a, b := Be2(|name| + 3), Be2(|name|);
    assert ext[0] == a[0] && ext[1] == a[1];
    assert ext[3] == b[0] && ext[4] == b[1];
  }

  lemma ServerNameReads(name: bytes)
    requires 0 < |name| && |name| + 3 < 0x1_0000 && Utf8(name)
    ensures ParseServerName(Be2(|name| + 3) + NameEntry(0, name)) == Found(Lower(name))
  {
    NameLayout(name, Be2(|name| + 3) + NameEntry(0, name));
    OneName(Be2(|name| + 3) + NameEntry(0, name), name);
  }

  lemma OneName(ext: bytes, name: bytes)
    requires 0 < |name| < 0x1_0000 && Utf8(name) && |ext| == 5 + |name|
    requires U16(ext, 0) == Some(|name| + 3) && ext[2] == 0 && U16(ext, 3) == Some(|name|) && ext[5..] == name
    ensures ParseServerName(ext) == Found(Lower(name))
  {
    assert ext[5..5 + |name|] == name;
    assert NameFrom(ext, 2, |ext|) == Found(Lower(name));
  }
}
