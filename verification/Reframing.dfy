/** What comes out of the rewriter is again a stream of as many messages, each saying its true length. */
module Reframing {
  import opened Bytes
  import opened Chunked
  import opened HttpHead
  import opened HeadReparse
  import opened Anchor
  import opened Rewriter
  import opened Messages
  import HeadEdit

  /** A head whose only line ending is CRLF, without folded lines, whose length line the editor knows by name. */
  ghost predicate Editable(m: Message, lines: seq<bytes>) {
    && |lines| >= 1 && CleanLines(lines) && Unfolded(lines[1..]) && m.head == RawHead(lines)
    && (FramingOf(m).Some? && FramingOf(m).value.Length? ==>
          LengthLineOf(lines[1..]).Some? && HeadEdit.IsContentLength(LengthLineOf(lines[1..]).value))
  }

  lemma ReadsAsLines(lines: seq<bytes>)
    requires |lines| >= 1 && CleanLines(lines)
    ensures ReadHead(RawHead(lines)) ==
            match ParseFields(lines[1..])
            case None => None
            case Some(hs) => match ParseStatusLine(lines[0]) case None => None case Some(st) => Some(RespHead(st, hs))
  {
    ParsesAsLines(lines);
  }

  /** The edited head of a framed message: found whole, same status, and the fields that frame the body kept. */
  lemma EditedReads(m: Message, lines: seq<bytes>, setCl: Option<nat>) returns (headers: seq<Header>)
    requires FramedAs(m) && Editable(m, lines)
    ensures var edited := HeadEdit.EditResponseHead(m.head, setCl);
            && FindHeaderEnd(edited) == Some(|edited|)
            && ReadHead(edited) == Some(RespHead(m.status, headers))
    ensures IsChunked(headers) == IsChunked(m.headers) && (setCl.None? ==> ContentLength(headers) == ContentLength(m.headers))
    ensures ParseFields(EditedFields(lines[1..], setCl)) == Some(headers) && ParseFields(lines[1..]) == Some(m.headers)
  {
    var edited := EditedHead(lines, setCl);
    EditedHeadIsHead(lines, setCl);
    HeadItself(edited);
    ReadsAsLines(lines);
    ReadsAsLines(edited);
    assert edited[1..] == EditedFields(lines[1..], setCl);
    CodingIsOther();
    OtherFieldsKept(lines[1..], setCl, A("transfer-encoding"));
    if setCl.None? {
      OtherFieldsKept(lines[1..], setCl, A("content-length"));
    }
    headers := ParseFields(EditedFields(lines[1..], setCl)).value;
  }

  lemma HeadItself(lines: seq<bytes>)
    requires |lines| >= 1 && CleanLines(lines)
    ensures FindHeaderEnd(RawHead(lines)) == Some(|RawHead(lines)|)
  {
    HeaderEnds(lines, []);
    assert RawHead(lines) + [] == RawHead(lines);
  }

  lemma SizedReads(fields: seq<bytes>, headers: seq<Header>, n: nat)
    requires CleanLines(fields) && ParseFields(fields).Some? && n <= USIZE_MAX
    requires ParseFields(EditedFields(fields, Some(n))) == Some(headers)
    requires LengthLineOf(fields).Some? && HeadEdit.IsContentLength(LengthLineOf(fields).value)
    ensures ContentLength(headers) == Some(n)
  {
    LengthAfterEdit(fields, n);
    DigitsTrim(n);
    NumberRoundTrip(n, 10, USIZE_MAX);
  }

  /** What the planned body is, spelt out for an injected message. */
  lemma PlannedBody(m: Message, blob: bytes, v: Verdict, e: bytes)
    requires FramedAs(m) && Injected(m) && Decided(Doc(m), v) && v.Inject? && BodyOut(PlanOf(m, blob, v), e)
    ensures if FramingOf(m) == Some(Framing.Chunked) then
              Complete(InSize([]), e) && Body(InSize([]), e) == PlanOf(m, blob, v).docOut
            else e == PlanOf(m, blob, v).docOut && |e| == |Doc(m)| + |blob|
    ensures FramingOf(m).value.Length? ==> e != [] && ContentLength(m.headers) == Some(|Doc(m)|)
  {
    InjectedLength(Doc(m), v, blob);
  }

  lemma EditedMessage(m: Message, lines: seq<bytes>, setCl: Option<nat>, e: bytes) returns (m': Message)
    requires FramedAs(m) && Editable(m, lines)
    ensures m'.head == HeadEdit.EditResponseHead(m.head, setCl) && m'.wire == e
    ensures m'.status == m.status && m'.isHead == m.isHead && IsChunked(m'.headers) == IsChunked(m.headers)
    ensures setCl.None? ==> ContentLength(m'.headers) == ContentLength(m.headers)
    ensures FindHeaderEnd(m'.head) == Some(|m'.head|) && ReadHead(m'.head) == Some(RespHead(m'.status, m'.headers))
    ensures ParseFields(EditedFields(lines[1..], setCl)) == Some(m'.headers) && ParseFields(lines[1..]) == Some(m.headers)
  {
    var headers := EditedReads(m, lines, setCl);
    m' := Message(HeadEdit.EditResponseHead(m.head, setCl), e, m.isHead, m.status, headers);
  }

  lemma InjectedIsMessage(m: Message, blob: bytes, v: Verdict, e: bytes, lines: seq<bytes>) returns (m': Message)
    requires FramedAs(m) && Editable(m, lines) && blob != []
    requires Injected(m) && Decided(Doc(m), v) && v.Inject? && |Doc(m)| + |blob| <= USIZE_MAX
    requires BodyOut(PlanOf(m, blob, v), e)
    ensures Wire(m') == HeadEdit.EditResponseHead(m.head, NewLength(ContentLength(m.headers), blob)) + e && FramedAs(m')
    ensures m'.status == m.status && m'.isHead == m.isHead
    ensures Doc(m') == PlanOf(m, blob, v).docOut
  {
    m' := EditedMessage(m, lines, NewLength(ContentLength(m.headers), blob), e);
    NewLengthFrames(m, m', blob, v, lines);
  }

  lemma NewLengthFrames(m: Message, m': Message, blob: bytes, v: Verdict, lines: seq<bytes>)
    requires FramedAs(m) && Editable(m, lines) && blob != []
    requires Injected(m) && Decided(Doc(m), v) && v.Inject? && |Doc(m)| + |blob| <= USIZE_MAX
    requires BodyOut(PlanOf(m, blob, v), m'.wire)
    requires m'.status == m.status && m'.isHead == m.isHead && IsChunked(m'.headers) == IsChunked(m.headers)
    requires ContentLength(m.headers).None? ==> ContentLength(m'.headers).None?
    requires FindHeaderEnd(m'.head) == Some(|m'.head|) && ReadHead(m'.head) == Some(RespHead(m'.status, m'.headers))
    requires ParseFields(EditedFields(lines[1..], NewLength(ContentLength(m.headers), blob))) == Some(m'.headers)
    requires ParseFields(lines[1..]) == Some(m.headers)
    ensures FramedAs(m') && Doc(m') == PlanOf(m, blob, v).docOut
  {
    PlannedBody(m, blob, v, m'.wire);
    EditableLength(m, lines);
    ClosingUnsized(m);
    if FramingOf(m).value.Length? {
      assert NewLength(ContentLength(m.headers), blob) == Some(|m'.wire|);
      SizedReads(lines[1..], m'.headers, |m'.wire|);
    }
    NewBodyFrames(m, m', PlanOf(m, blob, v).docOut);
  }

  lemma ClosingUnsized(m: Message)
    requires FramingOf(m).Some?
    ensures Closing(m) ==> ContentLength(m.headers).None?
  {
  }

  lemma NewBodyFrames(m: Message, m': Message, doc: bytes)
    requires FramedAs(m) && Injected(m)
    requires m'.status == m.status && m'.isHead == m.isHead && IsChunked(m'.headers) == IsChunked(m.headers)
    requires FindHeaderEnd(m'.head) == Some(|m'.head|) && ReadHead(m'.head) == Some(RespHead(m'.status, m'.headers))
    requires FramingOf(m).value.Chunked? ==> Complete(InSize([]), m'.wire) && Body(InSize([]), m'.wire) == doc
    requires !FramingOf(m).value.Chunked? ==> m'.wire == doc
    requires FramingOf(m).value.Length? ==> m'.wire != [] && ContentLength(m'.headers) == Some(|m'.wire|)
    requires Closing(m) ==> ContentLength(m'.headers) == ContentLength(m.headers)
    ensures FramedAs(m') && Doc(m') == doc
  {
    SameKind(m, m');
  }

  lemma EditableLength(m: Message, lines: seq<bytes>)
    requires FramedAs(m) && Editable(m, lines) && FramingOf(m).Some?
    ensures CleanLines(lines[1..])
    ensures FramingOf(m).value.Length? ==>
              LengthLineOf(lines[1..]).Some? && HeadEdit.IsContentLength(LengthLineOf(lines[1..]).value)
  {
  }

  lemma VerbatimIsMessage(m: Message, blob: bytes, v: Verdict, e: bytes) returns (m': Message)
    requires FramedAs(m) && !(Injected(m) && v.Inject?)
    requires BodyOut(PlanOf(m, blob, v), e)
    ensures Wire(m') == m.head + e && FramedAs(m')
    ensures m'.status == m.status && m'.isHead == m.isHead
    ensures Doc(m') == PlanOf(m, blob, v).docOut
  {
    m' := m.(wire := e);
  }

  /** The output for one message is the wire form of one framed message that carries the planned document. */
  lemma OutputIsMessage(m: Message, blob: bytes, v: Verdict, out: bytes, lines: seq<bytes>) returns (m': Message)
    requires Fits(m, blob) && Editable(m, lines) && blob != []
    requires Delivered(PlanOf(m, blob, v), out)
    ensures Wire(m') == out && Framed(m')
    ensures m'.status == m.status && m'.isHead == m.isHead
    ensures Doc(m') == PlanOf(m, blob, v).docOut
  {
    var e :| out == PlanOf(m, blob, v).headOut + e && BodyOut(PlanOf(m, blob, v), e);
    FramedIsFramed(m);
    if Injected(m) && v.Inject? {
      m' := InjectedIsMessage(m, blob, v, e, lines);
    } else {
      m' := VerbatimIsMessage(m, blob, v, e);
    }
    FramedIsFramed(m');
  }

  lemma InjectedLength(doc: bytes, v: Verdict, blob: bytes)
    requires Decided(doc, v) && v.Inject?
    ensures |Apply(v, doc, blob)| == |doc| + |blob|
  {
    DecidedInRange(doc, v);
  }

  /** A message of the same status and coding, with a length that fits, is delimited in the same way. */
  lemma SameKind(m: Message, m': Message)
    requires FramingOf(m).Some?
    requires m'.status == m.status && m'.isHead == m.isHead && IsChunked(m'.headers) == IsChunked(m.headers)
    requires FramingOf(m).value.Length? ==> m'.wire != [] && ContentLength(m'.headers) == Some(|m'.wire|)
    requires Closing(m) ==> ContentLength(m'.headers) == ContentLength(m.headers)
    ensures FramingOf(m') == match FramingOf(m).value
                             case Chunked => Some(Framing.Chunked)
                             case Length(_) => Some(Length(|m'.wire|))
                             case UntilClose => Some(UntilClose)
  {
  }

  /** `m'` is `m` again, with the blob in its document once at an offset the scan may settle on, or with the same document. */
  ghost predicate Carries(m': Message, m: Message, blob: bytes) {
    && Framed(m') && m'.status == m.status && m'.isHead == m.isHead
    && if !Injected(m) then Doc(m') == Doc(m)
       else exists v :: Decided(Doc(m), v) && Doc(m') == Apply(v, Doc(m), blob)
  }

  /** What was delivered for one message is one message again. */
  lemma DeliveredIsMessage(m: Message, blob: bytes, out: bytes, lines: seq<bytes>) returns (m': Message)
    requires Fits(m, blob) && Editable(m, lines) && blob != [] && DeliveredOne(m, out, blob)
    ensures Wire(m') == out && Carries(m', m, blob)
  {
    var v :| Delivered(PlanOf(m, blob, v), out);
    m' := OutputIsMessage(m, blob, v, out, lines);
  }

  /** A whole stream: as many messages come out as went in. */
  lemma {:induction false} StreamReframed(ms: seq<Message>, blob: bytes, outs: seq<bytes>, lines: seq<seq<bytes>>)
    returns (ms': seq<Message>)
    requires AllFit(ms, blob) && blob != [] && |outs| == |ms| == |lines|
    requires AllDelivered(outs, ms, blob) && forall i :: 0 <= i < |ms| ==> Editable(ms[i], lines[i])
    ensures |ms'| == |ms| && Concat(outs) == WireAll(ms')
    ensures forall i :: 0 <= i < |ms| ==> Carries(ms'[i], ms[i], blob)
  {
    if ms == [] {
      ms' := [];
    } else {
      var m' := DeliveredIsMessage(ms[0], blob, outs[0], lines[0]);
      var rest := StreamReframed(ms[1..], blob, outs[1..], lines[1..]);
      ms' := [m'] + rest;
      JoinMessages(m', rest);
    }
  }

  lemma JoinMessages(m: Message, rest: seq<Message>)
    ensures WireAll([m] + rest) == Wire(m) + WireAll(rest)
  {
    assert ([m] + rest)[1..] == rest;
  }

  /** Taking the blob back out at its place gives the document that came in. */
  lemma DeletingBlobRestores(m: Message, blob: bytes, v: Verdict)
    requires Injected(m) ==> Decided(Doc(m), v)
    ensures var p := PlanOf(m, blob, v);
            if Injected(m) && v.Inject? then
              v.at <= |p.doc| && p.docOut[..v.at] + p.docOut[v.at + |blob|..] == p.doc && p.docOut[v.at..v.at + |blob|] == blob
            else p.docOut == p.doc
  {
    if Injected(m) && v.Inject? {
      DecidedInRange(Doc(m), v);
      DeletingRestores(Doc(m), v, blob);
    }
  }

  lemma DeletingRestores(doc: bytes, v: Verdict, blob: bytes)
    requires v.Inject? ==> v.at <= |doc|
    ensures v.Inject? ==> var d := Apply(v, doc, blob);
              d[..v.at] + d[v.at + |blob|..] == doc && d[v.at..v.at + |blob|] == blob
  {
  }
}
