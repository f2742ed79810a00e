/** DNS messages (RFC 1035): reading the first question, and answering that the name does not exist. */
module Dns {
  import opened Bytes

  const MAX_JUMPS: nat := 16

  function U16(b: bytes, o: nat): Option<nat> { if o + 2 <= |b| then Some(b[o] as nat * 256 + b[o + 1]) else None }

  /** What stands at `pos`: the root, a label and what follows it, a pointer, or nothing that can be read. */
  datatype Here = Bad | Root | Label(text: bytes, after: nat) | Pointer(target: nat)

  function NameAt(buf: bytes, pos: nat): (h: Here)
    ensures !h.Bad? ==> pos < |buf|
    ensures h.Label? ==> pos < h.after <= |buf|
  {
    if pos >= |buf| then Bad
    else if buf[pos] == 0 then Root
    else if buf[pos] < 0x40 then
      var e := pos + 1 + buf[pos];
      if e > |buf| || !Utf8(buf[pos + 1..e]) then Bad else Label(Lower(buf[pos + 1..e]), e)
    else if buf[pos] >= 0xC0 && pos + 1 < |buf| then
      var ptr := (buf[pos] as nat - 0xC0) * 256 + buf[pos + 1];
      if ptr >= |buf| then Bad else Pointer(ptr)
    else Bad
  }

  /** Labels of the name at `pos`, and where the name ends in the place it was read from (section 4.1.4 of RFC 1035). */
  function DecodeName(buf: bytes, pos: nat, jumps: nat): (r: Option<(seq<bytes>, nat)>)
    requires jumps <= MAX_JUMPS
    ensures r.Some? ==> pos < r.value.1
    decreases MAX_JUMPS - jumps, |buf| - pos
  {
    match NameAt(buf, pos)
    case Bad => None
    case Root => Some(([], pos + 1))
    case Label(l, e) =>
      (match DecodeName(buf, e, jumps) case None => None case Some((labels, end)) => Some(([l] + labels, end)))
    case Pointer(ptr) =>
      if jumps == MAX_JUMPS then None
      else match DecodeName(buf, ptr, jumps + 1) case None => None case Some((labels, _)) => Some((labels, pos + 2))
  }

  function JoinDots(labels: seq<bytes>): bytes {
    if labels == [] then [] else if |labels| == 1 then labels[0] else labels[0] + [46] + JoinDots(labels[1..])
  }

  /** The question of a message, whatever the flags of the message. */
  datatype Question = Question(name: bytes, qtype: nat, qclass: nat, end: nat)

  function QuestionOf(buf: bytes): (q: Option<Question>)
    ensures q.Some? ==> 17 <= q.value.end <= |buf|
  {
    match DecodeName(buf, 12, 0)
    case None => None
    case Some((labels, next)) =>
      if U16(buf, next).None? || U16(buf, next + 2).None? then None
      else Some(Question(JoinDots(labels), U16(buf, next).value, U16(buf, next + 2).value, next + 4))
  }

  /** A standard query with a question: its id and the question. */
  datatype Query = Query(id: nat, q: Question)

  function ParseQuery(buf: bytes): Option<Query> {
    if |buf| < 12 then None
    else
      var flags := U16(buf, 2).value;
      if flags >= 0x8000 || flags / 0x800 % 16 != 0 || U16(buf, 4).value == 0 then None
      else match QuestionOf(buf) case None => None case Some(q) => Some(Query(U16(buf, 0).value, q))
  }

  // --- the loop --------------------------------------------------------------

  /** A name whose first labels are known, and perhaps where it ends. */
  function Continued(labels: seq<bytes>, endAfter: Option<nat>, r: Option<(seq<bytes>, nat)>): Option<(seq<bytes>, nat)> {
    if r.None? then None else Some((labels + r.value.0, if endAfter.Some? then endAfter.value else r.value.1))
  }

  /** A name followed through its pointers; it ends on every buffer, cycles included. */
  method ScanName(buf: bytes, start: nat) returns (r: Option<(seq<bytes>, nat)>)
    ensures r == DecodeName(buf, start, 0)
  {
    var labels: seq<bytes>, endAfter: Option<nat> := [], None;
    var pos, jumps := start, 0;
    ContinuedNothing(DecodeName(buf, start, 0));
    while true
      invariant 0 <= pos && 0 <= jumps <= MAX_JUMPS
      invariant DecodeName(buf, start, 0) == Continued(labels, endAfter, DecodeName(buf, pos, jumps))
      decreases MAX_JUMPS - jumps, |buf| - pos
    {
      match NameAt(buf, pos) {
        case Bad => return None;
        case Root =>
          assert labels + [] == labels;
          return Some((labels, if endAfter.Some? then endAfter.value else pos + 1));
        case Label(l, e) =>
          LabelTaken(buf, pos, jumps, labels, endAfter, l, e);
          labels, pos := labels + [l], e;
        case Pointer(ptr) =>
          PointerTaken(buf, pos, jumps, labels, endAfter, ptr);
          if endAfter.None? {
            endAfter := Some(pos + 2);
          }
          jumps := jumps + 1;
          if jumps > MAX_JUMPS {
            return None;
          }
          pos := ptr;
      }
    }
  }

  lemma ContinuedNothing(r: Option<(seq<bytes>, nat)>)
    ensures Continued([], None, r) == r
  {
    if r.Some? {
      assert [] + r.value.0 == r.value.0;
    }
  }

  lemma LabelTaken(buf: bytes, pos: nat, jumps: nat, labels: seq<bytes>, endAfter: Option<nat>, l: bytes, e: nat)
    requires jumps <= MAX_JUMPS && NameAt(buf, pos) == Label(l, e)
    ensures Continued(labels, endAfter, DecodeName(buf, pos, jumps))
            == Continued(labels + [l], endAfter, DecodeName(buf, e, jumps))
  {
    var inner := DecodeName(buf, e, jumps);
    if inner.Some? {
      Assoc(labels, [l], inner.value.0);
    }
  }

  lemma PointerTaken(buf: bytes, pos: nat, jumps: nat, labels: seq<bytes>, endAfter: Option<nat>, ptr: nat)
    requires jumps <= MAX_JUMPS && NameAt(buf, pos) == Pointer(ptr)
    ensures Continued(labels, endAfter, DecodeName(buf, pos, jumps)) ==
            if jumps == MAX_JUMPS then None
            else Continued(labels, if endAfter.Some? then endAfter else Some(pos + 2), DecodeName(buf, ptr, jumps + 1))
  {
  }

  /** A pointer to itself is no name. */
  lemma {:induction false} SelfPointerFails(buf: bytes, pos: nat, jumps: nat)
    requires jumps <= MAX_JUMPS && pos + 1 < |buf| && buf[pos] >= 0xC0
    requires (buf[pos] as nat - 0xC0) * 256 + buf[pos + 1] == pos
    ensures DecodeName(buf, pos, jumps).None?
    decreases MAX_JUMPS - jumps
  {
    if jumps < MAX_JUMPS {
      SelfPointerFails(buf, pos, jumps + 1);
    }
  }

  // --- names that are written ------------------------------------------------

  predicate IsLabel(l: bytes) { 0 < |l| < 0x40 && Utf8(l) }

  function EncodeName(labels: seq<bytes>): bytes {
    if labels == [] then [0] else [|labels[0]| % 256] + labels[0] + EncodeName(labels[1..])
  }

  function LowerAll(labels: seq<bytes>): seq<bytes> {
    if labels == [] then [] else [Lower(labels[0])] + LowerAll(labels[1..])
  }

  lemma LabelReads(pre: bytes, l: bytes, rest: bytes, jumps: nat)
    requires IsLabel(l) && jumps <= MAX_JUMPS
    ensures var buf, e := pre + ([|l|] + l + rest), |pre| + 1 + |l|;
            DecodeName(buf, |pre|, jumps) ==
            match DecodeName(buf, e, jumps) case None => None case Some((ls, end)) => Some(([Lower(l)] + ls, end))
  {
    var buf, e := pre + ([|l|] + l + rest), |pre| + 1 + |l|;
    assert buf[|pre|] == |l| && buf[|pre| + 1..e] == l;
  }

  /** A name that was written reads back as its labels in lower case, and ends where it ends. */
  lemma {:induction false} NameRoundTrip(pre: bytes, labels: seq<bytes>, post: bytes, jumps: nat)
    requires jumps <= MAX_JUMPS && forall i :: 0 <= i < |labels| ==> IsLabel(labels[i])
    ensures DecodeName(pre + EncodeName(labels) + post, |pre|, jumps)
            == Some((LowerAll(labels), |pre + EncodeName(labels)|))
    decreases |labels|
  {
    if labels == [] {
      assert (pre + [0] + post)[|pre|] == 0;
    } else {
      var l, more := labels[0], EncodeName(labels[1..]);
      NameRoundTrip(pre + ([|l|] + l), labels[1..], post, jumps);
      LabelInFront(pre, l, more, post, jumps);
    }
  }

  lemma LabelInFront(pre: bytes, l: bytes, more: bytes, post: bytes, jumps: nat)
    requires IsLabel(l) && jumps <= MAX_JUMPS
    ensures var whole, r := pre + ([|l|] + l + more) + post, DecodeName(pre + ([|l|] + l) + more + post, |pre + ([|l|] + l)|, jumps);
            && DecodeName(whole, |pre|, jumps) == (if r.None? then None else Some(([Lower(l)] + r.value.0, r.value.1)))
            && |pre + ([|l|] + l) + more| == |pre + ([|l|] + l + more)|
  {
    LabelReads(pre, l, more + post, jumps);
    Regrouped(pre, [|l|] + l, more, post);
  }

  lemma Regrouped(pre: bytes, x: bytes, more: bytes, post: bytes)
    ensures pre + (x + (more + post)) == pre + (x + more) + post == pre + x + more + post
    ensures pre + x + more == pre + (x + more)
  {
  }

  // --- names with a pointer --------------------------------------------------

  /** The labels of a name without its end. */
  function EncodeLabels(labels: seq<bytes>): bytes {
    if labels == [] then [] else [|labels[0]| % 256] + labels[0] + EncodeLabels(labels[1..])
  }

  /** Two octets that point to the offset `to` (section 4.1.4 of RFC 1035). */
  function PointerTo(to: nat): bytes
    requires to < 0x4000
  {
    [0xC0 + to / 256, to % 256]
  }

  lemma PointerReads(buf: bytes, pos: nat, to: nat, jumps: nat)
    requires to < 0x4000 && to < |buf| && jumps < MAX_JUMPS && At(buf, PointerTo(to), pos)
    ensures DecodeName(buf, pos, jumps) ==
            match DecodeName(buf, to, jumps + 1) case None => None case Some((labels, _)) => Some((labels, pos + 2))
  {
    assert buf[pos] == buf[pos..pos + 2][0] == 0xC0 + to / 256 && buf[pos + 1] == buf[pos..pos + 2][1] == to % 256;
    assert NameAt(buf, pos) == Pointer(to);
  }

  lemma LabelStands(buf: bytes, pos: nat, l: bytes, rest: bytes)
    requires IsLabel(l) && At(buf, [|l|] + l + rest, pos)
    ensures NameAt(buf, pos) == Label(Lower(l), pos + 1 + |l|) && At(buf, rest, pos + 1 + |l|)
  {
    var whole := [|l|] + l + rest;
    var n := |whole|;
    assert buf[pos] == buf[pos..pos + n][0] == |l|;
    assert buf[pos + 1..pos + 1 + |l|] == buf[pos..pos + n][1..1 + |l|] == l;
    assert buf[pos + 1 + |l|..pos + n] == buf[pos..pos + n][1 + |l|..] == rest;
  }

  /** Labels and then a name read as the labels and that name. */
  lemma {:induction false} LabelsRead(buf: bytes, pos: nat, labels: seq<bytes>, more: seq<bytes>, end: nat, jumps: nat)
    requires jumps <= MAX_JUMPS && forall i :: 0 <= i < |labels| ==> IsLabel(labels[i])
    requires At(buf, EncodeLabels(labels), pos) && DecodeName(buf, pos + |EncodeLabels(labels)|, jumps) == Some((more, end))
    ensures DecodeName(buf, pos, jumps) == Some((LowerAll(labels) + more, end))
    decreases |labels|
  {
    if labels == [] {
      assert [] + more == more;
    } else {
      var l, rest := FirstLabel(labels);
      LabelStands(buf, pos, l, rest);
      LabelsRead(buf, pos + 1 + |l|, labels[1..], more, end, jumps);
      OverLabel(buf, pos, l, jumps, LowerAll(labels[1..]), more, end);
    }
  }

  /** Labels and then a pointer read as those labels and what stands where it points; the name ends behind the pointer. */
  lemma CompressedReads(buf: bytes, pos: nat, labels: seq<bytes>, to: nat, more: seq<bytes>, end: nat, jumps: nat)
    requires to < 0x4000 && to < |buf| && jumps < MAX_JUMPS && forall i :: 0 <= i < |labels| ==> IsLabel(labels[i])
    requires At(buf, EncodeLabels(labels), pos) && At(buf, PointerTo(to), pos + |EncodeLabels(labels)|)
    requires DecodeName(buf, to, jumps + 1) == Some((more, end))
    ensures DecodeName(buf, pos, jumps) == Some((LowerAll(labels) + more, pos + |EncodeLabels(labels)| + 2))
  {
    var p := pos + |EncodeLabels(labels)|;
    PointerReads(buf, p, to, jumps);
    LabelsRead(buf, pos, labels, more, p + 2, jumps);
  }

  lemma FirstLabel(labels: seq<bytes>) returns (l: bytes, rest: bytes)
    requires labels != [] && IsLabel(labels[0])
    ensures l == labels[0] && rest == EncodeLabels(labels[1..]) && LowerAll(labels) == [Lower(l)] + LowerAll(labels[1..])
    ensures EncodeLabels(labels) == [|l|] + l + rest && |EncodeLabels(labels)| == 1 + |l| + |rest|
  {
    l, rest := labels[0], EncodeLabels(labels[1..]);
  }

  lemma OverLabel(buf: bytes, pos: nat, l: bytes, jumps: nat, labels: seq<bytes>, more: seq<bytes>, end: nat)
    requires jumps <= MAX_JUMPS && NameAt(buf, pos) == Label(Lower(l), pos + 1 + |l|)
    requires DecodeName(buf, pos + 1 + |l|, jumps) == Some((labels + more, end))
    ensures DecodeName(buf, pos, jumps) == Some(([Lower(l)] + labels + more, end))
  {
    Assoc([Lower(l)], labels, more);
  }

  // --- a query that was written ----------------------------------------------

  const DOT: byte := 46

  predicate NoDot(l: bytes) { forall i :: 0 <= i < |l| ==> l[i] != DOT }

  /** Between the labels of a joined name there is one dot each: cut at its dots, it gives the labels. */
  lemma {:induction false} JoinedSplits(labels: seq<bytes>)
    requires labels != [] && forall i :: 0 <= i < |labels| ==> NoDot(labels[i])
    ensures Split(JoinDots(labels), DOT) == labels
    decreases |labels|
  {
    var l := labels[0];
    if |labels| == 1 {
      assert IndexOf(l, DOT).None?;
    } else {
      JoinedSplits(labels[1..]);
      var rest := JoinDots(labels[1..]);
      var s := l + [DOT] + rest;
      assert s[|l|] == DOT && IndexOf(s, DOT) == Some(|l|);
      assert s[..|l|] == l && s[|l| + 1..] == rest;
    }
  }

  lemma {:induction false} LoweredEach(labels: seq<bytes>)
    ensures |LowerAll(labels)| == |labels| && forall i :: 0 <= i < |labels| ==> LowerAll(labels)[i] == Lower(labels[i])
  {
    if labels != [] {
      LoweredEach(labels[1..]);
      forall i | 0 < i < |labels| ensures LowerAll(labels)[i] == Lower(labels[i]) {
        assert labels[i] == labels[1..][i - 1];
      }
    }
  }

  /** A question as it is written: the labels of the name, its type and its class. */
  function EncodeQuestion(labels: seq<bytes>, qtype: nat, qclass: nat): bytes {
    EncodeName(labels) + [qtype / 256 % 256, qtype % 256] + [qclass / 256 % 256, qclass % 256]
  }

  lemma FieldReads(pre: bytes, n: nat, post: bytes)
    requires n < 0x1_0000
    ensures U16(pre + [n / 256 % 256, n % 256] + post, |pre|) == Some(n)
  {
    var b := pre + [n / 256 % 256, n % 256] + post;
    assert b[|pre|] == n / 256 && b[|pre| + 1] == n % 256;
  }

  /** The name has exactly these labels, in lower case, with a dot between neighbours. */
  predicate NameHas(name: bytes, labels: seq<bytes>) {
    if labels == [] then name == []
    else
      var parts := Split(name, DOT);
      |parts| == |labels| && forall i :: 0 <= i < |labels| ==> parts[i] == Lower(labels[i])
  }

  /** The question of a query that was written: its labels in lower case, and its type and class. */
  lemma QuestionReads(header: bytes, labels: seq<bytes>, qtype: nat, qclass: nat, rest: bytes) returns (q: Question)
    requires |header| == 12 && qtype < 0x1_0000 && qclass < 0x1_0000
    requires forall i :: 0 <= i < |labels| ==> IsLabel(labels[i]) && NoDot(labels[i])
    ensures QuestionOf(header + EncodeQuestion(labels, qtype, qclass) + rest) == Some(q)
    ensures NameHas(q.name, labels) && q.qtype == qtype && q.qclass == qclass && q.end == 12 + |EncodeQuestion(labels, qtype, qclass)|
  {
    var name, t, c := EncodeName(labels), [qtype / 256 % 256, qtype % 256], [qclass / 256 % 256, qclass % 256];
    var buf := header + EncodeQuestion(labels, qtype, qclass) + rest;
    var pre := header + name;
    QuestionApart(header, name, t, c, rest);
    NameRoundTrip(header, labels, t + c + rest, 0);
    FieldReads(pre, qtype, c + rest);
    FieldReads(pre + t, qclass, rest);
    q := Question(JoinDots(LowerAll(labels)), qtype, qclass, |pre| + 4);
    LoweredName(labels);
  }

  lemma QuestionApart(header: bytes, name: bytes, t: bytes, c: bytes, rest: bytes)
    ensures var buf := header + (name + t + c) + rest;
            buf == header + name + (t + c + rest) && buf == header + name + t + (c + rest) && buf == header + name + t + c + rest
  {
  }

  lemma LoweredName(labels: seq<bytes>)
    requires forall i :: 0 <= i < |labels| ==> NoDot(labels[i])
    ensures NameHas(JoinDots(LowerAll(labels)), labels)
  {
    LoweredEach(labels);
    if labels != [] {
      forall i | 0 <= i < |labels| ensures NoDot(LowerAll(labels)[i]) {
        assert NoDot(labels[i]);
      }
      JoinedSplits(LowerAll(labels));
    }
  }

  /** A message is a standard query if and only if its header says so, bit by bit, and a question follows that can be read. */
  lemma QueryIff(buf: bytes)
    ensures ParseQuery(buf).Some? <==>
            && |buf| >= 12 && buf[2] < 0x80 && buf[2] / 8 == 0 && (buf[4] != 0 || buf[5] != 0)
            && QuestionOf(buf).Some?
    ensures ParseQuery(buf).Some? ==>
              ParseQuery(buf).value.id == buf[0] as nat * 256 + buf[1] && Some(ParseQuery(buf).value.q) == QuestionOf(buf)
  {
    if |buf| >= 12 {
      OpcodeBits(buf[2], buf[3]);
    }
  }

  lemma OpcodeBits(hi: byte, lo: byte)
    ensures var flags := hi as nat * 256 + lo;
            (flags < 0x8000 <==> hi < 0x80) && (hi < 0x80 ==> (flags / 0x800 % 16 == 0 <==> hi / 8 == 0))
  {
    var flags := hi as nat * 256 + lo;
    assert flags / 0x800 == hi / 8;
  }

  // --- names without pointers ------------------------------------------------

  /** The name at `pos` is written out in full. */
  predicate Uncompressed(buf: bytes, pos: nat)
    decreases |buf| - pos
  {
    pos < |buf| && (buf[pos] == 0 || (buf[pos] < 0x40 && Uncompressed(buf, pos + 1 + buf[pos])))
  }

  /** Such a name depends on nothing but its own bytes. */
  lemma {:induction false} SameName(a: bytes, b: bytes, pos: nat, lo: nat)
    requires Uncompressed(a, pos) && DecodeName(a, pos, 0).Some? && lo <= pos
    requires |a| >= DecodeName(a, pos, 0).value.1 && |b| >= DecodeName(a, pos, 0).value.1
    requires forall i :: lo <= i < DecodeName(a, pos, 0).value.1 ==> a[i] == b[i]
    ensures DecodeName(b, pos, 0) == DecodeName(a, pos, 0)
    decreases |a| - pos
  {
    if a[pos] != 0 {
      var e := pos + 1 + a[pos];
      SameName(a, b, e, lo);
      assert a[pos + 1..e] == b[pos + 1..e];
    }
  }

  // --- NXDOMAIN --------------------------------------------------------------

  const NXDOMAIN: nat := 3

  function ResponseFlags(query: bytes, rcode: nat): nat
    requires |query| >= 4
  {
    0x8000 + U16(query, 2).value / 0x100 % 2 * 0x100 + 0x80 + rcode % 16
  }

  /** `build_response`: the query's header and question with the response's flags and counts, then the answers. */
  method BuildResponse(query: bytes, end: nat, rcode: nat, answers: bytes, ancount: nat) returns (out: bytes)
    requires 12 <= end <= |query| && ancount < 0x1_0000
    ensures out == Response(query, end, rcode, answers, ancount)
  {
    out := query[..end];
    var flags := ResponseFlags(query, rcode);
    out := out[2 := flags / 256];
    out := out[3 := flags % 256];
    out := out[6 := ancount / 256];
    out := out[7 := ancount % 256];
    out := out[8 := 0][9 := 0];
    out := out[10 := 0][11 := 0];
    out := out + answers;
  }

  function Response(query: bytes, end: nat, rcode: nat, answers: bytes, ancount: nat): bytes
    requires 12 <= end <= |query| && ancount < 0x1_0000
  {
    var flags := ResponseFlags(query, rcode);
    query[..2] + [flags / 256, flags % 256] + query[4..6] + [ancount / 256, ancount % 256] + [0, 0, 0, 0] + query[12..end] + answers
  }

  function NxDomain(query: bytes, q: Question): bytes
    requires 17 <= q.end <= |query|
  {
    Response(query, q.end, NXDOMAIN, [], 0)
  }

  /** The answer says of the same id, and for a name written out in full of the same question, that there is no such
      name: a response, with the query's recursion bit, no records, and no byte of the question lost. */
  lemma NxDomainAnswers(query: bytes)
    requires ParseQuery(query).Some?
    ensures var p := ParseQuery(query).value;
            var out := NxDomain(query, p.q);
            && |out| == p.q.end && U16(out, 0) == Some(p.id) && out[12..] == query[12..p.q.end]
            && U16(out, 2) == Some(0x8083 + if query[2] % 2 == 1 then 0x100 else 0)
            && U16(out, 4) == U16(query, 4) && U16(out, 6) == Some(0) && U16(out, 8) == Some(0) && U16(out, 10) == Some(0)
            && (Uncompressed(query, 12) ==> QuestionOf(out) == Some(p.q))
  {
    var p := ParseQuery(query).value;
    var out := NxDomain(query, p.q);
    NxDomainHeader(query, p.q);
    assert U16(query, 2).value / 0x100 == query[2];
    if Uncompressed(query, 12) {
      SameQuestion(query, out);
    }
  }

  /** A question with its name written out in full is the same wherever its bytes are. */
  lemma SameQuestion(a: bytes, b: bytes)
    requires QuestionOf(a).Some? && Uncompressed(a, 12) && |b| == QuestionOf(a).value.end && b[12..] == a[12..|b|]
    ensures QuestionOf(b) == QuestionOf(a)
  {
    var next := DecodeName(a, 12, 0).value.1;
    forall i | 12 <= i < |b| ensures a[i] == b[i] {
      assert b[12..][i - 12] == a[12..|b|][i - 12];
    }
    SameName(a, b, 12, 12);
    assert U16(b, next) == U16(a, next) && U16(b, next + 2) == U16(a, next + 2);
  }

  lemma NxDomainHeader(query: bytes, q: Question)
    requires 17 <= q.end <= |query|
    ensures var out := NxDomain(query, q);
            && |out| == q.end && U16(out, 0) == U16(query, 0) && out[12..] == query[12..q.end]
            && U16(out, 2) == Some(ResponseFlags(query, NXDOMAIN))
            && U16(out, 4) == U16(query, 4) && U16(out, 6) == Some(0) && U16(out, 8) == Some(0) && U16(out, 10) == Some(0)
  {
    var out := NxDomain(query, q);
    assert out[0] == query[0] && out[1] == query[1] && out[4] == query[4] && out[5] == query[5];
  }
}
