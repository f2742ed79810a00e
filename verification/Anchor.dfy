/** Where in an HTML document the blob goes. */
module Anchor {
  import opened Bytes

  const MAX_ANCHOR_SCAN: nat := 64 * 1024
  const LT: byte := 60
  const GT: byte := 62
  const MARKER: bytes := A("adw-cosmetic")
  const HEAD_TAG: bytes := [104, 101, 97, 100]
  const BODY_TAG: bytes := [98, 111, 100, 121]
  const HTML_TAG: bytes := [104, 116, 109, 108]
  const DOCTYPE: bytes := [60, 33, 100, 111, 99, 116, 121, 112, 101]

  predicate IsNameEnd(c: byte) { c == 62 || c == 32 || c == 9 || c == 13 || c == 10 || c == 12 || c == 47 }

  /** `name` stands at `i`, whatever the case of its letters. */
  predicate WordAt(hay: bytes, name: bytes, i: int) {
    0 <= i && i + |name| <= |hay| && EqIgnoreCase(hay[i..i + |name|], name)
  }

  /** An open tag `<name` starts at `i` and its name ends there. */
  predicate TagAt(hay: bytes, name: bytes, i: int) {
    && 0 <= i && i + 1 + |name| < |hay|
    && hay[i] == LT && WordAt(hay, name, i + 1) && IsNameEnd(hay[i + 1 + |name|])
  }

  function TagFrom(hay: bytes, name: bytes, i: nat): (r: Option<nat>)
    ensures r.Some? ==> i <= r.value && TagAt(hay, name, r.value) && forall j :: i <= j < r.value ==> !TagAt(hay, name, j)
    ensures r.None? ==> forall j :: i <= j ==> !TagAt(hay, name, j)
    decreases |hay| - i
  {
    if |hay| <= i then None
    else if TagAt(hay, name, i) then Some(i)
    else TagFrom(hay, name, i + 1)
  }

  /** The first `<name`. */
  function TagStart(hay: bytes, name: bytes): (r: Option<nat>)
    ensures r.Some? ==> TagAt(hay, name, r.value) && forall j :: 0 <= j < r.value ==> !TagAt(hay, name, j)
    ensures r.None? ==> forall j :: 0 <= j ==> !TagAt(hay, name, j)
  {
    TagFrom(hay, name, 0)
  }

  function PastGt(hay: bytes, start: Option<nat>): Option<nat> {
    match start
    case None => None
    case Some(s) => match IndexFrom(hay, GT, s) case None => None case Some(g) => Some(g + 1)
  }

  /** Just past the `>` of the first `<name ...>`. */
  function TagOpenEnd(hay: bytes, name: bytes): Option<nat> { PastGt(hay, TagStart(hay, name)) }

  function WordFrom(hay: bytes, word: bytes, i: nat): (r: Option<nat>)
    ensures r.Some? ==> i <= r.value && WordAt(hay, word, r.value) && forall j :: i <= j < r.value ==> !WordAt(hay, word, j)
    ensures r.None? ==> forall j :: i <= j ==> !WordAt(hay, word, j)
    decreases |hay| - i
  {
    if |hay| < i + |word| then None
    else if WordAt(hay, word, i) then Some(i)
    else WordFrom(hay, word, i + 1)
  }

  function DoctypeEnd(hay: bytes): Option<nat> { PastGt(hay, WordFrom(hay, DOCTYPE, 0)) }

  /** The offset to commit to while the document is still arriving. */
  function AnchorStreaming(scan: bytes): Option<nat> {
    var head := TagOpenEnd(scan, HEAD_TAG);
    var body := TagStart(scan, BODY_TAG);
    if head.Some? && body.Some? then (if head.value <= body.value then head else body)
    else if head.Some? then head
    else body
  }

  /** The best offset once no more is to be awaited. */
  function AnchorFinal(scan: bytes): Option<nat> {
    var head := TagOpenEnd(scan, HEAD_TAG);
    var body := TagStart(scan, BODY_TAG);
    var html := TagOpenEnd(scan, HTML_TAG);
    if head.Some? then head
    else if body.Some? then body
    else if html.Some? then html
    else DoctypeEnd(scan)
  }

  lemma AnchorInRange(scan: bytes)
    ensures AnchorStreaming(scan).Some? ==> AnchorStreaming(scan).value <= |scan|
    ensures AnchorFinal(scan).Some? ==> AnchorFinal(scan).value <= |scan|
  {
  }

  // --- the offsets, without the searches -------------------------------------

  /** `g` is just past the first `>` from `start` on. */
  predicate Closes(hay: bytes, start: int, g: int) {
    0 <= start < g <= |hay| && hay[g - 1] == GT && forall j :: start <= j < g - 1 ==> hay[j] != GT
  }

  /** The first tag `<name` starts at `s`. */
  predicate FirstTag(hay: bytes, name: bytes, s: nat) { TagAt(hay, name, s) && forall j :: 0 <= j < s ==> !TagAt(hay, name, j) }

  /** The first tag `<name` ends just in front of `e`. */
  predicate FirstTagEnds(hay: bytes, name: bytes, e: nat) { exists s :: 0 <= s < |hay| && FirstTag(hay, name, s) && Closes(hay, s, e) }

  /** The first doctype ends just in front of `e`. */
  predicate FirstDoctypeEnds(hay: bytes, e: nat) {
    exists s :: 0 <= s < |hay| && WordAt(hay, A("<!doctype"), s) && (forall j :: 0 <= j < s ==> !WordAt(hay, A("<!doctype"), j))
                && Closes(hay, s, e)
  }

  lemma PastGtCloses(hay: bytes, s: nat)
    requires s < |hay|
    ensures forall e: nat :: PastGt(hay, Some(s)) == Some(e) <==> Closes(hay, s, e)
  {
    var g := IndexFrom(hay, GT, s);
    forall e | Closes(hay, s, e) ensures PastGt(hay, Some(s)) == Some(e) {
      assert hay[e - 1] == GT;
    }
  }

  lemma TagOpenEndIs(hay: bytes, name: bytes)
    ensures forall e: nat :: TagOpenEnd(hay, name) == Some(e) <==> FirstTagEnds(hay, name, e)
    ensures TagOpenEnd(hay, name).Some? ==> FirstTagEnds(hay, name, TagOpenEnd(hay, name).value)
  {
    var s := TagStart(hay, name);
    if s.Some? {
      PastGtCloses(hay, s.value);
      assert FirstTag(hay, name, s.value);
      forall t: nat | FirstTag(hay, name, t) ensures t == s.value {
        assert TagAt(hay, name, t) && TagAt(hay, name, s.value);
      }
    }
  }

  lemma TagStartIs(hay: bytes, name: bytes)
    ensures forall s: nat :: TagStart(hay, name) == Some(s) <==> FirstTag(hay, name, s)
    ensures TagStart(hay, name).Some? ==> FirstTag(hay, name, TagStart(hay, name).value)
  {
    var t := TagStart(hay, name);
    forall s: nat | FirstTag(hay, name, s) ensures t == Some(s) {
      assert TagAt(hay, name, s) && t.Some? ==> TagAt(hay, name, t.value);
    }
  }

  lemma DoctypeEndIs(hay: bytes)
    ensures forall e: nat :: DoctypeEnd(hay) == Some(e) <==> FirstDoctypeEnds(hay, e)
    ensures DoctypeEnd(hay).Some? ==> FirstDoctypeEnds(hay, DoctypeEnd(hay).value)
  {
    assert DOCTYPE == A("<!doctype");
    var s := WordFrom(hay, DOCTYPE, 0);
    if s.Some? {
      PastGtCloses(hay, s.value);
    }
  }

  predicate HeadEnds(scan: bytes, e: nat) { FirstTagEnds(scan, A("head"), e) }

  predicate BodyStarts(scan: bytes, s: nat) { FirstTag(scan, A("body"), s) }

  lemma TagsSpelt()
    ensures HEAD_TAG == A("head") && BODY_TAG == A("body") && HTML_TAG == A("html")
  {
  }

  /** While the document arrives: just past the first head tag, or in front of the first body tag, whichever comes first. */
  lemma StreamingIs(scan: bytes, at: nat)
    ensures AnchorStreaming(scan) == Some(at) <==>
            || (HeadEnds(scan, at) && forall b :: BodyStarts(scan, b) ==> at <= b)
            || (BodyStarts(scan, at) && forall e :: HeadEnds(scan, e) ==> at < e)
  {
    TagsSpelt();
    TagOpenEndIs(scan, HEAD_TAG);
    TagStartIs(scan, BODY_TAG);
    var head, body := TagOpenEnd(scan, HEAD_TAG), TagStart(scan, BODY_TAG);
    assert head.Some? ==> HeadEnds(scan, head.value);
    assert body.Some? ==> BodyStarts(scan, body.value);
  }

  /** In the end: just past the first head tag; without one, in front of the first body tag; without that, just past the first html
      tag; and without that, just past the doctype. */
  lemma FinalIs(scan: bytes, at: nat)
    ensures AnchorFinal(scan) == Some(at) <==>
            if exists e :: HeadEnds(scan, e) then HeadEnds(scan, at)
            else if exists s :: BodyStarts(scan, s) then BodyStarts(scan, at)
            else if exists e :: FirstTagEnds(scan, A("html"), e) then FirstTagEnds(scan, A("html"), at)
            else FirstDoctypeEnds(scan, at)
  {
    TagsSpelt();
    TagOpenEndIs(scan, HEAD_TAG);
    TagOpenEndIs(scan, HTML_TAG);
    TagStartIs(scan, BODY_TAG);
    DoctypeEndIs(scan);
    var head, body := TagOpenEnd(scan, HEAD_TAG), TagStart(scan, BODY_TAG);
    assert head.Some? ==> HeadEnds(scan, head.value);
    assert body.Some? ==> BodyStarts(scan, body.value);
  }

  // --- the scans, as loops ---------------------------------------------------

  /** `<name` at `i`, whatever follows. */
  predicate OpenAt(hay: bytes, name: bytes, i: int) {
    0 <= i && i + 1 + |name| <= |hay| && hay[i] == LT && WordAt(hay, name, i + 1)
  }

  function OpenFrom(hay: bytes, name: bytes, i: nat): (r: Option<nat>)
    ensures r.Some? ==> i <= r.value && OpenAt(hay, name, r.value) && forall j :: i <= j < r.value ==> !OpenAt(hay, name, j)
    ensures r.None? ==> forall j :: i <= j ==> !OpenAt(hay, name, j)
    decreases |hay| - i
  {
    if |hay| < i + 1 + |name| then None
    else if OpenAt(hay, name, i) then Some(i)
    else OpenFrom(hay, name, i + 1)
  }

  /** What `find_ci` finds from `i` on: the needle, or for a tag the index just past a needle that follows a `<`. */
  function Sought(hay: bytes, needle: bytes, tag: bool, i: nat): Option<nat> {
    if !tag then WordFrom(hay, needle, i)
    else match OpenFrom(hay, needle, Max(i - 1, 0)) case None => None case Some(p) => Some(p + 1 + |needle|)
  }

  predicate SoughtAt(hay: bytes, needle: bytes, tag: bool, i: nat)
    requires i + |needle| <= |hay|
  {
    EqIgnoreCase(hay[i..i + |needle|], needle) && (!tag || (i > 0 && hay[i - 1] == LT))
  }

  lemma SoughtStep(hay: bytes, needle: bytes, tag: bool, i: nat)
    requires needle != [] && i + |needle| <= |hay|
    ensures Sought(hay, needle, tag, i)
            == if SoughtAt(hay, needle, tag, i) then Some(if tag then i + |needle| else i) else Sought(hay, needle, tag, i + 1)
  {
  }

  lemma SoughtNowhere(hay: bytes, needle: bytes, tag: bool, i: nat)
    requires needle != [] && i + |needle| > |hay|
    ensures Sought(hay, needle, tag, i) == None
  {
  }

  method FindCi(hay: bytes, needle: bytes, tag: bool) returns (r: Option<nat>)
    requires needle != []
    ensures !tag ==> r == WordFrom(hay, needle, 0)
    ensures tag ==> r == match OpenFrom(hay, needle, 0) case None => None case Some(p) => Some(p + 1 + |needle|)
  {
    var i := 0;
    while i + |needle| <= |hay|
      invariant 0 <= i && Sought(hay, needle, tag, 0) == Sought(hay, needle, tag, i)
      decreases |hay| - i
    {
      SoughtStep(hay, needle, tag, i);
      var matches := EqIgnoreCase(hay[i..i + |needle|], needle);
      var ltOk := !tag || (i > 0 && hay[i - 1] == LT);
      if matches && ltOk {
        return Some(if tag then i + |needle| else i);
      }
      i := i + 1;
    }
    SoughtNowhere(hay, needle, tag, i);
    return None;
  }

  lemma OpenShift(hay: bytes, from: nat, name: bytes, i: nat)
    requires from <= |hay|
    ensures OpenAt(hay[from..], name, i) == OpenAt(hay, name, from + i)
  {
    if from + i + 1 + |name| <= |hay| {
      assert hay[from..][i + 1..i + 1 + |name|] == hay[from + i + 1..from + i + 1 + |name|];
    }
  }

  /** Where the next `<name` from `from` on is. */
  lemma OpenShifted(hay: bytes, from: nat, name: bytes)
    requires from <= |hay|
    ensures OpenFrom(hay, name, from) ==
            match OpenFrom(hay[from..], name, 0) case None => None case Some(p) => Some(from + p)
  {
    var r := OpenFrom(hay[from..], name, 0);
    if r.Some? {
      OpenShift(hay, from, name, r.value);
    }
    forall j: nat | from <= j && (r.Some? ==> j < from + r.value) ensures !OpenAt(hay, name, j) {
      OpenShift(hay, from, name, j - from);
    }
  }

  /** No second `<name` starts inside the first. */
  lemma NoTagInside(hay: bytes, name: bytes, p: nat)
    requires forall k :: 0 <= k < |name| ==> name[k] != LT
    requires OpenAt(hay, name, p)
    ensures forall j :: p < j <= p + |name| ==> !TagAt(hay, name, j)
  {
    forall j | p < j <= p + |name| ensures hay[j] != LT {
      assert LowerByte(hay[p + 1..p + 1 + |name|][j - p - 1]) == LowerByte(name[j - p - 1]);
    }
  }

  /** The loop of `tag_start` finds the first properly ended tag. */
  method ScanTagStart(hay: bytes, name: bytes) returns (r: Option<nat>)
    requires name != [] && forall k :: 0 <= k < |name| ==> name[k] != LT
    ensures r == TagStart(hay, name)
  {
    var from := 0;
    while true
      invariant 0 <= from <= |hay|
      invariant forall j :: 0 <= j < from ==> !TagAt(hay, name, j)
      decreases |hay| - from
    {
      var rel := FindCi(hay[from..], name, true);
      OpenShifted(hay, from, name);
      TagsAreOpen(hay, name, from);
      if rel.None? {
        return None;
      }
      var at := from + rel.value;
      var tagAt := at - |name| - 1;
      if at < |hay| && IsNameEnd(hay[at]) {
        return Some(tagAt);
      }
      if at == |hay| {
        return None;
      }
      NoTagInside(hay, name, tagAt);
      from := at;
    }
  }

  /** Before the next `<name` there is no tag, and after one that ends the text there is none either. */
  lemma TagsAreOpen(hay: bytes, name: bytes, from: nat)
    ensures var r := OpenFrom(hay, name, from);
            && (r.None? ==> forall j :: from <= j ==> !TagAt(hay, name, j))
            && (r.Some? ==> forall j :: from <= j < r.value ==> !TagAt(hay, name, j))
            && (r.Some? && |hay| <= r.value + 1 + |name| ==> forall j :: from <= j ==> !TagAt(hay, name, j))
            && (r.Some? && r.value + 1 + |name| < |hay| ==> TagAt(hay, name, r.value) == IsNameEnd(hay[r.value + 1 + |name|]))
  {
    forall j | from <= j && TagAt(hay, name, j) ensures OpenAt(hay, name, j) {
    }
  }

  // --- stability -------------------------------------------------------------

  lemma WordAtPrefix(s: bytes, t: bytes, name: bytes, i: int)
    requires i + |name| <= |s|
    ensures WordAt(s + t, name, i) == WordAt(s, name, i)
  {
    if 0 <= i {
      assert (s + t)[i..i + |name|] == s[i..i + |name|];
    }
  }

  lemma TagAtPrefix(s: bytes, t: bytes, name: bytes, i: int)
    requires i + 1 + |name| < |s|
    ensures TagAt(s + t, name, i) == TagAt(s, name, i)
  {
    if 0 <= i {
      WordAtPrefix(s, t, name, i + 1);
    }
  }

  lemma TagStartStable(s: bytes, t: bytes, name: bytes)
    ensures TagStart(s, name).Some? ==> TagStart(s + t, name) == TagStart(s, name)
    ensures TagStart(s, name).None? && TagStart(s + t, name).Some? ==> TagStart(s + t, name).value + 1 + |name| >= |s|
  {
    var r := TagStart(s, name);
    if r.Some? {
      TagAtPrefix(s, t, name, r.value);
      forall j | 0 <= j < r.value ensures !TagAt(s + t, name, j) {
        TagAtPrefix(s, t, name, j);
      }
    } else if TagStart(s + t, name).Some? {
      var p := TagStart(s + t, name).value;
      if p + 1 + |name| < |s| {
        TagAtPrefix(s, t, name, p);
      }
    }
  }

  lemma IndexStable(s: bytes, t: bytes, c: byte, i: nat)
    ensures IndexFrom(s, c, i).Some? ==> IndexFrom(s + t, c, i) == IndexFrom(s, c, i)
    ensures IndexFrom(s, c, i).None? && IndexFrom(s + t, c, i).Some? ==> IndexFrom(s + t, c, i).value >= |s|
  {
    assert forall j :: 0 <= j < |s| ==> (s + t)[j] == s[j];
  }

  predicate Plain(name: bytes) { name != [] && forall k :: 0 <= k < |name| ==> 97 <= name[k] <= 122 }

  lemma TagOpenEndStable(s: bytes, t: bytes, name: bytes)
    requires Plain(name)
    ensures TagOpenEnd(s, name).Some? ==> TagOpenEnd(s + t, name) == TagOpenEnd(s, name)
    ensures TagOpenEnd(s, name).None? && TagOpenEnd(s + t, name).Some? ==> TagOpenEnd(s + t, name).value > |s|
  {
    TagStartStable(s, t, name);
    if TagStart(s, name).Some? {
      IndexStable(s, t, GT, TagStart(s, name).value);
    } else if TagStart(s + t, name).Some? {
      var p := TagStart(s + t, name).value;
      var g := IndexFrom(s + t, GT, p);
      if g.Some? && g.value < |s| {
        GtAfterName(s + t, name, p, g.value);
      }
    }
  }

  /** No `>` stands inside the name of a tag. */
  lemma GtAfterName(hay: bytes, name: bytes, p: nat, g: nat)
    requires Plain(name)
    requires p < |hay| && hay[p] == LT && WordAt(hay, name, p + 1)
    requires p <= g < |hay| && hay[g] == GT
    ensures g > p + |name|
  {
    forall j | p < j <= p + |name| ensures hay[j] != GT {
      assert LowerByte(hay[p + 1..p + 1 + |name|][j - p - 1]) == LowerByte(name[j - p - 1]);
    }
  }

  /** An offset that streaming has settled on never moves, whatever follows. */
  lemma AnchorStreamingStable(s: bytes, t: bytes)
    requires AnchorStreaming(s).Some?
    ensures AnchorStreaming(s + t) == AnchorStreaming(s)
  {
    TagStartStable(s, t, BODY_TAG);
    TagOpenEndStable(s, t, HEAD_TAG);
    var head, body := TagOpenEnd(s, HEAD_TAG), TagStart(s, BODY_TAG);
    if head.Some? && body.None? && TagStart(s + t, BODY_TAG).Some? {
      var b := TagStart(s + t, BODY_TAG).value;
      var g := head.value - 1;
      assert (s + t)[g] == GT;
      if b <= g {
        GtAfterName(s + t, BODY_TAG, b, g);
      }
    }
  }

  // --- the document ----------------------------------------------------------

  predicate Bom16(s: bytes) { |s| >= 2 && ((s[0] == 0xFF && s[1] == 0xFE) || (s[0] == 0xFE && s[1] == 0xFF)) }

  predicate Marked(s: bytes) { Find(s, MARKER).Some? }

  /** What the scan decides on the prefix it has: nothing yet, or an offset, or to leave the document alone. */
  datatype Verdict = Wait | Leave | Inject(at: nat)

  function Verdict1(a: Option<nat>): Verdict { match a case None => Leave case Some(p) => Inject(p) }

  function Decide(scan: bytes, done: bool): Verdict {
    if Bom16(scan) || Marked(scan) then Leave
    else if AnchorStreaming(scan).Some? then Inject(AnchorStreaming(scan).value)
    else if done || |scan| >= MAX_ANCHOR_SCAN then Verdict1(AnchorFinal(scan))
    else Wait
  }

  /** A document that is not to be touched: it begins with a UTF-16 byte order mark, or has the marker in it. */
  predicate Untouchable(s: bytes) {
    || [0xFF, 0xFE] <= s || [0xFE, 0xFF] <= s
    || exists p :: 0 <= p < |s| && At(s, A("adw-cosmetic"), p)
  }

  lemma UntouchableIs(s: bytes)
    ensures Untouchable(s) <==> Bom16(s) || Marked(s)
  {
    assert |A("adw-cosmetic")| == 12;
    if Marked(s) {
      assert At(s, A("adw-cosmetic"), Find(s, MARKER).value);
    }
  }

  /** What is decided of what has arrived: nothing is touched that must not be; else a streaming anchor is taken at once; else the
      document is waited for, up to 64 KiB; and then the final anchor is taken, if there is one. */
  lemma DecideIs(scan: bytes, done: bool)
    ensures var v, now, last := Decide(scan, done), AnchorStreaming(scan), AnchorFinal(scan);
            var over := done || |scan| >= 65536;
            && (v == Leave <==> Untouchable(scan) || (now.None? && over && last.None?))
            && (v == Wait <==> !Untouchable(scan) && now.None? && !over)
            && (forall at: nat :: v == Inject(at) <==> !Untouchable(scan) && (now == Some(at) || (now.None? && over && last == Some(at))))
  {
    UntouchableIs(scan);
  }

  lemma DecideInRange(scan: bytes, done: bool)
    ensures Decide(scan, done).Inject? ==> Decide(scan, done).at <= |scan|
  {
    AnchorInRange(scan);
  }

  function Apply(v: Verdict, doc: bytes, blob: bytes): bytes {
    if v.Inject? && v.at <= |doc| then doc[..v.at] + blob + doc[v.at..] else doc
  }

  /** A verdict the scan may give when it decides before the document has come whole. */
  predicate DecidedEarly(doc: bytes, v: Verdict) { v != Wait && exists k :: 0 <= k <= |doc| && v == Decide(doc[..k], false) }

  /** A verdict the scan may give, on some part of the document that has arrived or on all of it. */
  predicate Decided(doc: bytes, v: Verdict) { DecidedEarly(doc, v) || v == Decide(doc, true) }

  lemma EarlyIsDecided(doc: bytes, v: Verdict)
    requires DecidedEarly(doc, v)
    ensures Decided(doc, v)
  {
  }

  lemma WholeIsDecided(doc: bytes)
    ensures Decided(doc, Decide(doc, true)) && Decide(doc, true) != Wait
  {
  }

  lemma PrefixIsDecided(scan: bytes, later: bytes)
    requires Decide(scan, false) != Wait
    ensures DecidedEarly(scan + later, Decide(scan, false))
  {
    assert (scan + later)[..|scan|] == scan;
  }

  lemma DecidedInRange(doc: bytes, v: Verdict)
    requires Decided(doc, v) && v.Inject?
    ensures v.at <= |doc|
  {
    if DecidedEarly(doc, v) {
      var k :| 0 <= k <= |doc| && v == Decide(doc[..k], false);
      DecideInRange(doc[..k], false);
    } else {
      DecideInRange(doc, true);
    }
  }

  /** A scan that has decided would not wait with more of the document either. */
  lemma StillDecided(scan: bytes, later: bytes)
    requires Decide(scan, false) != Wait
    ensures Decide(scan + later, false) != Wait
  {
    if Bom16(scan) {
    } else if Marked(scan) {
      FindStable(scan, later, MARKER);
    } else if AnchorStreaming(scan).Some? {
      AnchorStreamingStable(scan, later);
    }
  }

  lemma WaitsNoMore(doc: bytes, k: nat)
    requires k <= |doc| && Decide(doc[..k], false) != Wait
    ensures Decide(doc, false) != Wait
  {
    StillDecided(doc[..k], doc[k..]);
    assert doc[..k] + doc[k..] == doc;
  }

  lemma EarlyStays(doc: bytes, v: Verdict)
    requires DecidedEarly(doc, v)
    ensures Decide(doc, false) != Wait
  {
    var k :| 0 <= k <= |doc| && v == Decide(doc[..k], false);
    WaitsNoMore(doc, k);
  }

  /** The whole document decides by itself where it is injected: it carries no marker, and an offset shows up
      within the scan limit or the document is no longer than that. */
  predicate SelfDeciding(doc: bytes) {
    !Marked(doc) && (|doc| <= MAX_ANCHOR_SCAN || AnchorStreaming(doc[..MAX_ANCHOR_SCAN]).Some?)
  }

  lemma UnmarkedPrefix(s: bytes, t: bytes)
    requires !Marked(s + t)
    ensures !Marked(s)
  {
    if Marked(s) {
      FindStable(s, t, MARKER);
    }
  }

  /** However much of a self-deciding document has arrived when the scan decides, it decides the same. */
  lemma DecisionIndependent(scan: bytes, later: bytes, done: bool)
    requires SelfDeciding(scan + later)
    requires done ==> later == []
    requires Decide(scan, done) != Wait
    ensures Decide(scan, done) == Decide(scan + later, true)
  {
    var doc := scan + later;
    UnmarkedPrefix(scan, later);
    if later == [] {
      assert doc == scan;
    } else if AnchorStreaming(scan).Some? {
      AnchorStreamingStable(scan, later);
      StreamingIsLong(scan);
    } else if !Bom16(scan) {
      var t := scan[MAX_ANCHOR_SCAN..];
      assert doc[..MAX_ANCHOR_SCAN] + t == scan;
      AnchorStreamingStable(doc[..MAX_ANCHOR_SCAN], t);
    }
  }

  lemma StreamingIsLong(s: bytes)
    requires AnchorStreaming(s).Some?
    ensures |s| >= 2
  {
  }
}
