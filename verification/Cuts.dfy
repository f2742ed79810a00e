/** Which verdicts the cuts of a document can bring about, and which documents are left alone under all of them. */
module Cuts {
  import opened Bytes
  import opened Anchor
  import opened HttpRewriter

  /** The verdict on a document that arrives in these pieces, behind what the scan holds already; it is known to be whole
      with the last of them. */
  function Arrive(scan: bytes, pieces: seq<bytes>): Verdict
    requires pieces != []
    decreases |pieces|
  {
    var s := scan + pieces[0];
    if |pieces| == 1 then Decide(s, true)
    else if Decide(s, false) != Wait then Decide(s, false)
    else Arrive(s, pieces[1..])
  }

  predicate CutOf(pieces: seq<bytes>, doc: bytes) { pieces != [] && Concat(pieces) == doc }

  lemma {:induction false} ArriveDecided(scan: bytes, pieces: seq<bytes>)
    requires pieces != []
    ensures Decided(scan + Concat(pieces), Arrive(scan, pieces))
    decreases |pieces|
  {
    var s := scan + pieces[0];
    Assoc(scan, pieces[0], Concat(pieces[1..]));
    if |pieces| == 1 {
      assert s + [] == s;
      WholeIsDecided(s);
    } else if Decide(s, false) != Wait {
      PrefixIsDecided(s, Concat(pieces[1..]));
    } else {
      ArriveDecided(s, pieces[1..]);
    }
  }

  lemma OnePiece(doc: bytes)
    ensures CutOf([doc], doc) && Arrive([], [doc]) == Decide(doc, true)
  {
    assert [] + doc == doc && doc + [] == doc && [doc][1..] == [];
  }

  lemma TwoPieces(doc: bytes, k: nat)
    requires k <= |doc| && Decide(doc[..k], false) != Wait
    ensures CutOf([doc[..k], doc[k..]], doc) && Arrive([], [doc[..k], doc[k..]]) == Decide(doc[..k], false)
  {
    var pieces := [doc[..k], doc[k..]];
    assert pieces[1..] == [doc[k..]] && [doc[k..]][1..] == [];
    assert Concat([doc[k..]]) == doc[k..] + Concat([]) == doc[k..];
    assert doc[..k] + doc[k..] == doc;
    assert [] + doc[..k] == doc[..k];
  }

  /** The verdicts that some cut brings about are exactly those on a part that has arrived, or on the whole. */
  lemma VerdictsOfCuts(doc: bytes, v: Verdict)
    ensures Decided(doc, v) <==> exists pieces :: CutOf(pieces, doc) && Arrive([], pieces) == v
  {
    forall pieces | CutOf(pieces, doc) ensures Decided(doc, Arrive([], pieces)) {
      ArriveDecided([], pieces);
      assert [] + doc == doc;
    }
    if v == Decide(doc, true) {
      OnePiece(doc);
    } else if Decided(doc, v) {
      var k :| 0 <= k <= |doc| && v == Decide(doc[..k], false);
      TwoPieces(doc, k);
    }
  }

  /** However the document is cut, nothing is injected into it. */
  ghost predicate LeftAlone(doc: bytes) { forall pieces :: CutOf(pieces, doc) ==> Arrive([], pieces) == Leave }

  // --- an offset found stays found -------------------------------------------

  lemma WordStays(s: bytes, t: bytes, word: bytes)
    requires WordFrom(s, word, 0).Some?
    ensures WordFrom(s + t, word, 0) == WordFrom(s, word, 0)
  {
    var p := WordFrom(s, word, 0).value;
    WordAtPrefix(s, t, word, p);
    forall j | 0 <= j < p ensures !WordAt(s + t, word, j) {
      WordAtPrefix(s, t, word, j);
    }
  }

  lemma FinalStays(s: bytes, t: bytes)
    requires AnchorFinal(s).Some?
    ensures AnchorFinal(s + t).Some?
  {
    TagOpenEndStable(s, t, HEAD_TAG);
    TagStartStable(s, t, BODY_TAG);
    TagOpenEndStable(s, t, HTML_TAG);
    if DoctypeEnd(s).Some? {
      WordStays(s, t, DOCTYPE);
      IndexStable(s, t, GT, WordFrom(s, DOCTYPE, 0).value);
    }
  }

  /** What would be injected into would still be with more of the document, until the marker shows up. */
  lemma InjectStays(s: bytes, t: bytes)
    requires Decide(s, false).Inject? && !Marked(s + t) && !Bom16(s + t)
    ensures Decide(s + t, false).Inject?
  {
    if AnchorStreaming(s).Some? {
      AnchorStreamingStable(s, t);
    } else {
      FinalStays(s, t);
    }
  }

  lemma BomShows(s: bytes, t: bytes)
    requires Decide(s, false).Inject?
    ensures !Bom16(s + t)
  {
    if AnchorStreaming(s).Some? {
      StreamingIsLong(s);
    }
  }

  lemma MarkedFrom(doc: bytes, p: nat, j: nat)
    requires Find(doc, MARKER) == Some(p) && j <= |doc|
    ensures Marked(doc[..j]) <==> p + |MARKER| <= j
  {
    assert doc[..j] + doc[j..] == doc;
    if Marked(doc[..j]) {
      FindStable(doc[..j], doc[j..], MARKER);
    } else if p + |MARKER| <= j {
      AtPrefix(doc[..j], doc[j..], MARKER, p);
    }
  }

  /** A document whose first marker ends at `k` is left alone under every cut if and only if the part just short of `k` would
      not be injected into. */
  lemma LeftAloneIff(doc: bytes, k: nat)
    requires Marked(doc) && k == Find(doc, MARKER).value + |MARKER|
    ensures 0 < k <= |doc| && (LeftAlone(doc) <==> !Decide(doc[..k - 1], false).Inject?)
  {
    var p := Find(doc, MARKER).value;
    if Decide(doc[..k - 1], false).Inject? {
      TwoPieces(doc, k - 1);
    } else {
      forall pieces | CutOf(pieces, doc) ensures Arrive([], pieces) == Leave {
        ArriveDecided([], pieces);
        assert [] + doc == doc;
        if Arrive([], pieces) != Leave {
          var j :| 0 <= j <= |doc| && Arrive([], pieces) == Decide(doc[..j], false);
          InjectShows(doc, p, j, k);
        }
      }
    }
  }

  lemma InjectShows(doc: bytes, p: nat, j: nat, k: nat)
    requires Find(doc, MARKER) == Some(p) && j <= |doc| && k == p + |MARKER| && Decide(doc[..j], false).Inject?
    ensures Decide(doc[..k - 1], false).Inject?
  {
    MarkedFrom(doc, p, j);
    MarkedFrom(doc, p, k - 1);
    assert doc[..k - 1] == doc[..j] + doc[j..k - 1];
    BomShows(doc[..j], doc[j..k - 1]);
    InjectStays(doc[..j], doc[j..k - 1]);
  }

  // --- a document that was injected into -------------------------------------

  /** What comes out when the blob goes into `doc` at `at`. */
  function Injected(doc: bytes, at: nat, css: bytes, js: bytes): bytes { Apply(Inject(at), doc, Blob(css, js)) }

  lemma BlobMarked(css: bytes, js: bytes, doc: bytes, at: nat)
    requires at <= |doc|
    ensures At(Injected(doc, at, css, js), MARKER, at + 4)
  {
    var blob := Blob(css, js);
    var out := Injected(doc, at, css, js);
    assert blob[4..16] == MARKER by {
      assert blob[4..16] == A("<!--adw-cosmetic-->")[4..16];
    }
    assert out[at + 4..at + 16] == blob[4..16];
  }

  /** A scan that holds all of a document that was injected into leaves it alone. */
  lemma WholeIsLeft(css: bytes, js: bytes, doc: bytes, at: nat, done: bool)
    requires at <= |doc|
    ensures Decide(Injected(doc, at, css, js), done) == Leave
  {
    BlobMarked(css, js, doc, at);
  }

  /** A document that was injected into is never injected into again, however it is cut, if and only if the scan would not
      inject into the part just short of the end of its first marker. */
  lemma InjectedOnceIff(css: bytes, js: bytes, doc: bytes, at: nat)
    requires at <= |doc|
    ensures var once := Injected(doc, at, css, js);
            && Marked(once)
            && var k := Find(once, MARKER).value + |MARKER|;
               0 < k <= |once| && (LeftAlone(once) <==> !Decide(once[..k - 1], false).Inject?)
  {
    var once := Injected(doc, at, css, js);
    BlobMarked(css, js, doc, at);
    LeftAloneIff(once, Find(once, MARKER).value + |MARKER|);
  }

  /** Where the scan settled at the end of what had arrived, a cut at the same place makes it inject a second time. */
  lemma InjectedTwice(css: bytes, js: bytes, doc: bytes, at: nat)
    requires at <= |doc| && Decide(doc[..at], false) == Inject(at)
    ensures var once := Injected(doc, at, css, js);
            CutOf([once[..at], once[at..]], once) && Arrive([], [once[..at], once[at..]]) == Inject(at)
  {
    var once := Injected(doc, at, css, js);
    assert once[..at] == doc[..at];
    TwoPieces(once, at);
  }

  /** "<head>" */
  const HEAD_ONLY: bytes := [60, 104, 101, 97, 100, 62]

  /** There is such a document. */
  lemma HeadSettles()
    ensures Decide(HEAD_ONLY, false) == Inject(6) && HEAD_ONLY[..6] == HEAD_ONLY
  {
    var s := HEAD_ONLY;
    assert |s| == 6 && s[1..5] == HEAD_TAG;
    assert TagAt(s, HEAD_TAG, 0);
    assert TagStart(s, HEAD_TAG) == Some(0);
    assert IndexFrom(s, GT, 0) == Some(5) by {
      assert s[5] == GT && forall j :: 0 <= j < 5 ==> s[j] != GT;
    }
    assert TagOpenEnd(s, HEAD_TAG) == Some(6);
    assert s[1..5][0] == s[1] && LowerByte(s[1]) != LowerByte(BODY_TAG[0]);
    assert !TagAt(s, BODY_TAG, 0);
    assert TagStart(s, BODY_TAG).None?;
    assert !Marked(s);
  }
}
