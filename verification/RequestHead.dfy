/** A request head on its way to the server: it asks for an unencoded response, and says everything else as before. */
module RequestHead {
  import opened Bytes
  import opened HttpHead
  import opened HeadEdit
  import opened HeadReparse

  /** "Accept-Encoding" and "identity" */
  const NAME: bytes := [65, 99, 99, 101, 112, 116, 45, 69, 110, 99, 111, 100, 105, 110, 103]
  const VALUE: bytes := [105, 100, 101, 110, 116, 105, 116, 121]

  const IDENTITY: bytes := NAME + [58] + ([32] + VALUE)

  function WithoutEncodings(lines: seq<bytes>): seq<bytes> {
    if lines == [] then []
    else (if NameIs(lines[0], A("accept-encoding")) then [] else [lines[0]]) + WithoutEncodings(lines[1..])
  }

  function ForcedFields(lines: seq<bytes>): seq<bytes> { WithoutEncodings(lines) + [IDENTITY] }

  lemma {:induction false} DropEncodingsIsLines(lines: seq<bytes>, dropped: bool)
    requires Unfolded(lines)
    ensures DropEncodings(lines, dropped) == Lines(WithoutEncodings(lines))
    decreases |lines|
  {
    if lines != [] {
      var e := DropEncoding(lines[0], dropped);
      DropEncodingsIsLines(lines[1..], e.dropped);
      var one := if NameIs(lines[0], A("accept-encoding")) then [] else [lines[0]];
      LinesAppend(one, WithoutEncodings(lines[1..]));
      assert e.text == Lines(one);
    }
  }

  lemma {:induction false} WithoutClean(lines: seq<bytes>)
    requires CleanLines(lines)
    ensures CleanLines(WithoutEncodings(lines))
  {
    if lines != [] {
      WithoutClean(lines[1..]);
    }
  }

  lemma IdentitySpelt()
    ensures IDENTITY == A("Accept-Encoding: identity")
  {
  }

  lemma NameSpelt()
    ensures EqIgnoreCase(NAME, A("accept-encoding"))
  {
  }

  lemma IdentityReads()
    ensures CleanLine(IDENTITY) && FieldOf(IDENTITY) == Some((NAME, VALUE)) && Trim(LineName(IDENTITY)) == NAME
  {
    ColonSplits(NAME, [32] + VALUE);
    SpaceInFront(VALUE);
    assert LeadingSpace(NAME) == 0 && TrailingSpace(NAME) == 0;
    assert LeadingSpace(VALUE) == 0 && TrailingSpace(VALUE) == 0;
    IdentityClean(IDENTITY);
  }

  lemma IdentityClean(line: bytes)
    requires line == NAME + [58] + ([32] + VALUE)
    ensures CleanLine(line)
  {
    forall i | 0 <= i < |line| ensures line[i] != CR && line[i] != LF {
      assert line[i] == if i < 15 then NAME[i] else if i == 15 then 58 else if i == 16 then 32 else VALUE[i - 17];
    }
  }

  lemma {:induction false} WithoutParses(lines: seq<bytes>)
    requires CleanLines(lines) && ParseFields(lines).Some?
    ensures ParseFields(WithoutEncodings(lines)).Some?
  {
    if lines != [] {
      assert lines == [lines[0]] + lines[1..];
      ParseFieldsCons([lines[0]], lines[1..]);
      WithoutParses(lines[1..]);
      ParseFieldsCons(if NameIs(lines[0], A("accept-encoding")) then [] else [lines[0]], WithoutEncodings(lines[1..]));
    }
  }

  lemma {:induction false} ParseAppend(a: seq<bytes>, line: bytes)
    requires CleanLines(a) && CleanLine(line) && ParseFields(a).Some? && FieldOf(line).Some?
    ensures ParseFields(a + [line]).Some?
  {
    if a == [] {
      assert a + [line] == [line];
      ParseFieldsCons([line], []);
      assert [line] + [] == [line];
    } else {
      assert a == [a[0]] + a[1..] && a + [line] == [a[0]] + (a[1..] + [line]);
      ParseFieldsCons([a[0]], a[1..]);
      ParseAppend(a[1..], line);
      ParseFieldsCons([a[0]], a[1..] + [line]);
    }
  }

  lemma ForcedParses(lines: seq<bytes>)
    requires CleanLines(lines) && ParseFields(lines).Some?
    ensures CleanLines(ForcedFields(lines)) && ParseFields(ForcedFields(lines)).Some?
  {
    WithoutClean(lines);
    WithoutParses(lines);
    IdentityReads();
    ParseAppend(WithoutEncodings(lines), IDENTITY);
  }

  /** The edited head is again a head of CRLF-separated lines. */
  lemma ForcedHeadIsHead(lines: seq<bytes>)
    requires |lines| >= 1 && CleanLines(lines) && Unfolded(lines[1..])
    ensures EditRequestHead(RawHead(lines)) == RawHead([lines[0]] + ForcedFields(lines[1..]))
  {
    assert WithoutEnd(RawHead(lines)) == Join(lines);
    EditorLines(lines);
    DropEncodingsIsLines(lines[1..], false);
    IdentitySpelt();
    ForcedLines(lines[0], WithoutEncodings(lines[1..]));
  }

  lemma ForcedLines(first: bytes, kept: seq<bytes>)
    ensures first + CRLF + Lines(kept) + IDENTITY + CRLFCRLF == RawHead([first] + (kept + [IDENTITY]))
  {
    var forced := [first] + (kept + [IDENTITY]);
    assert forced[1..] == kept + [IDENTITY];
    LinesAppend(kept, [IDENTITY]);
    JoinIsLines(forced);
    var front, joined := first + CRLF + Lines(kept), Join(forced);
    assert [IDENTITY][1..] == [];
    assert Lines([IDENTITY]) == IDENTITY + CRLF;
    BlankLine(front, IDENTITY, joined);
  }

  lemma BlankLine(front: bytes, last: bytes, joined: bytes)
    requires joined + CRLF == front + (last + CRLF)
    ensures front + last + CRLFCRLF == joined + CRLFCRLF
  {
    assert CRLFCRLF == CRLF + CRLF;
    assert front + last + CRLFCRLF == front + (last + CRLF) + CRLF;
    assert joined + CRLFCRLF == joined + CRLF + CRLF;
  }

  /** The first line that the parser files under Accept-Encoding and the editor does not. */
  function FirstOverlooked(lines: seq<bytes>): Option<bytes> {
    if lines == [] then None
    else if Named(lines[0], A("accept-encoding")) && !NameIs(lines[0], A("accept-encoding")) then Some(lines[0])
    else FirstOverlooked(lines[1..])
  }

  lemma {:induction false} EncodingLines(lines: seq<bytes>)
    ensures FirstNamed(WithoutEncodings(lines), A("accept-encoding")) == FirstOverlooked(lines)
  {
    if lines != [] {
      EncodingLines(lines[1..]);
      var one := if NameIs(lines[0], A("accept-encoding")) then [] else [lines[0]];
      FirstNamedAppend(one, WithoutEncodings(lines[1..]), A("accept-encoding"));
    }
  }

  lemma {:induction false} OtherLines(lines: seq<bytes>, name: bytes)
    requires !EqIgnoreCase(name, A("accept-encoding"))
    ensures FirstNamed(WithoutEncodings(lines), name) == FirstNamed(lines, name)
  {
    if lines != [] {
      OtherLines(lines[1..], name);
      var one := if NameIs(lines[0], A("accept-encoding")) then [] else [lines[0]];
      FirstNamedAppend(one, WithoutEncodings(lines[1..]), name);
      if NameIs(lines[0], A("accept-encoding")) {
        NameIsParsed(lines[0], A("accept-encoding"));
        if Named(lines[0], name) {
          SameName(Trim(LineName(lines[0])), name, A("accept-encoding"));
        }
      }
    }
  }

  lemma IdentityNamed(name: bytes)
    ensures FirstNamed([IDENTITY], name) == if EqIgnoreCase(name, A("accept-encoding")) then Some(IDENTITY) else None
  {
    IdentityReads();
    NameSpelt();
    assert FirstNamed([IDENTITY][1..], name) == None;
    SameName(NAME, A("accept-encoding"), name);
  }

  lemma OthersStand(fields: seq<bytes>, name: bytes)
    requires CleanLines(fields) && ParseFields(fields).Some? && name != [] && !EqIgnoreCase(name, A("accept-encoding"))
    ensures ParseFields(ForcedFields(fields)).Some?
    ensures HeaderValue(ParseFields(ForcedFields(fields)).value, name) == HeaderValue(ParseFields(fields).value, name)
  {
    ForcedParses(fields);
    ValueOfFirst(ForcedFields(fields), name);
    ValueOfFirst(fields, name);
    FirstNamedAppend(WithoutEncodings(fields), [IDENTITY], name);
    IdentityNamed(name);
    OtherLines(fields, name);
  }

  /** For a head of CRLF lines without folding, the edited head is found whole and keeps its request line and every other
      field; Accept-Encoding is one line that says identity, unless the parser files under that name a line that the
      editor does not know, whose value then stands. */
  lemma IdentityForced(lines: seq<bytes>, name: bytes)
    requires |lines| >= 1 && CleanLines(lines) && Unfolded(lines[1..]) && ParseFields(lines[1..]).Some? && name != []
    ensures var edited := EditRequestHead(RawHead(lines));
            var after := ParseHeadFields(WithoutEnd(edited));
            && FindHeaderEnd(edited) == Some(|edited|) && after.Some? && after.value.startLine == lines[0]
            && (!EqIgnoreCase(name, A("accept-encoding")) ==>
                  HeaderValue(after.value.headers, name) == HeaderValue(ParseFields(lines[1..]).value, name))
            && (FirstOverlooked(lines[1..]).None? ==>
                  HeaderValue(after.value.headers, A("accept-encoding")) == Some(VALUE))
            && (FirstOverlooked(lines[1..]).Some? ==>
                  FieldOf(FirstOverlooked(lines[1..]).value).Some?
                  && HeaderValue(after.value.headers, A("accept-encoding")) == Some(FieldOf(FirstOverlooked(lines[1..]).value).value.1))
  {
    var forced := [lines[0]] + ForcedFields(lines[1..]);
    ForcedHeadIsHead(lines);
    ForcedParses(lines[1..]);
    assert forced[1..] == ForcedFields(lines[1..]);
    HeaderEnds(forced, []);
    assert RawHead(forced) + [] == RawHead(forced);
    ParsesAsLines(forced);
    if !EqIgnoreCase(name, A("accept-encoding")) {
      OthersStand(lines[1..], name);
    }
    OverlookedStands(lines[1..]);
  }

  lemma OverlookedStands(fields: seq<bytes>)
    requires CleanLines(fields) && ParseFields(fields).Some?
    ensures ParseFields(ForcedFields(fields)).Some?
    ensures var o := FirstOverlooked(fields);
            if o.None? then HeaderValue(ParseFields(ForcedFields(fields)).value, A("accept-encoding")) == Some(VALUE)
            else FieldOf(o.value).Some?
                 && HeaderValue(ParseFields(ForcedFields(fields)).value, A("accept-encoding")) == Some(FieldOf(o.value).value.1)
  {
    var name := A("accept-encoding");
    ForcedParses(fields);
    ValueOfFirst(ForcedFields(fields), name);
    FirstNamedAppend(WithoutEncodings(fields), [IDENTITY], name);
    IdentityNamed(name);
    IdentityReads();
    EncodingLines(fields);
  }
}
