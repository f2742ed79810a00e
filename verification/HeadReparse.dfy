/** A head that was edited parses again, and says the length that was written into it. */
module HeadReparse {
  import opened Bytes
  import opened HttpHead
  import opened HeadEdit

  predicate CleanLine(line: bytes) {
    line != [] && forall i :: 0 <= i < |line| ==> line[i] != CR && line[i] != LF
  }

  predicate CleanLines(lines: seq<bytes>) { forall i :: 0 <= i < |lines| ==> CleanLine(lines[i]) }

  predicate Unfolded(lines: seq<bytes>) { forall i :: 0 <= i < |lines| ==> !IsContinuation(lines[i]) }

  /** Lines separated by CRLF. */
  function Join(lines: seq<bytes>): bytes
    requires |lines| >= 1
  {
    if |lines| == 1 then lines[0] else lines[0] + CRLF + Join(lines[1..])
  }

  /** A head whose only line ending is CRLF. */
  function RawHead(lines: seq<bytes>): bytes
    requires |lines| >= 1
  {
    Join(lines) + CRLFCRLF
  }

  /** Every line followed by CRLF. */
  function Lines(lines: seq<bytes>): bytes {
    if lines == [] then [] else lines[0] + CRLF + Lines(lines[1..])
  }

  lemma {:induction false} JoinIsLines(lines: seq<bytes>)
    requires |lines| >= 1
    ensures Join(lines) + CRLF == Lines(lines)
  {
    if |lines| == 1 {
      assert Lines(lines[1..]) == [];
    } else {
      JoinIsLines(lines[1..]);
      assert lines[0] + CRLF + Join(lines[1..]) + CRLF == lines[0] + CRLF + (Join(lines[1..]) + CRLF);
    }
  }

  lemma {:induction false} LinesAppend(a: seq<bytes>, b: seq<bytes>)
    ensures Lines(a + b) == Lines(a) + Lines(b)
  {
    if a == [] {
      assert a + b == b;
    } else {
      assert (a + b)[1..] == a[1..] + b;
      LinesAppend(a[1..], b);
    }
  }

  // --- where a head ends -----------------------------------------------------

  lemma NotAt(h: bytes, j: nat, k: nat)
    requires k < 4 && j + 4 <= |h| && h[j + k] != CRLFCRLF[k]
    ensures !At(h, CRLFCRLF, j)
  {
    assert h[j..j + 4][k] == h[j + k];
  }

  lemma {:induction false} NoEarlyEnd(lines: seq<bytes>, x: bytes, j: nat)
    requires |lines| >= 1 && CleanLines(lines)
    requires j < |Join(lines)|
    ensures !At(RawHead(lines) + x, CRLFCRLF, j)
    decreases |lines|
  {
    var h, l := RawHead(lines) + x, lines[0];
    if j < |l| {
      assert h[j] == l[j];
      NotAt(h, j, 0);
    } else {
      var tail := RawHead(lines[1..]) + x;
      assert h == l + CRLF + tail;
      assert lines[1][0] == tail[0];
      if j == |l| {
        NotAt(h, j, 2);
      } else if j == |l| + 1 {
        NotAt(h, j, 0);
      } else {
        var i := j - |l| - 2;
        assert h[j..j + 4] == tail[i..i + 4];
        NoEarlyEnd(lines[1..], x, i);
      }
    }
  }

  /** The head ends where its lines end, whatever comes after. */
  lemma HeaderEnds(lines: seq<bytes>, x: bytes)
    requires |lines| >= 1 && CleanLines(lines)
    ensures FindHeaderEnd(RawHead(lines) + x) == Some(|RawHead(lines)|)
  {
    var h := RawHead(lines) + x;
    var p := |Join(lines)|;
    assert h[p..p + 4] == CRLFCRLF;
    forall j | 0 <= j < p ensures !At(h, CRLFCRLF, j) {
      NoEarlyEnd(lines, x, j);
    }
    FindUnique(h, CRLFCRLF, p);
  }

  // --- the editor and the parser see the same lines --------------------------

  lemma FirstCrlf(l: bytes, rest: bytes)
    requires CleanLine(l)
    ensures Find(l + CRLF + rest, CRLF) == Some(|l|)
    ensures IndexOf(l + CRLF + rest, LF) == Some(|l| + 1)
  {
    var h := l + CRLF + rest;
    assert h[|l|..|l| + 2] == CRLF;
    forall j | 0 <= j < |l| ensures !At(h, CRLF, j) {
      assert h[j] == l[j];
      assert j + 2 <= |h| ==> h[j..j + 2][0] == h[j];
    }
    FindUnique(h, CRLF, |l|);
    assert h[|l| + 1] == LF && forall j :: 0 <= j < |l| + 1 ==> h[j] != LF;
  }

  lemma {:induction false} EditorLines(lines: seq<bytes>)
    requires |lines| >= 1 && CleanLines(lines)
    ensures CrlfLines(Join(lines)) == lines
  {
    var l := lines[0];
    if |lines| == 1 {
      assert l[0..] == l;
      CrlfLinesEnd(l, 0);
    } else {
      FirstCrlf(l, Join(lines[1..]));
      EditorLines(lines[1..]);
      var h := Join(lines);
      assert h[..|l|] == l && h[|l| + 2..] == Join(lines[1..]);
    }
  }

  lemma FirstLine(l: bytes, rest: bytes)
    requires CleanLine(l)
    ensures Split(l + CRLF + rest, LF) == [l + [CR]] + Split(rest, LF)
  {
    var h := l + CRLF + rest;
    FirstCrlf(l, rest);
    assert h[..|l| + 1] == l + [CR] && h[|l| + 2..] == rest;
  }

  /** A line reads the same with its CR and without. */
  lemma ParseOne(raw: bytes, l: bytes, rest: seq<bytes>)
    requires CleanLine(l) && (raw == l || raw == l + [CR])
    ensures StripCr(raw) == l && ParseFields([raw] + rest) == ParseFields([l] + rest)
  {
    assert StripCr(l) == l;
    assert (l + [CR])[..|l|] == l;
    assert ([raw] + rest)[1..] == rest && ([l] + rest)[1..] == rest;
  }

  lemma ParseSame(l: bytes, a: seq<bytes>, b: seq<bytes>)
    requires ParseFields(a) == ParseFields(b)
    ensures ParseFields([l] + a) == ParseFields([l] + b)
  {
    assert ([l] + a)[1..] == a && ([l] + b)[1..] == b;
  }

  lemma {:induction false} ParserLines(lines: seq<bytes>)
    requires |lines| >= 1 && CleanLines(lines)
    ensures var split := Split(Join(lines), LF);
            && StripCr(split[0]) == lines[0]
            && split[1..] == (if |lines| == 1 then [] else Split(Join(lines[1..]), LF))
            && ParseFields(split) == ParseFields(lines)
  {
    var l := lines[0];
    if |lines| == 1 {
      assert Split(l, LF) == [l];
      ParseOne(l, l, []);
    } else {
      FirstLine(l, Join(lines[1..]));
      ParserLines(lines[1..]);
      var split := Split(Join(lines[1..]), LF);
      assert ([l + [CR]] + split)[1..] == split;
      ParseOne(l + [CR], l, split);
      assert ParseFields([l] + lines[1..]) == ParseFields(lines) by {
        assert [l] + lines[1..] == lines;
      }
      ParseSame(l, split, lines[1..]);
    }
  }

  lemma ParsesAsLines(lines: seq<bytes>)
    requires |lines| >= 1 && CleanLines(lines)
    ensures ParseHeadFields(WithoutEnd(RawHead(lines))) ==
            match ParseFields(lines[1..]) case None => None case Some(hs) => Some(Parsed(lines[0], hs))
  {
    assert WithoutEnd(RawHead(lines)) == Join(lines);
    ParserLines(lines);
    if |lines| > 1 {
      ParserLines(lines[1..]);
    }
  }

  // --- editing, line by line -------------------------------------------------

  function EditedLine(line: bytes, setCl: Option<nat>): seq<bytes> {
    if IsCsp(line) then []
    else if setCl.Some? && IsContentLength(line) then [LengthLine(line, setCl.value)]
    else [line]
  }

  function EditedFields(lines: seq<bytes>, setCl: Option<nat>): seq<bytes> {
    if lines == [] then [] else EditedLine(lines[0], setCl) + EditedFields(lines[1..], setCl)
  }

  function EditedHead(lines: seq<bytes>, setCl: Option<nat>): seq<bytes>
    requires |lines| >= 1
  {
    [lines[0]] + EditedFields(lines[1..], setCl)
  }

  lemma {:induction false} EditFieldsIsLines(lines: seq<bytes>, dropped: bool, setCl: Option<nat>)
    requires Unfolded(lines)
    ensures EditFields(lines, dropped, setCl) == Lines(EditedFields(lines, setCl))
    decreases |lines|
  {
    if lines != [] {
      var e := EditLine(lines[0], dropped, setCl);
      EditFieldsIsLines(lines[1..], e.dropped, setCl);
      LinesAppend(EditedLine(lines[0], setCl), EditedFields(lines[1..], setCl));
      assert e.text == Lines(EditedLine(lines[0], setCl));
    }
  }

  lemma EditedLineClean(line: bytes, setCl: Option<nat>)
    requires CleanLine(line)
    ensures CleanLines(EditedLine(line, setCl))
  {
  }

  lemma {:induction false} EditedFieldsClean(lines: seq<bytes>, setCl: Option<nat>)
    requires CleanLines(lines)
    ensures CleanLines(EditedFields(lines, setCl))
  {
    if lines != [] {
      EditedLineClean(lines[0], setCl);
      EditedFieldsClean(lines[1..], setCl);
    }
  }

  /** An edited head is again a head of CRLF-separated lines, ending where it should. */
  lemma EditedHeadIsHead(lines: seq<bytes>, setCl: Option<nat>)
    requires |lines| >= 1 && CleanLines(lines) && Unfolded(lines[1..])
    ensures CleanLines(EditedHead(lines, setCl))
    ensures EditResponseHead(RawHead(lines), setCl) == RawHead(EditedHead(lines, setCl))
  {
    var edited := EditedHead(lines, setCl);
    assert WithoutEnd(RawHead(lines)) == Join(lines);
    EditorLines(lines);
    EditFieldsIsLines(lines[1..], false, setCl);
    EditedFieldsClean(lines[1..], setCl);
    JoinIsLines(edited);
    assert edited[1..] == EditedFields(lines[1..], setCl);
    assert Join(edited) + CRLF + CRLF == Join(edited) + CRLFCRLF;
  }

  // --- names, as the two of them trim ----------------------------------------

  predicate Solid(b: byte) { 33 <= b <= 126 }

  lemma {:induction false} TrimStartAgrees(x: bytes)
    requires AsciiTrimStart(x) != [] && Solid(AsciiTrimStart(x)[0])
    ensures TrimStart(x) == AsciiTrimStart(x)
  {
    if IsAsciiWhitespace(x[0]) {
      TrimStartAgrees(x[1..]);
    }
  }

  lemma {:induction false} TrimEndAgrees(x: bytes)
    requires AsciiTrimEnd(x) != [] && Solid(AsciiTrimEnd(x)[|AsciiTrimEnd(x)| - 1])
    ensures TrimEnd(x) == AsciiTrimEnd(x)
    ensures AsciiTrimEnd(x) <= x
  {
    if IsAsciiWhitespace(x[|x| - 1]) {
      TrimEndAgrees(x[..|x| - 1]);
    }
  }

  /** A name the editor trims to printable ASCII is trimmed the same by the parser. */
  lemma TrimAgrees(x: bytes)
    requires AsciiTrim(x) != [] && Solid(AsciiTrim(x)[0]) && Solid(AsciiTrim(x)[|AsciiTrim(x)| - 1])
    ensures Trim(x) == AsciiTrim(x)
  {
    TrimEndAgrees(AsciiTrimStart(x));
    TrimStartAgrees(x);
  }

  /** A name that starts and ends with a letter. */
  predicate Word(w: bytes) { |w| >= 1 && 97 <= w[0] <= 122 && 97 <= w[|w| - 1] <= 122 }

  lemma NameIsParsed(line: bytes, target: bytes)
    requires Word(target) && NameIs(line, target)
    ensures EqIgnoreCase(Trim(LineName(line)), target)
  {
    var r := AsciiTrim(LineName(line));
    assert LowerByte(r[0]) == LowerByte(target[0]);
    assert LowerByte(r[|r| - 1]) == LowerByte(target[|r| - 1]);
    TrimAgrees(LineName(line));
  }

  /** The parser files the line under `target`. */
  predicate Named(line: bytes, target: bytes) { EqIgnoreCase(Trim(LineName(line)), target) }

  /** The fields that carry a content security policy. */
  predicate CspField(name: bytes) {
    || EqIgnoreCase(name, A("content-security-policy"))
    || EqIgnoreCase(name, A("content-security-policy-report-only"))
    || EqIgnoreCase(name, A("x-content-security-policy"))
  }

  lemma CspName(line: bytes)
    requires IsCsp(line)
    ensures CspField(Trim(LineName(line)))
  {
    var a, b, c := A("content-security-policy"), A("content-security-policy-report-only"), A("x-content-security-policy");
    if NameIs(line, a) {
      NameIsParsed(line, a);
    } else if NameIs(line, b) {
      NameIsParsed(line, b);
    } else {
      NameIsParsed(line, c);
    }
  }

  lemma SameName(a: bytes, b: bytes, c: bytes)
    requires EqIgnoreCase(a, b)
    ensures EqIgnoreCase(a, c) <==> EqIgnoreCase(b, c)
  {
  }

  lemma CspNotNamed(line: bytes, name: bytes)
    requires IsCsp(line) && !CspField(name)
    ensures !Named(line, name)
  {
    CspName(line);
    if Named(line, name) {
      SameName(Trim(LineName(line)), name, A("content-security-policy"));
      SameName(Trim(LineName(line)), name, A("content-security-policy-report-only"));
      SameName(Trim(LineName(line)), name, A("x-content-security-policy"));
    }
  }

  lemma LengthName(line: bytes)
    requires IsContentLength(line)
    ensures Named(line, A("content-length"))
  {
    NameIsParsed(line, A("content-length"));
  }

  lemma FieldName(line: bytes)
    requires FieldOf(line).Some?
    ensures FieldOf(line).value.0 == Trim(LineName(line))
  {
  }

  lemma NoSpaceInDigits(dec: bytes)
    requires dec != [] && forall i :: 0 <= i < |dec| ==> 48 <= dec[i] <= 102
    ensures TrimStart(dec) == dec && TrimEnd(dec) == dec
  {
    assert LeadingSpace(dec) == 0 && TrailingSpace(dec) == 0;
  }

  lemma SpaceInFront(s: bytes)
    ensures TrimStart([32] + s) == TrimStart(s)
  {
    assert ([32] + s)[1..] == s;
    assert LeadingSpace([32] + s) == 1;
  }

  lemma DigitsTrim(n: nat)
    ensures Trim(ToRadix(n, 10)) == ToRadix(n, 10)
    ensures Trim([32] + ToRadix(n, 10)) == ToRadix(n, 10)
  {
    var dec := ToRadix(n, 10);
    NoSpaceInDigits(dec);
    SpaceInFront(dec);
  }

  lemma LengthField(line: bytes, n: nat)
    requires IndexOf(line, 58).Some?
    ensures FieldOf(LengthLine(line, n)) == Some((Trim(LineName(line)), ToRadix(n, 10)))
  {
    var name, dec := LineName(line), ToRadix(n, 10);
    var l := name + [58, 32] + dec;
    assert l == name + [58] + ([32] + dec);
    ColonSplits(name, [32] + dec);
    DigitsTrim(n);
  }

  lemma ColonSplits(name: bytes, value: bytes)
    requires IndexOf(name, 58).None?
    ensures FieldOf(name + [58] + value) == Some((Trim(name), Trim(value)))
    ensures LineName(name + [58] + value) == name
  {
    var l := name + [58] + value;
    assert l[|name|] == 58;
    assert IndexOf(l, 58) == Some(|name|);
    assert l[..|name|] == name && l[|name| + 1..] == value;
  }

  lemma {:induction false} EditedFieldsParse(lines: seq<bytes>, setCl: Option<nat>)
    requires CleanLines(lines)
    requires ParseFields(lines).Some?
    ensures ParseFields(EditedFields(lines, setCl)).Some?
  {
    if lines != [] {
      var line := lines[0];
      EditedFieldsParse(lines[1..], setCl);
      EditedLineClean(line, setCl);
      if !IsCsp(line) && setCl.Some? && IsContentLength(line) {
        LengthField(line, setCl.value);
      }
      ParseFieldsCons(EditedLine(line, setCl), EditedFields(lines[1..], setCl));
    }
  }

  function WithField(field: Option<Header>, rest: Option<seq<Header>>): Option<seq<Header>> {
    if rest.None? || field.None? then None
    else if field.value.0 == [] then rest
    else Some([field.value] + rest.value)
  }

  lemma ParseFieldsCons(one: seq<bytes>, rest: seq<bytes>)
    requires |one| <= 1 && CleanLines(one)
    ensures one == [] ==> ParseFields(one + rest) == ParseFields(rest)
    ensures |one| == 1 ==> ParseFields(one + rest) == WithField(FieldOf(one[0]), ParseFields(rest))
  {
    if one == [] {
      assert one + rest == rest;
    } else {
      assert (one + rest)[1..] == rest;
      assert StripCr(one[0]) == one[0];
    }
  }

  /** The line the parser takes the field `name` from. */
  function FirstNamed(lines: seq<bytes>, name: bytes): Option<bytes> {
    if lines == [] then None
    else if Named(lines[0], name) then Some(lines[0])
    else FirstNamed(lines[1..], name)
  }

  /** The value of the field `name` is what its first line says. */
  lemma {:induction false} ValueOfFirst(lines: seq<bytes>, name: bytes)
    requires CleanLines(lines) && ParseFields(lines).Some? && name != []
    ensures var first := FirstNamed(lines, name);
            && (first.Some? ==> FieldOf(first.value).Some?)
            && HeaderValue(ParseFields(lines).value, name) == if first.None? then None else Some(FieldOf(first.value).value.1)
  {
    if lines != [] {
      assert lines == [lines[0]] + lines[1..];
      ParseFieldsCons([lines[0]], lines[1..]);
      ValueOfFirst(lines[1..], name);
      FieldName(lines[0]);
      InFront(FieldOf(lines[0]).value, ParseFields(lines[1..]).value, name);
    }
  }

  lemma InFront(field: Header, rest: seq<Header>, name: bytes)
    requires name != []
    ensures HeaderValue(WithField(Some(field), Some(rest)).value, name)
            == if EqIgnoreCase(field.0, name) then Some(field.1) else HeaderValue(rest, name)
  {
    assert ([field] + rest)[1..] == rest;
  }

  lemma {:induction false} FirstNamedAppend(a: seq<bytes>, b: seq<bytes>, name: bytes)
    ensures FirstNamed(a + b, name) == if FirstNamed(a, name).Some? then FirstNamed(a, name) else FirstNamed(b, name)
  {
    if a == [] {
      assert a + b == b;
    } else {
      assert (a + b)[1..] == a[1..] + b;
      FirstNamedAppend(a[1..], b, name);
    }
  }

  /** A rewritten length line keeps its name. */
  lemma LengthLineNamed(line: bytes, n: nat, name: bytes)
    requires IsContentLength(line)
    ensures Named(LengthLine(line, n), name) <==> Named(line, name)
    ensures Named(line, name) ==> EqIgnoreCase(name, A("content-length"))
  {
    LengthName(line);
    var l := LineName(line) + [58] + ([32] + ToRadix(n, 10));
    assert LengthLine(line, n) == l;
    ColonSplits(LineName(line), [32] + ToRadix(n, 10));
    if Named(line, name) {
      SameName(Trim(LineName(line)), name, A("content-length"));
    }
  }

  lemma {:induction false} OtherLinesKept(lines: seq<bytes>, setCl: Option<nat>, name: bytes)
    requires !CspField(name) && (setCl.Some? ==> !EqIgnoreCase(name, A("content-length")))
    ensures FirstNamed(EditedFields(lines, setCl), name) == FirstNamed(lines, name)
  {
    if lines != [] {
      var line := lines[0];
      OtherLinesKept(lines[1..], setCl, name);
      FirstNamedAppend(EditedLine(line, setCl), EditedFields(lines[1..], setCl), name);
      if IsCsp(line) {
        CspNotNamed(line, name);
      } else if setCl.Some? && IsContentLength(line) {
        LengthLineNamed(line, setCl.value, name);
      }
    }
  }

  /** Every field but the policies, and Content-Length where a new one is set, reads as before. */
  lemma OtherFieldsKept(lines: seq<bytes>, setCl: Option<nat>, name: bytes)
    requires CleanLines(lines) && ParseFields(lines).Some?
    requires name != [] && !CspField(name) && (setCl.Some? ==> !EqIgnoreCase(name, A("content-length")))
    ensures ParseFields(EditedFields(lines, setCl)).Some?
    ensures HeaderValue(ParseFields(EditedFields(lines, setCl)).value, name) == HeaderValue(ParseFields(lines).value, name)
  {
    EditedFieldsParse(lines, setCl);
    EditedFieldsClean(lines, setCl);
    OtherLinesKept(lines, setCl, name);
    ValueOfFirst(lines, name);
    ValueOfFirst(EditedFields(lines, setCl), name);
  }

  lemma CodingIsOther()
    ensures !CspField(A("transfer-encoding")) && !EqIgnoreCase(A("transfer-encoding"), A("content-length"))
    ensures !CspField(A("content-length"))
  {
  }

  /** The first line that the parser files under `name` and the editor does not know for a policy. */
  function FirstSpared(lines: seq<bytes>, name: bytes): Option<bytes> {
    if lines == [] then None
    else if Named(lines[0], name) && !IsCsp(lines[0]) then Some(lines[0])
    else FirstSpared(lines[1..], name)
  }

  lemma {:induction false} PolicyLines(lines: seq<bytes>, setCl: Option<nat>, name: bytes)
    requires CspField(name)
    ensures FirstNamed(EditedFields(lines, setCl), name) == FirstSpared(lines, name)
    ensures FirstSpared(lines, name).None? <==> forall i :: 0 <= i < |lines| && Named(lines[i], name) ==> IsCsp(lines[i])
  {
    if lines != [] {
      var line := lines[0];
      PolicyLines(lines[1..], setCl, name);
      assert forall i :: 1 <= i < |lines| ==> lines[i] == lines[1..][i - 1];
      FirstNamedAppend(EditedLine(line, setCl), EditedFields(lines[1..], setCl), name);
      if !IsCsp(line) && setCl.Some? && IsContentLength(line) {
        LengthLineNamed(line, setCl.value, name);
      }
    }
  }

  /** An edited head has no policy field left if and only if the editor knew every line that the parser files under it. */
  lemma PolicyDropped(lines: seq<bytes>, setCl: Option<nat>, name: bytes)
    requires |lines| >= 1 && CleanLines(lines) && Unfolded(lines[1..]) && ParseFields(lines[1..]).Some?
    requires CspField(name)
    ensures var edited := ParseHeadFields(WithoutEnd(EditResponseHead(RawHead(lines), setCl)));
            && edited.Some?
            && (HeaderValue(edited.value.headers, name).None?
                <==> forall i :: 1 <= i < |lines| && Named(lines[i], name) ==> IsCsp(lines[i]))
  {
    var fields := lines[1..];
    EditedHeadIsHead(lines, setCl);
    ParsesAsLines(EditedHead(lines, setCl));
    assert EditedHead(lines, setCl)[1..] == EditedFields(fields, setCl);
    EditedFieldsParse(fields, setCl);
    EditedFieldsClean(fields, setCl);
    PolicyLines(fields, setCl, name);
    ValueOfFirst(EditedFields(fields, setCl), name);
    assert forall i :: 1 <= i < |lines| ==> lines[i] == fields[i - 1];
  }

  /** The line the parser takes the length from. */
  function LengthLineOf(lines: seq<bytes>): Option<bytes> { FirstNamed(lines, A("content-length")) }

  lemma {:induction false} LengthAfterEdit(lines: seq<bytes>, n: nat)
    requires CleanLines(lines)
    requires ParseFields(lines).Some? && ParseFields(EditedFields(lines, Some(n))).Some?
    ensures HeaderValue(ParseFields(EditedFields(lines, Some(n))).value, A("content-length"))
            == match LengthLineOf(lines)
               case None => None
               case Some(l) => if IsContentLength(l) then Some(ToRadix(n, 10))
                               else HeaderValue(ParseFields(lines).value, A("content-length"))
    ensures LengthLineOf(lines).None? <==> HeaderValue(ParseFields(lines).value, A("content-length")).None?
  {
    if lines != [] {
      var line, cl := lines[0], Some(n);
      assert lines == [line] + lines[1..];
      ParseFieldsCons([line], lines[1..]);
      EditedFieldsParse(lines[1..], cl);
      LengthAfterEdit(lines[1..], n);
      EditedLineClean(line, cl);
      ParseFieldsCons(EditedLine(line, cl), EditedFields(lines[1..], cl));
      FieldName(line);
      if IsCsp(line) {
        CspName(line);
      } else if IsContentLength(line) {
        LengthName(line);
        LengthField(line, n);
      }
    }
  }

  /** For a head of CRLF lines without folding, the edited head is found whole, keeps its start line and every
      other field, and announces the new length if and only if the editor knows the line that the parser
      takes the length from. The two differ only in which white space they trim from a name. */
  lemma LengthRewritten(lines: seq<bytes>, n: nat)
    requires |lines| >= 1 && CleanLines(lines) && Unfolded(lines[1..])
    requires ParseFields(lines[1..]).Some?
    requires var cl := ContentLength(ParseFields(lines[1..]).value); cl.Some? && cl != Some(n)
    requires n <= USIZE_MAX
    ensures var edited := EditResponseHead(RawHead(lines), Some(n));
            && FindHeaderEnd(edited) == Some(|edited|)
            && ParseHeadFields(WithoutEnd(edited)).Some?
            && ParseHeadFields(WithoutEnd(edited)).value.startLine == lines[0]
            && LengthLineOf(lines[1..]).Some?
            && (ContentLength(ParseHeadFields(WithoutEnd(edited)).value.headers) == Some(n)
                <==> IsContentLength(LengthLineOf(lines[1..]).value))
  {
    var fields, cl := lines[1..], Some(n);
    var edited := EditedHead(lines, cl);
    EditedHeadIsHead(lines, cl);
    HeaderEnds(edited, []);
    assert RawHead(edited) + [] == RawHead(edited);
    EditedFieldsParse(fields, cl);
    ParsesAsLines(edited);
    assert edited[1..] == EditedFields(fields, cl);
    LengthAfterEdit(fields, n);
    DigitsTrim(n);
    NumberRoundTrip(n, 10, USIZE_MAX);
  }

  /** The two do differ: after a vertical tab the parser still reads a length that the editor leaves alone. */
  lemma VerticalTabHidesLength(value: bytes)
    ensures var line := A("content-length") + [11] + [58] + value;
            Named(line, A("content-length")) && !IsContentLength(line) && FieldOf(line).Some?
  {
    var name := A("content-length") + [11];
    ColonSplits(name, value);
    assert TrimStart(name) == name;
    assert name[..14] == A("content-length");
    assert TrimEnd(name) == TrimEnd(name[..14]) == A("content-length");
    assert AsciiTrimStart(name) == name && AsciiTrimEnd(name) == name;
  }

  // --- folded lines ----------------------------------------------------------

  predicate Folds(lines: seq<bytes>) {
    forall i :: 0 <= i < |lines| ==> lines[i] != [] && (lines[i][0] == SP || lines[i][0] == HT)
  }

  predicate NewField(lines: seq<bytes>) { lines == [] || lines[0] == [] || (lines[0][0] != SP && lines[0][0] != HT) }

  lemma {:induction false} FoldsFollow(folds: seq<bytes>, more: seq<bytes>, dropped: bool, setCl: Option<nat>)
    requires Folds(folds)
    ensures EditFields(folds + more, dropped, setCl) == (if dropped then [] else Lines(folds)) + EditFields(more, dropped, setCl)
    ensures DropEncodings(folds + more, dropped) == (if dropped then [] else Lines(folds)) + DropEncodings(more, dropped)
    decreases |folds|
  {
    if folds == [] {
      assert folds + more == more;
    } else {
      assert (folds + more)[0] == folds[0] && (folds + more)[1..] == folds[1..] + more;
      FoldsFollow(folds[1..], more, dropped, setCl);
      Assoc(folds[0] + CRLF, Lines(folds[1..]), EditFields(more, dropped, setCl));
      Assoc(folds[0] + CRLF, Lines(folds[1..]), DropEncodings(more, dropped));
    }
  }

  lemma Afresh(more: seq<bytes>, dropped: bool, setCl: Option<nat>)
    requires NewField(more)
    ensures EditFields(more, dropped, setCl) == EditFields(more, false, setCl) && DropEncodings(more, dropped) == DropEncodings(more, false)
  {
  }

  lemma OneLine(line: bytes, folds: seq<bytes>, more: seq<bytes>)
    ensures var all := [line] + folds + more; all != [] && all[0] == line && all[1..] == folds + more
  {
  }

  lemma LineEdited(line: bytes, dropped: bool, setCl: Option<nat>)
    requires NewField([line])
    ensures var e := EditLine(line, dropped, setCl);
            e.text == Lines(EditedLine(line, setCl)) && (e.dropped <==> EditedLine(line, setCl) == [])
  {
    assert [line][0] == line;
  }

  /** A field with the lines folded under it is edited as one: a policy goes with all of its lines, any other field keeps them, and
      the field after it is edited as if nothing had been in front of it. */
  lemma FoldedField(line: bytes, folds: seq<bytes>, more: seq<bytes>, dropped: bool, setCl: Option<nat>)
    requires NewField([line]) && Folds(folds) && NewField(more)
    ensures EditFields([line] + folds + more, dropped, setCl)
            == Lines(EditedLine(line, setCl)) + (if EditedLine(line, setCl) == [] then [] else Lines(folds)) + EditFields(more, false, setCl)
  {
    OneLine(line, folds, more);
    LineEdited(line, dropped, setCl);
    var e := EditLine(line, dropped, setCl);
    FoldsFollow(folds, more, e.dropped, setCl);
    Afresh(more, e.dropped, setCl);
    Assoc(e.text, if e.dropped then [] else Lines(folds), EditFields(more, false, setCl));
  }

  /** The same for requests: Accept-Encoding goes with all of its lines. */
  lemma FoldedEncoding(line: bytes, folds: seq<bytes>, more: seq<bytes>, dropped: bool)
    requires NewField([line]) && Folds(folds) && NewField(more)
    ensures DropEncodings([line] + folds + more, dropped)
            == (if NameIs(line, A("accept-encoding")) then [] else line + CRLF + Lines(folds)) + DropEncodings(more, false)
  {
    OneLine(line, folds, more);
    assert [line][0] == line;
    var d := DropEncoding(line, dropped);
    FoldsFollow(folds, more, d.dropped, None);
    Afresh(more, d.dropped, None);
    Assoc(d.text, if d.dropped then [] else Lines(folds), DropEncodings(more, false));
  }
}
