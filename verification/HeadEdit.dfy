/** Editing message heads line by line, and what a parser makes of the result. */
module HeadEdit {
  import opened Bytes
  import opened HttpHead

  /** Lines between CRLFs; no empty line after a last CRLF. */
  function CrlfLines(fields: bytes): seq<bytes>
    decreases |fields|
  {
    match Find(fields, CRLF)
    case None => if fields == [] then [] else [fields]
    case Some(p) => [fields[..p]] + CrlfLines(fields[p + 2..])
  }

  function LineName(line: bytes): bytes {
    match IndexOf(line, 58) case None => line case Some(c) => line[..c]
  }

  predicate NameIs(line: bytes, target: bytes) { EqIgnoreCase(AsciiTrim(LineName(line)), target) }

  predicate IsContinuation(line: bytes) { line != [] && (line[0] == SP || line[0] == HT) }

  predicate IsCsp(line: bytes) {
    || NameIs(line, A("content-security-policy"))
    || NameIs(line, A("content-security-policy-report-only"))
    || NameIs(line, A("x-content-security-policy"))
  }

  predicate IsContentLength(line: bytes) { NameIs(line, A("content-length")) }

  function LengthLine(line: bytes, n: nat): bytes { LineName(line) + [58, 32] + ToRadix(n, 10) }

  /** What one line becomes, and whether it was dropped; a continuation shares the fate of its line. */
  datatype Edited = Edited(text: bytes, dropped: bool)

  function EditLine(line: bytes, dropped: bool, setCl: Option<nat>): Edited {
    if IsContinuation(line) then Edited(if dropped then [] else line + CRLF, dropped)
    else if IsCsp(line) then Edited([], true)
    else if setCl.Some? && IsContentLength(line) then Edited(LengthLine(line, setCl.value) + CRLF, false)
    else Edited(line + CRLF, false)
  }

  /** The lines after the first: CSP lines dropped, Content-Length rewritten. */
  function EditFields(lines: seq<bytes>, dropped: bool, setCl: Option<nat>): bytes {
    if lines == [] then []
    else
      var e := EditLine(lines[0], dropped, setCl);
      e.text + EditFields(lines[1..], e.dropped, setCl)
  }

  function WithoutEnd(rawHead: bytes): bytes { rawHead[..Max(|rawHead| - 4, 0)] }

  function EditResponseHead(rawHead: bytes, setCl: Option<nat>): bytes {
    var lines := CrlfLines(WithoutEnd(rawHead));
    (if lines == [] then [] else lines[0] + CRLF + EditFields(lines[1..], false, setCl)) + CRLF
  }

  function DropEncoding(line: bytes, dropped: bool): Edited {
    if IsContinuation(line) then Edited(if dropped then [] else line + CRLF, dropped)
    else if NameIs(line, A("accept-encoding")) then Edited([], true)
    else Edited(line + CRLF, false)
  }

  /** The lines after the first, Accept-Encoding dropped. */
  function DropEncodings(lines: seq<bytes>, dropped: bool): bytes {
    if lines == [] then []
    else
      var e := DropEncoding(lines[0], dropped);
      e.text + DropEncodings(lines[1..], e.dropped)
  }

  function EditRequestHead(rawHead: bytes): bytes {
    var lines := CrlfLines(WithoutEnd(rawHead));
    (if lines == [] then [] else lines[0] + CRLF + DropEncodings(lines[1..], false))
    + A("Accept-Encoding: identity") + CRLFCRLF
  }

  // --- the same, as loops ----------------------------------------------------

  predicate BreakAt(s: bytes, i: int) { 0 <= i && i + 1 < |s| && s[i] == CR && s[i + 1] == LF }

  lemma BreakIsCrlf(fields: bytes, start: nat, j: nat)
    requires start <= |fields|
    ensures At(fields[start..], CRLF, j) == BreakAt(fields, start + j)
  {
    var tail := fields[start..];
    if j + 2 <= |tail| {
      assert tail[j..j + 2] == [tail[j], tail[j + 1]];
    }
  }

  lemma CrlfLinesStep(fields: bytes, start: nat, i: nat)
    requires start <= i && BreakAt(fields, i)
    requires forall j :: start <= j < i ==> !BreakAt(fields, j)
    ensures CrlfLines(fields[start..]) == [fields[start..i]] + CrlfLines(fields[i + 2..])
  {
    var tail := fields[start..];
    BreakIsCrlf(fields, start, i - start);
    forall j | 0 <= j < i - start ensures !At(tail, CRLF, j) {
      BreakIsCrlf(fields, start, j);
    }
    FindUnique(tail, CRLF, i - start);
    assert tail[..i - start] == fields[start..i];
    assert tail[i - start + 2..] == fields[i + 2..];
  }

  lemma CrlfLinesEnd(fields: bytes, start: nat)
    requires start <= |fields| && forall j :: start <= j ==> !BreakAt(fields, j)
    ensures CrlfLines(fields[start..]) == if fields[start..] == [] then [] else [fields[start..]]
  {
    var tail := fields[start..];
    forall j | 0 <= j ensures !At(tail, CRLF, j) {
      BreakIsCrlf(fields, start, j);
    }
  }

  method SplitCrlfLines(fields: bytes) returns (lines: seq<bytes>)
    ensures lines == CrlfLines(fields)
  {
    lines := [];
    var start, i := 0, 0;
    assert fields[0..] == fields && [] + CrlfLines(fields) == CrlfLines(fields);
    while i + 1 < |fields|
      invariant 0 <= start <= i <= |fields|
      invariant forall j :: start <= j < i ==> !BreakAt(fields, j)
      invariant lines + CrlfLines(fields[start..]) == CrlfLines(fields)
      decreases |fields| - i
    {
      if fields[i] == CR && fields[i + 1] == LF {
        CrlfLinesStep(fields, start, i);
        Assoc(lines, [fields[start..i]], CrlfLines(fields[i + 2..]));
        lines := lines + [fields[start..i]];
        i := i + 2;
        start := i;
      } else {
        i := i + 1;
      }
    }
    CrlfLinesEnd(fields, start);
    if start < |fields| {
      lines := lines + [fields[start..]];
    } else {
      assert lines + [] == lines;
    }
  }

  lemma EditFieldsStep(out: bytes, lines: seq<bytes>, idx: nat, dropped: bool, setCl: Option<nat>)
    requires idx < |lines|
    ensures var e := EditLine(lines[idx], dropped, setCl);
            out + EditFields(lines[idx..], dropped, setCl) == out + e.text + EditFields(lines[idx + 1..], e.dropped, setCl)
  {
    var e := EditLine(lines[idx], dropped, setCl);
    assert lines[idx..][1..] == lines[idx + 1..];
    assert out + (e.text + EditFields(lines[idx + 1..], e.dropped, setCl))
        == out + e.text + EditFields(lines[idx + 1..], e.dropped, setCl);
  }

  lemma DropEncodingsStep(out: bytes, lines: seq<bytes>, idx: nat, dropped: bool)
    requires idx < |lines|
    ensures var e := DropEncoding(lines[idx], dropped);
            out + DropEncodings(lines[idx..], dropped) == out + e.text + DropEncodings(lines[idx + 1..], e.dropped)
  {
    var e := DropEncoding(lines[idx], dropped);
    assert lines[idx..][1..] == lines[idx + 1..];
    assert out + (e.text + DropEncodings(lines[idx + 1..], e.dropped)) == out + e.text + DropEncodings(lines[idx + 1..], e.dropped);
  }

  method RebuildResponseHead(rawHead: bytes, setCl: Option<nat>) returns (out: bytes)
    ensures out == EditResponseHead(rawHead, setCl)
  {
    var lines := SplitCrlfLines(WithoutEnd(rawHead));
    out := [];
    var droppedPrev := false;
    for idx := 0 to |lines|
      invariant idx == 0 ==> out == [] && !droppedPrev
      invariant idx > 0 ==> out + EditFields(lines[idx..], droppedPrev, setCl)
                            == lines[0] + CRLF + EditFields(lines[1..], false, setCl)
    {
      var line := lines[idx];
      if idx == 0 {
        out := line + CRLF;
      } else {
        EditFieldsStep(out, lines, idx, droppedPrev, setCl);
        var e := EditLine(line, droppedPrev, setCl);
        out := out + e.text;
        droppedPrev := e.dropped;
      }
    }
    assert lines != [] ==> out + [] == out;
    out := out + CRLF;
  }

  method RebuildRequestHead(rawHead: bytes) returns (out: bytes)
    ensures out == EditRequestHead(rawHead)
  {
    var lines := SplitCrlfLines(WithoutEnd(rawHead));
    out := [];
    var droppedPrev := false;
    for idx := 0 to |lines|
      invariant idx == 0 ==> out == [] && !droppedPrev
      invariant idx > 0 ==> out + DropEncodings(lines[idx..], droppedPrev) == lines[0] + CRLF + DropEncodings(lines[1..], false)
    {
      var line := lines[idx];
      if idx == 0 {
        out := line + CRLF;
      } else {
        DropEncodingsStep(out, lines, idx, droppedPrev);
        var e := DropEncoding(line, droppedPrev);
        out := out + e.text;
        droppedPrev := e.dropped;
      }
    }
    assert lines != [] ==> out + [] == out;
    out := out + A("Accept-Encoding: identity") + CRLFCRLF;
  }
}
