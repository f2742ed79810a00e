/** What the words of a start line and the fields of a head say, read without the parser. */
module HeadWords {
  import opened Bytes
  import opened HttpHead
  import opened HttpTap
  import opened HeadEdit
  import opened HeadReparse

  /** A word of a start line. */
  predicate OneWord(w: bytes) { forall i :: 0 <= i < |w| ==> w[i] != SP }

  /** The line begins with `front`, and the last word of `front` ends there. */
  predicate EndsWord(front: bytes, line: bytes) { front <= line && (line == front || line[|front|] == SP) }

  /** The three words of a request line; whatever follows them is not looked at. */
  predicate RequestLineSays(line: bytes, verb: bytes, target: bytes, version: bytes) {
    && Utf8(line) && OneWord(verb) && OneWord(target) && OneWord(version)
    && verb != [] && A("HTTP/") <= version
    && EndsWord(verb + [SP] + target + [SP] + version, line)
  }

  /** The version and the status of a status line. */
  ghost predicate StatusLineSays(line: bytes, version: bytes, status: nat) {
    && Utf8(line) && OneWord(version) && A("HTTP/") <= version
    && exists code :: OneWord(code) && EndsWord(version + [SP] + code, line) && ParseUnsigned(code, 10, 65535) == Some(status)
  }

  // --- the parser reads these words ------------------------------------------

  /** The first word of a line and what follows the space behind it. */
  lemma FirstWord(w: bytes, rest: bytes)
    requires OneWord(w)
    ensures Split(w, SP) == [w] && IndexOf(w, SP).None?
    ensures Split(w + [SP] + rest, SP) == [w] + Split(rest, SP)
    ensures IndexOf(w + [SP] + rest, SP) == Some(|w|)
    ensures (w + [SP] + rest)[..|w|] == w && (w + [SP] + rest)[|w| + 1..] == rest
  {
    var s := w + [SP] + rest;
    assert s[|w|] == SP && s[..|w|] == w && s[|w| + 1..] == rest;
  }

  /** A line that goes on behind a word has a space there. */
  lemma Onwards(front: bytes, line: bytes)
    requires EndsWord(front, line) && line != front
    ensures line == front + [SP] + line[|front| + 1..]
  {
    assert line == front + line[|front|..];
  }

  /** The last word that is looked at. */
  lemma LastWord(w: bytes, line: bytes)
    requires OneWord(w) && EndsWord(w, line)
    ensures Split(line, SP)[0] == w
    ensures (match IndexOf(line, SP) case None => line case Some(j) => line[..j]) == w
  {
    if line == w {
      FirstWord(w, []);
    } else {
      Onwards(w, line);
      FirstWord(w, line[|w| + 1..]);
    }
  }

  lemma BehindWord(w: bytes, more: bytes, line: bytes)
    requires EndsWord(w + [SP] + more, line)
    ensures line == w + [SP] + line[|w| + 1..] && EndsWord(more, line[|w| + 1..])
  {
    var front := w + [SP] + more;
    assert line[..|front|] == front;
    assert line[..|w| + 1] == front[..|w| + 1] == w + [SP];
    assert line[|w| + 1..][..|more|] == line[|w| + 1..|front|] == more;
  }

  /** Whatever the line, the parser reads these three words of it if and only if they are its words. */
  lemma RequestWordsIff(line: bytes, verb: bytes, target: bytes, version: bytes)
    ensures RequestWords(line) == Some((verb, target, version)) <==> RequestLineSays(line, verb, target, version)
  {
    if RequestLineSays(line, verb, target, version) {
      SaidWords(line, verb, target, version);
    }
    if RequestWords(line) == Some((verb, target, version)) {
      ReadWords(line, verb, target, version);
    }
  }

  lemma ThreeWords(line: bytes, verb: bytes, target: bytes, more: seq<bytes>)
    requires more != [] && Split(line, SP) == [verb] + ([target] + more)
    ensures RequestWords(line) == (if !Utf8(line) || verb == [] || !(A("HTTP/") <= more[0]) then None else Some((verb, target, more[0])))
  {
    var parts := Split(line, SP);
    assert parts[0] == verb && parts[1] == target && parts[2] == more[0];
  }

  lemma SplitWords(line: bytes, verb: bytes, target: bytes, version: bytes) returns (last: bytes)
    requires OneWord(verb) && OneWord(target) && EndsWord(verb + [SP] + target + [SP] + version, line)
    ensures Split(line, SP) == [verb] + ([target] + Split(last, SP)) && EndsWord(version, last)
  {
    assert verb + [SP] + target + [SP] + version == verb + [SP] + (target + [SP] + version);
    BehindWord(verb, target + [SP] + version, line);
    var rest := line[|verb| + 1..];
    BehindWord(target, version, rest);
    last := rest[|target| + 1..];
    FirstWord(verb, rest);
    FirstWord(target, last);
  }

  lemma SaidWords(line: bytes, verb: bytes, target: bytes, version: bytes)
    requires RequestLineSays(line, verb, target, version)
    ensures RequestWords(line) == Some((verb, target, version))
  {
    var last := SplitWords(line, verb, target, version);
    LastWord(version, last);
    ThreeWords(line, verb, target, Split(last, SP));
  }

  lemma SplitAgain(line: bytes) returns (w: bytes, rest: bytes)
    ensures OneWord(w) && EndsWord(w, line) && Split(line, SP)[0] == w
    ensures |Split(line, SP)| > 1 ==> line == w + [SP] + rest && Split(line, SP) == [w] + Split(rest, SP)
  {
    w, rest := line, [];
    if IndexOf(line, SP).Some? {
      var p := IndexOf(line, SP).value;
      w, rest := line[..p], line[p + 1..];
      assert line == w + [SP] + rest;
    }
  }

  lemma JoinWord(w: bytes, more: bytes, line: bytes, rest: bytes)
    requires line == w + [SP] + rest && EndsWord(more, rest)
    ensures EndsWord(w + [SP] + more, line)
  {
    assert rest == more + rest[|more|..];
    assert line == w + [SP] + more + rest[|more|..];
  }

  /** Three words of a line, and what is behind them. */
  lemma WordsAgain(line: bytes, verb: bytes, target: bytes, version: bytes)
    requires var parts := Split(line, SP); |parts| >= 3 && parts[0] == verb && parts[1] == target && parts[2] == version
    ensures OneWord(verb) && OneWord(target) && OneWord(version)
    ensures EndsWord(verb + [SP] + target + [SP] + version, line)
  {
    var v, rest := SplitAgain(line);
    SecondOf(verb, Split(rest, SP), Split(line, SP));
    var t, last := SplitAgain(rest);
    SecondOf(target, Split(last, SP), Split(rest, SP));
    var w, _ := SplitAgain(last);
    JoinTwo(verb, target, version, line, rest, last);
  }

  lemma SecondOf(first: bytes, rest: seq<bytes>, all: seq<bytes>)
    requires all == [first] + rest
    ensures |rest| == |all| - 1 && forall k :: 0 <= k < |rest| ==> rest[k] == all[k + 1]
  {
  }

  lemma JoinTwo(verb: bytes, target: bytes, version: bytes, line: bytes, rest: bytes, last: bytes)
    requires line == verb + [SP] + rest && rest == target + [SP] + last && EndsWord(version, last)
    ensures EndsWord(verb + [SP] + target + [SP] + version, line)
  {
    JoinWord(target, version, rest, last);
    JoinWord(verb, target + [SP] + version, line, rest);
    assert verb + [SP] + (target + [SP] + version) == verb + [SP] + target + [SP] + version;
  }

  lemma ReadWords(line: bytes, verb: bytes, target: bytes, version: bytes)
    requires RequestWords(line) == Some((verb, target, version))
    ensures RequestLineSays(line, verb, target, version)
  {
    WordsAgain(line, verb, target, version);
  }

  /** Whatever the line, the parser reads this version and this status if and only if the line says them. */
  lemma StatusWordsIff(line: bytes, version: bytes, status: nat)
    ensures ParseStatusLine(line) == Some(status) && Split(line, SP)[0] == version <==> StatusLineSays(line, version, status)
  {
    if StatusLineSays(line, version, status) {
      var code :| OneWord(code) && EndsWord(version + [SP] + code, line) && ParseUnsigned(code, 10, 65535) == Some(status);
      BehindWord(version, code, line);
      FirstWord(version, line[|version| + 1..]);
      LastWord(code, line[|version| + 1..]);
    }
    if ParseStatusLine(line) == Some(status) && Split(line, SP)[0] == version {
      var v, rest := SplitAgain(line);
      StatusRead(line, version, rest, status);
    }
  }

  lemma StatusRead(line: bytes, version: bytes, rest: bytes, status: nat)
    requires ParseStatusLine(line) == Some(status) && OneWord(version) && line == version + [SP] + rest
    ensures StatusLineSays(line, version, status)
  {
    FirstWord(version, rest);
    var code, _ := SplitAgain(rest);
    LastWord(code, rest);
    JoinWord(version, code, line, rest);
  }

  // --- heads that were written -----------------------------------------------

  /** Text without white space around it that fits one line. */
  predicate Plain(s: bytes) {
    LeadingSpace(s) == 0 && TrailingSpace(s) == 0 && forall i :: 0 <= i < |s| ==> s[i] != CR && s[i] != LF
  }

  predicate PlainField(h: Header) { Plain(h.0) && Plain(h.1) && h.0 != [] && forall i :: 0 <= i < |h.0| ==> h.0[i] != 58 }

  predicate PlainFields(fields: seq<Header>) { forall i :: 0 <= i < |fields| ==> PlainField(fields[i]) }

  function FieldLine(h: Header): bytes { h.0 + [58] + ([SP] + h.1) }

  function FieldLines(fields: seq<Header>): seq<bytes> {
    if fields == [] then [] else [FieldLine(fields[0])] + FieldLines(fields[1..])
  }

  /** A head as it is written: the start line, and a line for each field. */
  function WrittenHead(line: bytes, fields: seq<Header>): bytes { RawHead([line] + FieldLines(fields)) }

  lemma FieldLineReads(h: Header)
    requires PlainField(h)
    ensures CleanLine(FieldLine(h)) && FieldOf(FieldLine(h)) == Some(h)
  {
    ColonSplits(h.0, [SP] + h.1);
    SpaceInFront(h.1);
    forall i | 0 <= i < |FieldLine(h)| ensures FieldLine(h)[i] != CR && FieldLine(h)[i] != LF {
      assert FieldLine(h)[i] == if i < |h.0| then h.0[i] else if i == |h.0| then 58 else if i == |h.0| + 1 then SP else h.1[i - |h.0| - 2];
    }
  }

  lemma {:induction false} FieldLinesRead(fields: seq<Header>)
    requires PlainFields(fields)
    ensures ParseFields(FieldLines(fields)) == Some(fields)
  {
    if fields != [] {
      var line := FieldLine(fields[0]);
      FieldLineReads(fields[0]);
      FieldLinesRead(fields[1..]);
      ParseFieldsCons([line], FieldLines(fields[1..]));
      assert fields == [fields[0]] + fields[1..];
    }
  }

  lemma {:induction false} FieldLinesClean(fields: seq<Header>)
    requires PlainFields(fields)
    ensures CleanLines(FieldLines(fields))
  {
    if fields != [] {
      FieldLineReads(fields[0]);
      FieldLinesClean(fields[1..]);
    }
  }

  /** A head that was written ends where it ends, whatever follows, and parses to its start line and its fields. */
  lemma WrittenHeadReads(line: bytes, fields: seq<Header>, rest: bytes)
    requires CleanLine(line) && PlainFields(fields)
    ensures var head := WrittenHead(line, fields);
            && FindHeaderEnd(head + rest) == Some(|head|) && FindHeaderEnd(head) == Some(|head|)
            && ParseHeadFields(WithoutEnd(head)) == Some(Parsed(line, fields))
  {
    FieldLinesRead(fields);
    FieldLinesClean(fields);
    var lines := [line] + FieldLines(fields);
    assert lines[1..] == FieldLines(fields);
    assert CleanLines(lines);
    HeaderEnds(lines, rest);
    HeaderEnds(lines, []);
    assert RawHead(lines) + [] == RawHead(lines);
    ParsesAsLines(lines);
  }

  /** The tap records a written request with exactly its words, its fields, and the size of its head. */
  lemma WrittenRequestRecorded(verb: bytes, target: bytes, version: bytes, fields: seq<Header>, rest: bytes)
    requires RequestLineSays(verb + [SP] + target + [SP] + version, verb, target, version)
    requires CleanLine(verb + [SP] + target + [SP] + version) && PlainFields(fields)
    ensures var head := WrittenHead(verb + [SP] + target + [SP] + version, fields);
            var got := TakeHead(head + rest);
            && got.HeadGot? && got.head == head && got.rest == rest
            && RequestOf(head, got.parsed) == Some(Request(verb, target, version, fields, [], 0, |head|, false))
  {
    var line := verb + [SP] + target + [SP] + version;
    WrittenHeadReads(line, fields, rest);
    RequestWordsIff(line, verb, target, version);
    var head := WrittenHead(line, fields);
    assert (head + rest)[..|head|] == head && (head + rest)[|head|..] == rest;
  }

  /** The same for a response: its version, its status, its fields, and the size of its head. */
  lemma WrittenResponseRecorded(line: bytes, version: bytes, status: nat, fields: seq<Header>, rest: bytes)
    requires StatusLineSays(line, version, status) && CleanLine(line) && PlainFields(fields)
    ensures var head := WrittenHead(line, fields);
            var got := TakeHead(head + rest);
            && got.HeadGot? && got.head == head && got.rest == rest
            && ResponseOf(head, got.parsed) == Some(Response(status, version, fields, [], 0, |head|, false))
  {
    WrittenHeadReads(line, fields, rest);
    StatusWordsIff(line, version, status);
    var head := WrittenHead(line, fields);
    assert (head + rest)[..|head|] == head && (head + rest)[|head|..] == rest;
  }
}
