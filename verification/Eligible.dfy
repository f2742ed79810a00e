/** Which responses are injected into, read off their fields without the parser's helpers. */
module Eligible {
  import opened Bytes
  import opened HttpHead
  import opened BodyRule

  const SEMICOLON: byte := 59
  const EQUALS: byte := 61
  const QUOTE: byte := 34

  // --- parameters of a media type --------------------------------------------

  /** Outside of `s[a..b]` there are only quotes, and it neither begins nor ends with one. */
  predicate Inner(s: bytes, a: int, b: int) {
    && 0 <= a <= b <= |s|
    && (forall k :: 0 <= k < a ==> s[k] == QUOTE) && (forall k :: b <= k < |s| ==> s[k] == QUOTE)
    && (a < b ==> s[a] != QUOTE && s[b - 1] != QUOTE)
  }

  /** `v` is `s` without the quotes around it. */
  ghost predicate Unquoted(s: bytes, v: bytes) { exists a, b :: Inner(s, a, b) && s[a..b] == v }

  /** The parameter sets the charset to what is behind its equals sign, and that is `said`. */
  predicate CharsetParam(param: bytes, said: bytes) {
    var p := Trim(param);
    && A("charset") <= p
    && var after := TrimStart(p[7..]);
       after != [] && after[0] == EQUALS && said == Trim(after[1..])
  }

  ghost predicate SetsCharset(param: bytes) { exists said :: CharsetParam(param, said) }

  /** The first of the parameters `params` that sets the charset says this. */
  ghost predicate FirstCharset(params: bytes, said: bytes) {
    exists a, b :: Piece(params, SEMICOLON, a, b) && CharsetParam(params[a..b], said)
                   && forall c, d :: Piece(params, SEMICOLON, c, d) && c < a ==> !SetsCharset(params[c..d])
  }

  lemma {:induction false} InnerOf(s: bytes) returns (a: int, b: int)
    ensures Inner(s, a, b) && TrimQuotes(s) == s[a..b]
    decreases |s|
  {
    if s != [] && s[0] == QUOTE {
      var t := s[1..];
      a, b := InnerOf(t);
      assert forall k :: 0 <= k < |t| ==> t[k] == s[k + 1];
      assert t[a..b] == s[a + 1..b + 1];
      a, b := a + 1, b + 1;
    } else if s != [] && s[|s| - 1] == QUOTE {
      var t := s[..|s| - 1];
      a, b := InnerOf(t);
      assert t[a..b] == s[a..b];
    } else {
      a, b := 0, |s|;
      assert s[a..b] == s;
    }
  }

  lemma InnerUnique(s: bytes, a: int, b: int, c: int, d: int)
    requires Inner(s, a, b) && Inner(s, c, d)
    ensures s[a..b] == s[c..d]
  {
  }

  lemma UnquotedIs(s: bytes, v: bytes)
    ensures Unquoted(s, v) <==> v == TrimQuotes(s)
  {
    var a, b := InnerOf(s);
    if Unquoted(s, v) {
      var c, d :| Inner(s, c, d) && s[c..d] == v;
      InnerUnique(s, a, b, c, d);
    }
  }

  lemma OneParam(params: seq<bytes>) returns (said: bytes)
    requires params != []
    ensures if SetsCharset(params[0]) then CharsetParam(params[0], said) && CharsetOf(params) == Some(TrimQuotes(said))
            else CharsetOf(params) == CharsetOf(params[1..])
  {
    var p := Trim(params[0]);
    said := [];
    if A("charset") <= p {
      var after := TrimStart(p[7..]);
      if after != [] && after[0] == EQUALS {
        said := Trim(after[1..]);
        assert CharsetParam(params[0], said);
      }
    }
  }

  lemma {:induction false} CharsetFound(params: bytes) returns (said: bytes)
    ensures var c := CharsetOf(Split(params, SEMICOLON));
            && (c.Some? ==> FirstCharset(params, said) && c.value == TrimQuotes(said))
            && (c.None? ==> forall t :: !FirstCharset(params, t))
    decreases |params|
  {
    var p := IndexOf(params, SEMICOLON);
    var n := if p.Some? then p.value else |params|;
    FrontPiece(params, n);
    var param := params[..n];
    assert Split(params, SEMICOLON)[0] == param;
    said := OneParam(Split(params, SEMICOLON));
    if SetsCharset(param) {
      assert params[0..n] == param;
      assert FirstCharset(params, said);
    } else if p.Some? {
      var rest := params[n + 1..];
      assert Split(params, SEMICOLON)[1..] == Split(rest, SEMICOLON);
      said := CharsetFound(rest);
      forall t ensures FirstCharset(rest, t) <==> FirstCharset(params, t) {
        CharsetBehind(params, n, t);
      }
    } else {
      assert Split(params, SEMICOLON)[1..] == [];
      OnlyPiece(params);
    }
  }

  lemma FrontPiece(s: bytes, n: nat)
    requires n <= |s| && (n == |s| || s[n] == SEMICOLON) && forall k :: 0 <= k < n ==> s[k] != SEMICOLON
    ensures Piece(s, SEMICOLON, 0, n)
  {
  }

  lemma OnlyPiece(s: bytes)
    requires IndexOf(s, SEMICOLON).None? && !SetsCharset(s[..|s|])
    ensures forall said :: !FirstCharset(s, said)
  {
    forall a, b | Piece(s, SEMICOLON, a, b) ensures a == 0 && b == |s| && s[a..b] == s[..|s|] {
    }
  }

  /** Parameters behind one that does not set the charset. */
  lemma CharsetBehind(s: bytes, n: nat, said: bytes)
    requires IndexOf(s, SEMICOLON) == Some(n) && !SetsCharset(s[..n])
    ensures FirstCharset(s[n + 1..], said) <==> FirstCharset(s, said)
  {
    var rest := s[n + 1..];
    forall a, b ensures Piece(rest, SEMICOLON, a, b) <==> a >= 0 && Piece(s, SEMICOLON, a + n + 1, b + n + 1) {
      Shifted(s, n, a, b);
    }
    forall a, b | Piece(rest, SEMICOLON, a, b) ensures rest[a..b] == s[a + n + 1..b + n + 1] {
    }
    forall a, b | Piece(s, SEMICOLON, a, b) ensures (a == 0 && b == n && s[a..b] == s[..n]) || a >= n + 1 {
    }
    if FirstCharset(rest, said) {
      var a, b :| Piece(rest, SEMICOLON, a, b) && CharsetParam(rest[a..b], said)
                  && forall c, d :: Piece(rest, SEMICOLON, c, d) && c < a ==> !SetsCharset(rest[c..d]);
      forall c, d | Piece(s, SEMICOLON, c, d) && c < a + n + 1 ensures !SetsCharset(s[c..d]) {
        assert c > 0 ==> Piece(rest, SEMICOLON, c - n - 1, d - n - 1);
      }
      assert Piece(s, SEMICOLON, a + n + 1, b + n + 1);
    }
    if FirstCharset(s, said) {
      var a, b :| Piece(s, SEMICOLON, a, b) && CharsetParam(s[a..b], said)
                  && forall c, d :: Piece(s, SEMICOLON, c, d) && c < a ==> !SetsCharset(s[c..d]);
      assert Piece(rest, SEMICOLON, a - n - 1, b - n - 1);
      forall c, d | Piece(rest, SEMICOLON, c, d) && c < a - n - 1 ensures !SetsCharset(rest[c..d]) {
        assert Piece(s, SEMICOLON, c + n + 1, d + n + 1);
      }
    }
  }

  lemma Shifted(s: bytes, n: nat, a: int, b: int)
    requires IndexOf(s, SEMICOLON) == Some(n)
    ensures Piece(s[n + 1..], SEMICOLON, a, b) <==> a >= 0 && Piece(s, SEMICOLON, a + n + 1, b + n + 1)
  {
    var rest := s[n + 1..];
    assert forall k :: 0 <= k < |rest| ==> rest[k] == s[k + n + 1];
    if a >= 0 && Piece(s, SEMICOLON, a + n + 1, b + n + 1) {
      forall k | a <= k < b ensures rest[k] != SEMICOLON {
        assert s[k + n + 1] != SEMICOLON;
      }
    }
  }

  // --- the rule --------------------------------------------------------------

  /** The media type of a Content-Type value is HTML. */
  predicate HtmlType(ct: bytes) {
    exists b :: 0 <= b <= |ct| && Piece(ct, SEMICOLON, 0, b) && EqIgnoreCase(Trim(ct[..b]), A("text/html"))
  }

  /** Some charset is named, and it is a UTF-16. */
  ghost predicate WideCharset(ct: bytes) {
    exists b, said, v :: 0 <= b < |ct| && Piece(ct, SEMICOLON, 0, b) && FirstCharset(ct[b + 1..], said)
                         && Unquoted(said, v) && A("utf-16") <= Lower(v)
  }

  predicate PlainCoding(v: bytes) { Trim(v) == [] || EqIgnoreCase(Trim(v), A("identity")) }

  /** HTML, all of it, not encoded, and not in UTF-16: by the first Content-Type and the first Content-Encoding. */
  ghost predicate Html(status: nat, headers: seq<Header>) {
    && status != 206
    && (exists ct :: FirstValue(headers, A("content-type"), ct) && HtmlType(ct) && !WideCharset(ct))
    && (forall v :: FirstValue(headers, A("content-encoding"), v) ==> PlainCoding(v))
  }

  lemma WideIff(ct: bytes)
    ensures WideCharset(ct) <==>
            var c := CharsetOf(Split(ct, SEMICOLON)[1..]); c.Some? && A("utf-16") <= Lower(c.value)
  {
    var p := IndexOf(ct, SEMICOLON);
    var n := if p.Some? then p.value else |ct|;
    FrontPiece(ct, n);
    forall b | Piece(ct, SEMICOLON, 0, b) ensures b == n {
    }
    if p.Some? {
      var rest := ct[n + 1..];
      assert Split(ct, SEMICOLON)[1..] == Split(rest, SEMICOLON);
      WideRest(ct, n);
    } else {
      assert Split(ct, SEMICOLON)[1..] == [];
    }
  }

  lemma WideRest(ct: bytes, n: nat)
    requires n < |ct| && Piece(ct, SEMICOLON, 0, n)
    ensures WideCharset(ct) <==> var c := CharsetOf(Split(ct[n + 1..], SEMICOLON)); c.Some? && A("utf-16") <= Lower(c.value)
  {
    var rest := ct[n + 1..];
    var said := CharsetFound(rest);
    var c := CharsetOf(Split(rest, SEMICOLON));
    forall b | Piece(ct, SEMICOLON, 0, b) ensures b == n {
    }
    if WideCharset(ct) {
      var b, t, v :| 0 <= b < |ct| && Piece(ct, SEMICOLON, 0, b) && FirstCharset(ct[b + 1..], t) && Unquoted(t, v)
                     && A("utf-16") <= Lower(v);
      UnquotedIs(t, v);
      FirstCharsetUnique(rest, said, t);
    }
    if c.Some? {
      UnquotedIs(said, c.value);
    }
  }

  lemma FirstCharsetUnique(s: bytes, x: bytes, y: bytes)
    requires FirstCharset(s, x) && FirstCharset(s, y)
    ensures x == y
  {
    var a, b :| Piece(s, SEMICOLON, a, b) && CharsetParam(s[a..b], x)
                && forall c, d :: Piece(s, SEMICOLON, c, d) && c < a ==> !SetsCharset(s[c..d]);
    var c, d :| Piece(s, SEMICOLON, c, d) && CharsetParam(s[c..d], y)
                && forall e, f :: Piece(s, SEMICOLON, e, f) && e < c ==> !SetsCharset(s[e..f]);
    assert a == c && b == d;
  }

  lemma HtmlTypeIff(ct: bytes)
    ensures HtmlType(ct) <==> EqIgnoreCase(Trim(Split(ct, SEMICOLON)[0]), A("text/html"))
  {
    var p := IndexOf(ct, SEMICOLON);
    var n := if p.Some? then p.value else |ct|;
    FrontPiece(ct, n);
    assert Split(ct, SEMICOLON)[0] == ct[..n];
    forall b | Piece(ct, SEMICOLON, 0, b) ensures b == n {
    }
  }

  /** A response is injected into if and only if its status and fields say that it is plain HTML. */
  lemma InjectableIff(status: nat, headers: seq<Header>)
    ensures Injectable(status, headers) <==> Html(status, headers)
  {
    var ct, ce := HeaderValue(headers, A("content-type")), HeaderValue(headers, A("content-encoding"));
    LookupIsFirst(headers, A("content-type"));
    LookupIsFirst(headers, A("content-encoding"));
    if ct.Some? {
      HtmlTypeIff(ct.value);
      WideIff(ct.value);
    } else {
      HtmlTypeIff([]);
      NothingIsNoHtml();
    }
  }

  lemma NothingIsNoHtml()
    ensures !HtmlType([])
  {
    assert Trim([]) == [] && |A("text/html")| == 9;
  }
}
