/** When a message has a body, and how it is delimited (section 6.3 of RFC 9112), read off the fields one by one. */
module BodyRule {
  import opened Bytes
  import opened HttpHead

  const COMMA: byte := 44

  // --- the first field of a name ---------------------------------------------

  /** The `i`-th field is the first one with this name, whatever the case of its letters. */
  predicate FirstAt(headers: seq<Header>, name: bytes, i: nat) {
    i < |headers| && EqIgnoreCase(headers[i].0, name) && forall j :: 0 <= j < i ==> !EqIgnoreCase(headers[j].0, name)
  }

  /** `v` is the value of the first field with this name. */
  ghost predicate FirstValue(headers: seq<Header>, name: bytes, v: bytes) {
    exists i :: 0 <= i < |headers| && FirstAt(headers, name, i) && headers[i].1 == v
  }

  predicate Absent(headers: seq<Header>, name: bytes) {
    forall j :: 0 <= j < |headers| ==> !EqIgnoreCase(headers[j].0, name)
  }

  /** The parser's lookup gives the value of the first field with the name, and nothing exactly when there is none. */
  lemma {:induction false} LookupIsFirst(headers: seq<Header>, name: bytes)
    ensures forall v :: HeaderValue(headers, name) == Some(v) <==> FirstValue(headers, name, v)
    ensures HeaderValue(headers, name).None? <==> Absent(headers, name)
  {
    if headers != [] {
      if EqIgnoreCase(headers[0].0, name) {
        assert FirstAt(headers, name, 0);
      } else {
        LookupIsFirst(headers[1..], name);
        forall v ensures FirstValue(headers[1..], name, v) <==> FirstValue(headers, name, v) {
          FirstOfRest(headers, name, v);
        }
      }
    }
  }

  lemma FirstOfRest(headers: seq<Header>, name: bytes, v: bytes)
    requires headers != [] && !EqIgnoreCase(headers[0].0, name)
    ensures FirstValue(headers[1..], name, v) <==> FirstValue(headers, name, v)
  {
    if FirstValue(headers[1..], name, v) {
      var i :| 0 <= i < |headers[1..]| && FirstAt(headers[1..], name, i) && headers[1..][i].1 == v;
      forall j | 0 <= j < i + 1 ensures !EqIgnoreCase(headers[j].0, name) {
        assert j > 0 ==> headers[j] == headers[1..][j - 1];
      }
      assert FirstAt(headers, name, i + 1);
    }
    if FirstValue(headers, name, v) {
      var i :| 0 <= i < |headers| && FirstAt(headers, name, i) && headers[i].1 == v;
      forall j | 0 <= j < i - 1 ensures !EqIgnoreCase(headers[1..][j].0, name) {
        assert headers[1..][j] == headers[j + 1];
      }
      assert FirstAt(headers[1..], name, i - 1);
    }
  }

  // --- the elements of a list ------------------------------------------------

  /** `s[a..b]` is one of the pieces between occurrences of `c`. */
  predicate Piece(s: bytes, c: byte, a: int, b: int) {
    0 <= a <= b <= |s| && (a == 0 || s[a - 1] == c) && (b == |s| || s[b] == c) && forall k :: a <= k < b ==> s[k] != c
  }

  ghost predicate IsPiece(s: bytes, c: byte, t: bytes) { exists a, b :: Piece(s, c, a, b) && s[a..b] == t }

  /** Splitting gives the pieces and nothing else. */
  lemma {:induction false} SplitIsPieces(s: bytes, c: byte, t: bytes)
    ensures t in Split(s, c) <==> IsPiece(s, c, t)
    decreases |s|
  {
    match IndexOf(s, c)
    case None =>
      assert s[0..|s|] == s;
      assert Piece(s, c, 0, |s|);
      forall a, b | Piece(s, c, a, b) ensures a == 0 && b == |s| {
      }
    case Some(p) =>
      SplitIsPieces(s[p + 1..], c, t);
      FirstPiece(s, c, p, t);
      LaterPieces(s, c, p, t);
  }

  lemma SliceBehind(s: bytes, n: nat, a: nat, b: nat)
    requires n <= |s| && a <= b <= |s| - n
    ensures s[n..][a..b] == s[a + n..b + n]
  {
  }

  lemma FirstPiece(s: bytes, c: byte, p: nat, t: bytes)
    requires IndexOf(s, c) == Some(p)
    ensures IsPiece(s, c, t) ==> t == s[..p] || IsPiece(s[p + 1..], c, t)
    ensures IsPiece(s, c, s[..p])
  {
    assert Piece(s, c, 0, p) && s[0..p] == s[..p];
    if IsPiece(s, c, t) {
      var a, b :| Piece(s, c, a, b) && s[a..b] == t;
      if a == 0 {
        assert b == p;
      } else {
        assert a > p;
        var rest := s[p + 1..];
        assert a > p + 1 ==> rest[a - p - 2] == s[a - 1];
        SliceBehind(s, p + 1, a - p - 1, b - p - 1);
        assert Piece(rest, c, a - p - 1, b - p - 1);
      }
    }
  }

  lemma LaterPieces(s: bytes, c: byte, p: nat, t: bytes)
    requires IndexOf(s, c) == Some(p)
    ensures IsPiece(s[p + 1..], c, t) ==> IsPiece(s, c, t)
  {
    var rest := s[p + 1..];
    if IsPiece(rest, c, t) {
      var a, b :| Piece(rest, c, a, b) && rest[a..b] == t;
      assert a > 0 ==> rest[a - 1] == s[p + a];
      SliceBehind(s, p + 1, a, b);
      assert Piece(s, c, a + p + 1, b + p + 1);
    }
  }

  /** A comma-separated list has this word among its elements. */
  ghost predicate Lists(list: bytes, word: bytes) { exists a, b :: Piece(list, COMMA, a, b) && EqIgnoreCase(Trim(list[a..b]), word) }

  lemma TokenIsListed(list: bytes, word: bytes)
    ensures AnyToken(Split(list, COMMA), word) <==> Lists(list, word)
  {
    var tokens := Split(list, COMMA);
    if AnyToken(tokens, word) {
      var i :| 0 <= i < |tokens| && EqIgnoreCase(Trim(tokens[i]), word);
      SplitIsPieces(list, COMMA, tokens[i]);
    }
    if Lists(list, word) {
      var a, b :| Piece(list, COMMA, a, b) && EqIgnoreCase(Trim(list[a..b]), word);
      SplitIsPieces(list, COMMA, list[a..b]);
    }
  }

  // --- the rule --------------------------------------------------------------

  /** The first Transfer-Encoding lists chunked. */
  ghost predicate ListsChunked(headers: seq<Header>) {
    exists i :: 0 <= i < |headers| && FirstAt(headers, A("transfer-encoding"), i) && Lists(headers[i].1, A("chunked"))
  }

  /** The first Content-Length is the number `n`. */
  ghost predicate SaysLength(headers: seq<Header>, n: nat) {
    exists i :: 0 <= i < |headers| && FirstAt(headers, A("content-length"), i)
                && ParseUnsigned(Trim(headers[i].1), 10, USIZE_MAX) == Some(n)
  }

  /** A response that has no body whatever its fields say. */
  predicate Bodiless(status: nat, isHead: bool) { isHead || status in {204, 304} || 100 <= status < 200 }

  /** `f` is how the body of a response is delimited; `None` when there is none. */
  ghost predicate Delimits(status: nat, isHead: bool, headers: seq<Header>, f: Option<Framing>) {
    if Bodiless(status, isHead) then f.None?
    else
      match f
      case None => !ListsChunked(headers) && SaysLength(headers, 0)
      case Some(Chunked) => ListsChunked(headers)
      case Some(Length(n)) => !ListsChunked(headers) && n > 0 && SaysLength(headers, n)
      case Some(UntilClose) => !ListsChunked(headers) && forall n :: !SaysLength(headers, n)
  }

  /** The same for a request. */
  ghost predicate RequestDelimits(headers: seq<Header>, f: Option<Framing>) {
    match f
    case None => !ListsChunked(headers) && forall n :: SaysLength(headers, n) ==> n == 0
    case Some(Chunked) => ListsChunked(headers)
    case Some(Length(n)) => !ListsChunked(headers) && n > 0 && SaysLength(headers, n)
    case Some(UntilClose) => false
  }

  lemma ChunkedIff(headers: seq<Header>)
    ensures IsChunked(headers) <==> ListsChunked(headers)
  {
    var name := A("transfer-encoding");
    LookupIsFirst(headers, name);
    var v := HeaderValue(headers, name);
    if v.Some? {
      assert FirstValue(headers, name, v.value);
      TokenIsListed(v.value, A("chunked"));
      var i :| 0 <= i < |headers| && FirstAt(headers, name, i) && headers[i].1 == v.value;
      forall k | 0 <= k < |headers| && FirstAt(headers, name, k) ensures k == i {
        FirstUnique(headers, name, i, k);
      }
    }
  }

  lemma FirstUnique(headers: seq<Header>, name: bytes, i: nat, k: nat)
    requires FirstAt(headers, name, i) && FirstAt(headers, name, k)
    ensures i == k
  {
  }

  lemma LengthIff(headers: seq<Header>)
    ensures forall n: nat :: ContentLength(headers) == Some(n) <==> SaysLength(headers, n)
  {
    var name := A("content-length");
    LookupIsFirst(headers, name);
    var v := HeaderValue(headers, name);
    if v.Some? {
      assert FirstValue(headers, name, v.value);
      var i :| 0 <= i < |headers| && FirstAt(headers, name, i) && headers[i].1 == v.value;
      forall k | 0 <= k < |headers| && FirstAt(headers, name, k) ensures k == i {
        FirstUnique(headers, name, i, k);
      }
    }
  }

  /** A response is delimited as section 6.3 of RFC 9112 reads its status, its request and its fields. */
  lemma ResponseDelimited(status: nat, isHead: bool, headers: seq<Header>, f: Option<Framing>)
    ensures ResponseFraming(status, isHead, headers) == f <==> Delimits(status, isHead, headers, f)
  {
    ChunkedIff(headers);
    LengthIff(headers);
  }

  lemma RequestDelimited(headers: seq<Header>, f: Option<Framing>)
    ensures RequestFraming(headers) == f <==> RequestDelimits(headers, f)
  {
    ChunkedIff(headers);
    LengthIff(headers);
  }
}
