/** HTTP/1.1 message heads: splitting, fields, body framing, and whether a response may be injected into. */
module HttpHead {
  import opened Bytes
  import opened Chunked

  type Header = (bytes, bytes)

  datatype Parsed = Parsed(startLine: bytes, headers: seq<Header>)

  function StripCr(line: bytes): bytes {
    if line != [] && line[|line| - 1] == CR then line[..|line| - 1] else line
  }

  /** The name and value of a field line; `None` without a colon. */
  function FieldOf(line: bytes): Option<Header> {
    match IndexOf(line, 58)
    case None => None
    case Some(c) => Some((Trim(line[..c]), Trim(line[c + 1..])))
  }

  /** The fields of LF-separated lines; empty lines and nameless fields are skipped. */
  function ParseFields(lines: seq<bytes>): Option<seq<Header>> {
    if lines == [] then Some([])
    else
      var line := StripCr(lines[0]);
      var rest := ParseFields(lines[1..]);
      if rest.None? then None
      else if line == [] then rest
      else
        match FieldOf(line)
        case None => None
        case Some(h) => if h.0 == [] then rest else Some([h] + rest.value)
  }

  /** A head without its closing CRLFCRLF. */
  function ParseHeadFields(fields: bytes): Option<Parsed> {
    var lines := Split(fields, LF);
    match ParseFields(lines[1..])
    case None => None
    case Some(hs) => Some(Parsed(StripCr(lines[0]), hs))
  }

  function StartsWith(s: bytes, p: bytes): bool { p <= s }

  /** The status code of a status line. */
  function ParseStatusLine(line: bytes): Option<nat> {
    if !Utf8(line) then None
    else
      match IndexOf(line, SP)
      case None => None
      case Some(i) =>
        var rest := line[i + 1..];
        var code := match IndexOf(rest, SP) case None => rest case Some(j) => rest[..j];
        match ParseUnsigned(code, 10, 65535)
        case None => None
        case Some(status) => if StartsWith(line[..i], A("HTTP/")) then Some(status) else None
  }

  /** The method of a request line. */
  function ParseRequestLine(line: bytes): Option<bytes> {
    if !Utf8(line) then None
    else
      var parts := Split(line, SP);
      if |parts| < 3 || !StartsWith(parts[2], A("HTTP/")) || parts[0] == [] then None else Some(parts[0])
  }

  /** The value of the first field with this name, whatever the case of its letters. */
  function HeaderValue(headers: seq<Header>, name: bytes): Option<bytes> {
    if headers == [] then None
    else if EqIgnoreCase(headers[0].0, name) then Some(headers[0].1)
    else HeaderValue(headers[1..], name)
  }

  function AnyToken(tokens: seq<bytes>, word: bytes): bool {
    exists i :: 0 <= i < |tokens| && EqIgnoreCase(Trim(tokens[i]), word)
  }

  predicate IsChunked(headers: seq<Header>) {
    match HeaderValue(headers, A("transfer-encoding"))
    case None => false
    case Some(v) => AnyToken(Split(v, 44), A("chunked"))
  }

  function ContentLength(headers: seq<Header>): Option<nat> {
    match HeaderValue(headers, A("content-length"))
    case None => None
    case Some(v) => ParseUnsigned(Trim(v), 10, USIZE_MAX)
  }

  /** How a body is delimited. */
  datatype Framing = Length(n: nat) | Chunked | UntilClose

  function RequestFraming(headers: seq<Header>): (f: Option<Framing>)
    ensures f.Some? && f.value.Length? ==> f.value.n > 0
  {
    if IsChunked(headers) then Some(Framing.Chunked)
    else
      match ContentLength(headers)
      case Some(n) => if n > 0 then Some(Length(n)) else None
      case None => None
  }

  predicate Informational(status: nat) { 100 <= status <= 199 }

  function ResponseFraming(status: nat, methodIsHead: bool, headers: seq<Header>): (f: Option<Framing>)
    ensures f.Some? && f.value.Length? ==> f.value.n > 0
  {
    if methodIsHead || status == 204 || status == 304 || Informational(status) then None
    else if IsChunked(headers) then Some(Framing.Chunked)
    else
      match ContentLength(headers)
      case Some(n) => if n == 0 then None else Some(Length(n))
      case None => Some(UntilClose)
  }

  function TrimQuotes(s: bytes): bytes {
    if s != [] && s[0] == 34 then TrimQuotes(s[1..])
    else if s != [] && s[|s| - 1] == 34 then TrimQuotes(s[..|s| - 1])
    else s
  }

  /** The first `charset` parameter among those of a media type. */
  function CharsetOf(params: seq<bytes>): Option<bytes> {
    if params == [] then None
    else
      var p := Trim(params[0]);
      var after := if StartsWith(p, A("charset")) then TrimStart(p[7..]) else [];
      if after != [] && after[0] == 61 then Some(TrimQuotes(Trim(after[1..]))) else CharsetOf(params[1..])
  }

  /** Whether an HTML response is to be injected into. */
  predicate Injectable(status: nat, headers: seq<Header>) {
    var ct := match HeaderValue(headers, A("content-type")) case Some(v) => v case None => [];
    var params := Split(ct, 59);
    && status != 206
    && EqIgnoreCase(Trim(params[0]), A("text/html"))
    && (match HeaderValue(headers, A("content-encoding"))
        case None => true
        case Some(v) => Trim(v) == [] || EqIgnoreCase(Trim(v), A("identity")))
    && (match CharsetOf(params[1..])
        case None => true
        case Some(c) => !StartsWith(Lower(c), A("utf-16")))
  }

  predicate IsHeadMethod(name: bytes) { EqIgnoreCase(name, A("HEAD")) }
}
