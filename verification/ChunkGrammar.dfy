/** The chunked coding as section 7.1 of RFC 9112 writes it, with extensions and trailer fields. */
module ChunkGrammar {
  import opened Bytes
  import opened Chunked

  const SEMICOLON: byte := 59

  /** Hexadecimal digits that say `n`. */
  predicate SizeWord(w: bytes, n: nat) {
    && w != [] && DigitsValue(w, 16) == Some(n) && n <= USIZE_MAX
    && forall i :: 0 <= i < |w| ==> 48 <= w[i] <= 57 || 65 <= w[i] <= 70 || 97 <= w[i] <= 102
  }

  /** The rest of a line whose end is a CRLF. */
  predicate LineRest(e: bytes) { (forall i :: 0 <= i < |e| ==> e[i] != LF) && (e != [] ==> e[|e| - 1] != CR) }

  predicate Extension(e: bytes) { LineRest(e) && (e != [] ==> e[0] == SEMICOLON) }

  predicate TrailerField(t: bytes) { LineRest(t) && t != [] }

  datatype Chunk = Chunk(size: bytes, ext: bytes, data: bytes)

  predicate GoodChunk(c: Chunk) { SizeWord(c.size, |c.data|) && Extension(c.ext) && c.data != [] }

  function SizeLine(size: bytes, ext: bytes): bytes { size + ext + CRLF }

  function WireChunk(c: Chunk): bytes { SizeLine(c.size, c.ext) + c.data + CRLF }

  function WireChunks(cs: seq<Chunk>): bytes { if cs == [] then [] else WireChunk(cs[0]) + WireChunks(cs[1..]) }

  function Joined(cs: seq<Chunk>): bytes { if cs == [] then [] else cs[0].data + Joined(cs[1..]) }

  function WireTrailers(ts: seq<bytes>): bytes { if ts == [] then [] else ts[0] + CRLF + WireTrailers(ts[1..]) }

  // --- lines -----------------------------------------------------------------

  lemma StripEnd(s: bytes)
    requires s == [] || (s[|s| - 1] != CR && s[|s| - 1] != LF)
    ensures TrimCrlf(s + CRLF) == s && ChunkSize(s + CRLF) == LeadingNumber(s)
  {
    var one, two := s + [CR], s + CRLF;
    assert two[..|two| - 1] == one && one[..|one| - 1] == s;
    assert TrimCrlf(two) == TrimCrlf(one) == TrimCrlf(s);
    assert ChunkSize(two) == ChunkSize(one) == ChunkSize(s);
  }

  lemma SizeLineSays(size: bytes, ext: bytes, n: nat)
    requires SizeWord(size, n) && Extension(ext)
    ensures ChunkSize(SizeLine(size, ext)) == Some(n)
    ensures forall i :: 0 <= i < |size + ext| + 1 ==> SizeLine(size, ext)[i] != LF
  {
    StripEnd(size + ext);
    FirstPart(size, ext);
    assert Trim(size) == size;
  }

  lemma FirstPart(size: bytes, ext: bytes)
    requires (forall i :: 0 <= i < |size| ==> size[i] != SEMICOLON) && Extension(ext)
    ensures Split(size + ext, SEMICOLON)[0] == size
  {
    if ext == [] {
      assert size + ext == size;
    } else {
      assert (size + ext)[|size|] == SEMICOLON && (size + ext)[..|size|] == size;
      assert IndexOf(size + ext, SEMICOLON) == Some(|size|);
    }
  }

  /** A line that has come to its LF. */
  lemma LineFed(c: Decoder, line: bytes)
    requires (c == InSize([]) || c == InTrailer([])) && line != [] && line[|line| - 1] == LF
    requires forall i :: 0 <= i < |line| - 1 ==> line[i] != LF
    ensures c.InSize? ==> Feed(c, line) == (match ChunkSize(line) case None => Bad(line)
                                                                  case Some(n) => if n == 0 then InTrailer([]) else InData(n))
    ensures c.InTrailer? ==> Feed(c, line) == if TrimCrlf(line) == [] then Finished else InTrailer([])
    ensures Body(c, line) == []
  {
    FeedLine(c, line, |line| - 1);
    assert line[..|line|] == line && [] + line[..|line| - 1] + [LF] == line;
  }

  // --- chunks ----------------------------------------------------------------

  lemma ChunkDecodes(c: Chunk)
    requires GoodChunk(c)
    ensures Feed(InSize([]), WireChunk(c)) == InSize([]) && Body(InSize([]), WireChunk(c)) == c.data
  {
    var line := SizeLine(c.size, c.ext);
    SizeLineSays(c.size, c.ext, |c.data|);
    LineFed(InSize([]), line);
    FeedData(|c.data|, c.data);
    FeedCrlf(CRLF);
    assert CRLF[..2] == CRLF;
    FeedSplit(InSize([]), line, c.data);
    FeedSplit(InSize([]), line + c.data, CRLF);
    assert [] + c.data + [] == c.data;
  }

  lemma {:induction false} ChunksDecode(cs: seq<Chunk>)
    requires forall i :: 0 <= i < |cs| ==> GoodChunk(cs[i])
    ensures Feed(InSize([]), WireChunks(cs)) == InSize([]) && Body(InSize([]), WireChunks(cs)) == Joined(cs)
  {
    if cs != [] {
      ChunkDecodes(cs[0]);
      ChunksDecode(cs[1..]);
      FeedSplit(InSize([]), WireChunk(cs[0]), WireChunks(cs[1..]));
    }
  }

  lemma {:induction false} TrailersPass(ts: seq<bytes>)
    requires forall i :: 0 <= i < |ts| ==> TrailerField(ts[i])
    ensures Feed(InTrailer([]), WireTrailers(ts)) == InTrailer([]) && Body(InTrailer([]), WireTrailers(ts)) == []
  {
    if ts != [] {
      var line := ts[0] + CRLF;
      StripEnd(ts[0]);
      LineFed(InTrailer([]), line);
      TrailersPass(ts[1..]);
      FeedSplit(InTrailer([]), line, WireTrailers(ts[1..]));
    }
  }

  /** From the last chunk on: its line, the trailer fields, and an empty line. */
  lemma EndDecodes(zero: bytes, ext: bytes, ts: seq<bytes>)
    requires SizeWord(zero, 0) && Extension(ext) && forall i :: 0 <= i < |ts| ==> TrailerField(ts[i])
    ensures var end := SizeLine(zero, ext) + WireTrailers(ts) + CRLF;
            Feed(InSize([]), end) == Finished && Body(InSize([]), end) == [] && Used(InSize([]), end) == |end|
  {
    var line := SizeLine(zero, ext);
    SizeLineSays(zero, ext, 0);
    LineFed(InSize([]), line);
    TrailersPass(ts);
    EmptyTrailerEnds();
    FeedSplit(InSize([]), line, WireTrailers(ts));
    FeedSplit(InSize([]), line + WireTrailers(ts), CRLF);
    UsedSplit(InSize([]), line + WireTrailers(ts), CRLF);
  }

  /** Any chunks with their extensions, a last chunk, and any trailer fields read back as the joined data, using exactly those bytes
      and none of what follows. */
  lemma GrammarReads(cs: seq<Chunk>, zero: bytes, ext: bytes, ts: seq<bytes>, next: bytes)
    requires forall i :: 0 <= i < |cs| ==> GoodChunk(cs[i])
    requires SizeWord(zero, 0) && Extension(ext) && forall i :: 0 <= i < |ts| ==> TrailerField(ts[i])
    ensures Decode(Size([]), WireChunks(cs) + (SizeLine(zero, ext) + WireTrailers(ts) + CRLF) + next)
            == Decoded(Done, Trailer([]), next, Joined(cs))
  {
    var end := SizeLine(zero, ext) + WireTrailers(ts) + CRLF;
    var wire := WireChunks(cs) + end;
    ChunksDecode(cs);
    EndDecodes(zero, ext, ts);
    FeedSplit(InSize([]), WireChunks(cs), end);
    UsedSplit(InSize([]), WireChunks(cs), end);
    assert Joined(cs) + [] == Joined(cs);
    DecodeHalts(Size([]), wire, next);
  }
}
