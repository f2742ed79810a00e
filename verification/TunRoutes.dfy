/** The routes of the tunnel: all of IPv4 except some blocks, as the fewest CIDR routes. */
module TunRoutes {
  import opened Bytes
  import opened Cidr
  import opened CidrText

  datatype Route = Route(address: bytes, prefixLength: nat)

  /** An inclusive interval of addresses. */
  datatype Block = Block(start: nat, end: nat)

  datatype Result<T> = Ok(value: T) | Err

  predicate IsBlock(b: Block) { b.start <= b.end <= MAX_ADDR }

  predicate Covers(b: Block, x: int) { b.start <= x <= b.end }

  predicate Excluded(x: int, blocks: seq<Block>) { exists i :: 0 <= i < |blocks| && Covers(blocks[i], x) }

  // --- parsing ---------------------------------------------------------------

  function ParseCidr(cidr: bytes): (r: Option<Block>)
    ensures r.Some? ==> IsBlock(r.value)
  {
    match IndexOf(cidr, SLASH)
    case None => None
    case Some(slash) =>
      if slash == 0 then None
      else
        match ToInt(cidr[slash + 1..])
        case None => None
        case Some(prefix) =>
          if !(0 <= prefix <= 32) then None
          else
            match IpToLong(cidr[..slash])
            case None => None
            case Some(ip) =>
              IpBounded(cidr[..slash]);
              MaskedBlock(ip, prefix);
              var base := BitAnd(ip, PrefixMask(prefix));
              Some(Block(base, base + P(32 - prefix) - 1))
  }

  /** A text is read if and only if it says an address and a prefix length, and it stands for the addresses with that prefix. */
  lemma ParseCidrIff(t: bytes)
    ensures ParseCidr(t).Some? <==> IsCidrText(t)
    ensures forall a, p :: Spells(t, a, p) ==>
              p <= 32 && forall x: nat :: x <= MAX_ADDR ==> (Covers(ParseCidr(t).value, x) <==> SamePrefix(x, a, p))
  {
    forall a, p | Spells(t, a, p)
      ensures ParseCidr(t).Some? && p <= 32
      ensures forall x: nat :: x <= MAX_ADDR ==> (Covers(ParseCidr(t).value, x) <==> SamePrefix(x, a, p)) {
      SpeltParses(t, a, p);
      var b := ParseCidr(t).value;
      forall x: nat | x <= MAX_ADDR ensures Covers(b, x) <==> SamePrefix(x, a, p) {
        BlockIsPrefix(x, a, p);
      }
    }
    if ParseCidr(t).Some? {
      ParsedSpells(t);
    }
  }

  lemma SpeltParses(t: bytes, a: nat, p: nat)
    requires Spells(t, a, p)
    ensures p <= 32 && ParseCidr(t) == Some(Block(ClearLow(a, 32 - p), ClearLow(a, 32 - p) + P(32 - p) - 1))
  {
    var ip, n :| t == ip + [SLASH] + n && SpelledBy(ip, n, a, p);
    AddressReads(ip, a);
    CutAtSlash(t, ip, n);
    IpBounded(ip);
    PrefixMaskClears(a, p);
    ReadsBlock(t, |ip|, a, p);
  }

  lemma CutAtSlash(t: bytes, ip: bytes, n: bytes)
    requires t == ip + [SLASH] + n && forall i :: 0 <= i < |ip| ==> ip[i] != SLASH
    ensures IndexOf(t, SLASH) == Some(|ip|) && t[..|ip|] == ip && t[|ip| + 1..] == n
  {
    assert t[|ip|] == SLASH;
  }

  lemma ReadsBlock(t: bytes, slash: nat, a: nat, p: nat)
    requires IndexOf(t, SLASH) == Some(slash) && slash > 0
    requires IpToLong(t[..slash]) == Some(a) && ToInt(t[slash + 1..]) == Some(p) && p <= 32
    requires BitAnd(a, PrefixMask(p)) == ClearLow(a, 32 - p)
    ensures ParseCidr(t) == Some(Block(ClearLow(a, 32 - p), ClearLow(a, 32 - p) + P(32 - p) - 1))
  {
  }

  lemma ParsedSpells(t: bytes)
    requires ParseCidr(t).Some?
    ensures IsCidrText(t)
  {
    var slash := IndexOf(t, SLASH).value;
    var ip, n := t[..slash], t[slash + 1..];
    assert t == ip + [SLASH] + n;
    ReadsAddress(ip);
    assert SpelledBy(ip, n, IpToLong(ip).value, ToInt(n).value);
    assert Spells(t, IpToLong(ip).value, ToInt(n).value);
  }

  function Scale(x: nat, n: nat): nat
    decreases n
  {
    if n == 0 then x else Scale(256 * x, n - 1)
  }

  lemma {:induction false} ScaleMonotone(x: nat, y: nat, n: nat)
    requires x <= y
    ensures Scale(x, n) <= Scale(y, n)
    decreases n
  {
    if n > 0 {
      ScaleMonotone(256 * x, 256 * y, n - 1);
    }
  }

  lemma {:induction false} FoldBounded(acc: nat, parts: seq<bytes>)
    requires FoldOctets(acc, parts).Some?
    ensures FoldOctets(acc, parts).value < Scale(acc + 1, |parts|)
    decreases |parts|
  {
    if parts != [] {
      var octet := ToInt(parts[0]).value;
      FoldBounded(256 * acc + octet, parts[1..]);
      ScaleMonotone(256 * acc + octet + 1, 256 * (acc + 1), |parts| - 1);
    }
  }

  lemma IpBounded(addr: bytes)
    requires IpToLong(addr).Some?
    ensures IpToLong(addr).value <= MAX_ADDR
  {
    FoldBounded(0, Split(addr, DOT));
    assert Scale(1, 4) == Scale(0x1_0000, 2) == 0x1_0000_0000;
  }

  lemma MaskedBlock(ip: nat, prefix: nat)
    requires ip <= MAX_ADDR && prefix <= 32
    ensures var base := BitAnd(ip, PrefixMask(prefix));
            IsCidr(Cidr(base, 32 - prefix)) && base <= ip < base + P(32 - prefix)
  {
    PrefixMaskClears(ip, prefix);
    ClearLowAligns(ip, 32 - prefix);
    AlignedFits(ClearLow(ip, 32 - prefix), 32 - prefix);
  }

  /** An aligned block that starts in the address space ends in it. */
  lemma AlignedFits(s: nat, k: nat)
    requires Aligned(s, k) && s <= MAX_ADDR && k <= 32
    ensures s + P(k) <= MAX_ADDR + 1
  {
    PowValues();
    ZeroAligned(32);
    Nested(s, k, 0, 32);
  }

  // --- sorting ---------------------------------------------------------------

  predicate SortedByStart(bs: seq<Block>) { forall i, j :: 0 <= i < j < |bs| ==> bs[i].start <= bs[j].start }

  function InsertByStart(b: Block, bs: seq<Block>): seq<Block> {
    if bs == [] || b.start < bs[0].start then [b] + bs else [bs[0]] + InsertByStart(b, bs[1..])
  }

  /** The stable sort `sortedBy { it.start }`. */
  function SortByStart(bs: seq<Block>): seq<Block> {
    if bs == [] then [] else InsertByStart(bs[|bs| - 1], SortByStart(bs[..|bs| - 1]))
  }

  lemma {:induction false} InsertSorts(b: Block, bs: seq<Block>)
    requires SortedByStart(bs)
    ensures SortedByStart(InsertByStart(b, bs))
    ensures InsertByStart(b, bs)[0].start == if bs == [] then b.start else Min(b.start, bs[0].start)
  {
    if bs == [] || b.start < bs[0].start {
    } else {
      InsertSorts(b, bs[1..]);
      var rest := InsertByStart(b, bs[1..]);
      forall i | 0 <= i < |rest| ensures bs[0].start <= rest[i].start {
        assert rest[0].start <= rest[i].start;
      }
    }
  }

  lemma {:induction false} InsertPermutes(b: Block, bs: seq<Block>)
    ensures multiset(InsertByStart(b, bs)) == multiset(bs) + multiset{b}
  {
    if bs == [] || b.start < bs[0].start {
    } else {
      InsertPermutes(b, bs[1..]);
      assert bs == [bs[0]] + bs[1..];
    }
  }

  lemma {:induction false} SortSorts(bs: seq<Block>)
    ensures SortedByStart(SortByStart(bs)) && multiset(SortByStart(bs)) == multiset(bs)
  {
    if bs != [] {
      SortSorts(bs[..|bs| - 1]);
      InsertSorts(bs[|bs| - 1], SortByStart(bs[..|bs| - 1]));
      InsertPermutes(bs[|bs| - 1], SortByStart(bs[..|bs| - 1]));
      assert bs == bs[..|bs| - 1] + [bs[|bs| - 1]];
    }
  }

  /** Sorting changes neither the blocks nor what they cover. */
  lemma SortedSame(bs: seq<Block>, x: int)
    requires forall i :: 0 <= i < |bs| ==> IsBlock(bs[i])
    ensures var sorted := SortByStart(bs);
            && (forall i :: 0 <= i < |sorted| ==> IsBlock(sorted[i]))
            && (Excluded(x, sorted) <==> Excluded(x, bs))
  {
    SortSorts(bs);
    var sorted := SortByStart(bs);
    forall i | 0 <= i < |sorted| ensures sorted[i] in bs {
      assert sorted[i] in multiset(sorted);
    }
    if Excluded(x, bs) {
      var i :| 0 <= i < |bs| && Covers(bs[i], x);
      assert bs[i] in multiset(bs);
      assert bs[i] in sorted;
    }
  }

  // --- merging ---------------------------------------------------------------

  /** Each block ends more than one address before the next starts. */
  predicate Separated(bs: seq<Block>) { forall i, j :: 0 <= i < j < |bs| ==> bs[i].end + 1 < bs[j].start }

  method MergeBlocks(sorted: seq<Block>) returns (out: seq<Block>)
    requires SortedByStart(sorted) && forall i :: 0 <= i < |sorted| ==> IsBlock(sorted[i])
    ensures Separated(out) && forall i :: 0 <= i < |out| ==> IsBlock(out[i])
    ensures forall x :: Excluded(x, out) <==> Excluded(x, sorted)
  {
    out := [];
    for n := 0 to |sorted|
      invariant Separated(out) && forall i :: 0 <= i < |out| ==> IsBlock(out[i])
      invariant out != [] ==> n > 0 && out[|out| - 1].start <= sorted[n - 1].start
      invariant forall x :: Excluded(x, out) <==> Excluded(x, sorted[..n])
    {
      var b := sorted[n];
      ghost var before := out;
      assert sorted[..n + 1] == sorted[..n] + [b];
      if out != [] && b.start <= out[|out| - 1].end + 1 {
        var last := out[|out| - 1];
        out := out[|out| - 1 := Block(last.start, Max(last.end, b.end))];
        MergedCovers(before, b, sorted[..n]);
      } else {
        out := out + [b];
        AppendedCovers(before, b, sorted[..n]);
      }
    }
    assert sorted[..|sorted|] == sorted;
  }

  lemma AppendedCovers(out: seq<Block>, b: Block, seen: seq<Block>)
    requires forall x :: Excluded(x, out) <==> Excluded(x, seen)
    ensures forall x :: Excluded(x, out + [b]) <==> Excluded(x, seen + [b])
  {
    forall x ensures Excluded(x, out + [b]) <==> Excluded(x, seen + [b]) {
      OneMore(out, b, x);
      OneMore(seen, b, x);
    }
  }

  lemma OneMore(bs: seq<Block>, b: Block, x: int)
    ensures Excluded(x, bs + [b]) <==> Excluded(x, bs) || Covers(b, x)
  {
    if Excluded(x, bs) {
      var i :| 0 <= i < |bs| && Covers(bs[i], x);
      assert (bs + [b])[i] == bs[i];
    }
    if Covers(b, x) {
      assert (bs + [b])[|bs|] == b;
    }
  }

  lemma MergedCovers(out: seq<Block>, b: Block, seen: seq<Block>)
    requires out != [] && out[|out| - 1].start <= b.start <= out[|out| - 1].end + 1 && IsBlock(b) && IsBlock(out[|out| - 1])
    requires forall x :: Excluded(x, out) <==> Excluded(x, seen)
    ensures var last := out[|out| - 1];
            forall x :: Excluded(x, out[|out| - 1 := Block(last.start, Max(last.end, b.end))]) <==> Excluded(x, seen + [b])
  {
    var init, last := out[..|out| - 1], out[|out| - 1];
    var joined := Block(last.start, Max(last.end, b.end));
    assert out == init + [last] && out[|out| - 1 := joined] == init + [joined];
    forall x ensures Excluded(x, init + [joined]) <==> Excluded(x, seen + [b]) {
      OneMore(init, last, x);
      OneMore(init, joined, x);
      OneMore(seen, b, x);
    }
  }

  // --- a range as aligned blocks ---------------------------------------------

  function Shrink(s: nat, end: nat, size: nat): nat {
    if size > 0 && s + P(size) - 1 > end then Shrink(s, end, size - 1) else size
  }

  function AlignBits(s: nat): nat { if s == 0 then 32 else TrailingZeros(s) }

  function Greedy(s: nat, end: nat): seq<Cidr>
    decreases end + 1 - s
  {
    if s > end then []
    else
      var size := Shrink(s, end, AlignBits(s));
      [Cidr(s, size)] + Greedy(s + P(size), end)
  }

  function Print(c: Cidr): Route { Route(LongToIp(c.start), if c.size <= 32 then 32 - c.size else 0) }

  function PrintAll(cs: seq<Cidr>): (rs: seq<Route>)
    ensures |rs| == |cs|
  {
    seq(|cs|, i requires 0 <= i < |cs| => Print(cs[i]))
  }

  lemma {:induction false} ShrinkIsLargest(s: nat, end: nat, size: nat, k: nat)
    requires s <= end
    ensures Shrink(s, end, size) <= size && s + P(Shrink(s, end, size)) - 1 <= end
    ensures Shrink(s, end, size) < k <= size ==> s + P(k) - 1 > end
  {
    if size > 0 && s + P(size) - 1 > end {
      ShrinkIsLargest(s, end, size - 1, k);
      if size < k {
        PowMonotone(size, k);
      }
    }
  }

  lemma AlignBitsRight(s: nat, k: nat)
    requires s <= MAX_ADDR
    ensures AlignBits(s) <= 32 && (k <= AlignBits(s) ==> Aligned(s, k)) && (Aligned(s, k) && k <= 32 ==> k <= AlignBits(s))
  {
    PowValues();
    if s == 0 {
      ZeroAligned(k);
    } else {
      AlignedIffZeros(s, k);
      ZerosFit(s);
      if TrailingZeros(s) > 32 {
        PowMonotone(32, TrailingZeros(s));
      }
    }
  }

  /** The first block of a range is aligned, fits, and holds every aligned block of the range that starts in it. */
  lemma FirstIsMaximal(s: nat, end: nat, t: nat, k: nat)
    requires s <= end <= MAX_ADDR && k <= 32
    ensures var size := Shrink(s, end, AlignBits(s));
            && IsCidr(Cidr(s, size)) && s + P(size) <= end + 1
            && (Aligned(t, k) && s <= t < s + P(size) && t + P(k) <= end + 1 ==> Within(t, k, Cidr(s, size)))
  {
    var size := Shrink(s, end, AlignBits(s));
    ShrinkIsLargest(s, end, AlignBits(s), k);
    AlignBitsRight(s, size);
    AlignBitsRight(s, k);
    if Aligned(t, k) && s <= t < s + P(size) && t + P(k) <= end + 1 {
      if k <= size {
        Nested(t, k, s, size);
      } else {
        Nested(s, size, t, k);
      }
    }
  }

  /** `cs` tiles the addresses from `s` up to but not including `e`. */
  predicate Tiles(cs: seq<Cidr>, s: int, e: int)
    decreases |cs|
  {
    if cs == [] then s == e
    else IsCidr(cs[0]) && cs[0].start == s && Tiles(cs[1..], s + P(cs[0].size), e)
  }

  lemma {:induction false} GreedyTiles(s: nat, end: nat)
    requires s <= end + 1 && end <= MAX_ADDR
    ensures Tiles(Greedy(s, end), s, end + 1)
    decreases end + 1 - s
  {
    if s <= end {
      FirstIsMaximal(s, end, s, 0);
      GreedyTiles(s + P(Shrink(s, end, AlignBits(s))), end);
    }
  }

  /** Some block holds the whole of the aligned block (t, k). */
  predicate Held(t: nat, k: nat, cs: seq<Cidr>) { exists i :: 0 <= i < |cs| && Within(t, k, cs[i]) }

  lemma {:induction false} GreedyMaximal(s: nat, end: nat, t: nat, k: nat)
    requires end <= MAX_ADDR && k <= 32
    requires Aligned(t, k) && s <= t && t + P(k) <= end + 1
    ensures Held(t, k, Greedy(s, end))
    decreases end + 1 - s
  {
    var size := Shrink(s, end, AlignBits(s));
    var rest := Greedy(s + P(size), end);
    FirstIsMaximal(s, end, t, k);
    if t < s + P(size) {
      assert Within(t, k, Greedy(s, end)[0]);
    } else {
      GreedyMaximal(s + P(size), end, t, k);
      var i :| 0 <= i < |rest| && Within(t, k, rest[i]);
      assert Greedy(s, end)[i + 1] == rest[i];
    }
  }

  predicate SortedCidrs(cs: seq<Cidr>) {
    && (forall i :: 0 <= i < |cs| ==> IsCidr(cs[i]))
    && (forall i, j :: 0 <= i < j < |cs| ==> cs[i].start + P(cs[i].size) <= cs[j].start)
  }

  predicate InSome(x: int, cs: seq<Cidr>) { exists i :: 0 <= i < |cs| && In(x, cs[i]) }

  lemma {:induction false} TilesCover(cs: seq<Cidr>, s: int, e: int, x: int)
    requires Tiles(cs, s, e)
    ensures s <= e && SortedCidrs(cs)
    ensures forall i :: 0 <= i < |cs| ==> s <= cs[i].start && cs[i].start + P(cs[i].size) <= e
    ensures InSome(x, cs) <==> s <= x < e
    decreases |cs|
  {
    if cs != [] {
      var rest := cs[1..];
      TilesCover(rest, s + P(cs[0].size), e, x);
      assert forall i :: 0 < i < |cs| ==> cs[i] == rest[i - 1];
      if InSome(x, rest) {
        var i :| 0 <= i < |rest| && In(x, rest[i]);
        assert In(x, cs[i + 1]);
      }
      if InSome(x, cs) && !In(x, cs[0]) {
        var i :| 0 <= i < |cs| && In(x, cs[i]);
        assert In(x, rest[i - 1]);
      }
      assert In(x, cs[0]) ==> InSome(x, cs);
    }
  }

  lemma GreedyStep(done: seq<Cidr>, s: nat, end: nat, size: nat)
    requires s <= end && size == Shrink(s, end, AlignBits(s))
    ensures done + Greedy(s, end) == done + [Cidr(s, size)] + Greedy(s + P(size), end)
  {
    Assoc(done, [Cidr(s, size)], Greedy(s + P(size), end));
  }

  lemma PrintOneMore(done: seq<Cidr>, c: Cidr)
    requires c.size <= 32
    ensures PrintAll(done + [c]) == PrintAll(done) + [Route(LongToIp(c.start), 32 - c.size)]
  {
  }

  /** The size of the largest aligned block that starts at `s` and ends by `end`. */
  method BlockSize(s: nat, end: nat) returns (size: nat)
    requires s <= end <= MAX_ADDR
    ensures size == Shrink(s, end, AlignBits(s)) && size <= 32
  {
    AlignBitsRight(s, 0);
    var alignBits := if s == 0 then 32 else TrailingZeros(s);
    size := alignBits;
    while size > 0 && s + P(size) - 1 > end
      invariant 0 <= size <= alignBits && Shrink(s, end, size) == Shrink(s, end, alignBits)
      decreases size
    {
      size := size - 1;
    }
  }

  method RangeToCidrs(start: nat, end: nat) returns (out: seq<Route>)
    requires end <= MAX_ADDR
    ensures out == PrintAll(Greedy(start, end))
  {
    out := [];
    var s := start;
    ghost var done: seq<Cidr> := [];
    while s <= end
      invariant out == PrintAll(done)
      invariant Greedy(start, end) == done + Greedy(s, end)
      decreases end + 1 - s
    {
      var size := BlockSize(s, end);
      GreedyStep(done, s, end, size);
      PrintOneMore(done, Cidr(s, size));
      out := out + [Route(LongToIp(s), 32 - size)];
      done := done + [Cidr(s, size)];
      s := s + P(size);
    }
    assert done + [] == done;
  }

  // --- the complement --------------------------------------------------------

  /** The block an address and a prefix length stand for. */
  function Meaning(r: Route): Cidr {
    Cidr(match IpToLong(r.address) case None => 0 case Some(v) => v, if r.prefixLength <= 32 then 32 - r.prefixLength else 0)
  }

  function Meanings(rs: seq<Route>): (cs: seq<Cidr>)
    ensures |cs| == |rs|
  {
    seq(|rs|, i requires 0 <= i < |rs| => Meaning(rs[i]))
  }

  lemma PrintedMeans(cs: seq<Cidr>)
    requires forall i :: 0 <= i < |cs| ==> IsCidr(cs[i])
    ensures Meanings(PrintAll(cs)) == cs
  {
    forall i | 0 <= i < |cs| ensures Meanings(PrintAll(cs))[i] == cs[i] {
      AddressRoundTrip(cs[i].start);
    }
  }

  /** The aligned block (t, k) avoids all the holes. */
  predicate FreeBlock(t: nat, k: nat, holes: seq<Block>) {
    && Aligned(t, k) && k <= 32 && t + P(k) <= MAX_ADDR + 1
    && forall x :: t <= x < t + P(k) ==> !Excluded(x, holes)
  }

  /** `cs` is what the addresses below `limit` outside the holes come to: in order, disjoint, nothing more and nothing
      less, and every aligned block that avoids the holes lies within one of them. */
  ghost predicate Complement(cs: seq<Cidr>, holes: seq<Block>, limit: int) {
    && SortedCidrs(cs)
    && (forall i :: 0 <= i < |cs| ==> cs[i].start + P(cs[i].size) <= limit)
    && (forall x :: 0 <= x < limit ==> (InSome(x, cs) <==> !Excluded(x, holes)))
    && (forall t: nat, k: nat :: FreeBlock(t, k, holes) && t + P(k) <= limit ==> Held(t, k, cs))
  }

  lemma HeldInOne(t: nat, k: nat, a: seq<Cidr>, b: seq<Cidr>)
    ensures Held(t, k, a + b) <==> Held(t, k, a) || Held(t, k, b)
  {
    if Held(t, k, a) {
      var i :| 0 <= i < |a| && Within(t, k, a[i]);
      assert Within(t, k, (a + b)[i]);
    }
    if Held(t, k, b) {
      var i :| 0 <= i < |b| && Within(t, k, b[i]);
      assert Within(t, k, (a + b)[|a| + i]);
    }
  }

  lemma InOne(x: int, a: seq<Cidr>, b: seq<Cidr>)
    ensures InSome(x, a + b) <==> InSome(x, a) || InSome(x, b)
  {
    if InSome(x, a) {
      var i :| 0 <= i < |a| && In(x, a[i]);
      assert In(x, (a + b)[i]);
    }
    if InSome(x, b) {
      var i :| 0 <= i < |b| && In(x, b[i]);
      assert In(x, (a + b)[|a| + i]);
    }
  }

  /** Nothing is excluded from `lo` up to but not including `hi`, and `lo` is 0 or follows an excluded address. */
  ghost predicate Gap(holes: seq<Block>, lo: nat, hi: nat) {
    && lo <= hi <= MAX_ADDR + 1
    && (forall x :: lo <= x < hi ==> !Excluded(x, holes))
    && (lo > 0 ==> Excluded(lo - 1, holes))
  }

  lemma GapSorted(cs: seq<Cidr>, more: seq<Cidr>, lo: nat, hi: nat)
    requires SortedCidrs(cs) && SortedCidrs(more)
    requires forall i :: 0 <= i < |cs| ==> cs[i].start + P(cs[i].size) <= lo
    requires forall i :: 0 <= i < |more| ==> lo <= more[i].start && more[i].start + P(more[i].size) <= hi
    requires lo <= hi
    ensures SortedCidrs(cs + more) && forall i :: 0 <= i < |cs + more| ==> (cs + more)[i].start + P((cs + more)[i].size) <= hi
  {
  }

  lemma GapCovered(cs: seq<Cidr>, more: seq<Cidr>, holes: seq<Block>, lo: nat, hi: nat, x: nat)
    requires Gap(holes, lo, hi) && Tiles(more, lo, hi) && x < hi
    requires forall i :: 0 <= i < |cs| ==> cs[i].start + P(cs[i].size) <= lo
    requires x < lo ==> (InSome(x, cs) <==> !Excluded(x, holes))
    ensures InSome(x, cs + more) <==> !Excluded(x, holes)
  {
    InOne(x, cs, more);
    TilesCover(more, lo, hi, x);
  }

  lemma GapMaximal(cs: seq<Cidr>, holes: seq<Block>, lo: nat, hi: nat, t: nat, k: nat)
    requires Gap(holes, lo, hi) && lo < hi && FreeBlock(t, k, holes) && t + P(k) <= hi
    requires t + P(k) <= lo ==> Held(t, k, cs)
    ensures Held(t, k, cs + Greedy(lo, hi - 1))
  {
    HeldInOne(t, k, cs, Greedy(lo, hi - 1));
    if t >= lo {
      GreedyMaximal(lo, hi - 1, t, k);
    }
  }

  /** The blocks of the next gap extend the complement. */
  lemma GapFilled(cs: seq<Cidr>, holes: seq<Block>, lo: nat, hi: nat)
    requires Complement(cs, holes, lo) && Gap(holes, lo, hi) && lo < hi
    ensures Complement(cs + Greedy(lo, hi - 1), holes, hi)
  {
    var more := Greedy(lo, hi - 1);
    GreedyTiles(lo, hi - 1);
    TilesCover(more, lo, hi, 0);
    GapSorted(cs, more, lo, hi);
    forall x | 0 <= x < hi ensures InSome(x, cs + more) <==> !Excluded(x, holes) {
      GapCovered(cs, more, holes, lo, hi, x);
    }
    forall t: nat, k: nat | FreeBlock(t, k, holes) && t + P(k) <= hi ensures Held(t, k, cs + more) {
      GapMaximal(cs, holes, lo, hi, t, k);
    }
  }

  /** A hole extends the complement by nothing. */
  lemma HolePassed(cs: seq<Cidr>, holes: seq<Block>, hole: Block, cursor: nat)
    requires Complement(cs, holes, cursor) && IsBlock(hole) && hole in holes && hole.start <= cursor <= hole.end + 1
    ensures Complement(cs, holes, hole.end + 1)
  {
    forall x | hole.start <= x <= hole.end ensures Excluded(x, holes) {
      assert Covers(hole, x);
    }
    forall x | cursor <= x <= hole.end ensures !InSome(x, cs) {
    }
    forall t: nat, k: nat | FreeBlock(t, k, holes) && t + P(k) <= hole.end + 1 ensures t + P(k) <= cursor {
      assert Excluded(t + P(k) - 1, holes) || t + P(k) - 1 < cursor;
    }
  }

  lemma NextGap(merged: seq<Block>, n: nat, cursor: nat)
    requires Separated(merged) && n <= |merged| && forall i :: 0 <= i < |merged| ==> IsBlock(merged[i])
    requires cursor == if n == 0 then 0 else merged[n - 1].end + 1
    ensures n < |merged| && merged[n].start > cursor ==> Gap(merged, cursor, merged[n].start)
    ensures n < |merged| ==> cursor <= merged[n].start
    ensures n == |merged| && cursor <= MAX_ADDR ==> Gap(merged, cursor, MAX_ADDR + 1)
  {
    if n > 0 {
      assert Covers(merged[n - 1], cursor - 1);
    }
    var hi := if n < |merged| then merged[n].start else MAX_ADDR + 1;
    forall x, i | cursor <= x < hi && 0 <= i < |merged| ensures !Covers(merged[i], x) {
      if i < n - 1 {
        assert merged[i].end + 1 < merged[n - 1].start;
      } else if i > n {
        assert merged[n].end + 1 < merged[i].start;
      }
    }
  }

  lemma PrintMore(a: seq<Cidr>, b: seq<Cidr>)
    ensures PrintAll(a) + PrintAll(b) == PrintAll(a + b)
  {
  }

  /** The excluded blocks, when every text is a CIDR. */
  function ParseAll(excluded: seq<bytes>): Option<seq<Block>> {
    if excluded == [] then Some([])
    else
      var rest := ParseAll(excluded[..|excluded| - 1]);
      var last := ParseCidr(excluded[|excluded| - 1]);
      if rest.None? || last.None? then None else Some(rest.value + [last.value])
  }

  lemma {:induction false} ParsedAll(excluded: seq<bytes>)
    ensures ParseAll(excluded).None? <==> exists i :: 0 <= i < |excluded| && ParseCidr(excluded[i]).None?
  {
    if excluded != [] {
      var init := excluded[..|excluded| - 1];
      ParsedAll(init);
      assert forall i :: 0 <= i < |init| ==> excluded[i] == init[i];
    }
  }

  lemma {:induction false} ParsedEach(excluded: seq<bytes>)
    requires ParseAll(excluded).Some?
    ensures var bs := ParseAll(excluded).value;
            |bs| == |excluded| && forall i :: 0 <= i < |bs| ==> ParseCidr(excluded[i]) == Some(bs[i])
  {
    if excluded != [] {
      ParsedEach(excluded[..|excluded| - 1]);
    }
  }

  lemma ParsedBlocks(excluded: seq<bytes>)
    requires ParseAll(excluded).Some?
    ensures forall i :: 0 <= i < |ParseAll(excluded).value| ==> IsBlock(ParseAll(excluded).value[i])
  {
    ParsedEach(excluded);
    var bs := ParseAll(excluded).value;
    forall i | 0 <= i < |bs| ensures IsBlock(bs[i]) {
      assert ParseCidr(excluded[i]) == Some(bs[i]);
    }
  }

  lemma SortedInput(blocks: seq<Block>)
    requires forall i :: 0 <= i < |blocks| ==> IsBlock(blocks[i])
    ensures var sorted := SortByStart(blocks);
            SortedByStart(sorted) && (forall i :: 0 <= i < |sorted| ==> IsBlock(sorted[i]))
            && forall x :: Excluded(x, sorted) <==> Excluded(x, blocks)
  {
    SortSorts(blocks);
    SortedSame(blocks, 0);
    forall x ensures Excluded(x, SortByStart(blocks)) <==> Excluded(x, blocks) {
      SortedSame(blocks, x);
    }
  }

  /** Some of the texts says an address with whose prefix `x` begins. */
  ghost predicate Omits(excluded: seq<bytes>, x: nat) {
    exists i, a, p :: 0 <= i < |excluded| && Spells(excluded[i], a, p) && p <= 32 && SamePrefix(x, a, p)
  }

  /** `cs` holds exactly the addresses that no text excludes. */
  ghost predicate Avoids(cs: seq<Cidr>, excluded: seq<bytes>) {
    && (forall i :: 0 <= i < |cs| ==> IsCidr(cs[i]))
    && forall x: nat :: x <= MAX_ADDR ==> (InSome(x, cs) <==> !Omits(excluded, x))
  }

  lemma OmittedIsExcluded(excluded: seq<bytes>, x: nat)
    requires x <= MAX_ADDR && ParseAll(excluded).Some?
    ensures Omits(excluded, x) <==> Excluded(x, ParseAll(excluded).value)
  {
    var bs := ParseAll(excluded).value;
    ParsedEach(excluded);
    if Omits(excluded, x) {
      var i, a, p :| 0 <= i < |excluded| && Spells(excluded[i], a, p) && p <= 32 && SamePrefix(x, a, p);
      ParseCidrIff(excluded[i]);
      assert Covers(bs[i], x);
    }
    if Excluded(x, bs) {
      var i :| 0 <= i < |bs| && Covers(bs[i], x);
      assert ParseCidr(excluded[i]) == Some(bs[i]);
      ParseCidrIff(excluded[i]);
      var a, p :| Spells(excluded[i], a, p);
      assert SamePrefix(x, a, p);
    }
  }

  /** Told by the texts: the routes hold exactly the addresses that no text excludes, and no list of blocks that does so is shorter. */
  lemma RoutesAvoid(routes: seq<Cidr>, excluded: seq<bytes>)
    requires ParseAll(excluded).Some? && Complement(routes, ParseAll(excluded).value, MAX_ADDR + 1)
    ensures Avoids(routes, excluded) && forall cover :: Avoids(cover, excluded) ==> |routes| <= |cover|
  {
    var holes := ParseAll(excluded).value;
    forall x: nat | x <= MAX_ADDR ensures Omits(excluded, x) <==> Excluded(x, holes) {
      OmittedIsExcluded(excluded, x);
    }
    forall cover | Avoids(cover, excluded) ensures |routes| <= |cover| {
      RoutesAreFewest(routes, cover, holes);
    }
  }

  lemma EachIsText(excluded: seq<bytes>)
    ensures ParseAll(excluded).None? <==> exists i :: 0 <= i < |excluded| && !IsCidrText(excluded[i])
  {
    ParsedAll(excluded);
    forall i | 0 <= i < |excluded| ensures IsCidrText(excluded[i]) <==> ParseCidr(excluded[i]).Some? {
      ParseCidrIff(excluded[i]);
    }
  }

  /** The routes for all of IPv4 except the excluded blocks, which may overlap and come in any order. */
  method ComplementRoutes(excluded: seq<bytes>) returns (r: Result<seq<Route>>)
    ensures r.Err? <==> exists i :: 0 <= i < |excluded| && !IsCidrText(excluded[i])
    ensures r.Ok? ==> var cs := Meanings(r.value);
                      Avoids(cs, excluded) && SortedCidrs(cs) && forall cover :: Avoids(cover, excluded) ==> |cs| <= |cover|
    ensures r.Ok? ==> ParseAll(excluded).Some? && Complement(Meanings(r.value), ParseAll(excluded).value, MAX_ADDR + 1)
  {
    EachIsText(excluded);
    var parsed := ParseAll(excluded);
    if parsed.None? {
      return Err;
    }
    ParsedBlocks(excluded);
    var routes := RoutesExcluding(parsed.value);
    RoutesAvoid(Meanings(routes), excluded);
    r := Ok(routes);
  }

  method RoutesExcluding(blocks: seq<Block>) returns (routes: seq<Route>)
    requires forall i :: 0 <= i < |blocks| ==> IsBlock(blocks[i])
    ensures Complement(Meanings(routes), blocks, MAX_ADDR + 1)
  {
    SortedInput(blocks);
    var merged := MergeBlocks(SortByStart(blocks));
    routes := RoutesAround(merged);
    SameHoles(Meanings(routes), merged, blocks);
  }

  lemma SameHoles(cs: seq<Cidr>, a: seq<Block>, b: seq<Block>)
    requires Complement(cs, a, MAX_ADDR + 1) && forall x :: Excluded(x, a) <==> Excluded(x, b)
    ensures Complement(cs, b, MAX_ADDR + 1)
  {
    forall t: nat, k: nat | FreeBlock(t, k, b) && t + P(k) <= MAX_ADDR + 1 ensures Held(t, k, cs) {
      assert FreeBlock(t, k, a);
    }
  }

  /** The routes of one gap, which extend the complement up to its end. */
  method GapRoutes(ghost cs: seq<Cidr>, merged: seq<Block>, lo: nat, hi: nat) returns (more: seq<Route>, ghost piece: seq<Cidr>)
    requires Complement(cs, merged, lo) && Gap(merged, lo, hi) && lo < hi
    ensures Complement(cs + piece, merged, hi) && PrintAll(cs + piece) == PrintAll(cs) + more
  {
    more := RangeToCidrs(lo, hi - 1);
    piece := Greedy(lo, hi - 1);
    GapFilled(cs, merged, lo, hi);
    PrintMore(cs, piece);
  }

  /** The loop over the merged holes. */
  method RoutesAround(merged: seq<Block>) returns (routes: seq<Route>)
    requires Separated(merged) && forall i :: 0 <= i < |merged| ==> IsBlock(merged[i])
    ensures Complement(Meanings(routes), merged, MAX_ADDR + 1)
  {
    routes := [];
    var cursor := 0;
    var n := 0;
    ghost var cs: seq<Cidr>, piece: seq<Cidr> := [], [];
    while n < |merged|
      invariant n <= |merged| && cursor == if n == 0 then 0 else merged[n - 1].end + 1
      invariant routes == PrintAll(cs) && Complement(cs, merged, cursor)
    {
      var hole := merged[n];
      NextGap(merged, n, cursor);
      if hole.start > cursor {
        var more;
        more, piece := GapRoutes(cs, merged, cursor, hole.start);
        routes, cs := routes + more, cs + piece;
      }
      HolePassed(cs, merged, hole, hole.start);
      if hole.end + 1 > cursor {
        cursor := hole.end + 1;
      }
      n := n + 1;
      if cursor > MAX_ADDR {
        break;
      }
    }
    if cursor <= MAX_ADDR {
      NextGap(merged, n, cursor);
      var more;
      more, piece := GapRoutes(cs, merged, cursor, MAX_ADDR + 1);
      routes, cs := routes + more, cs + piece;
    }
    PrintedMeans(cs);
  }

  // --- no cover has fewer entries --------------------------------------------

  /** `cover` is a list of CIDR blocks, in any order and possibly overlapping, of exactly the addresses outside the holes. */
  ghost predicate ExactCover(cover: seq<Cidr>, holes: seq<Block>) {
    && (forall i :: 0 <= i < |cover| ==> IsCidr(cover[i]))
    && forall x :: 0 <= x <= MAX_ADDR ==> (InSome(x, cover) <==> !Excluded(x, holes))
  }

  lemma {:induction false} DistinctBounded(f: seq<nat>, n: nat)
    requires forall i :: 0 <= i < |f| ==> f[i] < n
    requires forall i, j :: 0 <= i < j < |f| ==> f[i] != f[j]
    ensures |f| <= n
    decreases n
  {
    assert |f| > 0 ==> f[0] < n;
    if n > 0 {
      if i :| 0 <= i < |f| && f[i] == n - 1 {
        DistinctBounded(f[..i] + f[i + 1..], n - 1);
      } else {
        DistinctBounded(f, n - 1);
      }
    }
  }

  /** The cover block that holds the first address of a route lies within that route. */
  lemma CoverBlockInside(routes: seq<Cidr>, cover: seq<Cidr>, holes: seq<Block>, i: nat) returns (j: nat)
    requires Complement(routes, holes, MAX_ADDR + 1) && ExactCover(cover, holes) && i < |routes|
    ensures j < |cover| && In(routes[i].start, cover[j]) && Within(cover[j].start, cover[j].size, routes[i])
  {
    var x := routes[i].start;
    assert In(x, routes[i]) && InSome(x, routes);
    assert InSome(x, cover);
    var j': nat :| j' < |cover| && In(x, cover[j']);
    j := j';
    var c := cover[j];
    forall y | c.start <= y < c.start + P(c.size) ensures !Excluded(y, holes) {
      assert In(y, c) && InSome(y, cover);
    }
    assert FreeBlock(c.start, c.size, holes);
    assert Held(c.start, c.size, routes);
    var h :| 0 <= h < |routes| && Within(c.start, c.size, routes[h]);
    assert In(x, routes[h]);
  }

  lemma {:induction false} ChooseBlocks(routes: seq<Cidr>, cover: seq<Cidr>, holes: seq<Block>, n: nat) returns (f: seq<nat>)
    requires Complement(routes, holes, MAX_ADDR + 1) && ExactCover(cover, holes) && n <= |routes|
    ensures |f| == n && forall i :: 0 <= i < n ==> f[i] < |cover| && Within(cover[f[i]].start, cover[f[i]].size, routes[i])
    decreases n
  {
    if n == 0 {
      f := [];
    } else {
      var g := ChooseBlocks(routes, cover, holes, n - 1);
      var j := CoverBlockInside(routes, cover, holes, n - 1);
      f := g + [j];
    }
  }

  /** No exact cover of the addresses outside the holes by CIDR blocks has fewer entries than the routes. */
  lemma RoutesAreFewest(routes: seq<Cidr>, cover: seq<Cidr>, holes: seq<Block>)
    requires Complement(routes, holes, MAX_ADDR + 1) && ExactCover(cover, holes)
    ensures ExactCover(routes, holes) && |routes| <= |cover|
  {
    var f := ChooseBlocks(routes, cover, holes, |routes|);
    forall i, j | 0 <= i < j < |f| ensures f[i] != f[j] {
      assert routes[i].start + P(routes[i].size) <= routes[j].start;
    }
    DistinctBounded(f, |cover|);
  }
}
