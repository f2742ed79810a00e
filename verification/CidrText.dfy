/** What a CIDR text says, read without the parser. */
module CidrText {
  import opened Bytes
  import opened Cidr

  /** A decimal octet without separators. */
  predicate Octet(w: bytes, o: nat) {
    ToInt(w) == Some(o) && o <= 255 && forall i :: 0 <= i < |w| ==> w[i] != DOT && w[i] != SLASH
  }

  function Dotted(q: bytes, r: bytes, s: bytes, u: bytes): bytes { q + [DOT] + (r + [DOT] + (s + [DOT] + u)) }

  function Number(a: nat, b: nat, c: nat, d: nat): nat { 256 * (256 * (256 * a + b) + c) + d }

  /** The text of the octets `a`, `b`, `c` and `d` with dots between them. */
  ghost predicate SpellsOctets(t: bytes, a: nat, b: nat, c: nat, d: nat) {
    exists q, r, s, u :: t == Dotted(q, r, s, u) && Octet(q, a) && Octet(r, b) && Octet(s, c) && Octet(u, d)
  }

  ghost predicate SpellsAddress(t: bytes, v: nat) { exists a, b, c, d :: SpellsOctets(t, a, b, c, d) && v == Number(a, b, c, d) }

  /** `ip`, a slash and `n` say the address `a` and the prefix length `p`. */
  ghost predicate SpelledBy(ip: bytes, n: bytes, a: nat, p: nat) { SpellsAddress(ip, a) && ToInt(n) == Some(p) && p <= 32 }

  /** The text says the address `a` and the prefix length `p`. */
  ghost predicate Spells(t: bytes, a: nat, p: nat) { exists ip, n :: t == ip + [SLASH] + n && SpelledBy(ip, n, a, p) }

  ghost predicate IsCidrText(t: bytes) { exists a, p :: Spells(t, a, p) }

  /** `x` has the same first `p` bits as `a`. */
  predicate SamePrefix(x: nat, a: nat, p: nat)
    requires p <= 32
  {
    ClearLow(x, 32 - p) == ClearLow(a, 32 - p)
  }

  // --- the parser reads this -------------------------------------------------

  lemma DotSplits(w: bytes, o: nat, rest: bytes)
    requires Octet(w, o)
    ensures Split(w, DOT) == [w] && Split(w + [DOT] + rest, DOT) == [w] + Split(rest, DOT)
  {
    SplitFirst(w, DOT, rest);
  }

  lemma DottedSplits(q: bytes, r: bytes, s: bytes, u: bytes, a: nat, b: nat, c: nat, d: nat)
    requires Octet(q, a) && Octet(r, b) && Octet(s, c) && Octet(u, d)
    ensures Split(Dotted(q, r, s, u), DOT) == [q] + ([r] + ([s] + [u]))
  {
    DotSplits(u, d, []);
    DotSplits(s, c, u);
    DotSplits(r, b, s + [DOT] + u);
    DotSplits(q, a, r + [DOT] + (s + [DOT] + u));
  }

  lemma DottedReads(q: bytes, r: bytes, s: bytes, u: bytes, a: nat, b: nat, c: nat, d: nat)
    requires Octet(q, a) && Octet(r, b) && Octet(s, c) && Octet(u, d)
    ensures IpToLong(Dotted(q, r, s, u)) == Some(Number(a, b, c, d))
  {
    DottedSplits(q, r, s, u, a, b, c, d);
    PartsRead(Dotted(q, r, s, u), q, r, s, u);
  }

  lemma AddressReads(t: bytes, v: nat)
    requires SpellsAddress(t, v)
    ensures IpToLong(t) == Some(v) && t != [] && forall i :: 0 <= i < |t| ==> t[i] != SLASH
  {
    var a, b, c, d :| SpellsOctets(t, a, b, c, d) && v == Number(a, b, c, d);
    var q, r, s, u :| t == Dotted(q, r, s, u) && Octet(q, a) && Octet(r, b) && Octet(s, c) && Octet(u, d);
    DottedReads(q, r, s, u, a, b, c, d);
    NoSlash(q, r, s, u);
  }

  lemma NoSlash(q: bytes, r: bytes, s: bytes, u: bytes)
    requires SLASH !in q && SLASH !in r && SLASH !in s && SLASH !in u
    ensures forall i :: 0 <= i < |Dotted(q, r, s, u)| ==> Dotted(q, r, s, u)[i] != SLASH
  {
  }

  lemma SplitTail(t: bytes) returns (w: bytes, rest: bytes)
    ensures Split(t, DOT)[0] == w && (forall i :: 0 <= i < |w| ==> w[i] != DOT)
    ensures |Split(t, DOT)| > 1 ==> t == w + [DOT] + rest && Split(t, DOT) == [w] + Split(rest, DOT)
    ensures |Split(t, DOT)| == 1 ==> t == w
  {
    w, rest := t, [];
    if IndexOf(t, DOT).Some? {
      var p := IndexOf(t, DOT).value;
      w, rest := t[..p], t[p + 1..];
      assert t == w + [DOT] + rest;
    }
  }

  lemma ReadsAddress(t: bytes)
    requires IpToLong(t).Some? && forall i :: 0 <= i < |t| ==> t[i] != SLASH
    ensures SpellsAddress(t, IpToLong(t).value)
  {
    var q, t1 := SplitTail(t);
    var r, t2 := SplitTail(t1);
    var s, t3 := SplitTail(t2);
    var u, _ := SplitTail(t3);
    var parts := Split(t, DOT);
    assert |Split(t1, DOT)| == 3 && |Split(t2, DOT)| == 2 && |Split(t3, DOT)| == 1;
    FourRead(t, q, r, s, u);
  }

  /** The parts of an address that reads. */
  lemma FourRead(t: bytes, q: bytes, r: bytes, s: bytes, u: bytes)
    requires IpToLong(t).Some? && Split(t, DOT) == [q] + ([r] + ([s] + [u])) && t == Dotted(q, r, s, u)
    requires forall i :: 0 <= i < |t| ==> t[i] != SLASH
    requires DOT !in q && DOT !in r && DOT !in s && DOT !in u
    ensures SpellsAddress(t, IpToLong(t).value)
  {
    var a, b, c, d := FoldedFour(q, r, s, u);
    NoSlashInParts(t, q, r, s, u);
    assert Octet(q, a) && Octet(r, b) && Octet(s, c) && Octet(u, d);
    assert SpellsOctets(t, a, b, c, d);
  }

  lemma NoSlashInParts(t: bytes, q: bytes, r: bytes, s: bytes, u: bytes)
    requires t == Dotted(q, r, s, u) && forall i :: 0 <= i < |t| ==> t[i] != SLASH
    ensures SLASH !in q && SLASH !in r && SLASH !in s && SLASH !in u
  {
    var k1, k2, k3 := |q| + 1, |q| + |r| + 2, |q| + |r| + |s| + 3;
    assert forall i :: 0 <= i < |q| ==> q[i] == t[i];
    assert forall i :: 0 <= i < |r| ==> r[i] == t[k1 + i];
    assert forall i :: 0 <= i < |s| ==> s[i] == t[k2 + i];
    assert forall i :: 0 <= i < |u| ==> u[i] == t[k3 + i];
  }

  lemma FoldedOne(acc: nat, part: bytes, parts: seq<bytes>) returns (o: nat)
    requires FoldOctets(acc, [part] + parts).Some?
    ensures o <= 255 && ToInt(part) == Some(o) && FoldOctets(acc, [part] + parts) == FoldOctets(256 * acc + o, parts)
  {
    assert ([part] + parts)[0] == part && ([part] + parts)[1..] == parts;
    o := ToInt(part).value;
  }

  lemma FoldedFour(q: bytes, r: bytes, s: bytes, u: bytes) returns (a: nat, b: nat, c: nat, d: nat)
    requires FoldOctets(0, [q] + ([r] + ([s] + [u]))).Some?
    ensures a <= 255 && b <= 255 && c <= 255 && d <= 255
    ensures ToInt(q) == Some(a) && ToInt(r) == Some(b) && ToInt(s) == Some(c) && ToInt(u) == Some(d)
    ensures FoldOctets(0, [q] + ([r] + ([s] + [u]))) == Some(Number(a, b, c, d))
  {
    a := FoldedOne(0, q, [r] + ([s] + [u]));
    b := FoldedOne(a, r, [s] + [u]);
    c := FoldedOne(256 * a + b, s, [u]);
    assert [u] + [] == [u];
    d := FoldedOne(256 * (256 * a + b) + c, u, []);
  }

  // --- texts that were printed -----------------------------------------------

  lemma OctetPrinted(o: nat)
    requires o <= 255
    ensures Octet(ToRadix(o, 10), o)
  {
    OctetReads(o);
  }

  lemma NumberReads(p: nat)
    requires p <= 32
    ensures ToInt(ToRadix(p, 10)) == Some(p)
  {
    NumberRoundTrip(p, 10, 0x7FFF_FFFF);
  }

  /** The text of an address, a slash and a number from 0 to 32 say just this. */
  lemma PrintedSpells(a: nat, p: nat)
    requires a <= MAX_ADDR && p <= 32
    ensures Spells(LongToIp(a) + [SLASH] + ToRadix(p, 10), a, p)
  {
    var b, c, d, e := a / 0x100_0000 % 256, a / 0x1_0000 % 256, a / 0x100 % 256, a % 256;
    BytesOfAddress(a);
    OctetPrinted(b);
    OctetPrinted(c);
    OctetPrinted(d);
    OctetPrinted(e);
    assert LongToIp(a) == Dotted(ToRadix(b, 10), ToRadix(c, 10), ToRadix(d, 10), ToRadix(e, 10));
    assert SpellsOctets(LongToIp(a), b, c, d, e) && a == Number(b, c, d, e);
    NumberReads(p);
    assert SpelledBy(LongToIp(a), ToRadix(p, 10), a, p);
  }

  // --- prefixes --------------------------------------------------------------

  /** The addresses of the aligned block around `a` are those with the same prefix. */
  lemma BlockIsPrefix(x: nat, a: nat, p: nat)
    requires p <= 32
    ensures SamePrefix(x, a, p) <==> ClearLow(a, 32 - p) <= x < ClearLow(a, 32 - p) + P(32 - p)
  {
    var k := 32 - p;
    ClearLowAligns(x, k);
    ClearLowAligns(a, k);
    Nested(ClearLow(x, k), k, ClearLow(a, k), k);
    Nested(ClearLow(a, k), k, ClearLow(x, k), k);
  }
}
