/** Aligned power-of-two blocks of the IPv4 address space, and their text. */
module Cidr {
  import opened Bytes

  const MAX_ADDR: nat := 0xFFFF_FFFF

  /** The 2^size addresses from `start` on. */
  datatype Cidr = Cidr(start: nat, size: nat)

  function P(k: nat): (p: nat)
    ensures p >= 1
  {
    if k == 0 then 1 else 2 * P(k - 1)
  }

  /** `s` is a multiple of 2^k. */
  predicate Aligned(s: nat, k: nat) { k == 0 || (s % 2 == 0 && Aligned(s / 2, k - 1)) }

  predicate IsCidr(c: Cidr) { c.size <= 32 && Aligned(c.start, c.size) && c.start + P(c.size) <= MAX_ADDR + 1 }

  predicate Within(t: nat, k: nat, c: Cidr) { c.start <= t && t + P(k) <= c.start + P(c.size) }

  predicate In(x: int, c: Cidr) { c.start <= x < c.start + P(c.size) }

  lemma {:induction false} PowMonotone(j: nat, k: nat)
    requires j < k
    ensures 2 * P(j) <= P(k)
  {
    if j + 1 < k {
      PowMonotone(j, k - 1);
    }
  }

  lemma PowValues()
    ensures P(8) == 0x100 && P(16) == 0x1_0000 && P(24) == 0x100_0000 && P(32) == 0x1_0000_0000
  {
    assert P(4) == 16 && P(8) == 16 * P(4);
    assert P(12) == 16 * P(8) && P(16) == 16 * P(12);
    assert P(20) == 16 * P(16) && P(24) == 16 * P(20);
    assert P(28) == 16 * P(24) && P(32) == 16 * P(28);
  }

  /** `Long.numberOfTrailingZeros` of a positive number. */
  function TrailingZeros(s: nat): nat
    requires s > 0
  {
    if s % 2 == 1 then 0 else 1 + TrailingZeros(s / 2)
  }

  lemma {:induction false} AlignedIffZeros(s: nat, k: nat)
    requires s > 0
    ensures Aligned(s, k) <==> k <= TrailingZeros(s)
    decreases s
  {
    if k > 0 && s % 2 == 0 {
      AlignedIffZeros(s / 2, k - 1);
    }
  }

  lemma {:induction false} ZerosFit(s: nat)
    requires s > 0
    ensures P(TrailingZeros(s)) <= s
  {
    if s % 2 == 0 {
      ZerosFit(s / 2);
    }
  }

  lemma {:induction false} ZeroAligned(k: nat)
    ensures Aligned(0, k)
  {
    if k > 0 {
      ZeroAligned(k - 1);
    }
  }

  /** Of two aligned blocks that meet, the smaller lies within the larger. */
  lemma {:induction false} Nested(s: nat, j: nat, t: nat, k: nat)
    requires Aligned(s, j) && Aligned(t, k) && j <= k
    ensures t <= s < t + P(k) ==> s + P(j) <= t + P(k)
    ensures s <= t < s + P(j) ==> t == s
    decreases j
  {
    if j > 0 {
      Nested(s / 2, j - 1, t / 2, k - 1);
    }
  }

  // --- masks -----------------------------------------------------------------

  function BitAnd(x: nat, y: nat): nat {
    if x == 0 || y == 0 then 0 else 2 * BitAnd(x / 2, y / 2) + if x % 2 == 1 && y % 2 == 1 then 1 else 0
  }

  function Shl(x: nat, k: nat): nat { if k == 0 then x else 2 * Shl(x, k - 1) }

  function PrefixMask(prefix: nat): nat
    requires prefix <= 32
  {
    if prefix == 0 then 0 else BitAnd(Shl(MAX_ADDR, 32 - prefix), MAX_ADDR)
  }

  /** `v` with its lowest `k` bits cleared. */
  function ClearLow(v: nat, k: nat): nat { if k == 0 then v else 2 * ClearLow(v / 2, k - 1) }

  lemma {:induction false} ClearLowAligns(v: nat, k: nat)
    ensures Aligned(ClearLow(v, k), k) && ClearLow(v, k) <= v < ClearLow(v, k) + P(k)
    decreases k
  {
    if k > 0 {
      ClearLowAligns(v / 2, k - 1);
    }
  }

  /** Clearing bits below the alignment changes nothing. */
  lemma {:induction false} ClearLowKeeps(v: nat, k: nat)
    requires Aligned(v, k)
    ensures ClearLow(v, k) == v
    decreases k
  {
    if k > 0 {
      ClearLowKeeps(v / 2, k - 1);
    }
  }

  lemma {:induction false} AndOnes(v: nat, w: nat)
    requires v < P(w)
    ensures BitAnd(v, P(w) - 1) == v
    decreases w
  {
    if v > 0 {
      AndOnes(v / 2, w - 1);
    }
  }

  lemma AndOdd(x: nat, y: nat)
    ensures BitAnd(2 * x + 1, 2 * y + 1) == 2 * BitAnd(x, y) + 1
  {
    assert (2 * x + 1) / 2 == x && (2 * y + 1) / 2 == y;
  }

  lemma {:induction false} MaskOnes(m: nat, w: nat)
    requires m >= w
    ensures BitAnd(P(m) - 1, P(w) - 1) == P(w) - 1
    decreases w
  {
    if w > 0 {
      MaskOnes(m - 1, w - 1);
      AndOdd(P(m - 1) - 1, P(w - 1) - 1);
    }
  }

  lemma {:induction false} MaskClears(v: nat, w: nat, k: nat, m: nat)
    requires v < P(w) && m >= w
    ensures BitAnd(v, BitAnd(Shl(P(m) - 1, k), P(w) - 1)) == ClearLow(v, k)
    decreases k
  {
    if k == 0 {
      MaskOnes(m, w);
      AndOnes(v, w);
    } else if w == 0 {
      ClearLowZero(k);
    } else {
      MaskClears(v / 2, w - 1, k - 1, m);
      MaskShifts(v, Shl(P(m) - 1, k - 1), P(w - 1) - 1);
    }
  }

  /** An even mask does to `v` what half of it does to half of `v`. */
  lemma MaskShifts(v: nat, s: nat, ones: nat)
    ensures BitAnd(v, BitAnd(2 * s, 2 * ones + 1)) == 2 * BitAnd(v / 2, BitAnd(s, ones))
  {
    var half := BitAnd(s, ones);
    AndEven(s, 2 * ones + 1);
    assert (2 * ones + 1) / 2 == ones;
    EvenMask(v, half);
  }

  lemma EvenMask(v: nat, half: nat)
    ensures BitAnd(v, 2 * half) == 2 * BitAnd(v / 2, half)
  {
    AndEven(half, v);
    AndSwap(v, 2 * half);
    AndSwap(v / 2, half);
  }

  lemma {:induction false} ClearLowZero(k: nat)
    ensures ClearLow(0, k) == 0
  {
    if k > 0 {
      ClearLowZero(k - 1);
    }
  }

  lemma AndEven(x: nat, y: nat)
    ensures BitAnd(2 * x, y) == 2 * BitAnd(x, y / 2)
  {
  }

  lemma {:induction false} AndSwap(x: nat, y: nat)
    ensures BitAnd(x, y) == BitAnd(y, x)
    decreases x
  {
    if x > 0 && y > 0 {
      AndSwap(x / 2, y / 2);
    }
  }

  /** Masking with a prefix clears the host bits. */
  lemma PrefixMaskClears(v: nat, prefix: nat)
    requires v <= MAX_ADDR && prefix <= 32
    ensures BitAnd(v, PrefixMask(prefix)) == ClearLow(v, 32 - prefix)
  {
    PowValues();
    if prefix == 0 {
      ClearLowAligns(v, 32);
      AlignedSmall(ClearLow(v, 32), 32);
    } else {
      MaskClears(v, 32, 32 - prefix, 32);
    }
  }

  lemma {:induction false} AlignedSmall(s: nat, k: nat)
    requires Aligned(s, k) && s < P(k)
    ensures s == 0
    decreases k
  {
    if k > 0 {
      AlignedSmall(s / 2, k - 1);
    }
  }

  // --- text ------------------------------------------------------------------

  const DOT: byte := 46
  const SLASH: byte := 47

  /** `String.toInt` on ASCII text; `None` stands for the exception. */
  function ToInt(t: bytes): Option<int> {
    if t != [] && t[0] == 45 then
      (if t[1..] == [] then None
       else match DigitsValue(t[1..], 10)
            case None => None
            case Some(v) => var w: int := 0 - (v as int); if v <= 0x8000_0000 then Some(w) else None)
    else match ParseUnsigned(t, 10, 0x7FFF_FFFF) case None => None case Some(v) => Some(v)
  }

  function FoldOctets(acc: nat, parts: seq<bytes>): Option<nat>
    decreases |parts|
  {
    if parts == [] then Some(acc)
    else
      match ToInt(parts[0])
      case None => None
      case Some(octet) => if 0 <= octet <= 255 then FoldOctets(256 * acc + octet, parts[1..]) else None
  }

  function IpToLong(addr: bytes): Option<nat> {
    var parts := Split(addr, DOT);
    if |parts| != 4 then None else FoldOctets(0, parts)
  }

  function Quad(a: nat, b: nat, c: nat, d: nat): bytes {
    ToRadix(a, 10) + [DOT] + (ToRadix(b, 10) + [DOT] + (ToRadix(c, 10) + [DOT] + ToRadix(d, 10)))
  }

  function LongToIp(v: nat): bytes {
    Quad(v / 0x100_0000 % 256, v / 0x1_0000 % 256, v / 0x100 % 256, v % 256)
  }

  lemma {:induction false} SplitFirst(a: bytes, c: byte, b: bytes)
    requires forall i :: 0 <= i < |a| ==> a[i] != c
    ensures Split(a + [c] + b, c) == [a] + Split(b, c)
    ensures Split(a, c) == [a]
  {
    var s := a + [c] + b;
    assert s[|a|] == c && s[..|a|] == a && s[|a| + 1..] == b;
  }

  lemma OctetReads(o: nat)
    requires o <= 255
    ensures ToInt(ToRadix(o, 10)) == Some(o)
  {
    NumberRoundTrip(o, 10, 0x7FFF_FFFF);
  }

  lemma FoldOctet(acc: nat, part: bytes, parts: seq<bytes>)
    requires IsOctet(part)
    ensures FoldOctets(acc, [part] + parts) == FoldOctets(256 * acc + ToInt(part).value, parts)
  {
    assert ([part] + parts)[1..] == parts;
  }

  lemma QuadSplits(a: nat, b: nat, c: nat, d: nat)
    ensures Split(Quad(a, b, c, d), DOT) == [ToRadix(a, 10)] + ([ToRadix(b, 10)] + ([ToRadix(c, 10)] + [ToRadix(d, 10)]))
  {
    var C, D := ToRadix(c, 10), ToRadix(d, 10);
    SplitFirst(D, DOT, []);
    SplitFirst(C, DOT, D);
    SplitFirst(ToRadix(b, 10), DOT, C + [DOT] + D);
    SplitFirst(ToRadix(a, 10), DOT, ToRadix(b, 10) + [DOT] + (C + [DOT] + D));
  }

  lemma QuadReads(a: nat, b: nat, c: nat, d: nat)
    requires a <= 255 && b <= 255 && c <= 255 && d <= 255
    ensures IpToLong(Quad(a, b, c, d)) == Some(256 * (256 * (256 * a + b) + c) + d)
  {
    QuadSplits(a, b, c, d);
    OctetReads(a);
    OctetReads(b);
    OctetReads(c);
    OctetReads(d);
    PartsRead(Quad(a, b, c, d), ToRadix(a, 10), ToRadix(b, 10), ToRadix(c, 10), ToRadix(d, 10));
  }

  lemma PartsRead(addr: bytes, p: bytes, q: bytes, r: bytes, s: bytes)
    requires IsOctet(p) && IsOctet(q) && IsOctet(r) && IsOctet(s)
    requires Split(addr, DOT) == [p] + ([q] + ([r] + [s]))
    ensures IpToLong(addr)
            == Some(256 * (256 * (256 * ToInt(p).value + ToInt(q).value) + ToInt(r).value) + ToInt(s).value)
  {
    FoldFour(p, q, r, s);
  }

  predicate IsOctet(part: bytes) { ToInt(part).Some? && 0 <= ToInt(part).value <= 255 }

  lemma FoldFour(p: bytes, q: bytes, r: bytes, s: bytes)
    requires IsOctet(p) && IsOctet(q) && IsOctet(r) && IsOctet(s)
    ensures FoldOctets(0, [p] + ([q] + ([r] + [s])))
            == Some(256 * (256 * (256 * ToInt(p).value + ToInt(q).value) + ToInt(r).value) + ToInt(s).value)
  {
    var a: nat := ToInt(p).value;
    var b: nat := 256 * a + ToInt(q).value;
    var c: nat := 256 * b + ToInt(r).value;
    FoldOctet(0, p, [q] + ([r] + [s]));
    FoldOctet(a, q, [r] + [s]);
    FoldOctet(b, r, [s]);
    FoldOctet(c, s, []);
    assert [s] + [] == [s];
  }

  /** Printing an address and reading it back gives the address. */
  lemma AddressRoundTrip(v: nat)
    requires v <= MAX_ADDR
    ensures IpToLong(LongToIp(v)) == Some(v)
  {
    BytesOfAddress(v);
    QuadReads(v / 0x100_0000 % 256, v / 0x1_0000 % 256, v / 0x100 % 256, v % 256);
  }

  lemma BytesOfAddress(v: nat)
    requires v <= MAX_ADDR
    ensures v / 0x100_0000 % 256 <= 255 && v / 0x1_0000 % 256 <= 255 && v / 0x100 % 256 <= 255 && v % 256 <= 255
    ensures 256 * (256 * (256 * (v / 0x100_0000 % 256) + v / 0x1_0000 % 256) + v / 0x100 % 256) + v % 256 == v
  {
    assert v / 0x1_0000 == v / 0x100 / 0x100;
    assert v / 0x100_0000 == v / 0x1_0000 / 0x100;
    assert v / 0x100_0000 < 256;
  }
}
