/** Byte strings and the text conversions that the streaming codecs share. */
module Bytes {

  type byte = x: int | 0 <= x < 256
  type bytes = seq<byte>

  datatype Option<+T> = None | Some(value: T)

  const HT: byte := 9
  const LF: byte := 10
  const CR: byte := 13
  const SP: byte := 32
  const CRLF: bytes := [13, 10]
  const CRLFCRLF: bytes := [13, 10, 13, 10]

  /** The width of `usize` on the 64-bit targets. */
  const USIZE_MAX: nat := 0xFFFF_FFFF_FFFF_FFFF

  function Min(a: int, b: int): int { if a < b then a else b }

  function Max(a: int, b: int): int { if a < b then b else a }

  function Code(c: char): byte { if c as int < 256 then c as int else 63 }

  /** A byte-string literal. */
  function A(s: string): (r: bytes)
    ensures |r| == |s|
  {
    seq(|s|, i requires 0 <= i < |s| => Code(s[i]))
  }

  /** Moving the front of `b` to the end of `a` keeps their concatenation. */
  lemma MoveFront<T>(a: seq<T>, b: seq<T>, n: nat)
    requires n <= |b|
    ensures a + b[..n] + b[n..] == a + b
  {
    assert b == b[..n] + b[n..];
  }

  lemma Assoc<T>(a: seq<T>, b: seq<T>, c: seq<T>)
    ensures a + b + c == a + (b + c)
  {
  }

  lemma SuffixAfter<T>(a: seq<T>, b: seq<T>, n: nat)
    requires n <= |b|
    ensures (a + b)[|a| + n..] == b[n..]
  {
  }

  function Concat(parts: seq<bytes>): bytes {
    if parts == [] then [] else parts[0] + Concat(parts[1..])
  }

  lemma {:induction false} ConcatAppend(a: seq<bytes>, b: seq<bytes>)
    ensures Concat(a + b) == Concat(a) + Concat(b)
  {
    if a == [] {
      assert a + b == b;
    } else {
      assert (a + b)[1..] == a[1..] + b;
      ConcatAppend(a[1..], b);
    }
  }

  // --- searching -------------------------------------------------------------

  predicate At<T(==)>(h: seq<T>, n: seq<T>, j: int) {
    0 <= j && j + |n| <= |h| && h[j..j + |n|] == n
  }

  function FindFrom<T(==)>(h: seq<T>, n: seq<T>, i: nat): (r: Option<nat>)
    ensures r.Some? ==> i <= r.value && At(h, n, r.value) && forall j :: i <= j < r.value ==> !At(h, n, j)
    ensures r.None? ==> forall j :: i <= j ==> !At(h, n, j)
    decreases |h| - i
  {
    if |h| < i + |n| then None
    else if h[i..i + |n|] == n then Some(i)
    else FindFrom(h, n, i + 1)
  }

  /** The first occurrence of `n` in `h`. */
  function Find<T(==)>(h: seq<T>, n: seq<T>): (r: Option<nat>)
    ensures r.Some? ==> At(h, n, r.value) && forall j :: 0 <= j < r.value ==> !At(h, n, j)
    ensures r.None? ==> forall j :: !At(h, n, j)
  {
    FindFrom(h, n, 0)
  }

  lemma AtPrefix<T>(h: seq<T>, y: seq<T>, n: seq<T>, j: int)
    requires 0 <= j && j + |n| <= |h|
    ensures At(h + y, n, j) == At(h, n, j)
  {
    assert (h + y)[j..j + |n|] == h[j..j + |n|];
  }

  /** An occurrence once found stays the first one however much text follows. */
  lemma FindStable<T>(h: seq<T>, y: seq<T>, n: seq<T>)
    requires Find(h, n).Some?
    ensures Find(h + y, n) == Find(h, n)
  {
    var p := Find(h, n).value;
    AtPrefix(h, y, n, p);
    forall j | 0 <= j < p ensures !At(h + y, n, j) {
      AtPrefix(h, y, n, j);
    }
  }

  /** Where it can be found after more text has come, if it was not there before. */
  lemma FindLater<T>(h: seq<T>, y: seq<T>, n: seq<T>)
    requires Find(h, n).None?
    ensures Find(h + y, n).Some? ==> |h| < Find(h + y, n).value + |n|
  {
    if Find(h + y, n).Some? && Find(h + y, n).value + |n| <= |h| {
      AtPrefix(h, y, n, Find(h + y, n).value);
    }
  }

  lemma FindUnique<T>(h: seq<T>, n: seq<T>, p: nat)
    requires At(h, n, p) && forall j :: 0 <= j < p ==> !At(h, n, j)
    ensures Find(h, n) == Some(p)
  {
  }

  lemma DiffersAt<T>(h: seq<T>, n: seq<T>, j: nat, k: nat)
    requires k < |n| && (j + |n| <= |h| ==> h[j + k] != n[k])
    ensures !At(h, n, j)
  {
    if j + |n| <= |h| {
      assert h[j..j + |n|][k] == h[j + k];
    }
  }

  /** Index just past the first CRLFCRLF. */
  function FindHeaderEnd(buf: bytes): (r: Option<nat>)
    ensures r.Some? ==> 4 <= r.value <= |buf|
  {
    match Find(buf, CRLFCRLF)
    case None => None
    case Some(p) => Some(p + 4)
  }

  function IndexFrom(s: bytes, c: byte, i: nat): (r: Option<nat>)
    ensures r.Some? ==> i <= r.value < |s| && s[r.value] == c && forall j :: i <= j < r.value ==> s[j] != c
    ensures r.None? ==> forall j :: i <= j < |s| ==> s[j] != c
    decreases |s| - i
  {
    if |s| <= i then None
    else if s[i] == c then Some(i)
    else IndexFrom(s, c, i + 1)
  }

  /** The first position of `c` in `s`. */
  function IndexOf(s: bytes, c: byte): (r: Option<nat>)
    ensures r.Some? ==> r.value < |s| && s[r.value] == c && forall j :: 0 <= j < r.value ==> s[j] != c
    ensures r.None? ==> forall j :: 0 <= j < |s| ==> s[j] != c
  {
    IndexFrom(s, c, 0)
  }

  /** The pieces of `s` between occurrences of `c`; never empty. */
  function Split(s: bytes, c: byte): (r: seq<bytes>)
    ensures |r| >= 1
    decreases |s|
  {
    match IndexOf(s, c)
    case None => [s]
    case Some(p) => [s[..p]] + Split(s[p + 1..], c)
  }

  // --- ASCII case ------------------------------------------------------------

  function LowerByte(b: byte): byte { if 65 <= b <= 90 then b + 32 else b }

  function Lower(s: bytes): (r: bytes)
    ensures |r| == |s|
  {
    seq(|s|, i requires 0 <= i < |s| => LowerByte(s[i]))
  }

  predicate EqIgnoreCase(a: bytes, b: bytes) {
    |a| == |b| && forall i :: 0 <= i < |a| ==> LowerByte(a[i]) == LowerByte(b[i])
  }

  /** Two letters that differ in their case only. */
  predicate CasePair(a: byte, b: byte) { (65 <= a <= 90 && b == a + 32) || (65 <= b <= 90 && a == b + 32) }

  /** Equal but for case: of the same length, and at each place the same byte or the two cases of a letter. */
  lemma EqualButForCase(a: bytes, b: bytes)
    ensures EqIgnoreCase(a, b) <==> |a| == |b| && forall i :: 0 <= i < |a| ==> a[i] == b[i] || CasePair(a[i], b[i])
  {
    if |a| == |b| {
      forall i | 0 <= i < |a| ensures LowerByte(a[i]) == LowerByte(b[i]) <==> a[i] == b[i] || CasePair(a[i], b[i]) {
      }
    }
  }

  // --- white space -----------------------------------------------------------

  predicate IsAsciiWhitespace(b: byte) { b == 9 || b == 10 || b == 12 || b == 13 || b == 32 }

  function AsciiTrimStart(s: bytes): bytes {
    if s != [] && IsAsciiWhitespace(s[0]) then AsciiTrimStart(s[1..]) else s
  }

  function AsciiTrimEnd(s: bytes): bytes {
    if s != [] && IsAsciiWhitespace(s[|s| - 1]) then AsciiTrimEnd(s[..|s| - 1]) else s
  }

  function AsciiTrim(s: bytes): bytes { AsciiTrimEnd(AsciiTrimStart(s)) }

  // The UTF-8 forms of the White_Space characters, one, two and three bytes long.
  predicate Space1(a: byte) { 9 <= a <= 13 || a == 32 }
  predicate Space2(a: byte, b: byte) { a == 0xC2 && (b == 0x85 || b == 0xA0) }
  predicate Space3(a: byte, b: byte, c: byte) {
    || (a == 0xE1 && b == 0x9A && c == 0x80)
    || (a == 0xE2 && b == 0x80 && (0x80 <= c <= 0x8A || c == 0xA8 || c == 0xA9 || c == 0xAF))
    || (a == 0xE2 && b == 0x81 && c == 0x9F)
    || (a == 0xE3 && b == 0x80 && c == 0x80)
  }

  /** Length of the white-space character at the front of `s`, 0 if there is none. */
  function LeadingSpace(s: bytes): (n: nat)
    ensures n <= |s|
  {
    if |s| >= 1 && Space1(s[0]) then 1
    else if |s| >= 2 && Space2(s[0], s[1]) then 2
    else if |s| >= 3 && Space3(s[0], s[1], s[2]) then 3
    else 0
  }

  function TrailingSpace(s: bytes): (n: nat)
    ensures n <= |s|
  {
    var k := |s|;
    if k >= 1 && Space1(s[k - 1]) then 1
    else if k >= 2 && Space2(s[k - 2], s[k - 1]) then 2
    else if k >= 3 && Space3(s[k - 3], s[k - 2], s[k - 1]) then 3
    else 0
  }

  function TrimStart(s: bytes): bytes {
    var n := LeadingSpace(s);
    if n == 0 then s else TrimStart(s[n..])
  }

  function TrimEnd(s: bytes): bytes {
    var n := TrailingSpace(s);
    if n == 0 then s else TrimEnd(s[..|s| - n])
  }

  /** `str::trim`, on the bytes of the text. */
  function Trim(s: bytes): bytes { TrimEnd(TrimStart(s)) }

  /** White space and nothing else. */
  predicate Blank(s: bytes)
    decreases |s|
  {
    s == [] || (LeadingSpace(s) > 0 && Blank(s[LeadingSpace(s)..]))
  }

  /** The same, told from the end. */
  predicate BlankEnd(s: bytes)
    decreases |s|
  {
    s == [] || (TrailingSpace(s) > 0 && BlankEnd(s[..|s| - TrailingSpace(s)]))
  }

  /** Trimming cuts off the white space in front, all of it and nothing else. */
  lemma {:induction false} TrimStartCuts(s: bytes) returns (space: bytes)
    ensures s == space + TrimStart(s) && Blank(space) && LeadingSpace(TrimStart(s)) == 0
    decreases |s|
  {
    var n := LeadingSpace(s);
    space := [];
    if n > 0 {
      var more := TrimStartCuts(s[n..]);
      space := s[..n] + more;
      assert space[n..] == more && LeadingSpace(space) == n;
    }
  }

  lemma SpaceBehind(more: bytes, s: bytes, n: nat)
    requires 0 < n == TrailingSpace(s) && BlankEnd(more)
    ensures BlankEnd(more + s[|s| - n..])
  {
    var space := more + s[|s| - n..];
    assert space[..|space| - n] == more && TrailingSpace(space) == n;
  }

  /** And behind. */
  lemma {:induction false} TrimEndCuts(s: bytes) returns (space: bytes)
    ensures s == TrimEnd(s) + space && BlankEnd(space) && TrailingSpace(TrimEnd(s)) == 0
    decreases |s|
  {
    var n := TrailingSpace(s);
    space := [];
    if n > 0 {
      var k := |s| - n;
      var more := TrimEndCuts(s[..k]);
      space := more + s[k..];
      assert s == s[..k] + s[k..];
      Assoc(TrimEnd(s), more, s[k..]);
      SpaceBehind(more, s, n);
    }
  }

  // --- UTF-8 (section 4 of RFC 3629) -----------------------------------------

  predicate Tail(b: byte) { 0x80 <= b <= 0xBF }

  /** Length of the character at the front of `s`, 0 if it is ill-formed. */
  function CharLen(s: bytes): (n: nat)
    ensures n <= |s|
  {
    if s == [] then 0
    else if s[0] < 0x80 then 1
    else if 0xC2 <= s[0] <= 0xDF && |s| >= 2 && Tail(s[1]) then 2
    else if |s| >= 3 && Tail(s[1]) && Tail(s[2])
            && ((s[0] == 0xE0 && s[1] >= 0xA0) || 0xE1 <= s[0] <= 0xEC
                || (s[0] == 0xED && s[1] <= 0x9F) || 0xEE <= s[0] <= 0xEF) then 3
    else if |s| >= 4 && Tail(s[1]) && Tail(s[2]) && Tail(s[3])
            && ((s[0] == 0xF0 && s[1] >= 0x90) || 0xF1 <= s[0] <= 0xF3 || (s[0] == 0xF4 && s[1] <= 0x8F)) then 4
    else 0
  }

  predicate Utf8(s: bytes)
    decreases |s|
  {
    s == [] || (CharLen(s) > 0 && Utf8(s[CharLen(s)..]))
  }

  lemma {:induction false} Utf8Concat(a: bytes, b: bytes)
    requires Utf8(a) && Utf8(b)
    ensures Utf8(a + b)
    decreases |a|
  {
    if a == [] {
      assert a + b == b;
    } else {
      var n := CharLen(a);
      assert CharLen(a + b) == n;
      assert (a + b)[n..] == a[n..] + b;
      Utf8Concat(a[n..], b);
    }
  }

  /** Well-formed text split at an ASCII byte is well formed on both sides. */
  lemma {:induction false} Utf8Split(a: bytes, c: byte, b: bytes)
    requires c < 0x80
    requires Utf8(a + [c] + b)
    ensures Utf8(a) && Utf8(b)
    decreases |a|
  {
    var s := a + [c] + b;
    var n := CharLen(s);
    if a == [] {
      assert s[1..] == b;
    } else {
      assert s[|a|] == c;
      assert CharLen(a) == n;
      assert s[n..] == a[n..] + [c] + b;
      Utf8Split(a[n..], c, b);
    }
  }

  lemma {:induction false} AsciiIsUtf8(s: bytes)
    requires forall i :: 0 <= i < |s| ==> s[i] < 0x80
    ensures Utf8(s)
  {
    if s != [] {
      AsciiIsUtf8(s[1..]);
    }
  }

  // --- numbers ---------------------------------------------------------------

  function DigitValue(b: byte): nat {
    if 48 <= b <= 57 then b - 48
    else if 97 <= b <= 102 then b - 87
    else if 65 <= b <= 70 then b - 55
    else 99
  }

  function DigitByte(n: nat): (b: byte)
    requires n < 16
    ensures DigitValue(b) == n && (48 <= b <= 57 || 97 <= b <= 102)
    ensures n < 10 ==> 48 <= b <= 57
  {
    if n < 10 then 48 + n else 87 + n
  }

  predicate Radix(r: int) { r == 10 || r == 16 }

  /** The value of a string of digits, most significant first. */
  function DigitsValue(t: bytes, radix: nat): Option<nat>
    requires Radix(radix)
  {
    if t == [] then Some(0)
    else
      var d := DigitValue(t[|t| - 1]);
      match DigitsValue(t[..|t| - 1], radix)
      case None => None
      case Some(v) => if d < radix then Some((if radix == 16 then 16 * v else 10 * v) + d) else None
  }

  /** `from_str_radix` and `parse` of an unsigned integer: an optional plus sign,
      then digits; `None` when malformed or above `max`. */
  function ParseUnsigned(t: bytes, radix: nat, max: nat): Option<nat>
    requires Radix(radix)
  {
    var digits := if t != [] && t[0] == 43 then t[1..] else t;
    if digits == [] then None
    else
      match DigitsValue(digits, radix)
      case None => None
      case Some(v) => if v <= max then Some(v) else None
  }

  function ToRadix(n: nat, radix: nat): (t: bytes)
    requires Radix(radix)
    ensures |t| >= 1
    ensures forall i :: 0 <= i < |t| ==> 48 <= t[i] <= 57 || 97 <= t[i] <= 102
    decreases n
  {
    if n < radix then [DigitByte(n)]
    else if radix == 16 then ToRadix(n / 16, radix) + [DigitByte(n % 16)]
    else ToRadix(n / 10, radix) + [DigitByte(n % 10)]
  }

  lemma DigitsAppend(t: bytes, b: byte, radix: nat)
    requires Radix(radix) && DigitValue(b) < radix && DigitsValue(t, radix).Some?
    ensures DigitsValue(t + [b], radix)
            == Some((if radix == 16 then 16 * DigitsValue(t, radix).value else 10 * DigitsValue(t, radix).value) + DigitValue(b))
  {
    assert (t + [b])[..|t|] == t;
  }

  lemma {:induction false} DigitsRoundTrip(n: nat, radix: nat)
    requires Radix(radix)
    ensures DigitsValue(ToRadix(n, radix), radix) == Some(n)
    decreases n
  {
    if n < radix {
      assert [DigitByte(n)][..0] == [];
    } else if radix == 16 {
      DigitsRoundTrip(n / 16, radix);
      DigitsAppend(ToRadix(n / 16, radix), DigitByte(n % 16), radix);
    } else {
      DigitsRoundTrip(n / 10, radix);
      DigitsAppend(ToRadix(n / 10, radix), DigitByte(n % 10), radix);
    }
  }

  /** Printing a number and reading it back gives the number. */
  lemma NumberRoundTrip(n: nat, radix: nat, max: nat)
    requires Radix(radix) && n <= max
    ensures ParseUnsigned(ToRadix(n, radix), radix, max) == Some(n)
  {
    DigitsRoundTrip(n, radix);
  }
}
