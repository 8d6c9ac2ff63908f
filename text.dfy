/**
 * String helpers shared by the model: decimal rendering and reading of
 * integers (Python's `str(int)` and `"%0Nd"`), ASCII lower-casing and
 * substring search (Python's `str.lower` and `in`), splitting and joining on
 * a separator (Python's `str.split(sep)` and JavaScript's `String.split`),
 * and JavaScript's `String.prototype.trim`.
 */
module Text {

  predicate IsDigit(c: char) {
    '0' <= c <= '9'
  }

  predicate AllDigits(s: string) {
    forall i :: 0 <= i < |s| ==> IsDigit(s[i])
  }

  function DigitChar(d: nat): (c: char)
    requires d < 10
    ensures IsDigit(c) && c as int - '0' as int == d
  {
    ('0' as int + d) as char
  }

  /** The decimal digits of `n`, most significant first, without leading zeros. */
  function NatToDecimal(n: nat): (s: string)
    ensures |s| >= 1 && AllDigits(s)
    decreases n
  {
    if n < 10 then [DigitChar(n)] else NatToDecimal(n / 10) + [DigitChar(n % 10)]
  }

  /** The number a string of decimal digits denotes (the empty string denotes 0). */
  function DigitsValue(s: string): nat
    requires AllDigits(s)
  {
    if s == [] then 0 else DigitsValue(s[..|s| - 1]) * 10 + (s[|s| - 1] as int - '0' as int)
  }

  /** Reading back the decimal digits of `n` gives `n`. */
  lemma {:induction false} DecimalRoundTrip(n: nat)
    ensures DigitsValue(NatToDecimal(n)) == n
    decreases n
  {
    if n >= 10 {
      var s := NatToDecimal(n);
      assert s[..|s| - 1] == NatToDecimal(n / 10);
      DecimalRoundTrip(n / 10);
    }
  }

  /** Python's `str(i)` / `f"{i}"` for an integer: a minus sign, then the digits of |i|. */
  function IntToDecimal(i: int): string {
    if i < 0 then "-" + NatToDecimal(-i) else NatToDecimal(i)
  }

  /** The rendering starts with a minus sign exactly for negative numbers. */
  lemma IntToDecimalSign(i: int)
    ensures |IntToDecimal(i)| >= 1 && (IntToDecimal(i)[0] == '-' <==> i < 0)
  {
    if i >= 0 {
      assert IsDigit(NatToDecimal(i)[0]);
    }
  }

  lemma NatToDecimalInjective(a: nat, b: nat)
    requires NatToDecimal(a) == NatToDecimal(b)
    ensures a == b
  {
    DecimalRoundTrip(a);
    DecimalRoundTrip(b);
  }

  /** Distinct integers render as distinct decimal strings. */
  lemma IntToDecimalInjective(a: int, b: int)
    requires IntToDecimal(a) == IntToDecimal(b)
    ensures a == b
  {
    IntToDecimalSign(a);
    IntToDecimalSign(b);
    if a < 0 {
      assert IntToDecimal(a)[1..] == NatToDecimal(-a);
      assert IntToDecimal(b)[1..] == NatToDecimal(-b);
      NatToDecimalInjective(-a, -b);
    } else {
      NatToDecimalInjective(a, b);
    }
  }

  function Zeros(k: nat): (s: string)
    ensures |s| == k && AllDigits(s)
  {
    seq(k, _ => '0')
  }

  /** Python's `"%0*d" % (width, n)`: the digits of `n`, left-padded with zeros to `width`. */
  function ZeroPad(n: nat, width: nat): string {
    var digits := NatToDecimal(n);
    if |digits| >= width then digits else Zeros(width - |digits|) + digits
  }

  function Pow10(k: nat): (p: nat)
    ensures p >= 1
  {
    if k == 0 then 1 else 10 * Pow10(k - 1)
  }

  lemma {:induction false} DecimalLength(n: nat, width: nat)
    requires width >= 1 && n < Pow10(width)
    ensures |NatToDecimal(n)| <= width
    decreases n
  {
    if n >= 10 {
      assert width >= 2;
      DecimalLength(n / 10, width - 1);
    }
  }

  lemma {:induction false} LeadingZerosValue(k: nat, s: string)
    requires AllDigits(s)
    ensures AllDigits(Zeros(k) + s) && DigitsValue(Zeros(k) + s) == DigitsValue(s)
    decreases |s| + k
  {
    var z := Zeros(k) + s;
    if s == [] {
      assert z == Zeros(k);
      if k > 0 {
        assert z[..|z| - 1] == Zeros(k - 1) + [];
        LeadingZerosValue(k - 1, []);
      }
    } else {
      assert z[..|z| - 1] == Zeros(k) + s[..|s| - 1];
      LeadingZerosValue(k, s[..|s| - 1]);
    }
  }

  /** Zero padding yields exactly `width` digits that still denote `n`, whenever `n` fits. */
  lemma ZeroPadFacts(n: nat, width: nat)
    requires width >= 1 && n < Pow10(width)
    ensures |ZeroPad(n, width)| == width && AllDigits(ZeroPad(n, width))
    ensures DigitsValue(ZeroPad(n, width)) == n
  {
    DecimalLength(n, width);
    DecimalRoundTrip(n);
    var digits := NatToDecimal(n);
    if |digits| < width {
      LeadingZerosValue(width - |digits|, digits);
    }
  }

  function LowerChar(c: char): char {
    if 'A' <= c <= 'Z' then (c as int - 'A' as int + 'a' as int) as char else c
  }

  /** Python's `str.lower()` restricted to ASCII letters. */
  function Lower(s: string): (r: string)
    ensures |r| == |s|
  {
    seq(|s|, i requires 0 <= i < |s| => LowerChar(s[i]))
  }

  /** Lower-casing twice is lower-casing once. */
  lemma LowerIdempotent(s: string)
    ensures Lower(Lower(s)) == Lower(s)
  {
    forall i | 0 <= i < |s| ensures Lower(Lower(s))[i] == Lower(s)[i] {
      var c := s[i];
      assert Lower(s)[i] == LowerChar(c);
      assert LowerChar(LowerChar(c)) == LowerChar(c);
    }
  }

  /** Python's `sub in s`: some window of `s` equals `sub`. */
  predicate Contains(s: string, sub: string)
    decreases |s|
  {
    sub <= s || (s != [] && Contains(s[1..], sub))
  }

  /** A string shorter than `sub` cannot contain it. */
  lemma {:induction false} ShorterNotContains(s: string, sub: string)
    requires |s| < |sub|
    ensures !Contains(s, sub)
    decreases |s|
  {
    if s != [] {
      ShorterNotContains(s[1..], sub);
    }
  }

  /**
   * The pieces of `s` between the occurrences of `sep`, found left to right
   * without overlap; Python's `s.split(sep)` and JavaScript's `s.split(sep)`
   * for a non-empty separator.
   */
  function Split(s: string, sep: string): (parts: seq<string>)
    requires sep != []
    ensures |parts| >= 1
    decreases |s|
  {
    if s == [] then [[]]
    else if sep <= s then [[]] + Split(s[|sep|..], sep)
    else
      var rest := Split(s[1..], sep);
      [[s[0]] + rest[0]] + rest[1..]
  }

  /** Python's `sep.join(parts)`. */
  function Join(parts: seq<string>, sep: string): string
    requires |parts| >= 1
  {
    if |parts| == 1 then parts[0] else parts[0] + sep + Join(parts[1..], sep)
  }

  predicate Free(s: string, c: char) {
    forall i :: 0 <= i < |s| ==> s[i] != c
  }

  /** A concatenation of two strings without `c` has no `c`. */
  lemma FreeConcat(a: string, b: string, c: char)
    requires Free(a, c) && Free(b, c)
    ensures Free(a + b, c)
  {
    forall i | 0 <= i < |a + b| ensures (a + b)[i] != c {
      if i >= |a| {
        assert (a + b)[i] == b[i - |a|];
      }
    }
  }

  /** A string without the separator's first character is a single piece. */
  lemma {:induction false} SplitFree(s: string, sep: string)
    requires sep != [] && Free(s, sep[0])
    ensures Split(s, sep) == [s]
    decreases |s|
  {
    if s != [] {
      assert s[0] != sep[0] && !(sep <= s);
      SplitFree(s[1..], sep);
      assert [s[0]] + s[1..] == s;
    }
  }

  lemma {:induction false} SplitAfterFree(p: string, sep: string, c: string)
    requires sep != [] && Free(p, sep[0])
    ensures Split(p + sep + c, sep) == [p] + Split(c, sep)
    decreases |p|
  {
    var s := p + sep + c;
    if p == [] {
      assert sep <= s && s[|sep|..] == c;
    } else {
      assert s[0] == p[0] && !(sep <= s);
      assert s[1..] == p[1..] + sep + c;
      SplitAfterFree(p[1..], sep, c);
      assert [p[0]] + p[1..] == p;
    }
  }

  /** With a one-character separator, splitting around one occurrence splits each side on its own. */
  lemma {:induction false} SplitConcat(a: string, x: char, c: string)
    ensures Split(a + [x] + c, [x]) == Split(a, [x]) + Split(c, [x])
    decreases |a|
  {
    var s := a + [x] + c;
    if a == [] {
      assert [x] <= s && s[1..] == c;
    } else {
      assert s[0] == a[0] && s[1..] == a[1..] + [x] + c;
      SplitConcat(a[1..], x, c);
      if a[0] == x {
        assert [x] <= s && [x] <= a;
      } else {
        assert !([x] <= s) && !([x] <= a);
      }
    }
  }

  /** Splitting a join restores the pieces, provided no piece holds the separator's first character. */
  lemma {:induction false} SplitJoin(parts: seq<string>, sep: string)
    requires sep != [] && |parts| >= 1
    requires forall k :: 0 <= k < |parts| ==> Free(parts[k], sep[0])
    ensures Split(Join(parts, sep), sep) == parts
    decreases |parts|
  {
    if |parts| == 1 {
      SplitFree(parts[0], sep);
    } else {
      SplitAfterFree(parts[0], sep, Join(parts[1..], sep));
      SplitJoin(parts[1..], sep);
    }
  }

  /** WhiteSpace and LineTerminator code points of ECMAScript, which `trim` removes. */
  predicate IsJsSpace(c: char) {
    var n := c as int;
    n == 0x09 || n == 0x0A || n == 0x0B || n == 0x0C || n == 0x0D || n == 0x20 ||
    n == 0xA0 || n == 0x1680 || (0x2000 <= n <= 0x200A) ||
    n == 0x2028 || n == 0x2029 || n == 0x202F || n == 0x205F || n == 0x3000 || n == 0xFEFF
  }

  /** The number of whitespace characters `s` starts with. */
  function LeadingSpaces(s: string): (n: nat)
    ensures n <= |s|
    decreases |s|
  {
    if s != [] && IsJsSpace(s[0]) then 1 + LeadingSpaces(s[1..]) else 0
  }

  /** The number of whitespace characters `s` ends with. */
  function TrailingSpaces(s: string): (n: nat)
    ensures n <= |s|
    decreases |s|
  {
    if s != [] && IsJsSpace(s[|s| - 1]) then 1 + TrailingSpaces(s[..|s| - 1]) else 0
  }

  /** JavaScript's `s.trim()`: `s` without its leading and its trailing whitespace. */
  function Trim(s: string): string {
    var t := s[LeadingSpaces(s)..];
    t[..|t| - TrailingSpaces(t)]
  }

  /** The leading run counted is all whitespace, and the character after it is not. */
  lemma {:induction false} LeadingSpacesFacts(s: string)
    ensures forall k :: 0 <= k < LeadingSpaces(s) ==> IsJsSpace(s[k])
    ensures LeadingSpaces(s) < |s| ==> !IsJsSpace(s[LeadingSpaces(s)])
    decreases |s|
  {
    if s != [] && IsJsSpace(s[0]) {
      LeadingSpacesFacts(s[1..]);
      assert forall k :: 1 <= k < |s| ==> s[k] == s[1..][k - 1];
    }
  }

  /** The trailing run counted is all whitespace, and the character before it is not. */
  lemma {:induction false} TrailingSpacesFacts(s: string)
    ensures forall k :: |s| - TrailingSpaces(s) <= k < |s| ==> IsJsSpace(s[k])
    ensures TrailingSpaces(s) < |s| ==> !IsJsSpace(s[|s| - TrailingSpaces(s) - 1])
    decreases |s|
  {
    if s != [] && IsJsSpace(s[|s| - 1]) {
      TrailingSpacesFacts(s[..|s| - 1]);
    }
  }

  /**
   * The trim is a slice `s[i..j]` with only whitespace outside it, and it
   * neither starts nor ends with whitespace.
   */
  lemma TrimFacts(s: string)
    ensures exists i, j :: 0 <= i <= j <= |s| && Trim(s) == s[i..j]
              && (forall k :: 0 <= k < i ==> IsJsSpace(s[k]))
              && (forall k :: j <= k < |s| ==> IsJsSpace(s[k]))
    ensures Trim(s) != [] ==> !IsJsSpace(Trim(s)[0]) && !IsJsSpace(Trim(s)[|Trim(s)| - 1])
  {
    var i := LeadingSpaces(s);
    var t := s[i..];
    var j := i + |t| - TrailingSpaces(t);
    LeadingSpacesFacts(s);
    TrailingSpacesFacts(t);
    assert Trim(s) == s[i..j];
    assert forall k :: j <= k < |s| ==> s[k] == t[k - i];
  }

  /** A string that neither starts nor ends with whitespace is its own trim. */
  lemma TrimUnpadded(s: string)
    requires s != [] ==> !IsJsSpace(s[0]) && !IsJsSpace(s[|s| - 1])
    ensures Trim(s) == s
  {
  }

  /** Leading whitespace is dropped by the trim. */
  lemma TrimLeadingSpace(c: char, s: string)
    requires IsJsSpace(c)
    ensures Trim([c] + s) == Trim(s)
  {
    assert ([c] + s)[1..] == s;
  }
}
