/**
 * The pieces of the C library that xseek relies on when it reads and writes
 * text: the machine integer types it uses, the character classes of the C
 * locale, and the numerals that `%lx` and `%d` read and print.
 */
module CText {

  datatype Option<T> = None | Some(value: T)

  /** 2^64: the modulus of `unsigned long` on the LP64 targets /proc exists on. */
  const TWO_TO_64: int := 0x1_0000_0000_0000_0000
  const ULONG_MAX: int := TWO_TO_64 - 1

  /** An `unsigned long`. */
  type Ulong = x: int | 0 <= x < TWO_TO_64

  /** An `int` (32 bits). */
  type Int32 = x: int | -0x8000_0000 <= x < 0x8000_0000

  /** `isspace` in the C locale. */
  predicate IsSpace(c: char) {
    c == ' ' || c == '\t' || c == '\n' || c == '\U{B}' || c == '\U{C}' || c == '\r'
  }

  predicate IsDecDigit(c: char) {
    '0' <= c <= '9'
  }

  /** The digits `printf` uses for `%x`: lower case only. */
  predicate IsLowerHexDigit(c: char) {
    IsDecDigit(c) || 'a' <= c <= 'f'
  }

  /** `isxdigit`: the digits `scanf` accepts for `%x`, either case. */
  predicate IsHexDigit(c: char) {
    IsLowerHexDigit(c) || 'A' <= c <= 'F'
  }

  function DigitValue(c: char): (v: nat)
    requires IsHexDigit(c)
    ensures v < 16
    ensures IsDecDigit(c) <==> v < 10
  {
    if IsDecDigit(c) then c as int - '0' as int
    else if 'a' <= c <= 'f' then c as int - 'a' as int + 10
    else c as int - 'A' as int + 10
  }

  /** The lower-case digit for `v`, as `printf` writes it. */
  function Digit(v: nat): (c: char)
    requires v < 16
    ensures IsLowerHexDigit(c) && DigitValue(c) == v
    ensures v < 10 ==> IsDecDigit(c)
  {
    if v < 10 then ('0' as int + v) as char else ('a' as int + v - 10) as char
  }

  predicate All(s: string, p: char -> bool) {
    forall i :: 0 <= i < |s| ==> p(s[i])
  }

  /** The length of the longest prefix of `s` whose characters all satisfy `p`. */
  function Span(s: string, p: char -> bool): (n: nat)
    ensures n <= |s|
    ensures All(s[..n], p)
    ensures n < |s| ==> !p(s[n])
  {
    if s == [] || !p(s[0]) then 0
    else
      var n := 1 + Span(s[1..], p);
      assert forall i :: 1 <= i < n ==> s[..n][i] == s[1..][..n - 1][i - 1];
      n
  }

  /** A span stops exactly where the satisfying prefix ends. */
  lemma {:induction false} SpanOfConcat(a: string, b: string, p: char -> bool)
    requires All(a, p)
    requires b != [] ==> !p(b[0])
    ensures Span(a + b, p) == |a|
  {
    if a == [] {
      assert a + b == b;
    } else {
      assert (a + b)[0] == a[0];
      assert (a + b)[1..] == a[1..] + b;
      SpanOfConcat(a[1..], b, p);
    }
  }

  /** The value of a run of digits in base `base` (most significant first). */
  function ValueOf(s: string, base: nat): nat
    requires All(s, IsHexDigit)
  {
    if s == [] then 0 else base * ValueOf(s[..|s| - 1], base) + DigitValue(s[|s| - 1])
  }

  /** The shortest numeral of `n` in base `base`, as `%lx` (base 16) or `%u` (base 10) print it. */
  function Numeral(n: nat, base: nat): (s: string)
    requires 2 <= base <= 16
    ensures s != []
    ensures All(s, IsLowerHexDigit) && All(s, IsHexDigit)
    ensures base <= 10 ==> All(s, IsDecDigit)
    ensures n == 0 ==> s == "0"
    ensures n != 0 ==> s[0] != '0'
    decreases n
  {
    if n < base then [Digit(n)]
    else
      DivMod(n, base);
      var s := Numeral(n / base, base) + [Digit(n % base)];
      assert s[0] == Numeral(n / base, base)[0];
      s
  }

  lemma DivMod(n: nat, base: nat)
    requires 2 <= base <= n
    ensures n / base < n && n % base < base
    ensures n == base * (n / base) + n % base
  {
  }

  lemma {:induction false} NumeralRoundTrip(n: nat, base: nat)
    requires 2 <= base <= 16
    ensures ValueOf(Numeral(n, base), base) == n
    decreases n
  {
    if n >= base {
      DivMod(n, base);
      var s := Numeral(n, base);
      assert s[..|s| - 1] == Numeral(n / base, base);
      NumeralRoundTrip(n / base, base);
    }
  }

  /** `%d`: an optional minus sign, then the decimal numeral of the magnitude. */
  function FormatInt(n: int): (s: string)
    ensures s != []
    ensures n < 0 <==> s[0] == '-'
  {
    if n < 0 then "-" + Numeral(-n, 10) else Numeral(n, 10)
  }

  /** Reads back what `FormatInt` writes: an optional minus sign and at least one decimal digit. */
  function ParseInt(s: string): Option<int> {
    if s != [] && s[0] == '-' then
      if |s| > 1 && All(s[1..], IsDecDigit) then Some(0 - ValueOf(s[1..], 10)) else None
    else if s != [] && All(s, IsDecDigit) then Some(ValueOf(s, 10))
    else None
  }

  lemma IntRoundTrip(n: int)
    ensures ParseInt(FormatInt(n)) == Some(n)
  {
    if n < 0 {
      assert FormatInt(n)[1..] == Numeral(-n, 10);
      NumeralRoundTrip(-n, 10);
    } else {
      NumeralRoundTrip(n, 10);
    }
  }
}
