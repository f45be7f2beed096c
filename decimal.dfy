/**
 * Base-10 text of unsigned integers: Go's `strconv.ParseUint(s, 10, 64)`,
 * which reads the `Total-Results` and `Last-Modified-Version` headers,
 * with the message of its error, and the `%v`/`%d` formatting of integers
 * used in URLs and messages.
 */
module Decimal {
  import opened Wrappers

  /** 2^64: every `uint64` is below it. */
  const Uint64Bound: nat := 0x1_0000_0000_0000_0000

  predicate IsDigit(ch: char)
  {
    '0' <= ch <= '9'
  }

  predicate AllDigits(s: string)
  {
    forall i :: 0 <= i < |s| ==> IsDigit(s[i])
  }

  function DigitValue(ch: char): nat
    requires IsDigit(ch)
  {
    ch as int - '0' as int
  }

  function DigitChar(d: nat): (ch: char)
    requires d < 10
    ensures IsDigit(ch) && DigitValue(ch) == d
  {
    ('0' as int + d) as char
  }

  /** The number a string of digits denotes (leading zeros allowed). */
  function DigitsValue(s: string): nat
    requires AllDigits(s)
  {
    if s == [] then 0 else DigitsValue(s[..|s| - 1]) * 10 + DigitValue(s[|s| - 1])
  }

  /**
   * `strconv.ParseUint(s, 10, 64)`: fails on the empty string, on any
   * character that is not a decimal digit (no sign, no underscore in base 10)
   * and on a value that does not fit in 64 bits.
   */
  function ParseUint(s: string): (r: Option<nat>)
    ensures r.Some? <==> s != "" && AllDigits(s) && DigitsValue(s) < Uint64Bound
    ensures r.Some? ==> r.value < Uint64Bound
  {
    if s != "" && AllDigits(s) && DigitsValue(s) < Uint64Bound then Some(DigitsValue(s)) else None
  }

  /** The decimal text of `n`, without leading zeros. */
  function Format(n: nat): (s: string)
    ensures s != "" && AllDigits(s)
    ensures |s| > 1 ==> s[0] != '0'
  {
    if n < 10 then [DigitChar(n)] else Format(n / 10) + [DigitChar(n % 10)]
  }

  /** The decimal text of a signed `int`, as `%v` prints it. */
  function FormatInt(i: int): (s: string)
    ensures i < 0 <==> (s != "" && s[0] == '-')
  {
    if i < 0 then "-" + Format(-i) else Format(i)
  }

  /** Formatting denotes the number formatted. */
  lemma {:induction false} FormatValue(n: nat)
    ensures DigitsValue(Format(n)) == n
  {
    if n >= 10 {
      FormatValue(n / 10);
      var s := Format(n);
      assert s[..|s| - 1] == Format(n / 10);
    }
  }

  /** Round trip: a formatted `uint64` parses back to itself. */
  lemma ParseFormat(n: nat)
    requires n < Uint64Bound
    ensures ParseUint(Format(n)) == Some(n)
  {
    FormatValue(n);
  }

  /** Formatting is injective, so distinct numbers have distinct texts. */
  lemma FormatInjective(a: nat, b: nat)
    requires a != b
    ensures Format(a) != Format(b)
  {
    FormatValue(a);
    FormatValue(b);
  }

  // The error of a failed `ParseUint`: `strconv.NumError`, whose message is
  // `strconv.ParseUint: parsing <quoted input>: <reason>`.

  /** The longest prefix of `s` made of digits. */
  function DigitPrefix(s: string): (p: string)
    ensures |p| <= |s| && p == s[..|p|] && AllDigits(p)
    ensures |p| < |s| ==> !IsDigit(s[|p|])
  {
    if s == [] || !IsDigit(s[0]) then []
    else
      var rest := DigitPrefix(s[1..]);
      assert s[1..][..|rest|] == s[1..|rest| + 1];
      [s[0]] + rest
  }

  /**
   * The parser reads digit after digit and reports a range error as soon as
   * the value read so far exceeds 64 bits, before it looks at what follows;
   * every other failure is a syntax error.
   */
  predicate OutOfRange(s: string)
  {
    DigitsValue(DigitPrefix(s)) >= Uint64Bound
  }

  /** `strconv.Quote` on the characters a header value holds: quotes, backslashes and the usual control characters escaped. */
  function EscapeChar(c: char): string
  {
    match c
    case '"' => "\\\""
    case '\\' => "\\\\"
    case '\t' => "\\t"
    case '\n' => "\\n"
    case '\r' => "\\r"
    case _ => [c]
  }

  function Escape(s: string): (e: string)
    ensures |e| >= |s|
  {
    if s == [] then [] else EscapeChar(s[0]) + Escape(s[1..])
  }

  function Quote(s: string): string
  {
    "\"" + Escape(s) + "\""
  }

  /** Reading an escape back. */
  function UnescapeChar(c: char): char
  {
    match c
    case 't' => '\t'
    case 'n' => '\n'
    case 'r' => '\r'
    case _ => c
  }

  /** Reading escaped text back: a backslash and the next character stand for one character. */
  function Unescape(e: string): string
  {
    if e == [] then []
    else if e[0] == '\\' && |e| >= 2 then [UnescapeChar(e[1])] + Unescape(e[2..])
    else [e[0]] + Unescape(e[1..])
  }

  /** Escaping loses nothing: the escaped text reads back as the original. */
  lemma {:induction false} UnescapeEscape(s: string)
    ensures Unescape(Escape(s)) == s
  {
    if s != [] {
      var c, rest := s[0], Escape(s[1..]);
      UnescapeEscape(s[1..]);
      var e := EscapeChar(c) + rest;
      if |EscapeChar(c)| == 2 {
        assert e[2..] == rest;
      } else {
        assert e[1..] == rest;
      }
      assert [c] + s[1..] == s;
    }
  }

  /** The message of the error `ParseUint(s, 10, 64)` returns. */
  function ParseUintError(s: string): string
    requires ParseUint(s).None?
  {
    "strconv.ParseUint: parsing " + Quote(s) + ": " + (if OutOfRange(s) then "value out of range" else "invalid syntax")
  }

  /** A string of digits only prefixes itself. */
  lemma DigitPrefixAll(s: string)
    requires AllDigits(s)
    ensures DigitPrefix(s) == s
  {
  }

  /** A non-empty run of digits fails to parse only by being out of range. */
  lemma DigitsFailOnlyByRange(s: string)
    requires s != "" && AllDigits(s) && ParseUint(s).None?
    ensures OutOfRange(s)
  {
    DigitPrefixAll(s);
  }

  function Pow10(n: nat): (r: nat)
    ensures r >= 1
  {
    if n == 0 then 1 else 10 * Pow10(n - 1)
  }

  /** A string of `n` digits denotes less than 10^n. */
  lemma {:induction false} DigitsValueBound(s: string)
    requires AllDigits(s)
    ensures DigitsValue(s) < Pow10(|s|)
  {
    if s != [] {
      DigitsValueBound(s[..|s| - 1]);
    }
  }

  lemma {:induction false} Pow10Monotonic(m: nat, n: nat)
    requires m <= n
    ensures Pow10(m) <= Pow10(n)
  {
    if m < n {
      Pow10Monotonic(m, n - 1);
    }
  }

  /** Fewer than 20 leading digits can never overflow: such a failure is a syntax error. */
  lemma ShortPrefixNotOutOfRange(s: string)
    requires |DigitPrefix(s)| < 20
    ensures !OutOfRange(s)
  {
    DigitsValueBound(DigitPrefix(s));
    Pow10Monotonic(|DigitPrefix(s)|, 19);
    Pow10Nineteen();
  }

  lemma Pow10Nineteen()
    ensures Pow10(19) < Uint64Bound
  {
    assert Pow10(3) == 1_000;
    assert Pow10(6) == 1_000_000;
    assert Pow10(9) == 1_000_000_000;
    assert Pow10(12) == 1_000_000_000_000;
    assert Pow10(15) == 1_000_000_000_000_000;
    assert Pow10(18) == 1_000_000_000_000_000_000;
  }

  /** A missing header reads as empty: a syntax error, with the empty text quoted. */
  lemma MissingHeaderError()
    ensures ParseUint("").None?
    ensures ParseUintError("") == "strconv.ParseUint: parsing \"\": invalid syntax"
  {
    assert DigitPrefix("") == "";
  }
}
