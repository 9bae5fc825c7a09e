/**
 * The parts of JavaScript's string and number built-ins that the dashboard's
 * logic depends on: `trim`, `split` on one character, ASCII case mapping,
 * `includes`, `parseInt`, `parseFloat` and decimal rendering of a count.
 */
module JsText {
  import opened Wrappers

  // ---------------------------------------------------------------------------
  // Whitespace and trimming
  // ---------------------------------------------------------------------------

  /** ECMAScript WhiteSpace or LineTerminator: what `trim` strips and what `\s` matches. */
  predicate IsSpace(c: char) {
    || c == '\t' || c == '\n' || c == '\U{B}' || c == '\U{C}' || c == '\r' || c == ' '
    || c == '\U{A0}' || c == '\U{1680}' || ('\U{2000}' <= c <= '\U{200A}')
    || c == '\U{2028}' || c == '\U{2029}' || c == '\U{202F}' || c == '\U{205F}'
    || c == '\U{3000}' || c == '\U{FEFF}'
  }

  /** Every character of `s` is whitespace (vacuously true of ""). */
  predicate AllSpace(s: string) {
    forall k :: 0 <= k < |s| ==> IsSpace(s[k])
  }

  /** `s` with its leading whitespace removed. */
  function TrimStart(s: string): string
  {
    if s != [] && IsSpace(s[0]) then TrimStart(s[1..]) else s
  }

  /** `s` with its trailing whitespace removed. */
  function TrimEnd(s: string): string
  {
    if s != [] && IsSpace(s[|s| - 1]) then TrimEnd(s[..|s| - 1]) else s
  }

  /**
   * `s.trim()`: `s` without its leading and trailing whitespace. It is empty
   * exactly when `s` is blank, and otherwise neither starts nor ends with
   * whitespace.
   */
  function Trim(s: string): (r: string)
    ensures |r| <= |s|
    ensures r == [] <==> AllSpace(s)
    ensures r != [] ==> !IsSpace(r[0]) && !IsSpace(r[|r| - 1])
  {
    TrimBothShape(s);
    TrimEnd(TrimStart(s))
  }

  /** What trimming both ends leaves: `Trim`'s contract, proved from the two halves. */
  lemma TrimBothShape(s: string)
    ensures var r := TrimEnd(TrimStart(s));
      && |r| <= |s|
      && (r == [] <==> AllSpace(s))
      && (r != [] ==> !IsSpace(r[0]) && !IsSpace(r[|r| - 1]))
  {
    var t := TrimStart(s);
    TrimStartShape(s);
    TrimEndShape(t);
    assert s == s[..|s| - |t|] + t;
    var r := TrimEnd(t);
    assert r == [] ==> t == t[|r|..];
    assert r != [] ==> r[0] == t[0] && s[|s| - |t|] == t[0];
  }

  /** TrimStart drops a whitespace-only prefix and keeps a suffix that does not start with whitespace. */
  lemma {:induction false} TrimStartShape(s: string)
    ensures |TrimStart(s)| <= |s| && TrimStart(s) == s[|s| - |TrimStart(s)|..]
    ensures AllSpace(s[..|s| - |TrimStart(s)|])
    ensures TrimStart(s) != [] ==> !IsSpace(TrimStart(s)[0])
  {
    if s != [] && IsSpace(s[0]) {
      var r := TrimStart(s[1..]);
      TrimStartShape(s[1..]);
      assert s[..|s| - |r|] == [s[0]] + s[1..][..|s| - 1 - |r|];
    }
  }

  /** Trimming the start of a whitespace run followed by text not starting with whitespace leaves that text. */
  lemma {:induction false} TrimStartRun(w: string, b: string)
    requires AllSpace(w)
    requires b != [] ==> !IsSpace(b[0])
    ensures TrimStart(w + b) == b
  {
    if w == [] {
      assert w + b == b;
    } else {
      assert (w + b)[1..] == w[1..] + b;
      TrimStartRun(w[1..], b);
    }
  }

  /** TrimEnd drops a whitespace-only suffix and keeps a prefix that does not end with whitespace. */
  lemma {:induction false} TrimEndShape(s: string)
    ensures |TrimEnd(s)| <= |s| && TrimEnd(s) == s[..|TrimEnd(s)|]
    ensures AllSpace(s[|TrimEnd(s)|..])
    ensures TrimEnd(s) != [] ==> !IsSpace(TrimEnd(s)[|TrimEnd(s)| - 1])
  {
    if s != [] && IsSpace(s[|s| - 1]) {
      var r := TrimEnd(s[..|s| - 1]);
      TrimEndShape(s[..|s| - 1]);
      assert s[|r|..] == s[..|s| - 1][|r|..] + [s[|s| - 1]];
    }
  }

  // ---------------------------------------------------------------------------
  // Splitting on one character
  // ---------------------------------------------------------------------------

  /** The pieces glued back together with `sep` between them (JavaScript `join(sep)`). */
  function Join(parts: seq<string>, sep: char): string
  {
    if |parts| == 0 then ""
    else if |parts| == 1 then parts[0]
    else parts[0] + [sep] + Join(parts[1..], sep)
  }

  /**
   * `s.split(sep)` for a one-character separator: always at least one piece,
   * no piece contains the separator, and joining the pieces gives back `s`.
   */
  function Split(s: string, sep: char): (parts: seq<string>)
    ensures |parts| >= 1
    ensures forall i :: 0 <= i < |parts| ==> sep !in parts[i]
    ensures Join(parts, sep) == s
  {
    if s == [] then [""]
    else
      var rest := Split(s[1..], sep);
      if s[0] == sep then
        assert [sep] + s[1..] == s;
        [""] + rest
      else
        var parts := [[s[0]] + rest[0]] + rest[1..];
        assert parts[1..] == rest[1..];
        parts
  }

  /** A piece without the separator splits into itself alone. */
  lemma {:induction false} SplitNoSeparator(p: string, sep: char)
    requires sep !in p
    ensures Split(p, sep) == [p]
  {
    if p != [] {
      SplitNoSeparator(p[1..], sep);
      assert [p[0]] + p[1..] == p;
    }
  }

  /** Splitting `p + sep + rest` yields `p` followed by the pieces of `rest`. */
  lemma {:induction false} SplitAfterPiece(p: string, rest: string, sep: char)
    requires sep !in p
    ensures Split(p + [sep] + rest, sep) == [p] + Split(rest, sep)
  {
    var s := p + [sep] + rest;
    if p == [] {
      assert s[1..] == rest;
    } else {
      assert s[1..] == p[1..] + [sep] + rest;
      SplitAfterPiece(p[1..], rest, sep);
      assert [p[0]] + p[1..] == p;
    }
  }

  /** Joining pieces that do not contain the separator and splitting again gives the pieces back. */
  lemma {:induction false} SplitJoin(parts: seq<string>, sep: char)
    requires |parts| >= 1
    requires forall i :: 0 <= i < |parts| ==> sep !in parts[i]
    ensures Split(Join(parts, sep), sep) == parts
  {
    if |parts| == 1 {
      SplitNoSeparator(parts[0], sep);
    } else {
      SplitJoin(parts[1..], sep);
      SplitAfterPiece(parts[0], Join(parts[1..], sep), sep);
      assert [parts[0]] + parts[1..] == parts;
    }
  }

  /** The text before the first `sep` (the whole string when there is none): `s.split(sep)[0]`. */
  function Before(s: string, sep: char): (r: string)
    ensures sep !in r
    ensures |r| <= |s| && r == s[..|r|]
    ensures |r| < |s| ==> s[|r|] == sep
  {
    var parts := Split(s, sep);
    if |parts| == 1 then parts[0]
    else
      assert s == parts[0] + [sep] + Join(parts[1..], sep);
      parts[0]
  }

  // ---------------------------------------------------------------------------
  // Case mapping and substring search
  // ---------------------------------------------------------------------------

  /** Lower-cases an ASCII capital letter and leaves every other character alone. */
  function LowerChar(c: char): char {
    if 'A' <= c <= 'Z' then (c as int + 32) as char else c
  }

  /** Upper-cases an ASCII small letter and leaves every other character alone. */
  function UpperChar(c: char): char {
    if 'a' <= c <= 'z' then (c as int - 32) as char else c
  }

  /** `s.toLowerCase()` restricted to ASCII: the same length, character by character. */
  function Lower(s: string): (r: string)
    ensures |r| == |s|
    ensures forall i :: 0 <= i < |s| ==> r[i] == LowerChar(s[i])
  {
    seq(|s|, i requires 0 <= i < |s| => LowerChar(s[i]))
  }

  /** `s.toUpperCase()` restricted to ASCII: the same length, character by character. */
  function Upper(s: string): (r: string)
    ensures |r| == |s|
    ensures forall i :: 0 <= i < |s| ==> r[i] == UpperChar(s[i])
  {
    seq(|s|, i requires 0 <= i < |s| => UpperChar(s[i]))
  }

  /**
   * `s.includes(p)`: `p` occurs in `s` at some position. Only a pattern no
   * longer than the text can occur, and the empty pattern occurs in every text.
   */
  predicate Contains(s: string, p: string): (r: bool)
    ensures r ==> |p| <= |s|
    ensures p == [] ==> r
  {
    assert p == [] ==> OccursAt(s, p, 0);
    exists i :: 0 <= i <= |s| - |p| && OccursAt(s, p, i)
  }

  /** `p` occurs in `s` starting at index `i`. */
  predicate OccursAt(s: string, p: string, i: int) {
    0 <= i <= |s| - |p| && s[i..i + |p|] == p
  }

  /** A string that lacks one of the characters of `p` cannot contain `p`. */
  lemma NotContainsWithout(s: string, p: string, k: nat)
    requires k < |p| && p[k] !in s
    ensures !Contains(s, p)
  {
    forall i | 0 <= i <= |s| - |p|
      ensures !OccursAt(s, p, i)
    {
      assert s[i..i + |p|][k] == s[i + k];
      assert s[i + k] in s;
    }
  }

  // ---------------------------------------------------------------------------
  // Numbers
  // ---------------------------------------------------------------------------

  /** The value of a digit in radix 36 (`0`-`9`, `a`-`z`, `A`-`Z`), or 36 for a non-digit. */
  function DigitValue(c: char): nat {
    if '0' <= c <= '9' then c as nat - '0' as nat
    else if 'a' <= c <= 'z' then c as nat - 'a' as nat + 10
    else if 'A' <= c <= 'Z' then c as nat - 'A' as nat + 10
    else 36
  }

  /** The length of the longest prefix of `s` made of digits of the given radix. */
  function DigitRun(s: string, radix: nat): (n: nat)
    ensures n <= |s|
    ensures forall k :: 0 <= k < n ==> DigitValue(s[k]) < radix
    ensures n < |s| ==> DigitValue(s[n]) >= radix
  {
    if s == [] || DigitValue(s[0]) >= radix then 0 else 1 + DigitRun(s[1..], radix)
  }

  /** The value of a string of digits in the given radix, most significant digit first. */
  function DigitsValue(digits: string, radix: nat): nat
  {
    if digits == [] then 0
    else DigitsValue(digits[..|digits| - 1], radix) * radix + DigitValue(digits[|digits| - 1])
  }

  /** An optional leading sign: whether it was `-`, and the text after it. */
  function SplitSign(t: string): (bool, string)
  {
    if t != [] && (t[0] == '-' || t[0] == '+') then (t[0] == '-', t[1..]) else (false, t)
  }

  /**
   * `parseInt(s)` with no radix argument: leading whitespace and a sign are
   * skipped, a `0x`/`0X` prefix selects radix 16, and the longest run of
   * digits after that is read; `None` stands for `NaN` (no digit at all).
   * Blank text is `NaN`, and only a leading minus gives a negative number.
   */
  function ParseInt(s: string): (r: Option<int>)
    ensures TrimStart(s) == [] ==> r == None
    ensures r.Some? && r.value < 0 ==> TrimStart(s)[0] == '-'
  {
    var (negative, u) := SplitSign(TrimStart(s));
    var hex := |u| >= 2 && u[0] == '0' && (u[1] == 'x' || u[1] == 'X');
    var radix := if hex then 16 else 10;
    var body := if hex then u[2..] else u;
    var n := DigitRun(body, radix);
    if n == 0 then None
    else
      var magnitude := DigitsValue(body[..n], radix);
      Some(if negative then -(magnitude as int) else magnitude)
  }

  /** The decimal digit for 0 <= d < 10. */
  function DigitChar(d: nat): (c: char)
    requires d < 10
    ensures DigitValue(c) == d
  {
    ('0' as int + d) as char
  }

  /** The decimal digits of a non-negative integer, without leading zeros: `String(n)` below 10^21. */
  function NatToString(n: nat): (s: string)
    ensures s != []
    ensures forall k :: 0 <= k < |s| ==> '0' <= s[k] <= '9'
    ensures |s| > 1 ==> s[0] != '0'
  {
    if n < 10 then [DigitChar(n)] else NatToString(n / 10) + [DigitChar(n % 10)]
  }

  /** Reading the digits of `n` back in radix 10 gives `n`. */
  lemma {:induction false} DigitsValueNatToString(n: nat)
    ensures DigitsValue(NatToString(n), 10) == n
  {
    var s := NatToString(n);
    if n >= 10 {
      DigitsValueNatToString(n / 10);
      assert s[..|s| - 1] == NatToString(n / 10);
    }
  }

  /** Trimming a string that does not start with whitespace leaves it alone. */
  lemma TrimStartNoSpace(s: string)
    requires s != [] ==> !IsSpace(s[0])
    ensures TrimStart(s) == s
  {
  }

  /** A string made only of digits of the radix is read to its end. */
  lemma DigitRunAll(s: string, radix: nat)
    requires forall k :: 0 <= k < |s| ==> DigitValue(s[k]) < radix
    ensures DigitRun(s, radix) == |s|
  {
  }

  /** A non-empty string of decimal digits is read whole, with no sign and no whitespace. */
  lemma DecimalShape(s: string)
    requires s != []
    requires forall k :: 0 <= k < |s| ==> '0' <= s[k] <= '9'
    ensures TrimStart(s) == s
    ensures SplitSign(s) == (false, s)
    ensures DigitRun(s, 10) == |s|
  {
    assert '0' <= s[0] <= '9';
    TrimStartNoSpace(s);
    DigitRunAll(s, 10);
  }

  /** Rendering a count in decimal and reading it back with `parseInt` is the identity. */
  lemma ParseIntNatToString(n: nat)
    ensures ParseInt(NatToString(n)) == Some(n)
  {
    var s := NatToString(n);
    DecimalShape(s);
    assert |s| >= 2 ==> s[0] != '0';
    assert s[..|s|] == s;
    DigitsValueNatToString(n);
  }

  /** Once whitespace and sign are gone, a run of decimal digits is read whole, with the sign. */
  lemma ParseIntAfterSign(s: string, negative: bool, d: string)
    requires TrimStart(s) == s && SplitSign(s) == (negative, d)
    requires d != [] && forall k :: 0 <= k < |d| ==> '0' <= d[k] <= '9'
    ensures ParseInt(s) == Some(if negative then -(DigitsValue(d, 10) as int) else DigitsValue(d, 10))
  {
    DigitRunAll(d, 10);
    assert d[..|d|] == d;
    assert |d| >= 2 ==> d[1] != 'x' && d[1] != 'X';
  }

  /** `parseInt` of an optional minus sign followed by decimal digits reads every digit. */
  lemma ParseIntSignedDigits(negative: bool, d: string)
    requires d != [] && forall k :: 0 <= k < |d| ==> '0' <= d[k] <= '9'
    ensures var s := if negative then "-" + d else d;
      ParseInt(s) == Some(if negative then -(DigitsValue(d, 10) as int) else DigitsValue(d, 10))
  {
    var s := if negative then "-" + d else d;
    assert s[0] == '-' || '0' <= s[0] <= '9';
    TrimStartNoSpace(s);
    assert SplitSign(s) == (negative, d) by {
      if negative {
        assert s[1..] == d;
      }
    }
    ParseIntAfterSign(s, negative, d);
  }

  /** `parseInt` of text that starts with something other than whitespace, a sign or a digit is NaN. */
  lemma ParseIntNoDigits(s: string)
    requires s != [] && !IsSpace(s[0]) && s[0] != '-' && s[0] != '+' && DigitValue(s[0]) >= 10
    ensures ParseInt(s) == None
  {
    TrimStartNoSpace(s);
  }

  /** A JavaScript number that is not `NaN`: a finite value (exact, see the README) or an infinity. */
  datatype Number = Finite(value: real) | Infinity(negative: bool)

  /** 10 raised to a natural power. */
  function Exp10(n: nat): (r: nat)
    ensures r >= 1
  {
    if n == 0 then 1 else 10 * Exp10(n - 1)
  }

  /** `m` times 10 to the (possibly negative) power `e`, as an exact real: the value of a decimal literal. */
  function Scaled(m: nat, e: int): real
  {
    if e >= 0 then (m * Exp10(e)) as real else m as real / Exp10(-e) as real
  }

  /** The exponent part `e±digits` at the start of `t`, or 0 when `t` does not start with a complete one. */
  function ExponentOf(t: string): int
  {
    if t != [] && (t[0] == 'e' || t[0] == 'E') then
      var (negative, v) := SplitSign(t[1..]);
      var n := DigitRun(v, 10);
      if n == 0 then 0
      else
        var magnitude := DigitsValue(v[..n], 10);
        if negative then -(magnitude as int) else magnitude
    else 0
  }

  /**
   * The longest unsigned decimal literal `digits[.digits][e[±]digits]` at the
   * start of `u`, as its digits without the point and the power of ten they
   * are scaled by, or `None` when there is no digit before the exponent.
   */
  function DecimalLiteral(u: string): Option<(string, int)>
  {
    var i := DigitRun(u, 10);
    var rest := u[i..];
    var dot := rest != [] && rest[0] == '.';
    var f := if dot then DigitRun(rest[1..], 10) else 0;
    if i + f == 0 then None
    else
      var mantissa := u[..i] + (if dot then rest[1..1 + f] else "");
      var afterMantissa := if dot then rest[1 + f..] else rest;
      Some((mantissa, ExponentOf(afterMantissa) - f))
  }

  /** The value of the decimal literal at the start of `u`, or `None` when there is none. */
  function DecimalPrefix(u: string): (r: Option<real>)
    ensures r.Some? ==> r.value >= 0.0
  {
    match DecimalLiteral(u)
    case None => None
    case Some((mantissa, e)) =>
      ScaledNonNegative(DigitsValue(mantissa, 10), e);
      Some(Scaled(DigitsValue(mantissa, 10), e))
  }

  /** A decimal literal's value is never negative: its sign is read separately. */
  lemma ScaledNonNegative(m: nat, e: int)
    ensures Scaled(m, e) >= 0.0
  {
    if e < 0 {
      var d := Exp10(-e) as real;
      assert d > 0.0;
      assert m as real / d >= 0.0;
    }
  }

  /** `u` starts with the text `p`. */
  predicate StartsWith(u: string, p: string) {
    |u| >= |p| && u[..|p|] == p
  }

  /**
   * `parseFloat(s)`: leading whitespace and a sign are skipped, then either
   * `Infinity` or the longest decimal literal is read; `None` stands for `NaN`.
   */
  function ParseFloat(s: string): (r: Option<Number>)
    ensures TrimStart(s) == [] ==> r == None
    ensures r.Some? && r.value.Finite? && r.value.value < 0.0 ==> TrimStart(s)[0] == '-'
  {
    var (negative, u) := SplitSign(TrimStart(s));
    if StartsWith(u, "Infinity") then Some(Infinity(negative))
    else
      match DecimalPrefix(u)
      case None => None
      case Some(m) => Some(Finite(if negative then -m else m))
  }

  /** A string of decimal digits is one whole decimal literal with its plain value. */
  lemma DecimalPrefixOfDigits(s: string)
    requires s != []
    requires DigitRun(s, 10) == |s|
    ensures DecimalPrefix(s) == Some(DigitsValue(s, 10) as real)
  {
    assert s[|s|..] == [] && s[..|s|] == s;
    assert s + "" == s;
    assert ExponentOf([]) == 0;
  }

  /** Rendering a count in decimal and reading it back with `parseFloat` is the identity. */
  lemma ParseFloatNatToString(n: nat)
    ensures ParseFloat(NatToString(n)) == Some(Finite(n as real))
  {
    var s := NatToString(n);
    DecimalShape(s);
    assert !StartsWith(s, "Infinity") by {
      assert '0' <= s[0] <= '9';
      assert |s| >= 8 ==> s[..8][0] == s[0];
    }
    DecimalPrefixOfDigits(s);
    DigitsValueNatToString(n);
  }

  /** Powers of ten add their exponents when multiplied. */
  lemma {:induction false} Exp10Add(a: nat, b: nat)
    ensures Exp10(a + b) == Exp10(a) * Exp10(b)
  {
    if b > 0 {
      Exp10Add(a, b - 1);
      assert Exp10(a + b) == 10 * Exp10(a + b - 1);
    }
  }

  /** The digit run of `s` is `n` long when its first `n` characters are digits and the next is not. */
  lemma DigitRunIs(s: string, radix: nat, n: nat)
    requires n <= |s|
    requires forall k :: 0 <= k < n ==> DigitValue(s[k]) < radix
    requires n < |s| ==> DigitValue(s[n]) >= radix
    ensures DigitRun(s, radix) == n
  {
  }

  /** Cancelling a common positive factor from a quotient. */
  lemma CancelFactor(x: real, y: real, z: real)
    requires y > 0.0 && z > 0.0
    ensures (x * z) / (y * z) == x / y
  {
  }

  /** A fraction scaled by the power of ten it was divided by is its digits again. */
  lemma ScaledFraction(m: nat, k: nat)
    ensures Scaled(m, -(k as int)) * Exp10(k) as real == m as real
  {
  }

  /** Multiplication regrouped: `m * (a * b) == (m * a) * b`. */
  lemma Regroup(m: nat, a: nat, b: nat)
    ensures m * (a * b) == (m * a) * b
  {
  }

  /** Converting a product to a real multiplies the converted factors. */
  lemma CastProduct(x: nat, y: nat)
    ensures (x * y) as real == x as real * y as real
  {
  }

  /** The quotient of a product by one of its factors is the other one. */
  lemma CancelDivisor(x: real, y: real)
    requires y > 0.0
    ensures (x * y) / y == x
  {
  }

  /**
   * Moving `n` powers of ten from the exponent into the digits does not
   * change the value, for negative exponents too.
   */
  lemma ScaledShift(m: nat, e: int, n: nat)
    ensures Scaled(m, e + n) == Scaled(m * Exp10(n), e)
  {
    if e >= 0 {
      ScaledShiftNonNegative(m, e, n);
    } else if e + n >= 0 {
      ScaledShiftAcrossZero(m, e, n);
    } else {
      ScaledShiftNegative(m, e, n);
    }
  }

  /** `ScaledShift` when the exponent is not negative: all integer arithmetic. */
  lemma ScaledShiftNonNegative(m: nat, e: nat, n: nat)
    ensures Scaled(m, e + n) == Scaled(m * Exp10(n), e)
  {
    Exp10Add(n, e);
    Regroup(m, Exp10(n), Exp10(e));
  }

  /** Dividing `m * (big * small)` by `small` leaves `m * big`. */
  lemma DivideOut(m: nat, big: nat, small: nat, total: nat)
    requires small > 0 && total == big * small
    ensures (m * total) as real / small as real == (m * big) as real
  {
    Regroup(m, big, small);
    CastProduct(m * big, small);
    CancelDivisor((m * big) as real, small as real);
  }

  /** `ScaledShift` when the shift takes a negative exponent to a non-negative one. */
  lemma ScaledShiftAcrossZero(m: nat, e: int, n: nat)
    requires e < 0 <= e + n
    ensures Scaled(m, e + n) == Scaled(m * Exp10(n), e)
  {
    Exp10Add(e + n, -e);
    assert e + n + -e == n;
    DivideOut(m, Exp10(e + n), Exp10(-e), Exp10(n));
  }

  /** Multiplying the numerator and the denominator of `m / small` by `shift` keeps the quotient. */
  lemma ExpandFraction(m: nat, small: nat, shift: nat, total: nat)
    requires small > 0 && shift > 0 && total == small * shift
    ensures m as real / small as real == (m * shift) as real / total as real
  {
    CastProduct(m, shift);
    CastProduct(small, shift);
    CancelFactor(m as real, small as real, shift as real);
  }

  /** `ScaledShift` when the exponent stays negative: a fraction with a larger denominator. */
  lemma ScaledShiftNegative(m: nat, e: int, n: nat)
    requires e + n < 0
    ensures Scaled(m, e + n) == Scaled(m * Exp10(n), e)
  {
    Exp10Add(-(e + n), n);
    assert -(e + n) + n == -e;
    ExpandFraction(m, Exp10(-(e + n)), Exp10(n), Exp10(-e));
  }

  /** The literal `d.f` has the digits of `d` then `f` and one negative power of ten per fraction digit. */
  lemma DecimalLiteralFraction(d: string, f: string)
    requires d + f != []
    requires forall k :: 0 <= k < |d| ==> '0' <= d[k] <= '9'
    requires forall k :: 0 <= k < |f| ==> '0' <= f[k] <= '9'
    ensures DecimalLiteral(d + "." + f) == Some((d + f, -|f|))
  {
    var u := d + "." + f;
    DigitRunIs(u, 10, |d|);
    var rest := u[|d|..];
    assert rest == "." + f;
    assert rest[1..] == f;
    DigitRunIs(f, 10, |f|);
    assert u[..|d|] == d && rest[1..1 + |f|] == f;
    assert rest[1 + |f|..] == [];
    assert ExponentOf([]) == 0;
  }

  /**
   * A literal `d.f` with digits on at least one side of the point is read as
   * the digits `d` then `f`, scaled down by one power of ten per fraction digit.
   */
  lemma DecimalPrefixFraction(d: string, f: string)
    requires d + f != []
    requires forall k :: 0 <= k < |d| ==> '0' <= d[k] <= '9'
    requires forall k :: 0 <= k < |f| ==> '0' <= f[k] <= '9'
    ensures DecimalPrefix(d + "." + f) == Some(Scaled(DigitsValue(d + f, 10), -|f|))
  {
    DecimalLiteralFraction(d, f);
  }

  /** An exponent marker followed by digits gives their value as the power of ten. */
  lemma ExponentOfDigits(x: string)
    requires x != []
    requires forall k :: 0 <= k < |x| ==> '0' <= x[k] <= '9'
    ensures ExponentOf("e" + x) == DigitsValue(x, 10)
  {
    DecimalShape(x);
    assert ("e" + x)[1..] == x;
    assert x[..|x|] == x;
  }

  /** The digits `d` followed by an exponent marker end their run at the marker. */
  lemma ExponentMarkerSplits(d: string, x: string)
    requires forall k :: 0 <= k < |d| ==> '0' <= d[k] <= '9'
    ensures var u := d + "e" + x;
      DigitRun(u, 10) == |d| && u[..|d|] == d && u[|d|..] == "e" + x
  {
    var u := d + "e" + x;
    DigitRunIs(u, 10, |d|);
    assert u[..|d|] == d && u[|d|..] == "e" + x;
  }

  /** The literal `d` followed by `e` and the digits `x` has the digits `d` and the power of ten `x`. */
  lemma DecimalLiteralExponent(d: string, x: string)
    requires d != [] && x != []
    requires forall k :: 0 <= k < |d| ==> '0' <= d[k] <= '9'
    requires forall k :: 0 <= k < |x| ==> '0' <= x[k] <= '9'
    ensures DecimalLiteral(d + "e" + x) == Some((d, DigitsValue(x, 10)))
  {
    ExponentMarkerSplits(d, x);
    ExponentOfDigits(x);
    var u := d + "e" + x;
    assert DecimalLiteral(u) == Some((u[..|d|] + "", ExponentOf(u[|d|..])));
    assert u[..|d|] + "" == d;
  }

  /**
   * An exponent `e` followed by the digits `x` after the digits `d` scales
   * them by ten to the power `x`: scientific notation reads as written.
   */
  lemma DecimalPrefixExponent(d: string, x: string)
    requires d != [] && x != []
    requires forall k :: 0 <= k < |d| ==> '0' <= d[k] <= '9'
    requires forall k :: 0 <= k < |x| ==> '0' <= x[k] <= '9'
    ensures DecimalPrefix(d + "e" + x) == Some((DigitsValue(d, 10) * Exp10(DigitsValue(x, 10))) as real)
  {
    DecimalLiteralExponent(d, x);
  }

  /** Text starting with a digit has no leading whitespace, no sign and is not `Infinity`. */
  lemma StartsWithDigit(u: string)
    requires u != [] && '0' <= u[0] <= '9'
    ensures TrimStart(u) == u && SplitSign(u) == (false, u) && !StartsWith(u, "Infinity")
  {
    TrimStartNoSpace(u);
    assert |u| >= 8 ==> u[..8][0] == u[0];
  }

  /** `parseFloat` reads a literal `d.f` whose integer part is not empty as its decimal value. */
  lemma ParseFloatFraction(d: string, f: string)
    requires d != []
    requires forall k :: 0 <= k < |d| ==> '0' <= d[k] <= '9'
    requires forall k :: 0 <= k < |f| ==> '0' <= f[k] <= '9'
    ensures ParseFloat(d + "." + f) == Some(Finite(Scaled(DigitsValue(d + f, 10), -|f|)))
  {
    var u := d + "." + f;
    assert u[0] == d[0];
    StartsWithDigit(u);
    DecimalPrefixFraction(d, f);
  }
}
