/**
 * Vocabulary shared by the back end and the front end: optional values,
 * handler outcomes, ASCII case mapping, substring search, JavaScript string
 * ordering, decimal rendering and the three number parsers the code relies on
 * (JavaScript `parseInt`, JavaScript `Number` on a decimal text, and
 * PostgreSQL's text-to-integer cast of a bound parameter), first-appearance
 * de-duplication and subsequences.
 */
module Common {

  datatype Option<T> = None | Some(value: T)

  /** What an HTTP handler answers: 200 with a body, 400, 404 or 500. */
  datatype Response<T> = Ok(body: T) | BadRequest | NotFound | ServerError

  // ---------------------------------------------------------------------------
  // ASCII case mapping (toLowerCase / toUpperCase restricted to ASCII letters)
  // ---------------------------------------------------------------------------

  function LowerChar(c: char): char {
    if 'A' <= c <= 'Z' then (c as int + 32) as char else c
  }

  function UpperChar(c: char): char {
    if 'a' <= c <= 'z' then (c as int - 32) as char else c
  }

  /** ASCII `toLowerCase`: no upper-case ASCII letter is left, and only those letters change, each to its lower case. */
  function Lower(s: string): (r: string)
    ensures |r| == |s|
    ensures forall i :: 0 <= i < |r| ==> !('A' <= r[i] <= 'Z')
    ensures forall i :: 0 <= i < |s| ==>
      if 'A' <= s[i] <= 'Z' then r[i] as int == s[i] as int + 32 else r[i] == s[i]
  {
    seq(|s|, i requires 0 <= i < |s| => LowerChar(s[i]))
  }

  /** Lower-casing twice is lower-casing once. */
  lemma LowerIdempotent(s: string)
    ensures Lower(Lower(s)) == Lower(s)
  {
  }

  function Upper(s: string): string {
    seq(|s|, i requires 0 <= i < |s| => UpperChar(s[i]))
  }

  predicate IsLowerWord(t: string) {
    forall i :: 0 <= i < |t| ==> 'a' <= t[i] <= 'z'
  }

  /** A text whose lower-casing is a lower-case word upper-cases to that word's upper case. */
  lemma UpperOfLowered(s: string, t: string)
    requires Lower(s) == t
    requires IsLowerWord(t)
    ensures Upper(s) == Upper(t)
  {
    forall i | 0 <= i < |s|
      ensures Upper(s)[i] == Upper(t)[i]
    {
      assert LowerChar(s[i]) == t[i];
    }
  }

  /** JavaScript `s.includes(sub)`: `sub` occurs in `s` at some position (the empty text occurs everywhere). */
  function Contains(s: string, sub: string): (b: bool)
    ensures sub == [] ==> b
    ensures sub <= s ==> b
    ensures b ==> |sub| <= |s|
  {
    assert sub <= s ==> sub <= s[0..];
    exists i :: 0 <= i <= |s| && sub <= s[i..]
  }

  // ---------------------------------------------------------------------------
  // JavaScript `<` on strings: lexicographic by character code
  // ---------------------------------------------------------------------------

  /** JavaScript `a < b` on texts: the first differing character decides, and a proper prefix comes first. */
  function StrLess(a: string, b: string): (r: bool)
    ensures r ==> a != b
    ensures |a| < |b| && a == b[..|a|] ==> r
    decreases |a|
  {
    if |a| == 0 then |b| > 0
    else if |b| == 0 then false
    else if a[0] != b[0] then a[0] < b[0]
    else
      assert |a| < |b| && a == b[..|a|] ==> a[1..] == b[1..][..|a| - 1];
      StrLess(a[1..], b[1..])
  }

  lemma {:induction false} StrLessIrreflexive(a: string)
    ensures !StrLess(a, a)
    decreases |a|
  {
    if |a| > 0 {
      StrLessIrreflexive(a[1..]);
    }
  }

  /** Exactly one of a < b, a == b, b < a holds. */
  lemma {:induction false} StrLessTrichotomy(a: string, b: string)
    ensures a == b || StrLess(a, b) || StrLess(b, a)
    ensures !(StrLess(a, b) && StrLess(b, a))
    decreases |a|
  {
    if |a| > 0 && |b| > 0 && a[0] == b[0] {
      StrLessTrichotomy(a[1..], b[1..]);
      if a[1..] == b[1..] {
        assert a == [a[0]] + a[1..] && b == [b[0]] + b[1..];
      }
    }
  }

  lemma {:induction false} StrLessTransitive(a: string, b: string, c: string)
    requires StrLess(a, b) && StrLess(b, c)
    ensures StrLess(a, c)
    decreases |a|
  {
    if |a| > 0 && a[0] == b[0] && b[0] == c[0] {
      StrLessTransitive(a[1..], b[1..], c[1..]);
    }
  }

  /** For texts of equal length before a last character, order is decided by the prefix first. */
  lemma {:induction false} StrLessSnoc(a: string, x: char, b: string, y: char)
    requires |a| == |b|
    ensures StrLess(a + [x], b + [y]) <==> StrLess(a, b) || (a == b && x < y)
    decreases |a|
  {
    if |a| == 0 {
      assert a + [x] == [x] && b + [y] == [y];
      assert ([x])[1..] == [] && ([y])[1..] == [];
    } else {
      assert (a + [x])[0] == a[0] && (b + [y])[0] == b[0];
      assert (a + [x])[1..] == a[1..] + [x] && (b + [y])[1..] == b[1..] + [y];
      StrLessSnoc(a[1..], x, b[1..], y);
      if a[0] == b[0] && a[1..] == b[1..] {
        assert a == [a[0]] + a[1..] && b == [b[0]] + b[1..];
      }
    }
  }

  // ---------------------------------------------------------------------------
  // Decimal rendering (template literals, String(n))
  // ---------------------------------------------------------------------------

  predicate IsDigit(c: char) {
    '0' <= c <= '9'
  }

  predicate AllDigits(s: string) {
    forall i :: 0 <= i < |s| ==> IsDigit(s[i])
  }

  function DigitChar(d: nat): char
    requires d < 10
  {
    ('0' as int + d) as char
  }

  function DigitValue(c: char): nat
    requires IsDigit(c)
  {
    c as int - '0' as int
  }

  function NatToDecimal(n: nat): (r: string)
    ensures |r| >= 1 && AllDigits(r)
    decreases n
  {
    if n < 10 then [DigitChar(n)] else NatToDecimal(n / 10) + [DigitChar(n % 10)]
  }

  function IntToDecimal(n: int): string {
    if n < 0 then "-" + NatToDecimal(-n) else NatToDecimal(n)
  }

  /** Value of a digit string, most significant digit first. */
  function DigitsValue(ds: string): nat
    requires AllDigits(ds)
    decreases |ds|
  {
    if ds == [] then 0 else DigitsValue(ds[..|ds| - 1]) * 10 + DigitValue(ds[|ds| - 1])
  }

  lemma {:induction false} DigitsValueOfDecimal(n: nat)
    ensures DigitsValue(NatToDecimal(n)) == n
    decreases n
  {
    var r := NatToDecimal(n);
    if n >= 10 {
      DigitsValueOfDecimal(n / 10);
      assert r[..|r| - 1] == NatToDecimal(n / 10);
    }
  }

  /** Numbers with decimal texts of one length compare as their texts do. */
  lemma {:induction false} DecimalOrderMatchesNumeric(a: nat, b: nat)
    requires |NatToDecimal(a)| == |NatToDecimal(b)|
    ensures StrLess(NatToDecimal(a), NatToDecimal(b)) <==> a < b
    decreases a
  {
    if a < 10 && b < 10 {
      assert NatToDecimal(a)[1..] == [] && NatToDecimal(b)[1..] == [];
    } else {
      DecimalOrderMatchesNumeric(a / 10, b / 10);
      StrLessSnoc(NatToDecimal(a / 10), DigitChar(a % 10), NatToDecimal(b / 10), DigitChar(b % 10));
      if NatToDecimal(a / 10) == NatToDecimal(b / 10) {
        NatToDecimalInjective(a / 10, b / 10);
      }
    }
  }

  lemma {:induction false} NatToDecimalInjective(a: nat, b: nat)
    requires NatToDecimal(a) == NatToDecimal(b)
    ensures a == b
  {
    DigitsValueOfDecimal(a);
    DigitsValueOfDecimal(b);
  }

  // ---------------------------------------------------------------------------
  // Number parsers
  // ---------------------------------------------------------------------------

  /**
   * The characters JavaScript's `parseInt` skips before the number: the
   * ECMAScript WhiteSpace characters (tab, vertical tab, form feed, the
   * byte-order mark and every space separator of Unicode category Zs) and its
   * LineTerminator characters.
   */
  predicate IsJsSpace(c: char) {
    || c == '\t' || c == '\n' || c == '\U{000B}' || c == '\U{000C}' || c == '\r'
    || c == ' ' || c == '\U{00A0}' || c == '\U{1680}' || '\U{2000}' <= c <= '\U{200A}'
    || c == '\U{2028}' || c == '\U{2029}' || c == '\U{202F}' || c == '\U{205F}'
    || c == '\U{3000}' || c == '\U{FEFF}'
  }

  /**
   * The blanks PostgreSQL's integer input allows before and after the
   * number: those of the C library's `isspace`.
   */
  predicate IsPgSpace(c: char) {
    c == ' ' || c == '\t' || c == '\n' || c == '\U{000B}' || c == '\U{000C}' || c == '\r'
  }

  /** `s` without its leading JavaScript white space. */
  function TrimStart(s: string): (r: string)
    ensures |r| <= |s| && r == s[|s| - |r|..]
    ensures forall i :: 0 <= i < |s| - |r| ==> IsJsSpace(s[i])
    ensures r == [] || !IsJsSpace(r[0])
    decreases |s|
  {
    if s != [] && IsJsSpace(s[0]) then
      var r := TrimStart(s[1..]);
      assert s[1..][|s| - 1 - |r|..] == s[|s| - |r|..];
      r
    else s
  }

  /** `s` without its leading PostgreSQL blanks. */
  function PgTrimStart(s: string): (r: string)
    ensures |r| <= |s| && r == s[|s| - |r|..]
    ensures r == [] || !IsPgSpace(r[0])
    decreases |s|
  {
    if s != [] && IsPgSpace(s[0]) then
      var r := PgTrimStart(s[1..]);
      assert s[1..][|s| - 1 - |r|..] == s[|s| - |r|..];
      r
    else s
  }

  /** `s` without its trailing PostgreSQL blanks. */
  function PgTrimEnd(s: string): (r: string)
    ensures r <= s
    ensures r == [] || !IsPgSpace(r[|r| - 1])
    decreases |s|
  {
    if s != [] && IsPgSpace(s[|s| - 1]) then PgTrimEnd(s[..|s| - 1]) else s
  }

  /** What PgTrimEnd removes is blanks only. */
  lemma {:induction false} PgTrimEndRemovesBlanks(s: string)
    ensures forall i :: |PgTrimEnd(s)| <= i < |s| ==> IsPgSpace(s[i])
    decreases |s|
  {
    if s != [] && IsPgSpace(s[|s| - 1]) {
      PgTrimEndRemovesBlanks(s[..|s| - 1]);
    }
  }

  /** Length of the longest all-digit prefix of `s`. */
  function DigitRun(s: string): (n: nat)
    ensures n <= |s| && AllDigits(s[..n])
    ensures n < |s| ==> !IsDigit(s[n])
    decreases |s|
  {
    if s != [] && IsDigit(s[0]) then 1 + DigitRun(s[1..]) else 0
  }

  /** The text after an optional leading sign. */
  function Unsigned(t: string): string {
    if |t| > 0 && (t[0] == '-' || t[0] == '+') then t[1..] else t
  }

  predicate IsNegative(t: string) {
    |t| > 0 && t[0] == '-'
  }

  /** Up to this magnitude every integer is exactly a JavaScript number (2^53). */
  const MaxSafeMagnitude: int := 0x20_0000_0000_0000

  /**
   * JavaScript `parseInt(s, 10)`: skip leading white space, read an optional
   * sign and then the longest run of digits; `None` stands for NaN. The value
   * is the exact integer the digits spell, which is the number JavaScript
   * computes up to `MaxSafeMagnitude`.
   */
  function ParseInt(s: string): (r: Option<int>)
    ensures r.None? <==> Unsigned(TrimStart(s)) == [] || !IsDigit(Unsigned(TrimStart(s))[0])
    ensures r.Some? && r.value < 0 ==> IsNegative(TrimStart(s))
  {
    ParseLeadingInt(TrimStart(s))
  }

  /** An optional sign and the longest run of digits after it, at the start of `t`. */
  function ParseLeadingInt(t: string): (r: Option<int>)
    ensures r.None? <==> Unsigned(t) == [] || !IsDigit(Unsigned(t)[0])
  {
    var body := Unsigned(t);
    var n := DigitRun(body);
    if n == 0 then None
    else
      var v: int := DigitsValue(body[..n]);
      Some(if IsNegative(t) then -v else v)
  }

  /** The range of PostgreSQL's `integer` (int4). */
  const Int4Min: int := -0x8000_0000
  const Int4Max: int := 0x7FFF_FFFF

  /** The range of PostgreSQL's `bigint` (int8). */
  const Int8Min: int := -0x8000_0000_0000_0000
  const Int8Max: int := 0x7FFF_FFFF_FFFF_FFFF

  predicate InInt4(n: int) {
    Int4Min <= n <= Int4Max
  }

  /**
   * PostgreSQL's text input of an integer type whose range is lo..hi:
   * blanks, an optional sign, at least one digit, blanks and nothing else,
   * with a value in range. Anything else is an error (`None`): invalid
   * syntax, or a value out of range for the type.
   */
  function PgInteger(s: string, lo: int, hi: int): (r: Option<int>)
    ensures r.Some? ==> lo <= r.value <= hi
  {
    PgSignedDigits(PgTrimEnd(PgTrimStart(s)), lo, hi)
  }

  /** The value of a text without surrounding blanks: an optional sign and digits only, in range. */
  function PgSignedDigits(t: string, lo: int, hi: int): (r: Option<int>)
    ensures r.Some? ==> lo <= r.value <= hi
  {
    var body := Unsigned(t);
    if body != [] && AllDigits(body) then
      var v: int := DigitsValue(body);
      var n := if IsNegative(t) then -v else v;
      if lo <= n <= hi then Some(n) else None
    else None
  }

  /** The cast of a bound text parameter to an `integer` column. */
  function ParsePgInt(s: string): (r: Option<int>)
    ensures r.Some? ==> InInt4(r.value)
  {
    PgInteger(s, Int4Min, Int4Max)
  }

  /**
   * The number `parseInt` gives, bound to an `integer` parameter: NaN and
   * values outside int4 make the statement fail (`None`).
   */
  function ParsedInt4(s: string): (r: Option<int>)
    ensures r.None? <==> ParseInt(s).None? || !InInt4(ParseInt(s).value)
    ensures r.Some? ==> r == ParseInt(s)
  {
    var n := ParseInt(s);
    if n.Some? && InInt4(n.value) then n else None
  }

  /** The cast of a bound text parameter to `bigint`, the type of a LIMIT or OFFSET parameter. */
  function ParsePgBigint(s: string): (r: Option<int>)
    ensures r.Some? ==> Int8Min <= r.value <= Int8Max
  {
    PgInteger(s, Int8Min, Int8Max)
  }

  lemma DigitRunOfDigits(s: string, rest: string)
    requires AllDigits(s)
    requires rest == [] || !IsDigit(rest[0])
    ensures DigitRun(s + rest) == |s|
    decreases |s|
  {
    if s != [] {
      assert (s + rest)[1..] == s[1..] + rest;
      DigitRunOfDigits(s[1..], rest);
    } else {
      assert s + rest == rest;
    }
  }

  /** `parseInt` reads back the decimal text of any exactly representable integer, whatever non-digit text follows it. */
  lemma ParseIntOfDecimal(n: int, rest: string)
    requires -MaxSafeMagnitude <= n <= MaxSafeMagnitude
    requires rest == [] || !IsDigit(rest[0])
    ensures ParseInt(IntToDecimal(n) + rest) == Some(n)
  {
    var m: nat := if n < 0 then -n else n;
    var d := NatToDecimal(m);
    ReadsDigits(d, rest);
    var u := d + rest;
    if n < 0 {
      assert IntToDecimal(n) + rest == ['-'] + u;
      ParseIntOfSigned(u);
    } else {
      assert IntToDecimal(n) + rest == u;
      ParseIntOfUnsigned(u);
    }
  }

  /** A text that starts with a digit is read from its first character. */
  lemma ParseIntOfUnsigned(u: string)
    requires u != [] && IsDigit(u[0])
    ensures ParseInt(u) == Some(DigitsValue(u[..DigitRun(u)]))
  {
    assert !IsJsSpace(u[0]);
    assert TrimStart(u) == u;
    assert Unsigned(u) == u;
  }

  /** A minus sign followed by a digit is read as a negative number. */
  lemma ParseIntOfSigned(u: string)
    requires u != [] && IsDigit(u[0])
    ensures ParseInt(['-'] + u) == Some(-(DigitsValue(u[..DigitRun(u)]) as int))
  {
    var s := ['-'] + u;
    assert !IsJsSpace(s[0]);
    assert TrimStart(s) == s;
    assert s[1..] == u;
    assert Unsigned(s) == u;
  }

  /** The leading digits of the decimal text of `m`, followed by a non-digit, read as `m`. */
  lemma ReadsDigits(d: string, rest: string)
    requires exists m: nat :: d == NatToDecimal(m)
    requires rest == [] || !IsDigit(rest[0])
    ensures d != [] && IsDigit((d + rest)[0])
    ensures DigitRun(d + rest) == |d|
    ensures (d + rest)[..|d|] == d
    ensures forall m: nat :: d == NatToDecimal(m) ==> DigitsValue(d) == m
  {
    var m: nat :| d == NatToDecimal(m);
    DigitRunOfDigits(d, rest);
    assert (d + rest)[..|d|] == d;
    forall m': nat | d == NatToDecimal(m')
      ensures DigitsValue(d) == m'
    {
      DigitsValueOfDecimal(m');
    }
  }

  /** White space before the number does not change what `parseInt` reads. */
  lemma ParseIntSkipsSpace(c: char, s: string)
    requires IsJsSpace(c)
    ensures ParseInt([c] + s) == ParseInt(s)
  {
    assert ([c] + s)[1..] == s;
  }

  /** JavaScript skips at least the blanks PostgreSQL skips. */
  lemma {:induction false} JsTrimOfPgTrim(s: string)
    ensures TrimStart(s) == TrimStart(PgTrimStart(s))
    decreases |s|
  {
    if s != [] && IsPgSpace(s[0]) {
      JsTrimOfPgTrim(s[1..]);
    }
  }

  /** Whatever an integer cast accepts, `parseInt` reads as the same integer. */
  lemma PgIntegerIsParseInt(s: string, lo: int, hi: int)
    requires PgInteger(s, lo, hi).Some?
    ensures ParseInt(s) == PgInteger(s, lo, hi)
  {
    var t := PgTrimStart(s);
    var u := PgTrimEnd(t);
    var trail := t[|u|..];
    assert t == u + trail;
    assert trail == [] || !IsDigit(trail[0]) by {
      if trail != [] {
        PgTrimEndRemovesBlanks(t);
        assert IsPgSpace(t[|u|]);
      }
    }
    ParseIntAfterPgTrim(s);
    SignedDigitsIsParseInt(u, trail, lo, hi);
  }

  lemma ParseIntAfterPgTrim(s: string)
    ensures ParseInt(s) == ParseInt(PgTrimStart(s))
  {
    JsTrimOfPgTrim(s);
  }

  lemma SignedDigitsIsParseInt(u: string, trail: string, lo: int, hi: int)
    requires PgSignedDigits(u, lo, hi).Some?
    requires trail == [] || !IsDigit(trail[0])
    ensures ParseInt(u + trail) == PgSignedDigits(u, lo, hi)
  {
    ParseIntOfTrimmed(u, trail);
  }

  /** A sign and digits followed by a non-digit are read as the signed value of those digits. */
  lemma ParseIntOfTrimmed(u: string, trail: string)
    requires Unsigned(u) != [] && AllDigits(Unsigned(u))
    requires trail == [] || !IsDigit(trail[0])
    ensures ParseInt(u + trail) ==
      Some(if IsNegative(u) then -(DigitsValue(Unsigned(u)) as int) else DigitsValue(Unsigned(u)))
  {
    var body := Unsigned(u);
    var x := u + trail;
    assert x[0] == u[0];
    assert !IsJsSpace(x[0]) by {
      assert u[0] == '-' || u[0] == '+' || IsDigit(u[0]);
    }
    assert TrimStart(x) == x;
    assert Unsigned(x) == body + trail;
    DigitRunOfDigits(body, trail);
    assert (body + trail)[..|body|] == body;
  }

  lemma PgIntIsParseInt(s: string)
    requires ParsePgInt(s).Some?
    ensures ParseInt(s) == ParsePgInt(s)
  {
    PgIntegerIsParseInt(s, Int4Min, Int4Max);
  }

  /** An integer cast reads the decimal text of an integer back exactly when the integer is in range. */
  lemma PgIntegerOfDecimal(n: int, lo: int, hi: int)
    ensures PgInteger(IntToDecimal(n), lo, hi) == if lo <= n <= hi then Some(n) else None
  {
    var m: nat := if n < 0 then -n else n;
    var d := IntToDecimal(n);
    assert PgTrimStart(d) == d;
    assert PgTrimEnd(d) == d;
    DigitsValueOfDecimal(m);
    if n < 0 {
      assert Unsigned(d) == NatToDecimal(m);
    }
  }

  lemma PgIntOfDecimal(n: int)
    ensures ParsePgInt(IntToDecimal(n)) == if InInt4(n) then Some(n) else None
  {
    PgIntegerOfDecimal(n, Int4Min, Int4Max);
  }

  /** The bigint cast accepts exactly the decimal texts of int8 integers. */
  lemma PgBigintOfDecimal(n: int)
    ensures ParsePgBigint(IntToDecimal(n)) == if Int8Min <= n <= Int8Max then Some(n) else None
  {
    PgIntegerOfDecimal(n, Int8Min, Int8Max);
  }

  lemma {:induction false} PgTrimStartSnoc(s: string, d: char)
    requires IsPgSpace(d)
    ensures PgTrimStart(s + [d]) == if PgTrimStart(s) == [] then [] else PgTrimStart(s) + [d]
    decreases |s|
  {
    if s == [] {
      assert ([d])[1..] == [];
    } else if IsPgSpace(s[0]) {
      assert (s + [d])[1..] == s[1..] + [d];
      PgTrimStartSnoc(s[1..], d);
    }
  }

  /** Blanks on either side do not change what an integer cast reads: " 5" is read as 5. */
  lemma PgIntegerIgnoresBlanks(s: string, c: char, d: char, lo: int, hi: int)
    requires IsPgSpace(c) && IsPgSpace(d)
    ensures PgInteger([c] + s + [d], lo, hi) == PgInteger(s, lo, hi)
  {
    PgTrimmedIgnoresBlanks(s, c, d);
  }

  lemma PgTrimmedIgnoresBlanks(s: string, c: char, d: char)
    requires IsPgSpace(c) && IsPgSpace(d)
    ensures PgTrimEnd(PgTrimStart([c] + s + [d])) == PgTrimEnd(PgTrimStart(s))
  {
    assert [c] + s + [d] == [c] + (s + [d]);
    PgTrimStartCons(c, s + [d]);
    PgTrimStartSnoc(s, d);
    PgTrimEndSnoc(PgTrimStart(s), d);
  }

  lemma PgTrimStartCons(c: char, s: string)
    requires IsPgSpace(c)
    ensures PgTrimStart([c] + s) == PgTrimStart(s)
  {
    assert ([c] + s)[1..] == s;
  }

  lemma PgTrimEndSnoc(s: string, d: char)
    requires IsPgSpace(d)
    ensures PgTrimEnd(s + [d]) == PgTrimEnd(s)
  {
    assert (s + [d])[..|s|] == s;
  }

  lemma PgIntIgnoresBlanks(s: string, c: char, d: char)
    requires IsPgSpace(c) && IsPgSpace(d)
    ensures ParsePgInt([c] + s + [d]) == ParsePgInt(s)
  {
    PgIntegerIgnoresBlanks(s, c, d, Int4Min, Int4Max);
  }

  /** Value of the digits after a decimal point: 0.d1d2... */
  function FractionValue(ds: string): real
    requires AllDigits(ds)
    decreases |ds|
  {
    if ds == [] then 0.0 else (DigitValue(ds[0]) as real + FractionValue(ds[1..])) / 10.0
  }

  /**
   * JavaScript `Number(s)` on the decimal texts PostgreSQL prints for a
   * NUMERIC: an optional minus sign, digits, and optionally a point followed
   * by digits. `None` stands for NaN.
   */
  function ParseDecimal(s: string): Option<real> {
    var neg := |s| > 0 && s[0] == '-';
    var body := if neg then s[1..] else s;
    var n := DigitRun(body);
    var sign := if neg then -1.0 else 1.0;
    if n == 0 then None
    else if n == |body| then Some(sign * DigitsValue(body) as real)
    else if body[n] == '.' && n + 1 < |body| && AllDigits(body[n + 1..]) then
      Some(sign * (DigitsValue(body[..n]) as real + FractionValue(body[n + 1..])))
    else None
  }

  /** `Number` reads back a value printed with one decimal place, as ROUND(x, 1) prints it. */
  lemma ParseDecimalOneDecimal(n: nat, d: nat)
    requires d < 10
    ensures ParseDecimal(NatToDecimal(n) + "." + [DigitChar(d)]) == Some(n as real + d as real / 10.0)
  {
    var w := NatToDecimal(n);
    var tail := "." + [DigitChar(d)];
    var s := w + tail;
    assert s == NatToDecimal(n) + "." + [DigitChar(d)];
    assert s[0] == w[0];
    DigitRunOfDigits(w, tail);
    assert DigitRun(s) == |w|;
    assert s[|w|] == '.';
    assert s[..|w|] == w;
    assert s[|w| + 1..] == [DigitChar(d)];
    assert DigitValue(DigitChar(d)) == d;
    assert FractionValue([DigitChar(d)]) == d as real / 10.0 by {
      assert ([DigitChar(d)])[1..] == [];
    }
    DigitsValueOfDecimal(n);
  }

  lemma ParseDecimalOfInteger(n: nat)
    ensures ParseDecimal(NatToDecimal(n)) == Some(n as real)
  {
    var w := NatToDecimal(n);
    DigitRunOfDigits(w, []);
    assert w + [] == w;
    DigitsValueOfDecimal(n);
  }

  // ---------------------------------------------------------------------------
  // Sequences: de-duplication in first-appearance order, subsequences
  // ---------------------------------------------------------------------------

  predicate NoDuplicates<T(==)>(s: seq<T>) {
    forall i, j :: 0 <= i < j < |s| ==> s[i] != s[j]
  }

  /** `[...new Set(s)]`: each value once, in the order of its first appearance. */
  function Distinct<T(==)>(s: seq<T>): (r: seq<T>)
    ensures forall i :: 0 <= i < |r| ==> r[i] in s
    ensures forall i :: 0 <= i < |s| ==> s[i] in r
    ensures NoDuplicates(r)
    decreases |s|
  {
    if s == [] then []
    else
      var d := Distinct(s[..|s| - 1]);
      if s[|s| - 1] in d then d else d + [s[|s| - 1]]
  }

  /** One more value is appended to the de-duplicated list exactly when it is new. */
  lemma DistinctSnoc<T>(s: seq<T>, p: seq<T>, c: T)
    requires s == p + [c]
    ensures Distinct(s) == if c in Distinct(p) then Distinct(p) else Distinct(p) + [c]
  {
    assert s[..|s| - 1] == p;
  }

  /** De-duplicating a longer prefix only appends: the values keep the order of their first appearance. */
  lemma {:induction false} DistinctPrefix<T>(s: seq<T>, k: nat)
    requires k <= |s|
    ensures Distinct(s[..k]) <= Distinct(s)
    decreases |s| - k
  {
    if k < |s| {
      DistinctPrefix(s, k + 1);
      assert s[..k + 1][..k] == s[..k];
    } else {
      assert s[..k] == s;
    }
  }

  /** The position of the first occurrence of `x`. */
  function IndexOf<T(==)>(s: seq<T>, x: T): (k: nat)
    requires x in s
    ensures k < |s| && s[k] == x
    ensures forall j :: 0 <= j < k ==> s[j] != x
  {
    if s[0] == x then 0 else 1 + IndexOf(s[1..], x)
  }

  lemma IndexOfUnique<T>(s: seq<T>, x: T, k: nat)
    requires k < |s| && s[k] == x
    requires forall j :: 0 <= j < k ==> s[j] != x
    ensures IndexOf(s, x) == k
  {
    var m := IndexOf(s, x);
    assert !(m < k);
    assert !(k < m);
  }

  /** Distinct lists the values in the order of their first appearance in `s`. */
  lemma {:induction false} DistinctFirstAppearance<T>(s: seq<T>)
    ensures forall i, j :: 0 <= i < j < |Distinct(s)| ==> IndexOf(s, Distinct(s)[i]) < IndexOf(s, Distinct(s)[j])
    decreases |s|
  {
    if s != [] {
      var n := |s| - 1;
      var p := s[..n];
      DistinctFirstAppearance(p);
      var d', d := Distinct(p), Distinct(s);
      assert d == if s[n] in d' then d' else d' + [s[n]];
      forall x | x in p
        ensures IndexOf(s, x) == IndexOf(p, x)
      {
        IndexOfUnique(s, x, IndexOf(p, x));
      }
      if s[n] in d' {
        assert d == d';
      } else {
        assert s[n] !in p;
        IndexOfUnique(s, s[n], n);
        assert IndexOf(s, s[n]) == n;
        forall i, j | 0 <= i < j < |d|
          ensures IndexOf(s, d[i]) < IndexOf(s, d[j])
        {
          assert d[i] == d'[i] && d[i] in p;
          if j < |d'| {
            assert d[j] == d'[j] && d[j] in p;
          }
        }
      }
    }
  }

  /** `s.filter(p)`: the elements meeting `p`, every one of them as often as it occurs, in their order. */
  function Filter<T(!new)>(s: seq<T>, p: T -> bool): (r: seq<T>)
    ensures forall k :: 0 <= k < |r| ==> p(r[k])
    ensures forall k :: 0 <= k < |s| && p(s[k]) ==> s[k] in r
    ensures IsSubsequence(r, s)
    ensures forall x {:trigger multiset(r)[x]} :: multiset(r)[x] == if p(x) then multiset(s)[x] else 0
    decreases |s|
  {
    if s == [] then []
    else
      var n := |s| - 1;
      var rest := Filter(s[..n], p);
      FilterOrderStep(s[..n], s[n], rest, p);
      FilterCountStep(s[..n], s[n], rest, p);
      assert s == s[..n] + [s[n]];
      if p(s[n]) then rest + [s[n]] else rest
  }

  /** One more element keeps the filtered list a subsequence holding every element that meets `p`. */
  lemma FilterOrderStep<T>(s: seq<T>, y: T, rest: seq<T>, p: T -> bool)
    requires IsSubsequence(rest, s)
    requires forall k :: 0 <= k < |s| && p(s[k]) ==> s[k] in rest
    ensures var r := if p(y) then rest + [y] else rest;
      IsSubsequence(r, s + [y]) && forall k :: 0 <= k < |s + [y]| && p((s + [y])[k]) ==> (s + [y])[k] in r
  {
    var t := s + [y];
    assert t[..|s|] == s;
    assert (rest + [y])[..|rest|] == rest;
  }

  /** Counting one more element: kept when it meets `p`, dropped otherwise. */
  lemma FilterCountStep<T(!new)>(s: seq<T>, y: T, rest: seq<T>, p: T -> bool)
    requires forall x :: multiset(rest)[x] == if p(x) then multiset(s)[x] else 0
    ensures var r := if p(y) then rest + [y] else rest;
      forall x :: multiset(r)[x] == if p(x) then multiset(s + [y])[x] else 0
  {
    assert multiset(s + [y]) == multiset(s) + multiset{y};
    assert multiset(rest + [y]) == multiset(rest) + multiset{y};
  }

  /** Filtering a list with one more element appends that element exactly when it meets `p`. */
  lemma FilterSnoc<T(!new)>(s: seq<T>, y: T, p: T -> bool)
    ensures Filter(s + [y], p) == Filter(s, p) + if p(y) then [y] else []
  {
    assert (s + [y])[..|s|] == s;
  }

  /** When every element meets `p`, filtering keeps the list as it is. */
  lemma FilterKeepsAll<T(!new)>(s: seq<T>, p: T -> bool)
    requires forall k :: 0 <= k < |s| ==> p(s[k])
    ensures Filter(s, p) == s
  {
    var r := Filter(s, p);
    forall x | x in multiset(s)
      ensures multiset(r)[x] == multiset(s)[x]
    {
      var k :| 0 <= k < |s| && s[k] == x;
    }
    assert multiset(r) == multiset(s);
    assert |r| == |multiset(r)| == |multiset(s)| == |s|;
    SubsequenceOfSameLength(r, s);
  }

  /** Filtering never lengthens a list, and keeps its length exactly when every element meets `p`. */
  lemma FilterLength<T(!new)>(s: seq<T>, p: T -> bool)
    ensures |Filter(s, p)| <= |s|
    ensures |Filter(s, p)| == |s| <==> forall k :: 0 <= k < |s| ==> p(s[k])
  {
    var r := Filter(s, p);
    SubsequenceLength(r, s);
    if |r| == |s| {
      SubsequenceOfSameLength(r, s);
    }
    if forall k :: 0 <= k < |s| ==> p(s[k]) {
      FilterKeepsAll(s, p);
    }
  }

  /** Two tests that agree on every element of `s` filter it alike. */
  lemma {:induction false} FilterCongruent<T(!new)>(s: seq<T>, p: T -> bool, q: T -> bool)
    requires forall k :: 0 <= k < |s| ==> p(s[k]) == q(s[k])
    ensures Filter(s, p) == Filter(s, q)
    decreases |s|
  {
    if s != [] {
      FilterCongruent(s[..|s| - 1], p, q);
    }
  }

  /** `sub` is `s` with some elements removed and the rest in their order. */
  predicate IsSubsequence<T(==)>(sub: seq<T>, s: seq<T>)
    decreases |s|
  {
    sub == [] ||
    (s != [] &&
     ((sub[|sub| - 1] == s[|s| - 1] && IsSubsequence(sub[..|sub| - 1], s[..|s| - 1])) ||
      IsSubsequence(sub, s[..|s| - 1])))
  }

  lemma {:induction false} SubsequenceMembers<T>(sub: seq<T>, s: seq<T>)
    requires IsSubsequence(sub, s)
    ensures forall i :: 0 <= i < |sub| ==> sub[i] in s
    decreases |s|
  {
    if sub != [] {
      if sub[|sub| - 1] == s[|s| - 1] && IsSubsequence(sub[..|sub| - 1], s[..|s| - 1]) {
        SubsequenceMembers(sub[..|sub| - 1], s[..|s| - 1]);
        assert sub == sub[..|sub| - 1] + [sub[|sub| - 1]];
        assert s == s[..|s| - 1] + [s[|s| - 1]];
      } else {
        SubsequenceMembers(sub, s[..|s| - 1]);
        assert s == s[..|s| - 1] + [s[|s| - 1]];
      }
    }
  }

  lemma {:induction false} SubsequenceRefl<T>(s: seq<T>)
    ensures IsSubsequence(s, s)
    decreases |s|
  {
    if s != [] {
      SubsequenceRefl(s[..|s| - 1]);
    }
  }

  lemma {:induction false} SubsequenceTrans<T>(a: seq<T>, b: seq<T>, c: seq<T>)
    requires IsSubsequence(a, b) && IsSubsequence(b, c)
    ensures IsSubsequence(a, c)
    decreases |c|
  {
    if a != [] {
      var b', c' := b[..|b| - 1], c[..|c| - 1];
      if b[|b| - 1] == c[|c| - 1] && IsSubsequence(b', c') {
        if a[|a| - 1] == b[|b| - 1] && IsSubsequence(a[..|a| - 1], b') {
          SubsequenceTrans(a[..|a| - 1], b', c');
        } else {
          SubsequenceTrans(a, b', c');
        }
      } else {
        SubsequenceTrans(a, b, c');
      }
    }
  }

  lemma {:induction false} SubsequenceLength<T>(sub: seq<T>, s: seq<T>)
    requires IsSubsequence(sub, s)
    ensures |sub| <= |s|
    decreases |s|
  {
    if sub != [] {
      if sub[|sub| - 1] == s[|s| - 1] && IsSubsequence(sub[..|sub| - 1], s[..|s| - 1]) {
        SubsequenceLength(sub[..|sub| - 1], s[..|s| - 1]);
      } else {
        SubsequenceLength(sub, s[..|s| - 1]);
      }
    }
  }

  /** A subsequence as long as the whole is the whole. */
  lemma {:induction false} SubsequenceOfSameLength<T>(sub: seq<T>, s: seq<T>)
    requires IsSubsequence(sub, s) && |sub| == |s|
    ensures sub == s
    decreases |s|
  {
    if sub != [] {
      if sub[|sub| - 1] == s[|s| - 1] && IsSubsequence(sub[..|sub| - 1], s[..|s| - 1]) {
        SubsequenceOfSameLength(sub[..|sub| - 1], s[..|s| - 1]);
        assert sub == sub[..|sub| - 1] + [sub[|sub| - 1]];
        assert s == s[..|s| - 1] + [s[|s| - 1]];
      } else {
        SubsequenceLength(sub, s[..|s| - 1]);
      }
    }
  }

  lemma AppendAssoc<T>(a: seq<T>, b: seq<T>, c: seq<T>)
    ensures (a + b) + c == a + (b + c)
  {
  }
}
