/**
 * PHP's conversions between integers and strings, as the adapter uses them
 * for task identifiers: `(string) $updateId` when a write is accepted and
 * `(int) $taskIdentifier` when the task is polled.
 */
module PhpCast {

  const IntMin: int := -0x8000_0000_0000_0000
  const IntMax: int := 0x7FFF_FFFF_FFFF_FFFF

  /** A PHP integer on a 64-bit platform. */
  type PhpInt = x: int | IntMin <= x <= IntMax

  predicate IsDigit(c: char)
  {
    '0' <= c <= '9'
  }

  /** The whitespace PHP skips in front of a numeric string. */
  predicate IsSpace(c: char)
  {
    c == ' ' || c == '\t' || c == '\n' || c == '\r' || c == '\U{B}' || c == '\U{C}'
  }

  function DigitChar(d: nat): char
    requires d < 10
  {
    ['0', '1', '2', '3', '4', '5', '6', '7', '8', '9'][d]
  }

  function DigitValue(c: char): (d: nat)
    requires IsDigit(c)
    ensures d < 10 && DigitChar(d) == c
  {
    (c as int - '0' as int)
  }

  predicate AllDigits(s: string)
  {
    forall i :: 0 <= i < |s| ==> IsDigit(s[i])
  }

  /** The number a string of digits denotes. */
  function DigitsToNat(s: string): nat
    requires AllDigits(s)
  {
    if s == [] then 0 else DigitsToNat(s[..|s| - 1]) * 10 + DigitValue(s[|s| - 1])
  }

  /** The decimal digits of `n`, most significant first, without leading zeros. */
  function NatToString(n: nat): (s: string)
    ensures s != [] && AllDigits(s)
    ensures DigitsToNat(s) == n
    ensures s[0] != '0' || n == 0
    ensures s[0] == '0' ==> s == "0"
  {
    if n < 10 then [DigitChar(n)]
    else
      var p := NatToString(n / 10);
      assert (p + [DigitChar(n % 10)])[..|p|] == p;
      p + [DigitChar(n % 10)]
  }

  /** `(string) $n` for an integer: the canonical decimal form, with a minus
      sign exactly for negative numbers. */
  function IntToString(n: int): (s: string)
    ensures s != [] && (s[0] == '-' <==> n < 0)
    ensures var digits := if n < 0 then s[1..] else s;
            && digits != [] && AllDigits(digits)
            && DigitsToNat(digits) == (if n < 0 then -n else n)
            && (digits[0] == '0' ==> digits == "0")
  {
    if n < 0 then
      var digits := NatToString(-n);
      assert ("-" + digits)[1..] == digits;
      "-" + digits
    else NatToString(n)
  }

  /** The longest prefix of `s` made of digits. */
  function LeadingDigits(s: string): (p: string)
    ensures |p| <= |s| && p == s[..|p|]
    ensures forall i :: 0 <= i < |p| ==> IsDigit(s[i])
    ensures |p| < |s| ==> !IsDigit(s[|p|])
  {
    if s == [] || !IsDigit(s[0]) then [] else [s[0]] + LeadingDigits(s[1..])
  }

  function SkipSpaces(s: string): (t: string)
    ensures t == [] || !IsSpace(t[0])
    ensures |t| <= |s| && t == s[|s| - |t|..]
  {
    if s != [] && IsSpace(s[0]) then SkipSpaces(s[1..]) else s
  }

  function Clamp(x: int): PhpInt
  {
    if x < IntMin then IntMin else if IntMax < x then IntMax else x
  }

  /** The value of an optionally signed run of digits at the start of `t`. */
  function SignedPrefixValue(t: string): int
  {
    if t != [] && (t[0] == '-' || t[0] == '+') then
      var magnitude: int := DigitsToNat(LeadingDigits(t[1..]));
      if t[0] == '-' then -magnitude else magnitude
    else
      DigitsToNat(LeadingDigits(t))
  }

  /** The least integer that a C `strtod` rounds to infinity:
      2^1024 - 2^970, halfway between the largest double and 2^1024. */
  const DoubleOverflow: int := 0xfffffffffffffc00000000000000000000000000000000000000000000000000000000000000000000000000000000000000000000000000000000000000000000000000000000000000000000000000000000000000000000000000000000000000000000000000000000000000000000000000000000000000000000000000

  /** `(int) $s`: leading whitespace, an optional sign and the longest run of
      digits after it give the value; anything that follows is ignored, a
      string without such digits gives 0, and a value beyond the 64-bit range
      saturates at its bound. A run too large for a double reads as an
      infinity, which the cast turns into 0. */
  function StringToInt(s: string): PhpInt
  {
    CastNumber(SignedPrefixValue(SkipSpaces(s)))
  }

  /** The integer the cast gives for a numeric prefix of exact value `v`. */
  function CastNumber(v: int): PhpInt
  {
    if v <= -DoubleOverflow || DoubleOverflow <= v then 0 else Clamp(v)
  }

  /** The digit run stops at the first character that is not a digit. */
  lemma {:induction false} LeadingDigitsPrefix(ds: string, rest: string)
    requires AllDigits(ds)
    requires rest == [] || !IsDigit(rest[0])
    ensures LeadingDigits(ds + rest) == ds
  {
    if ds == [] {
      assert ds + rest == rest;
    } else {
      assert (ds + rest)[1..] == ds[1..] + rest;
      LeadingDigitsPrefix(ds[1..], rest);
    }
  }

  /** Leading whitespace is skipped up to the first other character. */
  lemma {:induction false} SkipSpacesPrefix(ws: string, t: string)
    requires forall i :: 0 <= i < |ws| ==> IsSpace(ws[i])
    requires t == [] || !IsSpace(t[0])
    ensures SkipSpaces(ws + t) == t
  {
    if ws == [] {
      assert ws + t == t;
    } else {
      assert (ws + t)[1..] == ws[1..] + t;
      SkipSpacesPrefix(ws[1..], t);
    }
  }

  lemma SignedPrefixValueOfSigned(sign: string, ds: string, rest: string)
    requires sign == "-" || sign == "+"
    requires AllDigits(ds)
    requires rest == [] || !IsDigit(rest[0])
    ensures SignedPrefixValue(sign + ds + rest) == if sign == "-" then -(DigitsToNat(ds) as int) else DigitsToNat(ds)
  {
    var t := sign + ds + rest;
    assert t[0] == sign[0] && t[1..] == ds + rest;
    LeadingDigitsPrefix(ds, rest);
  }

  lemma SignedPrefixValueOfUnsigned(ds: string, rest: string)
    requires ds != [] && AllDigits(ds)
    requires rest == [] || !IsDigit(rest[0])
    ensures SignedPrefixValue(ds + rest) == DigitsToNat(ds)
  {
    assert (ds + rest)[0] == ds[0];
    LeadingDigitsPrefix(ds, rest);
  }

  lemma SignedPrefixValueOfDigits(sign: string, ds: string, rest: string)
    requires sign == "" || sign == "-" || sign == "+"
    requires ds != [] && AllDigits(ds)
    requires rest == [] || !IsDigit(rest[0])
    ensures SignedPrefixValue(sign + ds + rest) == if sign == "-" then -(DigitsToNat(ds) as int) else DigitsToNat(ds)
  {
    if sign == "" {
      assert sign + ds + rest == ds + rest;
      SignedPrefixValueOfUnsigned(ds, rest);
    } else {
      SignedPrefixValueOfSigned(sign, ds, rest);
    }
  }

  lemma SignedPrefixValueWithoutDigits(sign: string, rest: string)
    requires sign == "" || sign == "-" || sign == "+"
    requires rest == [] || !IsDigit(rest[0])
    requires sign == "" ==> rest == [] || (rest[0] != '-' && rest[0] != '+')
    ensures SignedPrefixValue(sign + rest) == 0
  {
    LeadingDigitsPrefix([], rest);
    var t := sign + rest;
    if sign == "" {
      assert t == rest;
    } else {
      assert t[1..] == rest;
    }
  }

  lemma StringToIntSkipsSpaces(ws: string, t: string)
    requires forall i :: 0 <= i < |ws| ==> IsSpace(ws[i])
    requires t == [] || !IsSpace(t[0])
    ensures StringToInt(ws + t) == CastNumber(SignedPrefixValue(t))
  {
    SkipSpacesPrefix(ws, t);
  }

  /** `(int)` of whitespace, an optional sign, digits and a rest that does not
      start with a digit, a decimal point or an exponent: the signed value of
      the digits, saturated at the 64-bit bounds, or 0 when the digits are
      beyond the range of a double; the whitespace and the rest do not matter. */
  lemma StringToIntOfNumericPrefix(ws: string, sign: string, ds: string, rest: string)
    requires forall i :: 0 <= i < |ws| ==> IsSpace(ws[i])
    requires sign == "" || sign == "-" || sign == "+"
    requires ds != [] && AllDigits(ds)
    requires rest == [] || (!IsDigit(rest[0]) && rest[0] != '.' && rest[0] != 'e' && rest[0] != 'E')
    ensures StringToInt(ws + (sign + ds + rest)) ==
            if DigitsToNat(ds) >= DoubleOverflow then 0
            else Clamp(if sign == "-" then -(DigitsToNat(ds) as int) else DigitsToNat(ds))
  {
    var t := sign + ds + rest;
    assert t[0] == if sign == "" then ds[0] else sign[0];
    StringToIntSkipsSpaces(ws, t);
    SignedPrefixValueOfDigits(sign, ds, rest);
  }

  /** `(int)` of a string with no digits and no decimal point after its
      whitespace and sign is 0. */
  lemma StringToIntWithoutDigits(ws: string, sign: string, rest: string)
    requires forall i :: 0 <= i < |ws| ==> IsSpace(ws[i])
    requires sign == "" || sign == "-" || sign == "+"
    requires rest == [] || (!IsDigit(rest[0]) && rest[0] != '.')
    requires sign == "" ==> rest == [] || (!IsSpace(rest[0]) && rest[0] != '-' && rest[0] != '+')
    ensures StringToInt(ws + (sign + rest)) == 0
  {
    var t := sign + rest;
    assert t != [] ==> t[0] == if sign == "" then rest[0] else sign[0];
    StringToIntSkipsSpaces(ws, t);
    SignedPrefixValueWithoutDigits(sign, rest);
  }

  lemma CastNumberInRange(x: int)
    requires IntMin <= x <= IntMax
    ensures CastNumber(x) == x
  {
  }

  /** `(int)` of a minus sign and digits whose value fits the 64-bit range. */
  lemma StringToIntOfMinusDigits(ds: string)
    requires ds != [] && AllDigits(ds)
    requires DigitsToNat(ds) <= -IntMin
    ensures StringToInt("-" + ds) == -(DigitsToNat(ds) as int)
  {
    var s := "-" + ds;
    assert s == "-" + ds + [];
    assert [] + s == s;
    SkipSpacesPrefix([], s);
    SignedPrefixValueOfSigned("-", ds, []);
    CastNumberInRange(-(DigitsToNat(ds) as int));
  }

  /** `(int)` of digits whose value fits the 64-bit range. */
  lemma StringToIntOfDigits(ds: string)
    requires ds != [] && AllDigits(ds)
    requires DigitsToNat(ds) <= IntMax
    ensures StringToInt(ds) == DigitsToNat(ds)
  {
    assert ds == ds + [];
    assert [] + ds == ds;
    SkipSpacesPrefix([], ds);
    SignedPrefixValueOfUnsigned(ds, []);
    CastNumberInRange(DigitsToNat(ds));
  }

  lemma StringToIntOfNegative(n: PhpInt)
    requires n < 0
    ensures StringToInt(IntToString(n)) == n
  {
    var s := IntToString(n);
    assert s == "-" + s[1..];
    StringToIntOfMinusDigits(s[1..]);
  }

  lemma StringToIntOfNonNegative(n: PhpInt)
    requires n >= 0
    ensures StringToInt(IntToString(n)) == n
  {
    StringToIntOfDigits(IntToString(n));
  }

  /** Casting an integer to a string and back gives the integer again. */
  lemma StringToIntOfIntToString(n: PhpInt)
    ensures StringToInt(IntToString(n)) == n
  {
    if n < 0 {
      StringToIntOfNegative(n);
    } else {
      StringToIntOfNonNegative(n);
    }
  }
}
