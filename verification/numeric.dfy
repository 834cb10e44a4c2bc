/** The numeric conversion the loader relies on: std::stoul(str) in base 10,
    which the C++ library implements with strtoul. `unsigned long` is taken to
    be 64 bits wide: the platform is assumed to be LP64. */
module Numeric {

  /** The largest value an `unsigned long` holds. */
  const ULongMax: nat := 0xFFFF_FFFF_FFFF_FFFF

  /** The two exceptions std::stoul throws: std::invalid_argument when no
      digits can be read, std::out_of_range when the number does not fit. */
  datatype ParseError = InvalidArgument | OutOfRange

  datatype Result<T> = Ok(value: T) | Err(error: ParseError)

  /** The characters isspace accepts in the "C" locale. */
  predicate IsSpace(c: char) {
    c == ' ' || c == '\t' || c == '\n' || c == '\U{B}' || c == '\U{C}' || c == '\r'
  }

  predicate IsDigit(c: char) {
    '0' <= c <= '9'
  }

  predicate AllSpaces(s: string) {
    forall i | 0 <= i < |s| :: IsSpace(s[i])
  }

  predicate AllDigits(s: string) {
    forall i | 0 <= i < |s| :: IsDigit(s[i])
  }

  function DigitValue(c: char): (d: nat)
    requires IsDigit(c)
    ensures d < 10
  {
    (c as int) - ('0' as int)
  }

  function DigitChar(d: nat): (c: char)
    requires d < 10
    ensures IsDigit(c) && DigitValue(c) == d
  {
    ('0' as int + d) as char
  }

  /** The length of the run of whitespace that strtoul skips. */
  function LeadingSpaces(s: string): (n: nat)
    ensures n <= |s| && AllSpaces(s[..n])
    ensures n < |s| ==> !IsSpace(s[n])
  {
    if s != [] && IsSpace(s[0]) then
      var n := 1 + LeadingSpaces(s[1..]);
      assert s[..n] == [s[0]] + s[1..][..n - 1];
      n
    else 0
  }

  /** The length of the run of decimal digits at the front of `s`. */
  function LeadingDigits(s: string): (n: nat)
    ensures n <= |s| && AllDigits(s[..n])
    ensures n < |s| ==> !IsDigit(s[n])
  {
    if s != [] && IsDigit(s[0]) then
      var n := 1 + LeadingDigits(s[1..]);
      assert s[..n] == [s[0]] + s[1..][..n - 1];
      n
    else 0
  }

  /** The number a run of decimal digits denotes, most significant first. */
  function DigitsValue(ds: string): nat
    requires AllDigits(ds)
  {
    if ds == [] then 0 else 10 * DigitsValue(ds[..|ds| - 1]) + DigitValue(ds[|ds| - 1])
  }

  /** The decimal notation of `n` without sign or leading zeros, as
      std::to_string writes it. */
  function Decimal(n: nat): (s: string)
    ensures 1 <= |s| && AllDigits(s)
  {
    if n < 10 then [DigitChar(n)] else Decimal(n / 10) + [DigitChar(n % 10)]
  }

  /** The value strtoul returns for a '-' sign: the magnitude negated in
      unsigned long arithmetic, i.e. modulo 2^64. */
  function Negate(v: nat): (r: nat)
    requires v <= ULongMax
    ensures r <= ULongMax
    ensures (r + v) % (ULongMax + 1) == 0
  {
    if v == 0 then 0 else ULongMax + 1 - v
  }

  /** std::stoul(token): skip leading whitespace, accept one optional '+' or
      '-', read the longest run of decimal digits and ignore whatever follows
      it. No digit is std::invalid_argument; a magnitude above ULongMax is
      std::out_of_range. */
  function Stoul(token: string): (r: Result<nat>)
    ensures r.Ok? ==> r.value <= ULongMax
  {
    SignedValue(token[LeadingSpaces(token)..])
  }

  /** The conversion of what follows the skipped whitespace. */
  function SignedValue(body: string): (r: Result<nat>)
    ensures r.Ok? ==> r.value <= ULongMax
  {
    if body != [] && (body[0] == '+' || body[0] == '-') then
      match MagnitudeValue(body[1..])
      case Ok(v) => if body[0] == '-' then Ok(Negate(v)) else Ok(v)
      case Err(e) => Err(e)
    else MagnitudeValue(body)
  }

  /** The value of the run of digits at the front of `s`. */
  function MagnitudeValue(s: string): (r: Result<nat>)
    ensures r.Ok? ==> r.value <= ULongMax
  {
    var n := LeadingDigits(s);
    if n == 0 then Err(InvalidArgument)
    else
      var v := DigitsValue(s[..n]);
      if v > ULongMax then Err(OutOfRange) else Ok(v)
  }

  /** What strtoul reads digits from: the token after its leading white
      space and one optional sign. */
  function Unsigned(token: string): (s: string)
    ensures |s| <= |token|
  {
    var body := token[LeadingSpaces(token)..];
    if body != [] && (body[0] == '+' || body[0] == '-') then body[1..] else body
  }

  /** No digit follows the leading white space and the optional sign: an
      empty field, a blank line, a header word, "x5", "- 5", "+-3". */
  predicate NoLeadingNumber(token: string) {
    var s := Unsigned(token);
    s == [] || !IsDigit(s[0])
  }

  /** std::stoul throws std::invalid_argument exactly when no digit follows
      the leading white space and the optional sign. */
  lemma StoulRejectsNoNumber(token: string)
    ensures Stoul(token) == Err(InvalidArgument) <==> NoLeadingNumber(token)
  {
  }

  lemma {:induction false} DigitsValueOfDecimal(n: nat)
    ensures DigitsValue(Decimal(n)) == n
  {
    if n >= 10 {
      var s := Decimal(n);
      assert s[..|s| - 1] == Decimal(n / 10);
      DigitsValueOfDecimal(n / 10);
    }
  }

  lemma {:induction false} LeadingSpacesOfPrefix(spaces: string, tail: string)
    requires AllSpaces(spaces)
    requires tail == [] || !IsSpace(tail[0])
    ensures LeadingSpaces(spaces + tail) == |spaces|
  {
    if spaces != [] {
      assert (spaces + tail)[1..] == spaces[1..] + tail;
      LeadingSpacesOfPrefix(spaces[1..], tail);
    } else {
      assert spaces + tail == tail;
    }
  }

  lemma {:induction false} LeadingDigitsOfPrefix(digits: string, tail: string)
    requires AllDigits(digits)
    requires tail == [] || !IsDigit(tail[0])
    ensures LeadingDigits(digits + tail) == |digits|
  {
    if digits != [] {
      assert (digits + tail)[1..] == digits[1..] + tail;
      LeadingDigitsOfPrefix(digits[1..], tail);
    } else {
      assert digits + tail == tail;
    }
  }

  /** std::stoul reads the number a run of digits denotes, whatever
      whitespace precedes it, whatever sign it carries and whatever non-digit
      text follows it; a number too large for unsigned long is out_of_range. */
  lemma StoulReadsLeadingDigits(spaces: string, sign: string, digits: string, rest: string)
    requires AllSpaces(spaces)
    requires sign == "" || sign == "+" || sign == "-"
    requires digits != [] && AllDigits(digits)
    requires rest == [] || !IsDigit(rest[0])
    ensures var v := DigitsValue(digits);
      Stoul(spaces + sign + digits + rest) ==
        if v > ULongMax then Err(OutOfRange)
        else if sign == "-" then Ok(Negate(v))
        else Ok(v)
  {
    var magnitude := digits + rest;
    var tail := sign + magnitude;
    assert spaces + sign + digits + rest == spaces + tail;
    assert !IsSpace(tail[0]) by {
      assert tail[0] == if sign == "" then digits[0] else sign[0];
    }
    StoulAfterSpaces(spaces, tail);
    MagnitudeOfDigits(digits, rest);
    SignedValueOfSign(sign, magnitude);
  }

  lemma MagnitudeOfDigits(digits: string, rest: string)
    requires digits != [] && AllDigits(digits)
    requires rest == [] || !IsDigit(rest[0])
    ensures MagnitudeValue(digits + rest) ==
      if DigitsValue(digits) > ULongMax then Err(OutOfRange) else Ok(DigitsValue(digits))
  {
    LeadingDigitsOfPrefix(digits, rest);
    assert (digits + rest)[..|digits|] == digits;
  }

  /** std::stoul reads back the number std::to_string writes. */
  lemma StoulReadsDecimal(spaces: string, sign: string, n: nat, rest: string)
    requires AllSpaces(spaces)
    requires sign == "" || sign == "+" || sign == "-"
    requires rest == [] || !IsDigit(rest[0])
    ensures n <= ULongMax ==>
      Stoul(spaces + sign + Decimal(n) + rest) == Ok(if sign == "-" then Negate(n) else n)
    ensures n > ULongMax ==> Stoul(spaces + sign + Decimal(n) + rest) == Err(OutOfRange)
  {
    DigitsValueOfDecimal(n);
    StoulReadsLeadingDigits(spaces, sign, Decimal(n), rest);
  }

  /** The plain decimal form of a value that fits an unsigned long reads
      back as that value. */
  lemma StoulOfDecimal(n: nat)
    requires n <= ULongMax
    ensures Stoul(Decimal(n)) == Ok(n)
  {
    StoulReadsDecimal("", "", n, "");
    assert "" + "" + Decimal(n) + "" == Decimal(n);
  }

  lemma StoulAfterSpaces(spaces: string, tail: string)
    requires AllSpaces(spaces)
    requires tail == [] || !IsSpace(tail[0])
    ensures Stoul(spaces + tail) == SignedValue(tail)
  {
    LeadingSpacesOfPrefix(spaces, tail);
    assert (spaces + tail)[|spaces|..] == tail;
  }

  lemma SignedValueOfSign(sign: string, magnitude: string)
    requires sign == "" || sign == "+" || sign == "-"
    requires magnitude != [] && IsDigit(magnitude[0])
    ensures SignedValue(sign + magnitude) ==
      match MagnitudeValue(magnitude)
      case Ok(v) => Ok(if sign == "-" then Negate(v) else v)
      case Err(e) => Err(e)
  {
    if sign != "" {
      assert (sign + magnitude)[1..] == magnitude;
    } else {
      assert sign + magnitude == magnitude;
    }
  }
}
