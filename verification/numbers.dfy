/**
 * The two number parsers the CSV loaders call: `parseInt(s, 10)` and
 * `parseFloat(s)`, as partial functions. None stands for NaN.
 */
module Numbers {
  import opened Wrappers
  import opened Text

  /** The text after an optional leading '+' or '-'. */
  function Unsigned(t: string): string {
    if t != [] && (t[0] == '+' || t[0] == '-') then t[1..] else t
  }

  predicate Negative(t: string) {
    t != [] && t[0] == '-'
  }

  /**
   * `parseInt(s, 10)`: skip leading whitespace, read an optional sign, then
   * the longest run of decimal digits; anything after it is ignored. No
   * digits at all gives NaN.
   */
  function ParseInt(s: string): (r: Option<int>)
    ensures r.Some? <==> var u := Unsigned(TrimStart(s)); u != [] && IsDigit(u[0])
  {
    var t := TrimStart(s);
    var ds := DigitPrefix(Unsigned(t));
    if ds == [] then None
    else Some(if Negative(t) then -(DecimalValue(ds) as int) else DecimalValue(ds))
  }

  function Pow10(n: nat): (p: nat)
    ensures p >= 1
  {
    if n == 0 then 1 else 10 * Pow10(n - 1)
  }

  /**
   * The exponent of an ExponentPart (`e` or `E`, an optional sign, at least
   * one digit) at the start of `t`, or 0 when `t` does not start with one.
   */
  function Exponent(t: string): int {
    if t != [] && (t[0] == 'e' || t[0] == 'E') then
      var u := t[1..];
      var ds := DigitPrefix(Unsigned(u));
      if ds == [] then 0
      else if Negative(u) then -(DecimalValue(ds) as int)
      else DecimalValue(ds)
    else 0
  }

  predicate StartsWith(s: string, prefix: string) {
    |prefix| <= |s| && s[..|prefix|] == prefix
  }

  /** The value of `ip.fp`: the integer digits plus the fraction digits over a power of ten. */
  function FractionValue(ip: string, fp: string): real
    requires AllDigits(ip) && AllDigits(fp)
  {
    DecimalValue(ip) as real + DecimalValue(fp) as real / Pow10(|fp|) as real
  }

  /** The value of a decimal literal with digits `ip`, fraction `fp`, exponent `e`. */
  function DecimalLiteral(ip: string, fp: string, e: int): real
    requires AllDigits(ip) && AllDigits(fp)
  {
    var m := FractionValue(ip, fp);
    if e >= 0 then m * Pow10(e) as real else m / Pow10(-e) as real
  }

  /**
   * `parseFloat(s)`: skip leading whitespace, then read the longest prefix
   * that is a StrDecimalLiteral: an optional sign, integer digits, an
   * optional '.' with fraction digits (at least one digit in all), and an
   * optional exponent. A prefix spelling `Infinity` is not a real number;
   * the model reports it as unparsable.
   */
  function ParseFloat(s: string): (r: Option<real>)
    ensures r.Some? <==> var u := Unsigned(TrimStart(s));
      (u != [] && IsDigit(u[0])) || (|u| >= 2 && u[0] == '.' && IsDigit(u[1]))
  {
    var t := TrimStart(s);
    var u := Unsigned(t);
    if StartsWith(u, "Infinity") then None
    else
      var ip := DigitPrefix(u);
      var afterInt := u[|ip|..];
      var hasDot := afterInt != [] && afterInt[0] == '.';
      var fp := if hasDot then DigitPrefix(afterInt[1..]) else [];
      if ip == [] && fp == [] then None
      else
        var afterFrac := if hasDot then afterInt[1 + |fp|..] else afterInt;
        var v := DecimalLiteral(ip, fp, Exponent(afterFrac));
        Some(if Negative(t) then -v else v)
  }

  lemma {:induction false} DigitPrefixOf(ds: string, rest: string)
    requires AllDigits(ds)
    requires rest == [] || !IsDigit(rest[0])
    ensures DigitPrefix(ds + rest) == ds
  {
    if ds != [] {
      assert (ds + rest)[1..] == ds[1..] + rest;
      DigitPrefixOf(ds[1..], rest);
      assert ds == [ds[0]] + ds[1..];
    } else {
      assert ds + rest == rest;
    }
  }

  function Abs(n: int): nat {
    if n < 0 then -n else n
  }

  lemma ShowIntSign(n: int, rest: string)
    ensures var s := ShowInt(n) + rest;
      LeadingSpace(s) == 0 && Unsigned(s) == ShowNat(Abs(n)) + rest && Negative(s) == (n < 0)
  {
    var ds := ShowNat(Abs(n));
    var sign := if n < 0 then "-" else "";
    ShowIntParts(n, sign, ds, rest);
    SignedDigits(sign, ds + rest);
  }

  /** `String(n) + rest` is the sign, the digits of `|n|`, then `rest`. */
  lemma ShowIntParts(n: int, sign: string, ds: string, rest: string)
    requires ds == ShowNat(Abs(n)) && sign == (if n < 0 then "-" else "")
    ensures ShowInt(n) + rest == sign + (ds + rest)
    ensures ds != [] && IsDigit(ds[0])
  {
    assert ShowInt(n) == sign + ds;
  }

  /** An optional minus sign followed by a digit: no leading space, and the sign reads back. */
  lemma SignedDigits(sign: string, digits: string)
    requires sign == "-" || sign == ""
    requires digits != [] && IsDigit(digits[0])
    ensures var s := sign + digits;
      LeadingSpace(s) == 0 && Unsigned(s) == digits && Negative(s) == (sign == "-")
  {
    var s := sign + digits;
    assert s[0] == '-' || IsDigit(s[0]);
    assert !IsSpace(s[0]);
    if sign == "-" {
      assert s[1..] == digits;
    } else {
      assert s == digits;
    }
  }

  /** parseInt reads back the decimal text of any integer, whatever follows a non-digit. */
  lemma ParseIntShowInt(n: int, rest: string)
    requires rest == [] || !IsDigit(rest[0])
    ensures ParseInt(ShowInt(n) + rest) == Some(n)
  {
    var s := ShowInt(n) + rest;
    var ds := ShowNat(Abs(n));
    ShowIntSign(n, rest);
    DigitPrefixOf(ds, rest);
    ParseIntOf(s, ds, n);
  }

  lemma ParseIntOf(s: string, ds: string, n: int)
    requires AllDigits(ds) && ds != []
    requires LeadingSpace(s) == 0 && DigitPrefix(Unsigned(s)) == ds
    requires DecimalValue(ds) == Abs(n) && Negative(s) == (n < 0)
    ensures ParseInt(s) == Some(n)
  {
  }

  /** parseFloat reads back the decimal text of any integer as that number. */
  lemma ParseFloatShowInt(n: int, rest: string)
    requires rest == [] || (!IsDigit(rest[0]) && rest[0] != '.' && rest[0] != 'e' && rest[0] != 'E')
    ensures ParseFloat(ShowInt(n) + rest) == Some(n as real)
  {
    var s := ShowInt(n) + rest;
    var ds := ShowNat(Abs(n));
    ShowIntSign(n, rest);
    assert !StartsWith(ds + rest, "Infinity") by {
      assert IsDigit((ds + rest)[0]);
    }
    DigitPrefixOf(ds, rest);
    assert (ds + rest)[|ds|..] == rest;
    assert Exponent(rest) == 0;
    assert DecimalLiteral(ds, [], 0) == Abs(n) as real;
  }

  /**
   * parseFloat reads a decimal fraction `-?digits.fraction` as its exact
   * value: the integer digits plus the fraction digits over a power of ten,
   * negated after a minus sign. This is how the weight column reads.
   */
  lemma ParseFloatDecimal(sign: string, ip: string, fp: string, rest: string)
    requires sign == "-" || sign == ""
    requires ip != [] && AllDigits(ip) && AllDigits(fp)
    requires rest == [] || (!IsDigit(rest[0]) && rest[0] != 'e' && rest[0] != 'E')
    ensures ParseFloat(sign + ip + "." + fp + rest) ==
            Some(if sign == "-" then -FractionValue(ip, fp) else FractionValue(ip, fp))
  {
    var u := ip + ("." + fp + rest);
    var t := sign + u;
    AssocFive(sign, ip, fp, rest);
    UnsignedDecimalText(ip, fp, rest);
    SignedDigits(sign, u);
    ParseFloatOf(t, ip, fp);
    DecimalLiteralNoExponent(ip, fp);
  }

  lemma AssocFive(sign: string, ip: string, fp: string, rest: string)
    ensures sign + ip + "." + fp + rest == sign + (ip + ("." + fp + rest))
  {
  }

  /** How parseFloat reads `u` off: digits `ip`, '.', digits `fp`, then no exponent. */
  ghost predicate UnsignedDecimalParts(u: string, ip: string, fp: string)
    requires AllDigits(ip) && AllDigits(fp)
  {
    && u != [] && IsDigit(u[0]) && !StartsWith(u, "Infinity") && DigitPrefix(u) == ip
    && |ip| < |u| && u[|ip|] == '.' && DigitPrefix(u[|ip| + 1..]) == fp
    && |ip| + 1 + |fp| <= |u| && Exponent(u[|ip| + 1 + |fp|..]) == 0
  }

  lemma UnsignedDecimalText(ip: string, fp: string, rest: string)
    requires ip != [] && AllDigits(ip) && AllDigits(fp)
    requires rest == [] || (!IsDigit(rest[0]) && rest[0] != 'e' && rest[0] != 'E')
    ensures UnsignedDecimalParts(ip + ("." + fp + rest), ip, fp)
  {
    var frac := "." + fp + rest;
    var u := ip + frac;
    DigitPrefixOf(ip, frac);
    assert u[|ip|..] == frac;
    FractionPart(fp, rest);
    assert u[|ip| + 1..] == fp + rest;
    assert u[|ip| + 1 + |fp|..] == rest;
    assert u[0] == ip[0];
  }

  /** After the integer digits: '.' then the fraction digits, and no exponent. */
  lemma FractionPart(fp: string, rest: string)
    requires AllDigits(fp)
    requires rest == [] || (!IsDigit(rest[0]) && rest[0] != 'e' && rest[0] != 'E')
    ensures var frac := "." + fp + rest;
      && frac[1..] == fp + rest && DigitPrefix(frac[1..]) == fp
      && frac[1 + |fp|..] == rest && Exponent(rest) == 0
  {
    var frac := "." + fp + rest;
    assert frac[1..] == fp + rest;
    DigitPrefixOf(fp, rest);
    assert frac[1 + |fp|..] == rest;
  }

  /** parseFloat of a text whose parts have been read off. */
  lemma ParseFloatOf(s: string, ip: string, fp: string)
    requires ip != [] && AllDigits(ip) && AllDigits(fp)
    requires LeadingSpace(s) == 0
    requires UnsignedDecimalParts(Unsigned(s), ip, fp)
    ensures ParseFloat(s) == Some(if Negative(s) then -DecimalLiteral(ip, fp, 0) else DecimalLiteral(ip, fp, 0))
  {
    assert TrimStart(s) == s;
    var u := Unsigned(s);
    var afterInt := u[|ip|..];
    assert afterInt[1..] == u[|ip| + 1..];
    assert afterInt[1 + |fp|..] == u[|ip| + 1 + |fp|..];
    assert ParseFloat(s).Some?;
    assert ParseFloat(s).value == (if Negative(s) then -DecimalLiteral(ip, fp, Exponent(u[|ip| + 1 + |fp|..])) else DecimalLiteral(ip, fp, Exponent(u[|ip| + 1 + |fp|..])));
  }

  /** The literal's value with no exponent. */
  lemma DecimalLiteralNoExponent(ip: string, fp: string)
    requires AllDigits(ip) && AllDigits(fp)
    ensures DecimalLiteral(ip, fp, 0) == FractionValue(ip, fp)
  {
    assert Pow10(0) == 1;
  }

  /** Every cell that parseInt accepts, parseFloat accepts too. */
  lemma ParseIntImpliesParseFloat(s: string)
    requires ParseInt(s).Some?
    ensures ParseFloat(s).Some?
  {
  }
}
