/**
 * `hashPassword` and `verifyPassword`: a 32-bit string hash printed as the
 * lowercase hexadecimal of its absolute value.
 */
module PasswordHash {

  const TwoTo31: int := 0x8000_0000
  const TwoTo32: int := 0x1_0000_0000

  /** The UTF-16 code units of a string: `charCodeAt(i)` for every `i < length`. */
  function CodeUnits(s: string): (units: seq<int>)
    ensures forall k :: 0 <= k < |units| ==> 0 <= units[k] < 0x1_0000
    ensures |units| >= |s|
  {
    if s == [] then []
    else
      var c := s[0] as int;
      var first := if c < 0x1_0000 then [c]
        else [0xD800 + (c - 0x1_0000) / 0x400, 0xDC00 + (c - 0x1_0000) % 0x400];
      first + CodeUnits(s[1..])
  }

  /** ECMAScript ToInt32: the integer congruent to `x` modulo 2^32 in [-2^31, 2^31). */
  function ToInt32(x: int): (r: int)
    ensures -TwoTo31 <= r < TwoTo31
    ensures (r - x) % TwoTo32 == 0
  {
    var m := x % TwoTo32;
    if m >= TwoTo31 then m - TwoTo32 else m
  }

  /** ToInt32 depends only on the value modulo 2^32. */
  lemma ToInt32Congruent(x: int, y: int)
    requires (x - y) % TwoTo32 == 0
    ensures ToInt32(x) == ToInt32(y)
  {
    var q := DivExact(x - y);
    ToInt32Shift(y, q);
  }

  /** A multiple of 2^32 is 2^32 times its quotient. */
  lemma DivExact(a: int) returns (q: int)
    requires a % TwoTo32 == 0
    ensures a == q * TwoTo32
  {
    q := a / TwoTo32;
  }

  /** Adding a multiple of 2^32 does not change ToInt32. */
  lemma ToInt32Shift(y: int, q: int)
    ensures ToInt32(y + q * TwoTo32) == ToInt32(y)
  {
    ModAddMultiple(y, q);
  }

  lemma ModAddMultiple(y: int, q: int)
    ensures (y + q * TwoTo32) % TwoTo32 == y % TwoTo32
  {
  }

  /** A value already in int32 range is its own ToInt32. */
  lemma ToInt32Fixed(x: int)
    requires -TwoTo31 <= x < TwoTo31
    ensures ToInt32(x) == x
  {
  }

  /**
   * One loop iteration as written: `hash = ((hash << 5) - hash) + char`,
   * then `hash = hash & hash`. The shift wraps to 32 bits, the subtraction
   * and addition are exact, and `& hash` wraps again.
   */
  function HashStep(h: int, c: int): int {
    ToInt32(ToInt32(h * 32) - h + c)
  }

  /** The loop over the code units, from `hash = 0`. */
  function HashLoop(units: seq<int>): (h: int)
    ensures -TwoTo31 <= h < TwoTo31
    decreases |units|
  {
    if units == [] then 0
    else
      var n := |units| - 1;
      HashStep(HashLoop(units[..n]), units[n])
  }

  /** The polynomial the hash reduces: sum of units[k] * 31^(n-1-k). */
  function Poly(units: seq<int>): int
    decreases |units|
  {
    if units == [] then 0
    else
      var n := |units| - 1;
      31 * Poly(units[..n]) + units[n]
  }

  /** A step is the wrap-around of `31 * h + c`. */
  lemma HashStepIs31(h: int, c: int)
    ensures HashStep(h, c) == ToInt32(31 * h + c)
  {
    var s := ToInt32(h * 32);
    assert (s - h * 32) % TwoTo32 == 0;
    assert (s - h + c) - (31 * h + c) == s - h * 32;
    ToInt32Congruent(s - h + c, 31 * h + c);
  }

  /** The loop computes the polynomial modulo 2^32, read as a signed 32-bit integer. */
  lemma {:induction false} HashLoopIsPoly(units: seq<int>)
    ensures HashLoop(units) == ToInt32(Poly(units))
    decreases |units|
  {
    if units != [] {
      var n := |units| - 1;
      var c := units[n];
      var h := HashLoop(units[..n]);
      var p := Poly(units[..n]);
      assert HashLoop(units) == HashStep(h, c);
      assert Poly(units) == 31 * p + c;
      HashLoopIsPoly(units[..n]);
      HashStepIs31(h, c);
      var q := DivExact(h - p);
      assert 31 * h + c == (31 * p + c) + (31 * q) * TwoTo32;
      ToInt32Shift(31 * p + c, 31 * q);
    }
  }

  function Abs(n: int): nat {
    if n < 0 then -n else n
  }

  const HexDigits: string := "0123456789abcdef"

  /** `n.toString(16)`: lowercase hexadecimal, no leading zero. */
  function ToHex(n: nat): (s: string)
    ensures |s| >= 1
    ensures forall k :: 0 <= k < |s| ==> s[k] in HexDigits
    ensures s[0] != '0' || n == 0
    ensures n == 0 ==> s == "0"
    decreases n
  {
    if n < 16 then [HexDigits[n]]
    else ToHex(n / 16) + [HexDigits[n % 16]]
  }

  function HexValue(c: char): nat
    requires c in HexDigits
  {
    if '0' <= c <= '9' then (c - '0') as nat else (c - 'a') as nat + 10
  }

  /** The number a string of lowercase hexadecimal digits denotes. */
  function FromHex(s: string): nat
    requires forall k :: 0 <= k < |s| ==> s[k] in HexDigits
    decreases |s|
  {
    if s == [] then 0
    else
      var n := |s| - 1;
      FromHex(s[..n]) * 16 + HexValue(s[n])
  }

  /** Reading the hex text back gives the number. */
  lemma {:induction false} FromHexToHex(n: nat)
    ensures FromHex(ToHex(n)) == n
    decreases n
  {
    var d := n % 16;
    HexValueOfDigit(d);
    if n >= 16 {
      var s := ToHex(n);
      assert s == ToHex(n / 16) + [HexDigits[d]];
      assert s[..|s| - 1] == ToHex(n / 16);
      FromHexToHex(n / 16);
      assert n == (n / 16) * 16 + d;
    }
  }

  /** Each digit reads back as its own value. */
  lemma HexValueOfDigit(d: nat)
    requires d < 16
    ensures HexValue(HexDigits[d]) == d
  {
  }

  /**
   * `hashPassword(p)`: the absolute value of the 32-bit hash of the UTF-16
   * code units, in lowercase hexadecimal.
   */
  function HashPassword(p: string): (h: string)
    ensures forall k :: 0 <= k < |h| ==> h[k] in HexDigits
    ensures FromHex(h) == Abs(ToInt32(Poly(CodeUnits(p))))
    ensures FromHex(h) <= TwoTo31
    ensures h == ToHex(FromHex(h))
    ensures |h| >= 1 && (h[0] == '0' ==> h == "0")
  {
    var h := ToHex(Abs(HashLoop(CodeUnits(p))));
    HashLoopIsPoly(CodeUnits(p));
    FromHexToHex(Abs(HashLoop(CodeUnits(p))));
    h
  }

  /** `verifyPassword(p, hash)`: the password hashes to the stored text. */
  predicate VerifyPassword(p: string, hash: string) {
    HashPassword(p) == hash
  }

  /** Two passwords verify against each other's hash exactly when their 32-bit hashes agree up to sign. */
  lemma VerifyIffSameHash(p: string, q: string)
    ensures VerifyPassword(p, HashPassword(q)) <==>
            Abs(ToInt32(Poly(CodeUnits(p)))) == Abs(ToInt32(Poly(CodeUnits(q))))
  {
    var a := Abs(HashLoop(CodeUnits(p)));
    var b := Abs(HashLoop(CodeUnits(q)));
    FromHexToHex(a);
    FromHexToHex(b);
    HashLoopIsPoly(CodeUnits(p));
    HashLoopIsPoly(CodeUnits(q));
  }
}
