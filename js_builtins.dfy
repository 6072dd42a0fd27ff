/** The pieces of the JavaScript runtime that the colour code relies on:
    Math.round, Math.min/max, Number.prototype.toString(radix), parseInt(s, radix),
    String.prototype.padStart and the hexadecimal character class of the
    regular expressions. Numbers are exact: integers are `int`, fractions `real`. */
module JsBuiltins {

  datatype Option<+T> = None | Some(value: T) {
    /** The value, or `default` when there is none (`x || default` on a nullable). */
    function GetOr(default: T): T {
      match this
      case Some(v) => v
      case None => default
    }
  }

  /** Math.round: the nearest integer, a half rounding towards +infinity. */
  function Round(x: real): (n: int)
    ensures n as real - 0.5 <= x < n as real + 0.5
  {
    (x + 0.5).Floor
  }

  lemma RoundMonotone(x: real, y: real)
    requires x <= y
    ensures Round(x) <= Round(y)
  {
  }

  lemma RoundOfInt(n: int)
    ensures Round(n as real) == n
  {
  }

  /** Rounding two ordered reals that lie between two integers keeps them
      ordered and between those integers. */
  lemma RoundBetween(a: int, lo: real, hi: real, b: int)
    requires a as real <= lo <= hi <= b as real
    ensures a <= Round(lo) <= Round(hi) <= b
  {
    RoundOfInt(a);
    RoundOfInt(b);
    RoundMonotone(a as real, lo);
    RoundMonotone(lo, hi);
    RoundMonotone(hi, b as real);
  }

  function Min(a: int, b: int): int { if a <= b then a else b }
  function Max(a: int, b: int): int { if a >= b then a else b }
  function MinReal(a: real, b: real): real { if a <= b then a else b }
  function MaxReal(a: real, b: real): real { if a >= b then a else b }

  // ---------------------------------------------------------------------------
  // Digits

  /** The character class `[A-Fa-f0-9]`, which is also `[a-f\d]` under the `i` flag. */
  predicate IsHexDigit(c: char) {
    '0' <= c <= '9' || 'a' <= c <= 'f' || 'A' <= c <= 'F'
  }

  predicate IsLowerHexDigit(c: char) {
    '0' <= c <= '9' || 'a' <= c <= 'f'
  }

  /** The value of one digit, as parseInt reads it (either letter case). */
  function DigitValue(c: char): (d: nat)
    requires IsHexDigit(c)
    ensures d < 16
  {
    if '0' <= c <= '9' then c as int - '0' as int
    else if 'a' <= c <= 'f' then c as int - 'a' as int + 10
    else c as int - 'A' as int + 10
  }

  /** The digit Number.prototype.toString writes for `d`: '0'-'9', then lower-case letters. */
  function DigitChar(d: nat): char
    requires d < 16
  {
    if d < 10 then ('0' as int + d) as char else ('a' as int + d - 10) as char
  }

  /** The digit written for d is a lower-case hex digit that parseInt reads as d. */
  lemma DigitCharSpec(d: nat)
    requires d < 16
    ensures IsLowerHexDigit(DigitChar(d)) && DigitValue(DigitChar(d)) == d
  {
  }

  /** ASCII lower-casing of one character. */
  function ToLower(c: char): char {
    if 'A' <= c <= 'Z' then (c as int + 32) as char else c
  }

  function ToLowerString(s: string): (t: string)
    ensures |t| == |s| && forall i :: 0 <= i < |s| ==> t[i] == ToLower(s[i])
  {
    seq(|s|, i requires 0 <= i < |s| => ToLower(s[i]))
  }

  /** Writing back the value of a digit gives the digit in lower case. */
  lemma DigitCharOfValue(c: char)
    requires IsHexDigit(c)
    ensures DigitChar(DigitValue(c)) == ToLower(c)
  {
  }

  predicate AllHexDigits(s: string) {
    forall i :: 0 <= i < |s| ==> IsHexDigit(s[i])
  }

  predicate DigitsBelow(s: string, radix: nat) {
    forall i :: 0 <= i < |s| ==> IsLowerHexDigit(s[i]) && DigitValue(s[i]) < radix
  }

  // ---------------------------------------------------------------------------
  // Number <-> text

  /** parseInt(s, radix) on a string of hex digits, each weighted by `radix`;
      callers that need parseInt's exact reading pass digits below the radix
      (`DigitsBelow`). */
  function ParseRadix(s: string, radix: nat): nat
    requires AllHexDigits(s)
  {
    if s == [] then 0 else ParseRadix(s[..|s| - 1], radix) * radix + DigitValue(s[|s| - 1])
  }

  /** Number.prototype.toString(radix) on a non-negative integer: the shortest
      digit string, most significant digit first. */
  function ToRadixString(n: nat, radix: nat): (s: string)
    requires 2 <= radix <= 16
    ensures 1 <= |s|
    decreases n
  {
    if n < radix then [DigitChar(n)]
    else ToRadixString(n / radix, radix) + [DigitChar(n % radix)]
  }

  /** toString(radix) writes only lower-case digits of that radix, and a single
      digit exactly for values below the radix. */
  lemma {:induction false} RadixDigits(n: nat, radix: nat)
    requires 2 <= radix <= 16
    ensures DigitsBelow(ToRadixString(n, radix), radix)
    ensures (|ToRadixString(n, radix)| == 1) == (n < radix)
    decreases n
  {
    DigitCharSpec(n % radix);
    if n >= radix {
      DivShrinks(n, radix);
      RadixDigits(n / radix, radix);
      var front, last := ToRadixString(n / radix, radix), DigitChar(n % radix);
      assert ToRadixString(n, radix) == front + [last];
      forall i | 0 <= i < |front + [last]|
        ensures IsLowerHexDigit((front + [last])[i]) && DigitValue((front + [last])[i]) < radix
      {
        if i < |front| {
          assert (front + [last])[i] == front[i];
        }
      }
    }
  }

  /** parseInt reads back what toString(radix) writes. */
  lemma {:induction false} RadixRoundTrip(n: nat, radix: nat)
    requires 2 <= radix <= 16
    ensures AllHexDigits(ToRadixString(n, radix))
    ensures ParseRadix(ToRadixString(n, radix), radix) == n
    decreases n
  {
    RadixDigits(n, radix);
    if n >= radix {
      DivShrinks(n, radix);
      RadixRoundTrip(n / radix, radix);
      var front, last := ToRadixString(n / radix, radix), DigitChar(n % radix);
      assert ToRadixString(n, radix) == front + [last];
      ParseSnoc(front, last, radix);
      DivMod(n, radix);
    }
  }

  /** parseInt of a digit string with one more digit at the end. */
  lemma ParseSnoc(front: string, last: char, radix: nat)
    requires AllHexDigits(front) && IsHexDigit(last)
    ensures AllHexDigits(front + [last])
    ensures ParseRadix(front + [last], radix) == ParseRadix(front, radix) * radix + DigitValue(last)
  {
    var s := front + [last];
    assert s[..|s| - 1] == front;
  }

  lemma DivShrinks(n: nat, d: nat)
    requires 2 <= d && 1 <= n
    ensures n / d < n
  {
  }

  lemma DivMod(n: nat, d: nat)
    requires 0 < d
    ensures (n / d) * d + n % d == n
  {
  }

  /** In base 16 a value below 256 takes at most two digits. */
  lemma HexStringOfByte(n: nat)
    requires n < 256
    ensures |ToRadixString(n, 16)| <= 2
  {
    if n >= 16 {
      assert n / 16 < 16;
    }
  }

  /** Number.prototype.toString(radix) on any integer: a minus sign, then the digits. */
  function NumberToString(n: int, radix: nat): string
    requires 2 <= radix <= 16
  {
    if n < 0 then "-" + ToRadixString(-n, radix) else ToRadixString(n, radix)
  }

  /** String.prototype.padStart(len, fill) with a one-character filler. */
  function PadStart(s: string, len: nat, fill: char): string {
    if |s| >= len then s else seq(len - |s|, _ => fill) + s
  }

  /** padStart reaches the target length (or keeps a longer string), ends
      with the original text and fills the front with the filler. */
  lemma PadStartSpec(s: string, len: nat, fill: char)
    ensures |PadStart(s, len, fill)| == Max(|s|, len)
    ensures forall i :: 0 <= i < |s| ==> PadStart(s, len, fill)[|PadStart(s, len, fill)| - |s| + i] == s[i]
    ensures forall i :: 0 <= i < |PadStart(s, len, fill)| - |s| ==> PadStart(s, len, fill)[i] == fill
  {
  }

  // ---------------------------------------------------------------------------
  // Arrays

  /** No element occurs twice. */
  ghost predicate Distinct<T>(s: seq<T>) {
    forall i, j :: 0 <= i < j < |s| ==> s[i] != s[j]
  }

  /** Array.prototype.reverse, on the array's contents. */
  function Reverse<T>(s: seq<T>): seq<T> {
    seq(|s|, i requires 0 <= i < |s| => s[|s| - 1 - i])
  }

  /** Reversing twice gives the array back, and element `i` of the reversal is
      element `|s| - 1 - i` of the original. */
  lemma ReverseSpec<T>(s: seq<T>)
    ensures |Reverse(s)| == |s|
    ensures forall i :: 0 <= i < |s| ==> Reverse(s)[i] == s[|s| - 1 - i]
    ensures Reverse(Reverse(s)) == s
  {
    assert forall i :: 0 <= i < |s| ==> Reverse(Reverse(s))[i] == s[i];
  }
}
