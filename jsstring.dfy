/**
 * The JavaScript string built-ins the core relies on: `String.prototype.trim`,
 * `toLowerCase` (on ASCII letters), `Array.prototype.indexOf` over strings,
 * `String(n)` for integers and `Number(s)` on decimal integer numerals.
 */
module JsString {
  import opened Wrappers

  /** The code points `trim` strips: ECMAScript WhiteSpace and LineTerminator. */
  predicate IsSpace(c: char) {
    c == '\t' || c == '\n' || c == '\U{000B}' || c == '\U{000C}' || c == '\r' || c == ' '
    || c == '\U{00A0}' || c == '\U{1680}' || ('\U{2000}' <= c <= '\U{200A}')
    || c == '\U{2028}' || c == '\U{2029}' || c == '\U{202F}' || c == '\U{205F}'
    || c == '\U{3000}' || c == '\U{FEFF}'
  }

  /** A string that `trim` leaves as it is. */
  predicate IsTrimmed(s: string) {
    s == [] || (!IsSpace(s[0]) && !IsSpace(s[|s| - 1]))
  }

  /** Drops the leading white space. */
  function TrimStart(s: string): string {
    if s != [] && IsSpace(s[0]) then TrimStart(s[1..]) else s
  }

  /** Drops the trailing white space. */
  function TrimEnd(s: string): string {
    if s != [] && IsSpace(s[|s| - 1]) then TrimEnd(s[..|s| - 1]) else s
  }

  /** `s.trim()`. */
  function Trim(s: string): string {
    TrimEnd(TrimStart(s))
  }

  /** `TrimStart` leaves the suffix after the leading white space, which starts with no white space. */
  lemma {:induction false} TrimStartSpec(s: string)
    ensures var r := TrimStart(s);
      |r| <= |s| && r == s[|s| - |r|..]
      && (forall i :: 0 <= i < |s| - |r| ==> IsSpace(s[i]))
      && (r == [] || !IsSpace(r[0]))
    decreases |s|
  {
    if s != [] && IsSpace(s[0]) {
      TrimStartSpec(s[1..]);
      var r := TrimStart(s);
      forall i | 0 <= i < |s| - |r|
        ensures IsSpace(s[i])
      {
        if i > 0 {
          assert s[i] == s[1..][i - 1];
        }
      }
    }
  }

  /** `TrimEnd` leaves the prefix before the trailing white space, which ends with no white space. */
  lemma {:induction false} TrimEndSpec(s: string)
    ensures var r := TrimEnd(s);
      |r| <= |s| && r == s[..|r|]
      && (forall i :: |r| <= i < |s| ==> IsSpace(s[i]))
      && (r == [] || !IsSpace(r[|r| - 1]))
    decreases |s|
  {
    if s != [] && IsSpace(s[|s| - 1]) {
      TrimEndSpec(s[..|s| - 1]);
      var r := TrimEnd(s);
      forall i | |r| <= i < |s|
        ensures IsSpace(s[i])
      {
        if i < |s| - 1 {
          assert s[i] == s[..|s| - 1][i];
        }
      }
    }
  }

  /** The trim of a string is trimmed, no longer than it, and a trimmed string is its own trim. */
  lemma TrimSpec(s: string)
    ensures IsTrimmed(Trim(s)) && |Trim(s)| <= |s|
    ensures IsTrimmed(s) ==> Trim(s) == s
  {
    var t := TrimStart(s);
    TrimStartSpec(s);
    TrimEndSpec(t);
    var r := TrimEnd(t);
    if r != [] {
      assert r[0] == t[0];
    }
  }

  /** Trimming is idempotent, and a string is trimmed exactly when it is its own trim. */
  lemma TrimIdempotent(s: string)
    ensures Trim(Trim(s)) == Trim(s)
    ensures IsTrimmed(s) <==> Trim(s) == s
  {
    TrimSpec(s);
    TrimSpec(Trim(s));
  }

  function LowerChar(c: char): char {
    if 'A' <= c <= 'Z' then (c as int + 32) as char else c
  }

  /** `s.toLowerCase()` on ASCII letters; every other character is kept. */
  function Lower(s: string): string {
    if s == [] then [] else [LowerChar(s[0])] + Lower(s[1..])
  }

  /** `s.toLowerCase() === t`, compared character by character. */
  predicate LowerEquals(s: string, t: string) {
    if s == [] then t == [] else t != [] && LowerChar(s[0]) == t[0] && LowerEquals(s[1..], t[1..])
  }

  lemma {:induction false} LowerEqualsSpec(s: string, t: string)
    ensures LowerEquals(s, t) <==> Lower(s) == t
    decreases |s|
  {
    if s != [] && t != [] {
      LowerEqualsSpec(s[1..], t[1..]);
      assert Lower(s) == [LowerChar(s[0])] + Lower(s[1..]);
      if Lower(s) == t {
        assert t[1..] == Lower(s[1..]);
      }
    }
  }

  /** Lower-casing works character by character. */
  lemma {:induction false} LowerSpec(s: string)
    ensures |Lower(s)| == |s| && forall i :: 0 <= i < |s| ==> Lower(s)[i] == LowerChar(s[i])
    decreases |s|
  {
    if s != [] {
      LowerSpec(s[1..]);
    }
  }

  /** `xs.indexOf(x)`: the first position holding `x`, or -1 when there is none. */
  function IndexOf(xs: seq<string>, x: string): (k: int)
    ensures -1 <= k < |xs|
    ensures k == -1 <==> x !in xs
    ensures k >= 0 ==> xs[k] == x && forall j :: 0 <= j < k ==> xs[j] != x
  {
    if xs == [] then -1
    else if xs[0] == x then 0
    else
      var k := IndexOf(xs[1..], x);
      if k == -1 then -1 else k + 1
  }

  predicate IsDigit(c: char) {
    '0' <= c <= '9'
  }

  predicate IsDigits(s: string) {
    |s| > 0 && forall i :: 0 <= i < |s| ==> IsDigit(s[i])
  }

  function DigitChar(d: nat): char
    requires d < 10
  {
    ('0' as int + d) as char
  }

  /** The decimal value of a run of digits, leading zeros allowed. */
  function DigitsValue(s: string): nat
    requires forall i :: 0 <= i < |s| ==> IsDigit(s[i])
  {
    if s == [] then 0
    else
      assert IsDigit(s[|s| - 1]);
      DigitsValue(s[..|s| - 1]) * 10 + (s[|s| - 1] as int - '0' as int)
  }

  /** The decimal numeral of `n`, without leading zeros. */
  function NatToString(n: nat): (r: string)
    ensures IsDigits(r)
    ensures r[0] == '0' <==> n == 0
  {
    if n < 10 then [DigitChar(n)] else NatToString(n / 10) + [DigitChar(n % 10)]
  }

  /** `String(n)` for an integer `n`, in plain decimal digits as JavaScript writes integers below 10^21 in magnitude. */
  function IntToString(n: int): (r: string)
    ensures |r| > 0 && IsTrimmed(r)
    ensures forall i :: 0 <= i < |r| ==> IsDigit(r[i]) || r[i] == '-'
    ensures n >= 0 ==> IsDigits(r) && (r[0] == '0' ==> r == "0")
    ensures n < 0 ==> r[0] == '-' && IsDigits(r[1..]) && r[1] != '0'
  {
    if n < 0 then "-" + NatToString(-n) else NatToString(n)
  }

  /** An optionally signed decimal integer numeral, read as `Number` reads it. */
  function ParseInteger(s: string): Option<int> {
    if IsDigits(s) then Some(DigitsValue(s))
    else if |s| > 1 && s[0] == '-' && IsDigits(s[1..]) then Some(0 - DigitsValue(s[1..]) as int)
    else if |s| > 1 && s[0] == '+' && IsDigits(s[1..]) then Some(DigitsValue(s[1..]))
    else None
  }

  /**
   * `Number(s)` on decimal integer numerals with an optional sign: white space
   * around the numeral is ignored and a blank string is 0. `None` stands for
   * every other text, NaN as well as the numerals with a decimal point, an
   * exponent or a hexadecimal, binary or octal prefix, and `Infinity`.
   */
  function JsNumber(s: string): Option<int> {
    var t := Trim(s);
    if t == [] then Some(0) else ParseInteger(t)
  }

  lemma {:induction false} DigitsValueOfNatToString(n: nat)
    ensures DigitsValue(NatToString(n)) == n
  {
    if n >= 10 {
      var p := NatToString(n / 10);
      var s := p + [DigitChar(n % 10)];
      assert s[..|s| - 1] == p;
      DigitsValueOfNatToString(n / 10);
    }
  }

  /** `Number(String(n)) == n` for every integer `n`. */
  lemma JsNumberOfIntToString(n: int)
    ensures JsNumber(IntToString(n)) == Some(n)
  {
    var r := IntToString(n);
    TrimSpec(r);
    if n < 0 {
      var p := NatToString(-n);
      assert r == "-" + p && r[1..] == p;
      assert !IsDigits(r) by { assert !IsDigit(r[0]); }
      DigitsValueOfNatToString(-n);
    } else {
      DigitsValueOfNatToString(n);
    }
  }
}
