/**
 * The few Python built-ins the command generator relies on:
 * `str()` of an integer and `os.getenv(name, fallback)`.
 */
module PyBuiltins {

  /** One decimal digit. */
  function Digit(d: nat): (c: char)
    requires d < 10
  {
    "0123456789"[d]
  }

  predicate IsDigit(c: char) {
    '0' <= c <= '9'
  }

  /** `str(n)` for a non-negative integer: its decimal digits, most significant first. */
  function NatToString(n: nat): (s: string)
    decreases n
  {
    if n < 10 then [Digit(n)] else NatToString(n / 10) + [Digit(n % 10)]
  }

  /** `str(i)` for a Python integer: a minus sign before the digits of a negative value. */
  function IntToString(i: int): (s: string)
  {
    if i < 0 then "-" + NatToString(-i) else NatToString(i)
  }

  /** The number a string of decimal digits denotes (most significant first). */
  function DigitsValue(s: string): int
    decreases |s|
  {
    if s == [] then 0 else DigitsValue(s[..|s| - 1]) * 10 + (s[|s| - 1] as int - '0' as int)
  }

  lemma DigitValue(d: nat)
    requires d < 10
    ensures IsDigit(Digit(d)) && Digit(d) as int - '0' as int == d
  {
  }

  /** `str(n)` is a non-empty run of digits that denotes n, with no leading zero. */
  lemma {:induction false} NatToStringDenotes(n: nat)
    ensures var s := NatToString(n);
      && |s| > 0
      && (forall k :: 0 <= k < |s| ==> IsDigit(s[k]))
      && DigitsValue(s) == n
      && (|s| > 1 ==> s[0] != '0')
    decreases n
  {
    var s := NatToString(n);
    if n < 10 {
      DigitValue(n);
    } else {
      NatToStringDenotes(n / 10);
      DigitValue(n % 10);
      var p := NatToString(n / 10);
      assert s == p + [Digit(n % 10)];
      assert s[..|s| - 1] == p;
      assert s[0] == p[0];
    }
  }

  /**
   * `str(i)`: a minus sign exactly for a negative value, then a non-empty run
   * of digits with no leading zero that denotes the magnitude.
   */
  lemma IntToStringDenotes(i: int)
    ensures var s := IntToString(i);
      var m := if i < 0 then -i else i;
      && s == (if i < 0 then "-" else "") + NatToString(m)
      && |s| > 0 && (s[0] == '-' <==> i < 0)
      && var digits := if i < 0 then s[1..] else s;
         && |digits| > 0
         && (forall k :: 0 <= k < |digits| ==> IsDigit(digits[k]))
         && DigitsValue(digits) == m
         && (|digits| > 1 ==> digits[0] != '0')
  {
    var m := if i < 0 then -i else i;
    NatToStringDenotes(m);
    var s := IntToString(i);
    if i < 0 {
      assert s[1..] == NatToString(m);
    } else {
      assert s == "" + NatToString(m);
    }
  }

  /** `os.getenv(name, fallback)` with the environment given as a map. */
  function Getenv(env: map<string, string>, name: string, fallback: string): (v: string)
    ensures name in env ==> v == env[name]
    ensures name !in env ==> v == fallback
  {
    if name in env then env[name] else fallback
  }
}
