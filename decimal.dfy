/**
 * Decimal digits in strings: the `replace(/[^0-9]/g, '')` that keeps only the
 * digits of a text, the value `parseInt` gives a string of digits, and the
 * decimal spelling JavaScript gives a non-negative integer when it is
 * concatenated to a string.
 */
module Decimal {

  predicate IsDigit(c: char) {
    '0' <= c <= '9'
  }

  predicate AllDigits(s: string) {
    forall i :: 0 <= i < |s| ==> IsDigit(s[i])
  }

  function DigitValue(c: char): (d: nat)
    requires IsDigit(c)
    ensures d < 10
  {
    (c as int) - ('0' as int)
  }

  function DigitChar(d: nat): (c: char)
    requires d < 10
    ensures IsDigit(c) && DigitValue(c) == d
  {
    ('0' as int + d) as char
  }

  /** The digits of `s`, in the order they occur; every other character is dropped. */
  function KeepDigits(s: string): (r: string)
    ensures AllDigits(r)
    ensures |r| <= |s|
    ensures r == [] <==> forall i :: 0 <= i < |s| ==> !IsDigit(s[i])
    ensures AllDigits(s) ==> r == s
  {
    if s == [] then []
    else (if IsDigit(s[0]) then [s[0]] else []) + KeepDigits(s[1..])
  }

  /** Keeping the digits of a concatenation keeps those of each part, in order. */
  lemma {:induction false} KeepDigitsAppend(a: string, b: string)
    ensures KeepDigits(a + b) == KeepDigits(a) + KeepDigits(b)
  {
    if a == [] {
      assert a + b == b;
    } else {
      var head := if IsDigit(a[0]) then [a[0]] else [];
      assert (a + b)[0] == a[0];
      assert (a + b)[1..] == a[1..] + b;
      calc {
        KeepDigits(a + b);
        head + KeepDigits(a[1..] + b);
        { KeepDigitsAppend(a[1..], b); }
        head + (KeepDigits(a[1..]) + KeepDigits(b));
        (head + KeepDigits(a[1..])) + KeepDigits(b);
        KeepDigits(a) + KeepDigits(b);
      }
    }
  }

  /** The number a string of decimal digits spells, most significant digit first. */
  function Value(ds: string): (n: nat)
    requires AllDigits(ds)
  {
    if ds == [] then 0
    else Value(ds[..|ds| - 1]) * 10 + DigitValue(ds[|ds| - 1])
  }

  /** The decimal spelling of `n`: no sign, no leading zero, "0" for zero. */
  function Spell(n: nat): (s: string)
    ensures |s| >= 1 && AllDigits(s)
    ensures |s| > 1 ==> s[0] != '0'
  {
    if n < 10 then [DigitChar(n)] else Spell(n / 10) + [DigitChar(n % 10)]
  }

  /** Reading back the spelling of a number gives that number. */
  lemma {:induction false} ValueOfSpell(n: nat)
    ensures Value(Spell(n)) == n
  {
    var s := Spell(n);
    if n >= 10 {
      assert s[..|s| - 1] == Spell(n / 10);
      assert s[|s| - 1] == DigitChar(n % 10);
      ValueOfSpell(n / 10);
    }
  }
}
