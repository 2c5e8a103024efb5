/**
 * The statistics counter, `animateCounter` (script.js:318-338). The element's
 * text, such as "98%" or "+500", gives a numeric target; the display then
 * counts up in steps of a fiftieth of the target and finally shows the
 * original text again. The running value `current` is an exact real here.
 */
module Counter {
  import opened Wrappers
  import opened Decimal

  /** Number of increments it takes `current` to reach the target. */
  const Steps: nat := 50

  /**
   * What the text is parsed into: the number its digits spell (None where
   * parseInt yields NaN, for a text without digits), and whether it has a '%'.
   */
  datatype CounterTarget = CounterTarget(numeric: Option<nat>, isPercentage: bool)

  function ParseCounter(text: string): (c: CounterTarget)
    ensures c.isPercentage <==> '%' in text
    ensures c.numeric.None? <==> forall i :: 0 <= i < |text| ==> !IsDigit(text[i])
    ensures c.numeric.Some? ==> c.numeric.value == Value(KeepDigits(text))
  {
    var digits := KeepDigits(text);
    CounterTarget(if digits == [] then None else Some(Value(digits)), '%' in text)
  }

  /** The text of an intermediate frame showing `v`. */
  function Display(isPercentage: bool, v: nat): (r: string) {
    if isPercentage then Spell(v) + "%" else "+" + Spell(v)
  }

  /** The exact value of `current` after k increments of target/50. */
  function Current(target: nat, k: nat): (r: real) {
    k as real * (target as real / Steps as real)
  }

  /** floor(k * target / 50): the integer the k-th increment displays. */
  function FrameValue(target: nat, k: nat): (r: nat) {
    (k * target) / Steps
  }

  /** Parsing the text of a frame gives back the value it shows and its form. */
  lemma DisplayReparses(isPercentage: bool, v: nat)
    ensures ParseCounter(Display(isPercentage, v)) == CounterTarget(Some(v), isPercentage)
  {
    var s := Spell(v);
    ValueOfSpell(v);
    assert '%' !in s by {
      forall i | 0 <= i < |s| ensures s[i] != '%' {
        assert IsDigit(s[i]);
      }
    }
    if isPercentage {
      var t := s + "%";
      KeepDigitsAppend(s, "%");
      assert KeepDigits("%") == [];
      assert KeepDigits(s) == s;
      assert KeepDigits(t) == s;
      assert t[|s|] == '%';
      assert '%' in t;
    } else {
      var t := "+" + s;
      KeepDigitsAppend("+", s);
      assert KeepDigits("+") == [];
      assert KeepDigits(s) == s;
      assert KeepDigits(t) == s;
      assert '%' !in t by {
        forall i | 0 <= i < |t| ensures t[i] != '%' {
          if i > 0 { assert t[i] == s[i - 1]; }
        }
      }
    }
  }

  /** Every intermediate frame shows less than the target. */
  lemma FrameBelowTarget(target: nat, k: nat)
    requires 0 < target && k < Steps
    ensures FrameValue(target, k) < target
  {
    assert k * target <= (Steps - 1) * target;
  }

  /** The displayed values never go down from one frame to the next. */
  lemma FrameMonotone(target: nat, k1: nat, k2: nat)
    requires k1 <= k2
    ensures FrameValue(target, k1) <= FrameValue(target, k2)
  {
    assert k1 * target <= k2 * target;
  }

  /**
   * The loop guard `current < numericTarget` after k increments of
   * target/50: for a positive target it holds exactly for the first 49.
   */
  lemma {:induction false} IncrementsBelowTarget(target: nat, k: nat)
    requires 0 < target
    ensures Current(target, k) < target as real <==> k < Steps
  {
    var increment := target as real / Steps as real;
    assert target as real == Steps as real * increment;
    assert 0.0 < increment;
    if k < Steps {
      assert k as real * increment < Steps as real * increment;
    } else {
      assert k as real * increment >= Steps as real * increment;
    }
  }

  /** The floor of a real that is a whole number of fiftieths. */
  lemma FloorOfFiftieths(n: nat, x: real)
    requires Steps as real * x == n as real
    ensures x.Floor == n / Steps
  {
    var q, r := n / Steps, n % Steps;
    assert n == Steps * q + r;
    assert x == q as real + r as real / Steps as real;
    assert q as real <= x < (q + 1) as real;
  }

  /** The display of the k-th frame is the floor of k increments of target/50. */
  lemma FloorOfIncrements(target: nat, k: nat)
    ensures Current(target, k).Floor == FrameValue(target, k)
  {
    var x := k as real * (target as real / Steps as real);
    assert Steps as real * x == (k * target) as real;
    FloorOfFiftieths(k * target, x);
  }

  lemma NextIncrement(target: nat, k: nat)
    ensures Current(target, k + 1) == Current(target, k) + target as real / Steps as real
  {
  }

  /**
   * The texts `element` shows, in order: one per call of `updateCounter`, a
   * frame counting up while `current` is below the target, then the original
   * text. Each frame stands for one animation-frame callback.
   */
  method AnimateCounter(text: string) returns (frames: seq<string>)
    ensures |frames| >= 1 && frames[|frames| - 1] == text
    ensures var c := ParseCounter(text);
      if c.numeric.Some? && c.numeric.value > 0 then |frames| == Steps else |frames| == 1
    ensures var c := ParseCounter(text);
      forall j :: 0 <= j < |frames| - 1 ==>
        frames[j] == Display(c.isPercentage, FrameValue(c.numeric.GetOr(0), j + 1))
  {
    var c := ParseCounter(text);
    if c.numeric.None? {
      // current becomes NaN, and NaN < NaN is false: the first call snaps back
      frames := [text];
      return;
    }
    var numericTarget := c.numeric.value;
    var increment: real := numericTarget as real / Steps as real;
    var current: real := 0.0;
    ghost var k: nat := 0;  // the number of increments so far
    frames := [];

    current := current + increment;
    k := k + 1;
    while current < numericTarget as real
      invariant 1 <= k <= Steps
      invariant numericTarget == 0 ==> k == 1
      invariant current == Current(numericTarget, k)
      invariant |frames| == k - 1
      invariant forall j :: 0 <= j < |frames| ==>
        frames[j] == Display(c.isPercentage, FrameValue(numericTarget, j + 1))
      decreases Steps - k
    {
      IncrementsBelowTarget(numericTarget, k);
      FloorOfIncrements(numericTarget, k);
      frames := frames + [Display(c.isPercentage, current.Floor)];
      NextIncrement(numericTarget, k);
      current := current + increment;
      k := k + 1;
    }
    if numericTarget > 0 {
      IncrementsBelowTarget(numericTarget, k);
    }
    frames := frames + [text];
  }
}
