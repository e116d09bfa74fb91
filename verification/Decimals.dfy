/** Decimal numbers as JavaScript reads and writes them. */
module Decimals {
  import opened JsText

  predicate IsDigit(u: CodeUnit) { 48 <= u < 58 }

  predicate AllDigits(s: JsString) {
    forall i :: 0 <= i < |s| ==> IsDigit(s[i])
  }

  /** Number of a string of digits. Numbers that matter stay below 2^53; a double rounds larger ones to larger ones. */
  function Value(s: JsString): nat
    requires AllDigits(s)
  {
    if s == [] then 0 else 10 * Value(s[..|s| - 1]) + (s[|s| - 1] - 48)
  }

  lemma {:induction false} ValueSnoc(front: JsString, digit: nat)
    requires AllDigits(front) && digit < 10
    ensures var s: JsString := front + [48 + digit]; AllDigits(s) && Value(s) == 10 * Value(front) + digit
  {
    var s: JsString := front + [48 + digit];
    assert s[..|s| - 1] == front;
  }

  function Decimal(n: nat): (s: JsString)
    ensures s != [] && AllDigits(s) && Value(s) == n
  {
    if n < 10 then
      ValueSnoc([], n);
      [48 + n]
    else
      var front := Decimal(n / 10);
      ValueSnoc(front, n % 10);
      front + [48 + n % 10]
  }
}
