/** What the input handlers of the book and user forms receive, and the
    JavaScript conversions they apply to it: `Number(value)` on the text of
    the year field and truthiness (`!x`) in the required-field guards. */
module Forms {

  /** A change event of one form control: the `name` of a text input with
      its `value`, or the `name` of a checkbox with its `checked` flag. */
  datatype FieldEdit =
    | TextEdit(name: string, value: string)
    | CheckEdit(name: string, checked: bool)

  predicate IsDigit(c: char) {
    '0' <= c <= '9'
  }

  predicate AllDigits(s: string) {
    forall i :: 0 <= i < |s| ==> IsDigit(s[i])
  }

  function DigitValue(c: char): (d: nat)
    requires IsDigit(c)
    ensures d < 10
  {
    (c as int) - ('0' as int)
  }

  function DigitChar(d: nat): (c: char)
    requires d < 10
    ensures IsDigit(c) && DigitValue(c) == d
  {
    (('0' as int) + d) as char
  }

  /** The value of a string of decimal digits, most significant first. */
  function DecimalValue(s: string): nat
    requires AllDigits(s)
  {
    if s == [] then 0 else DecimalValue(s[..|s| - 1]) * 10 + DigitValue(s[|s| - 1])
  }

  /** `Number(value)` on the text of a number input: the decimal value of a
      string of digits (`Number("")` is 0), and 0 for anything else, where
      JavaScript gives `NaN`; both are falsy and fail the required-field guard. */
  function NumberOf(s: string): (r: nat)
    ensures !AllDigits(s) ==> r == 0
    ensures s == "" ==> r == 0
  {
    if AllDigits(s) then DecimalValue(s) else 0
  }

  /** The decimal text a number input shows for `n`. */
  function DigitsOf(n: nat): (s: string)
    ensures |s| >= 1 && AllDigits(s)
  {
    if n < 10 then [DigitChar(n)] else DigitsOf(n / 10) + [DigitChar(n % 10)]
  }

  /** Reading back the text of a number gives the number. */
  lemma {:induction false} NumberOfDigitsOf(n: nat)
    ensures NumberOf(DigitsOf(n)) == n
  {
    var s := DigitsOf(n);
    if n < 10 {
      assert s[..|s| - 1] == [];
    } else {
      var front := DigitsOf(n / 10);
      assert s[..|s| - 1] == front;
      NumberOfDigitsOf(n / 10);
      assert DecimalValue(s) == DecimalValue(front) * 10 + n % 10;
    }
  }

  /** Leading zeros do not change the value: `Number("0" + s) == Number(s)`. */
  lemma {:induction false} LeadingZero(s: string)
    ensures NumberOf("0" + s) == NumberOf(s)
    decreases |s|
  {
    var t := "0" + s;
    if AllDigits(s) {
      if s != [] {
        assert t[..|t| - 1] == "0" + s[..|s| - 1];
        LeadingZero(s[..|s| - 1]);
      }
    } else {
      var i :| 0 <= i < |s| && !IsDigit(s[i]);
      assert !IsDigit(t[i + 1]);
    }
  }
}
