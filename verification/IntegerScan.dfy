/** The integer part of `strtod`, with the saturation of `parse_number`: a reader that meets what the
    parser assumes. */
module IntegerScan {
  import opened Bytes
  import opened JsonText
  import opened ParseSpec

  predicate Digit(c: byte) {
    0x30 <= c <= 0x39
  }

  function DigitRun(t: bytes): (n: nat)
    ensures n <= |t|
    ensures forall i :: 0 <= i < n ==> Digit(t[i])
  {
    if t == [] || !Digit(t[0]) then 0 else 1 + DigitRun(t[1..])
  }

  function DigitsValue(t: bytes): nat
    requires forall i :: 0 <= i < |t| ==> Digit(t[i])
  {
    if t == [] then 0
    else
      assert Digit(t[|t| - 1]);
      var last: int := t[|t| - 1];
      DigitsValue(t[..|t| - 1]) * 10 + (last - 0x30)
  }

  function Saturate(n: int): int {
    if n >= INT_MAX then INT_MAX else if n <= INT_MIN then INT_MIN else n
  }

  function ScanInteger(t: bytes): NumberScan {
    var sign := if t != [] && t[0] == MINUS then 1 else 0;
    var n := DigitRun(t[sign..]);
    var value: int := DigitsValue(t[sign..][..n]);
    if n == 0 then NumberScan(0, 0)
    else NumberScan(sign + n, Saturate(if sign == 1 then -value else value))
  }

  lemma {:induction false} DigitRunAll(t: bytes)
    requires forall i :: 0 <= i < |t| ==> Digit(t[i])
    ensures DigitRun(t) == |t|
  {
    if t == [] {
    } else {
      DigitRunAll(t[1..]);
    }
  }

  /** Printing a number in decimal and reading its digits gives the number back. */
  lemma {:induction false} DigitsRead(n: nat)
    ensures DigitsValue(Digits(n)) == n
  {
    if n >= 10 {
      DigitsRead(n / 10);
      assert Digits(n)[..|Digits(n)| - 1] == Digits(n / 10);
    } else {
      assert DigitsValue([0x30 + n]) == n by {
        assert [0x30 + n][..0] == [];
      }
    }
  }

  /** Without leading zeros. */
  lemma {:induction false} DigitsCanonical(n: nat)
    ensures Digits(n)[0] == 0x30 <==> n == 0
    ensures n == 0 ==> |Digits(n)| == 1
  {
    if n >= 10 {
      DigitsCanonical(n / 10);
    }
  }

  lemma ScanReadsInteger(n: int)
    requires Int32(n)
    ensures ScanInteger(IntText(n)) == NumberScan(|IntText(n)|, n)
  {
    hide Digits, DigitRun, DigitsValue;
    var digits := Digits(if n < 0 then -n else n);
    DigitsRead(if n < 0 then -n else n);
    DigitRunAll(digits);
    var sign := if n < 0 then 1 else 0;
    assert IntText(n)[sign..] == digits;
    assert digits[..|digits|] == digits;
  }

  /** The assumption on `strtod` can be met. */
  lemma ScanIntegerIsLawful()
    ensures Lawful(ScanInteger)
  {
    hide IntText, DigitRun, DigitsValue;
    forall n: int | Int32(n)
      ensures ScanInteger(IntText(n)) == NumberScan(|IntText(n)|, n)
    {
      ScanReadsInteger(n);
    }
  }
}
