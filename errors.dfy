/** The error codes of the matrix package and their messages (the `error_` type). */
module Errors {
  import opened Wrappers

  // The codes, numbered consecutively from 0 in declaration order.
  const errorNilMatrix: int := 0
  const errorNilElement: int := 1
  const errorDimensionMismatch: int := 2
  const errorIllegalIndex: int := 3
  const exceptionSingular: int := 4
  const exceptionNotSPD: int := 5

  /** An error value is an integer code. */
  datatype ErrorCode = ErrorCode(code: int)

  // The exported error values, each wrapping its code.
  const ErrorNilMatrix := ErrorCode(errorNilMatrix)
  const ErrorNilElement := ErrorCode(errorNilElement)
  const ErrorDimensionMismatch := ErrorCode(errorDimensionMismatch)
  const ErrorIllegalIndex := ErrorCode(errorIllegalIndex)
  const ExceptionSingular := ErrorCode(exceptionSingular)
  const ExceptionNotSPD := ErrorCode(exceptionNotSPD)

  /** The fixed messages, indexed by code. */
  const Messages: seq<string> := [
    "Matrix is nil",
    "Element does not exist in the sparse matrix",
    "Input dimensions do not match",
    "Index out of bounds",
    "Matrix is singular",
    "Matrix is not positive semidefinite"
  ]

  const UnknownPrefix: string := "Unknown error code "

  /** The message of an error value. */
  function Error(e: ErrorCode): (msg: string)
    ensures 0 <= e.code < |Messages| ==> msg == Messages[e.code]
    ensures !(0 <= e.code < |Messages|) ==> msg == UnknownPrefix + Decimal(e.code)
  {
    match e.code
    case 0 => "Matrix is nil"
    case 1 => "Element does not exist in the sparse matrix"
    case 2 => "Input dimensions do not match"
    case 3 => "Index out of bounds"
    case 4 => "Matrix is singular"
    case 5 => "Matrix is not positive semidefinite"
    case _ => UnknownPrefix + Decimal(e.code)
  }

  /** `String` is `Error`: the text names the code it came from. */
  function String(e: ErrorCode): (s: string)
    ensures s == Error(e) && CodeOfMessage(s) == Some(e.code)
  {
    ErrorRoundTrip(e);
    Error(e)
  }

  // ----- the `%d` rendering used for unknown codes, and its inverse -----

  function DigitChar(d: nat): char
    requires d < 10
  {
    "0123456789"[d]
  }

  predicate IsDigit(c: char) {
    '0' <= c <= '9'
  }

  predicate AllDigits(s: string) {
    forall k | 0 <= k < |s| :: IsDigit(s[k])
  }

  function DigitValue(c: char): nat
    requires IsDigit(c)
  {
    (c as int - '0' as int) as nat
  }

  /** Decimal digits of a natural number, most significant first, no leading zeros. */
  function NatDecimal(n: nat): (s: string)
    ensures |s| > 0 && AllDigits(s)
    decreases n
  {
    if n < 10 then [DigitChar(n)] else NatDecimal(n / 10) + [DigitChar(n % 10)]
  }

  /** Go's `%d` for an integer. */
  function Decimal(n: int): string {
    if n < 0 then "-" + NatDecimal(-n) else NatDecimal(n)
  }

  /** The digits s[lo..hi] read as a number, most significant first. */
  function ParseDigits(s: string, lo: nat, hi: nat): nat
    requires lo < hi <= |s| && forall k | lo <= k < hi :: IsDigit(s[k])
    decreases hi - lo
  {
    if hi - lo == 1 then DigitValue(s[lo]) else ParseDigits(s, lo, hi - 1) * 10 + DigitValue(s[hi - 1])
  }

  /** Reads back a nonempty string of digits, after an optional minus sign. */
  function ParseDecimal(s: string): Option<int> {
    if |s| > 0 && s[0] == '-' then
      (if |s| > 1 && forall k | 1 <= k < |s| :: IsDigit(s[k]) then Some(-(ParseDigits(s, 1, |s|) as int)) else None)
    else if |s| > 0 && AllDigits(s) then Some(ParseDigits(s, 0, |s|))
    else None
  }

  /** Characters after the digits read do not change their value. */
  lemma {:induction false} ParseDigitsAppend(s: string, t: string, lo: nat, hi: nat)
    requires lo < hi <= |s| && forall k | lo <= k < hi :: IsDigit(s[k])
    ensures (forall k | lo <= k < hi :: IsDigit((s + t)[k])) && ParseDigits(s + t, lo, hi) == ParseDigits(s, lo, hi)
    decreases hi - lo
  {
    if hi - lo > 1 {
      ParseDigitsAppend(s, t, lo, hi - 1);
    }
  }

  /** Characters in front of the digits read move them without changing
      their value. */
  lemma {:induction false} ParseDigitsShift(p: string, d: string, hi: nat)
    requires 0 < hi <= |d| && forall k | 0 <= k < hi :: IsDigit(d[k])
    ensures (forall k | |p| <= k < |p| + hi :: IsDigit((p + d)[k]))
    ensures ParseDigits(p + d, |p|, |p| + hi) == ParseDigits(d, 0, hi)
    decreases hi
  {
    if hi > 1 {
      ParseDigitsShift(p, d, hi - 1);
    }
  }

  /** A digit's character reads back as the digit. */
  lemma DigitRoundTrip(d: nat)
    requires d < 10
    ensures IsDigit(DigitChar(d)) && DigitValue(DigitChar(d)) == d
  {
  }

  lemma {:induction false} NatDecimalRoundTrip(n: nat)
    ensures ParseDigits(NatDecimal(n), 0, |NatDecimal(n)|) == n
    decreases n
  {
    DigitRoundTrip(n % 10);
    if n >= 10 {
      var front := NatDecimal(n / 10);
      var s := NatDecimal(n);
      NatDecimalRoundTrip(n / 10);
      ParseDigitsAppend(front, [DigitChar(n % 10)], 0, |front|);
      assert s == front + [DigitChar(n % 10)] && s[|s| - 1] == DigitChar(n % 10);
      assert ParseDigits(s, 0, |s|) == ParseDigits(s, 0, |front|) * 10 + DigitValue(s[|s| - 1]);
    }
  }

  lemma DecimalRoundTrip(n: int)
    ensures ParseDecimal(Decimal(n)) == Some(n)
  {
    if n < 0 {
      NegativeRoundTrip(n);
    } else {
      NatDecimalRoundTrip(n);
    }
  }

  /** A negative number's decimal reads back as the number. */
  lemma NegativeRoundTrip(n: int)
    requires n < 0
    ensures ParseDecimal(Decimal(n)) == Some(n)
  {
    var d := NatDecimal(-n);
    ParseDigitsShift("-", d, |d|);
    NatDecimalRoundTrip(-n);
  }

  /** Recovers the code from a message produced by `Error`. */
  function CodeOfMessage(msg: string): Option<int> {
    if msg in Messages then
      Some(if msg == Messages[0] then 0 else if msg == Messages[1] then 1
           else if msg == Messages[2] then 2 else if msg == Messages[3] then 3
           else if msg == Messages[4] then 4 else 5)
    else if |UnknownPrefix| <= |msg| && msg[..|UnknownPrefix|] == UnknownPrefix then
      ParseDecimal(msg[|UnknownPrefix|..])
    else None
  }

  /** Every message, known or unknown, determines its code: distinct codes never
      share a message. */
  lemma {:induction false} ErrorRoundTrip(e: ErrorCode)
    ensures CodeOfMessage(Error(e)) == Some(e.code)
  {
    var msg := Error(e);
    if !(0 <= e.code < |Messages|) {
      assert msg[0] == 'U';
      assert forall m | m in Messages :: m[0] != 'U';
      assert msg !in Messages;
      assert msg[..|UnknownPrefix|] == UnknownPrefix;
      assert msg[|UnknownPrefix|..] == Decimal(e.code);
      DecimalRoundTrip(e.code);
    }
  }

  lemma ErrorInjective(e1: ErrorCode, e2: ErrorCode)
    requires Error(e1) == Error(e2)
    ensures e1 == e2
  {
    ErrorRoundTrip(e1);
    ErrorRoundTrip(e2);
  }
}
