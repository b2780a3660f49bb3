/** strconv.ParseInt(s, 10, 64) as the server uses it on its byte arguments,
    and the decimal rendering of an int64 that it reads back. */
module Strconv {
  import opened GoTypes

  const Plus: byte := 0x2B   // '+'
  const Minus: byte := 0x2D  // '-'
  const Zero: byte := 0x30   // '0'

  predicate IsDigit(b: byte) { Zero <= b < Zero + 10 }

  predicate AllDigits(s: seq<byte>) { forall i :: 0 <= i < |s| ==> IsDigit(s[i]) }

  /** The value of a run of decimal digits, most significant first. */
  function DecimalValue(s: seq<byte>): (n: nat)
    requires AllDigits(s)
  {
    if s == [] then 0 else 10 * DecimalValue(s[..|s| - 1]) + (s[|s| - 1] - Zero)
  }

  /** strconv.ParseInt(s, 10, 64): an optional sign, then at least one decimal
      digit and nothing else, whose value lies in the int64 range; None is
      the syntax or range error. */
  function ParseInt(s: seq<byte>): (r: Option<int64>)
    ensures r.Some? ==> |s| > 0
    ensures r.Some? && r.value < 0 ==> s[0] == Minus
  {
    if |s| == 0 then None
    else
      var digits := if s[0] == Plus || s[0] == Minus then s[1..] else s;
      if |digits| == 0 || !AllDigits(digits) then None
      else
        var n := DecimalValue(digits);
        if s[0] == Minus then (if n <= Two63 then Some(-(n as int)) else None)
        else if n < Two63 then Some(n) else None
  }

  /** The decimal digits of `n`, without leading zeros. */
  function Digits(n: nat): (s: seq<byte>)
    ensures |s| > 0 && AllDigits(s)
    ensures |s| > 1 ==> s[0] != Zero
  {
    if n < 10 then [Zero + n] else Digits(n / 10) + [Zero + n % 10]
  }

  /** strconv.FormatInt(v, 10): how an int64 is written in decimal. */
  function FormatInt(v: int64): (s: seq<byte>)
    ensures |s| > 0
  {
    if v < 0 then [Minus] + Digits(-(v as int)) else Digits(v)
  }

  lemma {:induction false} DecimalValueDigits(n: nat)
    ensures DecimalValue(Digits(n)) == n
    decreases n
  {
    if n >= 10 {
      var s := Digits(n);
      assert s[..|s| - 1] == Digits(n / 10);
      DecimalValueDigits(n / 10);
    }
  }

  /** Round trip: every int64 written in decimal parses back to itself, so a
      `set` of a formatted integer stores that integer. */
  lemma ParseIntFormatInt(v: int64)
    ensures ParseInt(FormatInt(v)) == Some(v)
  {
    var s := FormatInt(v);
    if v < 0 {
      var d := Digits(-(v as int));
      assert s[0] == Minus && s[1..] == d;
      DecimalValueDigits(-(v as int));
      assert ParseInt(s) == Some(-(DecimalValue(d) as int));
    } else {
      var d := Digits(v);
      assert s == d && IsDigit(s[0]);
      assert s[0] != Plus && s[0] != Minus;
      DecimalValueDigits(v);
      assert ParseInt(s) == Some(DecimalValue(d));
    }
  }

}
