/** The string formatting the services' interpolated messages rely on:
    decimal `int` and .NET's `bool` rendering. */
module Text {

  predicate AllDigits(r: string) {
    forall i :: 0 <= i < |r| ==> '0' <= r[i] <= '9'
  }

  /** The number a string of decimal digits denotes, most significant first. */
  function DigitsValue(r: string): nat
    requires AllDigits(r)
    decreases |r|
  {
    if |r| == 0 then 0 else DigitsValue(r[..|r| - 1]) * 10 + (r[|r| - 1] as int - '0' as int)
  }

  function Digit(d: nat): (c: char)
    requires d < 10
    ensures '0' <= c <= '9'
    ensures c as int - '0' as int == d
  {
    "0123456789"[d]
  }

  /** Decimal digits of `n`, most significant first, no leading zero. */
  function NatToString(n: nat): (r: string)
    ensures 1 <= |r| && AllDigits(r)
    ensures 1 < |r| ==> r[0] != '0'
    ensures DigitsValue(r) == n
  {
    if n < 10 then [Digit(n)]
    else
      var r := NatToString(n / 10) + [Digit(n % 10)];
      assert r[..|r| - 1] == NatToString(n / 10);
      r
  }

  /** `int.ToString()`: a minus sign for negative values, then the digits. */
  function IntToString(i: int): (r: string)
    ensures 1 <= |r|
    ensures r[0] == '-' <==> i < 0
    ensures forall k :: 0 <= k < |r| ==> r[k] == '-' || '0' <= r[k] <= '9'
    ensures i >= 0 ==> AllDigits(r) && DigitsValue(r) == i
    ensures i < 0 ==> AllDigits(r[1..]) && DigitsValue(r[1..]) == -i
  {
    if i < 0 then
      var r := "-" + NatToString(-i);
      assert r[1..] == NatToString(-i);
      r
    else NatToString(i)
  }

  /** Different numbers are written differently. */
  lemma IntToStringInjective(i: int, j: int)
    requires IntToString(i) == IntToString(j)
    ensures i == j
  {
    if i < 0 {
      assert IntToString(i)[1..] == IntToString(j)[1..];
    }
  }

  /** `bool.ToString()` in .NET. */
  function BoolToString(b: bool): (r: string)
    ensures 4 <= |r| && r[0] == (if b then 'T' else 'F')
    ensures forall k :: 0 <= k < |r| ==> 'A' <= r[k] <= 'z'
  {
    if b then "True" else "False"
  }
}
