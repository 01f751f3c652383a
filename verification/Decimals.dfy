// The decimal text of a number, as string interpolation writes it.
module Decimals {
  const DIGITS := "0123456789"

  function Print(n: nat): (r: string)
    ensures r != "" && (n == 0 <==> r[0] == '0')
    ensures (n < 10 <==> |r| == 1) && (10 <= n < 100 ==> |r| == 2)
  {
    if n < 10 then [DIGITS[n]] else Print(n / 10) + [DIGITS[n % 10]]
  }
}
