/** Numbers as they are written in names. */
module Decimals {
  function Decimal(n: nat): (s: string)
    ensures s != "" && forall i :: 0 <= i < |s| ==> '0' <= s[i] <= '9'
    ensures s[0] == '0' ==> n == 0 && s == "0"
  {
    var digit := ('0' as int + n % 10) as char;
    if n < 10 then [digit] else Decimal(n / 10) + [digit]
  }

  function Number(s: string): int {
    if s == "" then 0 else Number(s[..|s| - 1]) * 10 + (s[|s| - 1] as int - '0' as int)
  }

  lemma {:induction false} DecimalInverse(n: nat)
    ensures Number(Decimal(n)) == n
  {
    if n >= 10 {
      DecimalInverse(n / 10);
      assert Decimal(n)[..|Decimal(n)| - 1] == Decimal(n / 10);
    } else {
      assert Decimal(n)[..0] == "";
    }
  }

  /** Different numbers behind the same text make different names. */
  lemma NumbersDiffer(head: string, j: nat, k: nat)
    requires j != k
    ensures head + Decimal(j) != head + Decimal(k)
  {
    DecimalInverse(j);
    DecimalInverse(k);
    assert (head + Decimal(j))[|head|..] == Decimal(j) && (head + Decimal(k))[|head|..] == Decimal(k);
  }
}
