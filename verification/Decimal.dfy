/** Decimal rendering of integers, as `format!("{n}")` writes it. */
module Decimal {

  function Digit(n: nat): char
    requires n < 10
  {
    "0123456789"[n]
  }

  function NatText(n: nat): (t: string)
    ensures t != []
  {
    if n < 10 then [Digit(n)] else NatText(n / 10) + [Digit(n % 10)]
  }

  function IntText(n: int): string {
    if n < 0 then "-" + NatText(-n) else NatText(n)
  }

  lemma {:induction false} NatTextDigits(n: nat)
    ensures forall i :: 0 <= i < |NatText(n)| ==> '0' <= NatText(n)[i] <= '9'
  {
    if n >= 10 { NatTextDigits(n / 10); }
  }

  /** Different numbers have different texts. */
  lemma {:induction false} NatTextInjective(m: nat, n: nat)
    requires NatText(m) == NatText(n)
    ensures m == n
  {
    var t := NatText(m);
    if m >= 10 { assert t[..|t| - 1] == NatText(m / 10) && t[|t| - 1] == Digit(m % 10); }
    if n >= 10 { assert t[..|t| - 1] == NatText(n / 10) && t[|t| - 1] == Digit(n % 10); }
    if m >= 10 && n >= 10 {
      NatTextInjective(m / 10, n / 10);
    }
  }

  // ---- Reading ---------------------------------------------------------------------------------

  /** The number a run of decimal digits stands for, most significant digit first. */
  function ReadNat(t: string): int {
    if t == "" then 0 else 10 * ReadNat(t[..|t| - 1]) + (t[|t| - 1] as int - '0' as int)
  }

  function ReadInt(t: string): int {
    if t != "" && t[0] == '-' then -ReadNat(t[1..]) else ReadNat(t)
  }

  lemma {:induction false} ReadNatText(n: nat)
    ensures ReadNat(NatText(n)) == n
    decreases n
  {
    var t := NatText(n);
    if n < 10 {
      assert t[..0] == "" && t[0] == Digit(n);
    } else {
      ReadNatText(n / 10);
      assert t[..|t| - 1] == NatText(n / 10) && t[|t| - 1] == Digit(n % 10);
    }
  }

  /** The decimal rendering stands for the number it was made from. */
  lemma ReadIntText(n: int)
    ensures ReadInt(IntText(n)) == n
  {
    var m := if n < 0 then -n else n;
    ReadNatText(m);
    NatTextDigits(m);
    if n < 0 { assert ("-" + NatText(m))[1..] == NatText(m); }
  }
}
