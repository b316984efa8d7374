/** Decimal numbers: formatting, reading back, and padding with zeros. */
module Decimals {
  import opened Words

  function Digit(d: nat): char
    requires d < 10
  {
    '0' + d as char
  }

  /** Decimal formatting. */
  function Decimal(n: nat): (r: string)
    ensures r != "" && forall i :: 0 <= i < |r| ==> '0' <= r[i] <= '9'
  {
    if n < 10 then [Digit(n)] else Decimal(n / 10) + [Digit(n % 10)]
  }

  function DigitsValue(s: string): Option<nat> {
    if s == "" then Some(0)
    else
      match DigitsValue(s[..|s| - 1])
      case None => None
      case Some(v) =>
        var c := s[|s| - 1];
        if '0' <= c <= '9' then Some(10 * v + (c as int - '0' as int)) else None
  }

  /** A text has a value exactly if it is made of digits. */
  lemma {:induction false} DigitsOnly(s: string)
    ensures DigitsValue(s).Some? <==> forall i :: 0 <= i < |s| ==> '0' <= s[i] <= '9'
    decreases |s|
  {
    if s != "" {
      DigitsOnly(s[..|s| - 1]);
    }
  }

  lemma {:induction false} DecimalValue(n: nat)
    ensures DigitsValue(Decimal(n)) == Some(n)
    decreases n
  {
    if n >= 10 {
      DecimalValue(n / 10);
      assert Decimal(n)[..|Decimal(n)| - 1] == Decimal(n / 10);
    } else {
      assert Decimal(n)[..0] == "";
    }
  }

  function Zeros(n: nat): (r: string)
    ensures |r| == n && forall i :: 0 <= i < n ==> r[i] == '0'
  {
    seq(n, _ => '0')
  }

  /** A number with at least `width` digits. */
  function Pad(n: nat, width: nat): (r: string)
    ensures |r| >= width
  {
    if |Decimal(n)| >= width then Decimal(n) else Zeros(width - |Decimal(n)|) + Decimal(n)
  }

  lemma {:induction false} ZerosValue(n: nat)
    ensures DigitsValue(Zeros(n)) == Some(0)
    decreases n
  {
    if n > 0 {
      assert Zeros(n)[..n - 1] == Zeros(n - 1);
      ZerosValue(n - 1);
    }
  }

  lemma {:induction false} LeadingZeros(n: nat, s: string)
    ensures DigitsValue(Zeros(n) + s) == DigitsValue(s)
    decreases |s|
  {
    if s == "" {
      assert Zeros(n) + s == Zeros(n);
      ZerosValue(n);
    } else {
      assert (Zeros(n) + s)[..|Zeros(n) + s| - 1] == Zeros(n) + s[..|s| - 1];
      LeadingZeros(n, s[..|s| - 1]);
    }
  }

  lemma PadValue(n: nat, width: nat)
    ensures DigitsValue(Pad(n, width)) == Some(n)
  {
    DecimalValue(n);
    LeadingZeros(if |Decimal(n)| >= width then 0 else width - |Decimal(n)|, Decimal(n));
  }

  /** Two or three digits are enough for the parts of a clock. */
  lemma PadExact(n: nat)
    ensures n < 100 ==> |Pad(n, 2)| == 2
    ensures n < 1000 ==> |Pad(n, 3)| == 3
  {
    if n < 1000 {
      assert n / 10 < 10 ==> |Decimal(n / 10)| == 1;
      assert n / 10 < 100 ==> |Decimal(n / 10)| <= 2;
    }
  }
}
