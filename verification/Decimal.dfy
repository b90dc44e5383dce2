/** Unsigned 64-bit decimal text: strconv.FormatUint and strconv.ParseUint in base ten. */
module Decimal {
  import opened Wrappers

  const MAX_UINT64: nat := 0xFFFF_FFFF_FFFF_FFFF

  function Pow10(n: nat): (p: nat)
    ensures p >= 1
  {
    if n == 0 then 1 else 10 * Pow10(n - 1)
  }

  predicate IsDigit(c: char) {
    '0' <= c <= '9'
  }

  predicate AllDigits(s: string) {
    forall i | 0 <= i < |s| :: IsDigit(s[i])
  }

  function Digit(d: nat): (c: char)
    requires d < 10
    ensures IsDigit(c) && DigitValue(c) == d
  {
    ('0' as int + d) as char
  }

  function DigitValue(c: char): (d: nat)
    requires IsDigit(c)
    ensures d < 10
  {
    c as int - '0' as int
  }

  function Format(n: nat): (s: string)
    ensures |s| >= 1 && AllDigits(s)
  {
    if n < 10 then [Digit(n)] else Format(n / 10) + [Digit(n % 10)]
  }

  function ValueOf(s: string): nat
    requires AllDigits(s)
  {
    if s == "" then 0 else 10 * ValueOf(s[..|s| - 1]) + DigitValue(s[|s| - 1])
  }

  function ParseUint(s: string): Option<nat> {
    if s == "" || !AllDigits(s) || ValueOf(s) > MAX_UINT64 then None else Some(ValueOf(s))
  }

  function Repeat(c: char, n: nat): (s: string)
    ensures |s| == n
  {
    seq(n, _ => c)
  }

  lemma {:induction false} ValueOfFormat(n: nat)
    ensures ValueOf(Format(n)) == n
  {
    var s := Format(n);
    if n >= 10 {
      ValueOfFormat(n / 10);
      assert s[..|s| - 1] == Format(n / 10);
    } else {
      assert s[..0] == "";
      assert ValueOf(s) == 10 * ValueOf(s[..0]) + DigitValue(s[0]);
    }
  }

  /** Formatting never writes a leading zero, except for zero itself. */
  lemma {:induction false} FormatLeading(n: nat)
    ensures n > 0 ==> Format(n)[0] != '0'
  {
    if n >= 10 {
      FormatLeading(n / 10);
    }
  }

  lemma {:induction false} ValueLeading(s: string)
    requires AllDigits(s) && |s| >= 1
    ensures s[0] != '0' ==> ValueOf(s) > 0
  {
    if |s| > 1 {
      ValueLeading(s[..|s| - 1]);
    }
  }

  /** Text without leading zeros is what formatting its value writes. */
  lemma {:induction false} FormatOfValue(s: string)
    requires AllDigits(s) && |s| >= 1 && (|s| == 1 || s[0] != '0')
    ensures Format(ValueOf(s)) == s
  {
    var d := DigitValue(s[|s| - 1]);
    if |s| == 1 {
      assert ValueOf(s) == 10 * ValueOf(s[..0]) + d;
      assert s == [Digit(d)];
    } else {
      var head := s[..|s| - 1];
      ValueLeading(head);
      FormatOfValue(head);
      assert s == head + [Digit(d)];
      assert ValueOf(s) / 10 == ValueOf(head) && ValueOf(s) % 10 == d;
    }
  }

  lemma {:induction false} ValueOfPadded(k: nat, s: string)
    requires AllDigits(s)
    ensures AllDigits(Repeat('0', k) + s) && ValueOf(Repeat('0', k) + s) == ValueOf(s)
    decreases |s|, k
  {
    var p := Repeat('0', k) + s;
    if s != "" {
      assert p[..|p| - 1] == Repeat('0', k) + s[..|s| - 1];
      ValueOfPadded(k, s[..|s| - 1]);
    } else if k > 0 {
      assert p[..k - 1] == Repeat('0', k - 1) + "";
      ValueOfPadded(k - 1, "");
    }
  }

  /** Zero padding the formatted value of a digit string back to its length restores it. */
  lemma {:induction false} PadOfValue(s: string)
    requires AllDigits(s) && |s| >= 1
    ensures var t := Format(ValueOf(s)); |t| <= |s| && Repeat('0', |s| - |t|) + t == s
  {
    if |s| == 1 || s[0] != '0' {
      FormatOfValue(s);
      assert Repeat('0', 0) + s == s;
    } else {
      var rest := s[1..];
      assert s == Repeat('0', 1) + rest;
      ValueOfPadded(1, rest);
      PadOfValue(rest);
      var t := Format(ValueOf(s));
      assert Repeat('0', |s| - |t|) == Repeat('0', 1) + Repeat('0', |rest| - |t|);
    }
  }

  lemma {:induction false} FormatLength(n: nat, len: nat)
    requires len >= 1
    ensures |Format(n)| <= len <==> n < Pow10(len)
  {
    assert Pow10(len) == 10 * Pow10(len - 1) && Pow10(0) == 1;
    if n >= 10 && len >= 2 {
      FormatLength(n / 10, len - 1);
      assert n / 10 < Pow10(len - 1) <==> n < 10 * Pow10(len - 1);
    }
  }
}
