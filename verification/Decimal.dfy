/** Decimal digits, as int2str prints them. */
module Decimal {
  import opened SeqFacts

  predicate IsDigit(c: char) { '0' <= c <= '9' }

  /** The value of a digit; other characters have none. */
  function DigitValue(c: char): nat {
    if IsDigit(c) then (c - '0') as int else 0
  }

  function Digit(d: nat): (c: char)
    requires d < 10
    ensures IsDigit(c) && DigitValue(c) == d
  {
    '0' + d as char
  }

  function Digits(n: nat): string {
    if n < 10 then [Digit(n)] else Digits(n / 10) + [Digit(n % 10)]
  }

  /** Reading decimal digits back, left to right. */
  function Value(s: string): nat
    requires forall c :: c in s ==> IsDigit(c)
  {
    if s == "" then 0 else 10 * Value(s[..|s| - 1]) + DigitValue(s[|s| - 1])
  }

  lemma {:induction false} DigitsReadBack(n: nat)
    ensures Digits(n) != ""
    ensures forall c :: c in Digits(n) ==> IsDigit(c)
    ensures Value(Digits(n)) == n
  {
    if n < 10 {
      assert Digits(n)[..0] == "";
    } else {
      DigitsReadBack(n / 10);
      var d := Digits(n);
      assert d == Digits(n / 10) + [Digit(n % 10)];
      assert d[..|d| - 1] == Digits(n / 10);
    }
  }

  /** 20 digits and a closing zero. */
  const INT2STR_MAX_LEN := 21

  lemma {:induction false} DigitsFit(n: nat, k: nat)
    requires n < Power10(k) && k > 0
    ensures |Digits(n)| <= k
  {
    if n >= 10 { DigitsFit(n / 10, k - 1); }
  }

  function Power10(k: nat): nat {
    if k == 0 then 1 else 10 * Power10(k - 1)
  }

  /** The digits still to come, then the ones already in the buffer. */
  function Printed(rest: nat, s: string): string {
    if s != "" && rest == 0 then s else Digits(rest) + s
  }

  lemma PrintedStep(rest: nat, s: string)
    requires rest != 0 || s == ""
    ensures Printed(rest, s) == Printed(rest / 10, [Digit(rest % 10)] + s)
  {
    assert Digits(rest % 10) == [Digit(rest % 10)];
    if rest >= 10 { Assoc(Digits(rest / 10), [Digit(rest % 10)], s); }
  }

  /** How far int2str has come with n: what is left of it, and the digits in the buffer. */
  predicate Printing(rest: nat, done: string, n: nat) {
    (rest == 0 ==> done != "" || n == 0) && Printed(rest, done) == Digits(n)
  }

  lemma PrintingNext(rest: nat, done: string, n: nat)
    requires Printing(rest, done, n) && (rest != 0 || done == "")
    ensures |done| < |Digits(n)| && Printing(rest / 10, [Digit(rest % 10)] + done, n)
  {
    PrintedStep(rest, done);
    DigitsReadBack(rest);
  }

  /** int2str on an unsigned int: fills its buffer from the back, never past its front. */
  method Int2Str(n: nat) returns (s: string)
    requires n < 0x1_0000_0000
    ensures s == Digits(n)
  {
    DigitsFitWord(n);
    var r := new char[INT2STR_MAX_LEN];
    var l, i := n, INT2STR_MAX_LEN - 2;
    r[INT2STR_MAX_LEN - 1] := '\0';
    ghost var done := "";
    assert Digits(n) + "" == Digits(n);
    while true
      invariant 0 <= i && i + 1 + |done| == INT2STR_MAX_LEN - 1 && r[i + 1..INT2STR_MAX_LEN - 1] == done
      invariant Printing(l, done, n) && (l != 0 || done == "")
      decreases i
    {
      PrintingNext(l, done, n);
      done := [Digit(l % 10)] + done;
      r[i] := Digit(l % 10);
      i := i - 1;
      l := l / 10;
      if !(l != 0 && i >= 0) { break; }
    }
    s := r[i + 1..INT2STR_MAX_LEN - 1];
  }

  lemma DigitsFitWord(n: nat)
    requires n < 0x1_0000_0000
    ensures |Digits(n)| <= 10
  {
    assert Power10(10) == 10_000_000_000;
    DigitsFit(n, 10);
  }
}
