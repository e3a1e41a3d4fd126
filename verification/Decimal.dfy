/** Integers written in decimal, and read back. */
module Decimal {
  function Digit(d: nat): char
    requires d < 10
  {
    ('0' as int + d) as char
  }

  function Digits(n: nat): (s: string)
    ensures |s| > 0
  {
    if n < 10 then [Digit(n)] else Digits(n / 10) + [Digit(n % 10)]
  }

  function Itoa(n: int): (s: string)
    ensures |s| > 0
  {
    if n < 0 then "-" + Digits(-n) else Digits(n)
  }

  predicate IsDigit(c: char) {
    '0' <= c <= '9'
  }

  predicate AllDigits(s: string) {
    |s| > 0 && forall i | 0 <= i < |s| :: IsDigit(s[i])
  }

  function Value(s: string): nat
    requires forall i | 0 <= i < |s| :: IsDigit(s[i])
  {
    if s == "" then 0
    else
      assert IsDigit(s[|s| - 1]);
      10 * Value(s[..|s| - 1]) + (s[|s| - 1] as int - '0' as int)
  }

  /** The number a string stands for; zero if it stands for none. */
  function Atoi(s: string): int {
    if AllDigits(s) then Value(s)
    else if |s| > 0 && s[0] == '+' && AllDigits(s[1..]) then Value(s[1..])
    else if |s| > 0 && s[0] == '-' && AllDigits(s[1..]) then 0 - Value(s[1..])
    else 0
  }

  lemma {:induction false} DigitsValue(n: nat)
    ensures AllDigits(Digits(n)) && Value(Digits(n)) == n
  {
    if n >= 10 {
      DigitsValue(n / 10);
      var s := Digits(n);
      assert s[..|s| - 1] == Digits(n / 10);
    }
  }

  /** What other strings stand for: leading zeros and a sign are read, and what is not a numeral is zero. */
  lemma AtoiMeans(s: string)
    ensures AllDigits(s) ==> Atoi("0" + s) == Atoi("+" + s) == Atoi(s) && Atoi("-" + s) == -Atoi(s)
    ensures Atoi("") == 0 && ((exists i | 0 < i < |s| :: !IsDigit(s[i])) ==> Atoi(s) == 0)
    ensures |s| > 0 && !IsDigit(s[0]) && s[0] != '+' && s[0] != '-' ==> Atoi(s) == 0
  {
    if AllDigits(s) {
      assert ("+" + s)[1..] == s && ("-" + s)[1..] == s;
      LeadingZero(s);
    }
    if i :| 0 < i < |s| && !IsDigit(s[i]) {
      assert s[1..][i - 1] == s[i];
    }
  }

  lemma {:induction false} LeadingZero(s: string)
    requires forall i | 0 <= i < |s| :: IsDigit(s[i])
    ensures var z := "0" + s; (forall i | 0 <= i < |z| :: IsDigit(z[i])) && Value(z) == Value(s)
    decreases |s|
  {
    var z := "0" + s;
    if s != "" {
      var front := s[..|s| - 1];
      LeadingZero(front);
      assert z[..|z| - 1] == "0" + front;
    }
  }

  lemma RoundTrip(n: int)
    ensures Atoi(Itoa(n)) == n
  {
    if n < 0 {
      DigitsValue(-n);
      assert Itoa(n)[1..] == Digits(-n) && !IsDigit(Itoa(n)[0]);
    } else {
      DigitsValue(n);
    }
  }
}
