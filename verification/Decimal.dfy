/** Decimal numerals as the standard library prints and parses them. */
module Decimal {
  import opened CharacterClasses

  function Digit(d: nat): (c: char)
    requires d < 10
    ensures IsDigit(c)
  {
    ('0' as int + d) as char
  }

  // Print a natural number without leading zeros.
  function Print(n: nat): string {
    if n < 10 then [Digit(n)] else Print(n / 10) + [Digit(n % 10)]
  }

  function PrintInt(n: int): string {
    if n < 0 then "-" + Print(-n) else Print(n)
  }

  predicate AllDigits(s: string) {
    forall i :: 0 <= i < |s| ==> IsDigit(s[i])
  }

  function Value(s: string): nat
    requires AllDigits(s)
  {
    if s == "" then 0 else 10 * Value(s[..|s| - 1]) + (s[|s| - 1] as int - '0' as int)
  }

  // How many digits s starts with.
  function DigitCount(s: string): (n: nat)
    ensures n <= |s| && AllDigits(s[..n])
    ensures n < |s| ==> !IsDigit(s[n])
  {
    if s == "" || !IsDigit(s[0]) then 0 else 1 + DigitCount(s[1..])
  }

  lemma {:induction false} PrintIsNumeral(n: nat)
    ensures AllDigits(Print(n)) && Print(n) != "" && Value(Print(n)) == n
  {
    if n < 10 {
      assert Value("") == 0;
      assert Print(n)[..0] == "";
    } else {
      PrintIsNumeral(n / 10);
      assert Print(n)[..|Print(n)| - 1] == Print(n / 10);
    }
  }

  // Reading back a printed number, up to whatever ends it.
  lemma {:induction false} DigitCountOf(s: string, rest: string)
    requires AllDigits(s) && (rest != "" ==> !IsDigit(rest[0]))
    ensures DigitCount(s + rest) == |s|
  {
    if s == "" {
      assert s + rest == rest;
    } else {
      assert (s + rest)[1..] == s[1..] + rest;
      DigitCountOf(s[1..], rest);
    }
  }

  /** A number is printed in its shortest form, in digits from the most significant
      on: its numeral without leading zeros. */
  lemma {:induction false} PrintIsShortest(n: nat)
    ensures Print(n) != "" && (Print(n)[0] == '0' ==> Print(n) == "0" && n == 0)
  {
    if n >= 10 {
      PrintIsShortest(n / 10);
    }
  }

  // Numerals without leading zeros are determined by their value.
  lemma {:induction false} ShortestIsPrint(s: string)
    requires AllDigits(s) && s != "" && (s[0] == '0' ==> s == "0")
    ensures Print(Value(s)) == s
  {
    var front, last := s[..|s| - 1], s[|s| - 1];
    assert s == front + [last];
    if front == "" {
      assert Value(s) < 10;
    } else {
      ShortestIsPrint(front);
      ValueIsPositive(front);
      assert Value(s) / 10 == Value(front) && Value(s) % 10 == last as int - '0' as int;
    }
  }

  lemma {:induction false} ValueIsPositive(s: string)
    requires AllDigits(s) && s != "" && s[0] != '0'
    ensures Value(s) > 0
  {
    if |s| > 1 {
      ValueIsPositive(s[..|s| - 1]);
    }
  }

  /* ---------- leading zeros ---------- */

  function Zeros(k: nat): (s: string)
    ensures |s| == k && forall i :: 0 <= i < k ==> s[i] == '0'
  {
    seq(k, _ => '0')
  }

  // The numeral of n behind zeros has n's value.
  lemma {:induction false} ZerosAdd(k: nat, n: nat)
    ensures AllDigits(Zeros(k) + Print(n)) && Value(Zeros(k) + Print(n)) == n
    decreases k
  {
    PrintIsNumeral(n);
    if k == 0 {
      assert Zeros(0) + Print(n) == Print(n);
    } else {
      ZerosAdd(k - 1, n);
      assert Zeros(k) + Print(n) == ['0'] + (Zeros(k - 1) + Print(n));
      ZeroInFront(Zeros(k - 1) + Print(n));
    }
  }

  lemma {:induction false} ZeroInFront(s: string)
    requires AllDigits(s)
    ensures AllDigits(['0'] + s) && Value(['0'] + s) == Value(s)
    decreases |s|
  {
    var t := ['0'] + s;
    if s == "" {
      assert t[..|t| - 1] == "";
    } else {
      assert t[..|t| - 1] == ['0'] + s[..|s| - 1];
      ZeroInFront(s[..|s| - 1]);
    }
  }

  // Digits are zeros and the shortest numeral of their value.
  lemma {:induction false} DigitsAre(s: string) returns (k: nat)
    requires s != "" && AllDigits(s)
    ensures s == Zeros(k) + Print(Value(s))
    decreases |s|
  {
    if s[0] == '0' && |s| > 1 {
      var j := DigitsAre(s[1..]);
      assert s == ['0'] + s[1..];
      ZeroInFront(s[1..]);
      k := j + 1;
      assert s == Zeros(k) + Print(Value(s));
    } else {
      k := 0;
      assert s[0] == '0' ==> s == "0";
      ShortestIsPrint(s);
      assert Zeros(0) + s == s;
    }
  }
}
