/** Decimal digits of natural numbers, digit reversal and the reverse-and-add
    transform T(n) = n + reverse(n).

    `str(n)` is modelled by `Digits(n)` (most significant digit first, no
    leading zero, `[0]` for zero) and `int(s)` by `Value(s)`, which ignores
    leading zeros the way `int("021") == 21` does. */
module Decimal {

  function Pow10(k: nat): (r: nat)
    ensures r >= 1
  {
    if k == 0 then 1 else 10 * Pow10(k - 1)
  }

  lemma {:induction false} Pow10Monotone(i: nat, j: nat)
    requires i <= j
    ensures Pow10(i) <= Pow10(j)
  {
    if i < j {
      Pow10Monotone(i, j - 1);
    }
  }

  ghost predicate IsDigitSeq(s: seq<nat>)
  {
    forall i :: 0 <= i < |s| ==> s[i] < 10
  }

  /** The decimal digits of `n`, as `[int(c) for c in str(n)]`. */
  function Digits(n: nat): (d: seq<nat>)
    ensures 1 <= |d|
    ensures IsDigitSeq(d)
    ensures d[0] != 0 || n == 0
    decreases n
  {
    if n < 10 then [n] else Digits(n / 10) + [n % 10]
  }

  /** Number of decimal digits, `len(str(n))`. */
  function NumDigits(n: nat): nat
  {
    |Digits(n)|
  }

  /** The number a digit sequence denotes, `int("".join(...))`. */
  function Value(s: seq<nat>): nat
  {
    if |s| == 0 then 0 else Value(s[..|s| - 1]) * 10 + s[|s| - 1]
  }

  function Reversed<T>(s: seq<T>): (r: seq<T>)
    ensures |r| == |s|
    ensures forall i :: 0 <= i < |s| ==> r[i] == s[|s| - 1 - i]
  {
    seq(|s|, i requires 0 <= i < |s| => s[|s| - 1 - i])
  }

  lemma {:induction false} ValueOfDigits(n: nat)
    ensures Value(Digits(n)) == n
    decreases n
  {
    if n >= 10 {
      var d := Digits(n / 10);
      assert (d + [n % 10])[..|d|] == d;
      ValueOfDigits(n / 10);
    }
  }

  lemma {:induction false} ValueBound(s: seq<nat>)
    requires IsDigitSeq(s)
    ensures Value(s) < Pow10(|s|)
  {
    if |s| > 0 {
      ValueBound(s[..|s| - 1]);
    }
  }

  /** A k-digit positive number lies in [10^(k-1), 10^k). */
  lemma {:induction false} DigitsBounds(n: nat)
    requires n >= 1
    ensures Pow10(NumDigits(n) - 1) <= n < Pow10(NumDigits(n))
    decreases n
  {
    if n >= 10 {
      DigitsBounds(n / 10);
      assert NumDigits(n) == NumDigits(n / 10) + 1;
    }
  }

  /** Conversely, a number in [10^(k-1), 10^k) has exactly k digits. */
  lemma {:induction false} NumDigitsFromBounds(m: nat, k: nat)
    requires 1 <= k
    requires Pow10(k - 1) <= m < Pow10(k)
    ensures NumDigits(m) == k
    decreases k
  {
    if k > 1 {
      Pow10Monotone(1, k - 1);
      assert m >= 10;
      NumDigitsFromBounds(m / 10, k - 1);
      assert NumDigits(m) == NumDigits(m / 10) + 1;
    }
  }

  /** Leading zeros do not change the value. */
  lemma {:induction false} ValueLeadingZero(s: seq<nat>)
    ensures Value([0] + s) == Value(s)
  {
    if |s| > 0 {
      var t := [0] + s;
      assert t[..|t| - 1] == [0] + s[..|s| - 1];
      ValueLeadingZero(s[..|s| - 1]);
    }
  }

  lemma {:induction false} ValuePositive(s: seq<nat>)
    requires |s| >= 1 && s[0] != 0
    ensures Value(s) >= 1
  {
    if |s| > 1 {
      ValuePositive(s[..|s| - 1]);
    }
  }

  /** A digit sequence without a leading zero is the decimal form of its value. */
  lemma {:induction false} DigitsOfValue(s: seq<nat>)
    requires IsDigitSeq(s)
    requires |s| >= 1 && (s[0] != 0 || |s| == 1)
    ensures Digits(Value(s)) == s
  {
    if |s| > 1 {
      var p := s[..|s| - 1];
      ValuePositive(p);
      DigitsOfValue(p);
      assert p + [s[|s| - 1]] == s;
    } else {
      assert Value(s) == Value([]) * 10 + s[0];
    }
  }

  /** `reverse_number(n) = int(str(n)[::-1])`: never more digits than n, and
      when n does not end in 0 the decimal form of the result is n's decimal
      form read backwards. */
  function ReverseNumber(n: nat): (r: nat)
    ensures r < Pow10(NumDigits(n))
    ensures n % 10 != 0 ==> Digits(r) == Reversed(Digits(n))
  {
    ReversedDigits(n);
    Value(Reversed(Digits(n)))
  }

  /** The reversed decimal form of n has no more digits than n, and is the
      decimal form of its value unless n ends in 0. */
  lemma ReversedDigits(n: nat)
    ensures Value(Reversed(Digits(n))) < Pow10(NumDigits(n))
    ensures n % 10 != 0 ==> Digits(Value(Reversed(Digits(n)))) == Reversed(Digits(n))
  {
    var d := Reversed(Digits(n));
    ValueBound(d);
    if n % 10 != 0 {
      DigitsLast(n);
      DigitsOfValue(d);
    }
  }

  /** The last decimal digit is n % 10. */
  lemma DigitsLast(n: nat)
    ensures Digits(n)[|Digits(n)| - 1] == n % 10
  {
  }

  /** Adding a number of at most as many digits as n keeps n's digit count
      or adds one (the carry). */
  lemma SumDigitGrowth(n: nat, m: nat)
    requires m < Pow10(NumDigits(n))
    ensures NumDigits(n + m) == NumDigits(n) || NumDigits(n + m) == NumDigits(n) + 1
  {
    var k := NumDigits(n);
    if n == 0 {
      assert Digits(0) == [0];
      if m > 0 {
        NumDigitsFromBounds(m, 1);
      }
    } else {
      DigitsBounds(n);
      if n + m < Pow10(k) {
        NumDigitsFromBounds(n + m, k);
      } else {
        NumDigitsFromBounds(n + m, k + 1);
      }
    }
  }

  /** `reverse_and_add(n) = n + reverse_number(n)`, the transform T: never
      below n, and with as many digits as n or one more (the carry), never
      fewer. */
  function ReverseAndAdd(n: nat): (r: nat)
    ensures r >= n
    ensures NumDigits(r) == NumDigits(n) || NumDigits(r) == NumDigits(n) + 1
  {
    SumDigitGrowth(n, ReverseNumber(n));
    n + ReverseNumber(n)
  }

  /** Zeros at the end of n are leading zeros of the reversal and are dropped. */
  lemma ReverseDropsTrailingZero(n: nat)
    requires n >= 10 && n % 10 == 0
    ensures ReverseNumber(n) == ReverseNumber(n / 10)
  {
    var d := Digits(n / 10);
    assert Digits(n) == d + [0];
    assert Reversed(d + [0]) == [0] + Reversed(d);
    ValueLeadingZero(Reversed(d));
  }

  /** `est_palindrome(n)` on a natural number: the decimal string equals its
      reverse. */
  predicate IsPalindrome(n: nat)
  {
    Digits(n) == Reversed(Digits(n))
  }

  /** A number ending in 0 loses a digit on reversal, so reversal never fixes
      it. */
  lemma TrailingZeroNotFixed(n: nat)
    requires n >= 10 && n % 10 == 0
    ensures ReverseNumber(n) < n
  {
    assert NumDigits(n) == NumDigits(n / 10) + 1;
    ReverseDropsTrailingZero(n);
    DigitsBounds(n);
  }

  /** A palindrome is exactly a fixed point of digit reversal, so for it
      T(n) == 2n. */
  lemma PalindromeIffReverseFixed(n: nat)
    ensures IsPalindrome(n) <==> ReverseNumber(n) == n
  {
    var d := Digits(n);
    ValueOfDigits(n);
    if n == 0 {
      assert d == [0];
    } else if n % 10 == 0 {
      TrailingZeroNotFixed(n);
      assert d[|d| - 1] == 0 && d[0] != 0;
    }
  }
}
