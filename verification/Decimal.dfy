/** Decimal numbers in texts: what `%d` and `%u` print and what atoi reads. */
module Decimal {
  import opened Bytes

  predicate IsDigit(c: byte) {
    48 <= c <= 57
  }

  function Digits(n: nat): (t: Text)
    ensures |t| >= 1 && forall i :: 0 <= i < |t| ==> IsDigit(t[i])
  {
    if n < 10 then [DIGIT_ZERO + n] else Digits(n / 10) + [DIGIT_ZERO + n % 10]
  }

  function Print(n: int): (t: Text)
    ensures |t| >= 1 && forall i :: 0 <= i < |t| ==> IsDigit(t[i]) || t[i] == MINUS
  {
    if n < 0 then [MINUS] + Digits(-n) else Digits(n)
  }

  /** The value of the digits `s` starts with, appended to those already read. */
  function ReadDigits(s: Text, acc: nat): nat {
    if s == [] || !IsDigit(s[0]) then acc else ReadDigits(s[1..], 10 * acc + (s[0] - 48))
  }

  predicate IsSpace(c: byte) {
    c == SPACE || 9 <= c <= 13
  }

  /** atoi within the range of int: white space, a sign, digits. */
  function Atoi(s: Text): int {
    if s == [] then 0
    else if IsSpace(s[0]) then Atoi(s[1..])
    else if s[0] == MINUS then 0 - ReadDigits(s[1..], 0)
    else if s[0] == 43 then ReadDigits(s[1..], 0)
    else ReadDigits(s, 0)
  }

  predicate EndsNumber(rest: Text) {
    rest == [] || !IsDigit(rest[0])
  }

  lemma {:induction false} ReadPrinted(n: nat, rest: Text)
    ensures ReadDigits(Digits(n) + rest, 0) == ReadDigits(rest, n)
  {
    if n < 10 {
      assert ([DIGIT_ZERO + n] + rest)[1..] == rest;
    } else {
      var last := [DIGIT_ZERO + n % 10];
      ReadPrinted(n / 10, last + rest);
      ConcatAssociates(Digits(n / 10), last, rest);
      assert (last + rest)[1..] == rest;
    }
  }

  /** A printed number is read back, whatever follows it but a digit. */
  lemma AtoiPrinted(n: int, rest: Text)
    requires EndsNumber(rest)
    ensures Atoi(Print(n) + rest) == n
  {
    if n < 0 {
      ReadPrinted(-n, rest);
      assert (Print(n) + rest)[1..] == Digits(-n) + rest;
    } else {
      ReadPrinted(n, rest);
      assert IsDigit((Print(n) + rest)[0]);
    }
  }

  function PowerOfTen(k: nat): nat {
    if k == 0 then 1 else 10 * PowerOfTen(k - 1)
  }

  lemma {:induction false} DigitsLength(n: nat, k: nat)
    requires k >= 1 && n < PowerOfTen(k)
    ensures |Digits(n)| <= k
  {
    if n >= 10 {
      DigitsLength(n / 10, k - 1);
    }
  }
}
