// Numbers written in digits, and the number a row of digits stands for.

module Numerals {
  import opened Arithmetic

  predicate IsBase(base: nat) {
    base == 10 || base == 16
  }

  function Mark(d: nat, big: bool): char
    requires d < 16
  {
    if big then "0123456789ABCDEF"[d] else "0123456789abcdef"[d]
  }

  predicate IsDigit(ch: char, base: nat) {
    '0' <= ch <= '9' || (base == 16 && ('a' <= ch <= 'f' || 'A' <= ch <= 'F'))
  }

  function Digit(ch: char): (d: nat)
    requires IsDigit(ch, 16)
    ensures d < 16 && (IsDigit(ch, 10) ==> d < 10)
  {
    if '0' <= ch <= '9' then ch as int - '0' as int
    else if 'a' <= ch <= 'f' then 10 + ch as int - 'a' as int
    else 10 + ch as int - 'A' as int
  }

  // The characters themselves, and what each is worth.
  lemma DigitCharacters(ch: char, d: nat)
    requires d < 16
    ensures IsDigit(ch, 10) <==> ch in "0123456789"
    ensures IsDigit(ch, 16) <==> ch in "0123456789abcdefABCDEF"
    ensures "0123456789abcdef"[d] == ch || "0123456789ABCDEF"[d] == ch <==> IsDigit(ch, 16) && Digit(ch) == d
    ensures Mark(d, false) == "0123456789abcdef"[d] && Mark(d, true) == "0123456789ABCDEF"[d]
  {
  }

  predicate AreDigits(s: string, base: nat) {
    forall i | 0 <= i < |s| :: IsDigit(s[i], base)
  }

  // The shortest row of digits, which is empty for zero.
  function Digits(n: nat, base: nat, big: bool): string
    requires IsBase(base)
  {
    if n == 0 then "" else Digits(n / base, base, big) + [Mark(n % base, big)]
  }

  function Value(s: string, base: nat): nat
    requires IsBase(base) && AreDigits(s, base)
  {
    if s == "" then 0 else base * Value(s[..|s| - 1], base) + Digit(s[|s| - 1])
  }

  function Zeros(n: nat): (s: string)
    ensures |s| == n && forall i | 0 <= i < n :: s[i] == '0'
  {
    seq(n, i => '0')
  }

  lemma MarkIsDigit(d: nat, base: nat, big: bool)
    requires IsBase(base) && d < base
    ensures IsDigit(Mark(d, big), base) && IsDigit(Mark(d, big), 16) && Digit(Mark(d, big)) == d
    ensures 0 < d ==> Mark(d, big) != '0'
  {
  }

  lemma PushDigit(s: string, ch: char, base: nat)
    requires IsBase(base) && AreDigits(s, base) && IsDigit(ch, base)
    ensures AreDigits(s + [ch], base) && IsDigit(ch, 16) && Value(s + [ch], base) == base * Value(s, base) + Digit(ch)
  {
    hide Digit;
    assert (s + [ch])[..|s|] == s;
  }

  lemma LastDigit(n: nat, base: nat, big: bool)
    requires IsBase(base) && 0 < n
    ensures 0 <= n / base < n && 0 <= n % base < base && n == base * (n / base) + n % base
    ensures Digits(n, base, big) == Digits(n / base, base, big) + [Mark(n % base, big)]
    ensures n / base == 0 ==> Digits(n / base, base, big) == "" && n % base == n
  {
  }

  lemma {:induction false} ValueOfDigits(n: nat, base: nat, big: bool)
    requires IsBase(base)
    ensures AreDigits(Digits(n, base, big), base) && Value(Digits(n, base, big), base) == n
    ensures 0 < n ==> |Digits(n, base, big)| > 0 && Digits(n, base, big)[0] != '0'
  {
    if 0 < n {
      hide Mark, Digit, IsDigit, Digits, Value, AreDigits;
      LastDigit(n, base, big);
      ValueOfDigits(n / base, base, big);
      MarkIsDigit(n % base, base, big);
      PushDigit(Digits(n / base, base, big), Mark(n % base, big), base);
    }
  }

  // n with k more digits, all zeros, at its end.
  function Raised(n: nat, k: nat): nat {
    if k == 0 then n else 10 * Raised(n, k - 1)
  }

  // Exactly k decimal digits.
  function Padded(n: nat, k: nat): (s: string)
    ensures |s| == k
  {
    if k == 0 then "" else Padded(n / 10, k - 1) + [Mark(n % 10, false)]
  }

  // The digits of a number are the digits of its upper part, then all k of its lower part.
  lemma {:induction false} DigitsSplit(q: nat, m: nat, k: nat)
    requires 0 < q && m < Raised(1, k)
    ensures Digits(Raised(q, k) + m, 10, false) == Digits(q, 10, false) + Padded(m, k)
  {
    if k > 0 {
      DigitsSplit(q, m / 10, k - 1);
      var n := Raised(q, k) + m;
      assert n / 10 == Raised(q, k - 1) + m / 10 && n % 10 == m % 10;
      assert 0 < n;
    }
  }

  lemma {:induction false} PaddedIsZeros(m: nat, k: nat)
    requires m < Raised(1, k)
    ensures |Digits(m, 10, false)| <= k && Padded(m, k) == Zeros(k - |Digits(m, 10, false)|) + Digits(m, 10, false)
  {
    if k > 0 {
      PaddedIsZeros(m / 10, k - 1);
      if m == 0 {
        assert Zeros(k - 1) + [Mark(0, false)] == Zeros(k);
      }
    }
  }

  lemma {:induction false} DigitsLength(n: nat, k: nat)
    requires n < Raised(1, k)
    ensures |Digits(n, 10, false)| <= k
  {
    PaddedIsZeros(n, k);
  }

  lemma Billion(num: nat)
    ensures num == Raised(num / 1_000_000_000, 9) + num % 1_000_000_000 && Raised(1, 9) == 1_000_000_000
  {
    assert Raised(1, 9) == 1_000_000_000;
    var q := num / 1_000_000_000;
    assert Raised(q, 9) == 10 * Raised(q, 8) == 100 * Raised(q, 7) == 1000 * Raised(q, 6) == 1_0000 * Raised(q, 5);
    assert Raised(q, 5) == 10 * Raised(q, 4) == 100 * Raised(q, 3) == 1000 * Raised(q, 2) == 1_0000 * Raised(q, 1);
  }

  // A zero in front changes nothing.
  lemma {:induction false} LeadingZeros(k: nat, s: string, base: nat)
    requires IsBase(base) && AreDigits(s, base)
    ensures AreDigits(Zeros(k) + s, base) && Value(Zeros(k) + s, base) == Value(s, base)
  {
    var t := Zeros(k) + s;
    if s == "" {
      if k > 0 {
        assert t[..k - 1] == Zeros(k - 1) + "";
        LeadingZeros(k - 1, s, base);
      }
    } else {
      assert t[..|t| - 1] == Zeros(k) + s[..|s| - 1];
      LeadingZeros(k, s[..|s| - 1], base);
    }
  }
}
