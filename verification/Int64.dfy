// 64-bit division as putka-clib/src/int64.c does it: shift, compare and subtract, on words that
// wrap.

module Int64 {
  import opened Arithmetic

  const TWO_63: int := 0x8000_0000_0000_0000
  const TWO_64: int := 0x1_0000_0000_0000_0000
  const INT64_MIN: int := -TWO_63

  type uint64 = x: int | 0 <= x < TWO_64
  type int64 = x: int | -TWO_63 <= x < TWO_63

  function Wrap(x: int): uint64 {
    x % TWO_64
  }

  // The same 64 bits, read as a signed number.
  function Signed(x: uint64): int64 {
    if x < TWO_63 then x else x - TWO_64
  }

  function Pow2(n: nat): nat {
    if n == 0 then 1 else 2 * Pow2(n - 1)
  }

  // The machine stops at a division by zero.
  datatype Division = DivideError | Divided(quotient: uint64, rem: uint64)

  // b shifted left n times, with no bit lost.
  function Shifted(b: nat, n: nat): nat {
    if n == 0 then b else 2 * Shifted(b, n - 1)
  }

  function Times(q: nat, b: nat): nat {
    q * b
  }

  lemma {:induction false} ShiftedIsProduct(b: nat, n: nat)
    ensures Shifted(b, n) == Times(Pow2(n), b) == Pow2(n) * b
    ensures 0 < b ==> Pow2(n) <= Shifted(b, n)
  {
    if n > 0 {
      ShiftedIsProduct(b, n - 1);
      assert Pow2(n) * b == 2 * (Pow2(n - 1) * b);
    }
  }

  // One more subtraction of b shifted: what the result counts, in a word.
  lemma Counted(a: uint64, sum: nat, result: nat, b: nat, n: nat)
    requires 0 < b && sum == Times(result, b) && sum + Shifted(b, n) <= a
    ensures sum + Shifted(b, n) == Times(result + Pow2(n), b)
    ensures Pow2(n) <= result + Pow2(n) < TWO_64
  {
    ShiftedIsProduct(b, n);
    assert (result + Pow2(n)) * b == result * b + Pow2(n) * b;
    if 0 < result {
      MulSign(result, b);
    }
  }

  // Adding two words below 2^64: the two tests of the loop together say when the sum is at most a.
  lemma WrappedTests(sum: uint64, b: uint64, a: uint64)
    ensures Wrap(sum + b) > a || Wrap(sum + b) < sum <==> sum + b > a
  {
    if sum + b < TWO_64 {
      assert Wrap(sum + b) == sum + b;
    } else {
      assert Wrap(sum + b) == sum + b - TWO_64;
    }
  }

  lemma Unwrapped(x: int)
    requires 0 <= x < TWO_64
    ensures Wrap(x) == x
  {
  }

  // The second loop: from the top bit of the quotient down.
  method Subtract(a: uint64, b: uint64, shift0: nat, shifted: uint64) returns (d: Division)
    requires 0 < b <= a && 0 < shift0 && shifted == Shifted(b, shift0 - 1) && a < Shifted(b, shift0)
    ensures d.Divided? && a == Times(d.quotient, b) + d.rem && d.rem < b
  {
    assert Times(0, b) == 0;
    hide Times, Wrap, Pow2;
    var shift, b' := shift0, shifted;
    var sum: uint64, result: uint64 := 0, 0;
    while shift > 0
      invariant shift <= shift0
      invariant sum <= a < sum + Shifted(b, shift) && sum == Times(result, b)
      invariant 0 < shift ==> b' == Shifted(b, shift - 1)
    {
      shift := shift - 1;
      WrappedTests(sum, b', a);
      if Wrap(sum + b') > a {
      } else if Wrap(sum + b') < sum {
      } else {
        Counted(a, sum, result, b, shift);
        Unwrapped(sum + b');
        Unwrapped(Pow2(shift));
        Unwrapped(result + Pow2(shift));
        sum := Wrap(sum + b');
        result := Wrap(result + Wrap(Pow2(shift)));
        if sum == a {
          break;
        }
      }
      b' := b' / 2;
    }
    d := Divided(result, a - sum);
  }

  // uint64_div_rem, with its products named.
  method Divide(a: uint64, b: uint64) returns (d: Division)
    ensures d.DivideError? <==> b == 0
    ensures d.Divided? ==> a == Times(d.quotient, b) + d.rem && d.rem < b
  {
    assert Times(0, b) == 0 && Times(1, b) == b;
    hide Times, Pow2, Wrap;
    if b == 0 {
      return DivideError;
    }
    if a < b {
      return Divided(0, a);
    }
    if a == b {
      return Divided(1, 0);
    }
    var shift: nat, b' := 0, b;
    while a > b' && b' < TWO_63
      invariant b' == Shifted(b, shift) < TWO_64
      decreases TWO_64 - b'
    {
      Unwrapped(2 * b');
      shift, b' := shift + 1, Wrap(2 * b');
    }
    if a == b' {
      ShiftedIsProduct(b, shift);
      Unwrapped(Pow2(shift));
      return Divided(Wrap(Pow2(shift)), 0);
    }
    d := Subtract(a, b, shift + 1, b');
  }

  lemma TimesIsProduct(q: nat, b: nat)
    ensures Times(q, b) == q * b
  {
  }

  // uint64_div_rem
  method UDivRem(a: uint64, b: uint64) returns (d: Division)
    ensures d.DivideError? <==> b == 0
    ensures d.Divided? ==> a == d.quotient * b + d.rem && d.rem < b
  {
    hide Times;
    d := Divide(a, b);
    if d.Divided? {
      TimesIsProduct(d.quotient, b);
    }
  }

  function Magnitude(a: int): nat {
    if a < 0 then -a else a
  }

  // What section 6.5.5 of C99 asks of / and %: the quotient without its fractional part, and the
  // remainder that is left.
  function TruncatedQuotient(a: int, b: int): int
    requires b != 0
  {
    if (a < 0) != (b < 0) then -(Magnitude(a) / Magnitude(b)) else Magnitude(a) / Magnitude(b)
  }

  function TruncatedRemainder(a: int, b: int): int
    requires b != 0
  {
    if a < 0 then -(Magnitude(a) % Magnitude(b)) else Magnitude(a) % Magnitude(b)
  }

  // They are the one pair with a == q * b + r in which r is smaller than b and has no other sign
  // than a.
  predicate C99Pair(a: int, b: int, q: int, r: int) {
    a == q * b + r && Magnitude(r) < Magnitude(b) && (r == 0 || (r < 0 <==> a < 0))
  }

  lemma Signs(q: int, d: int)
    ensures q * d == d * q && (0 - q) * d == 0 - q * d && q * (0 - d) == 0 - q * d && (0 - q) * (0 - d) == q * d
  {
  }

  lemma WithSigns(a: int, b: int, q: int, r: int)
    requires Magnitude(a) == Magnitude(b) * q + r && 0 <= q && 0 <= r < Magnitude(b)
    ensures C99Pair(a, b, if (a < 0) != (b < 0) then -q else q, if a < 0 then -r else r)
  {
    Signs(q, Magnitude(b));
  }

  lemma TruncationIsPair(a: int, b: int)
    requires b != 0
    ensures C99Pair(a, b, TruncatedQuotient(a, b), TruncatedRemainder(a, b))
  {
    DivisionLaw(Magnitude(a), Magnitude(b));
    WithSigns(a, b, Magnitude(a) / Magnitude(b), Magnitude(a) % Magnitude(b));
  }

  lemma PairIsTruncation(a: int, b: int, q: int, r: int)
    requires b != 0 && C99Pair(a, b, q, r)
    ensures q == TruncatedQuotient(a, b) && r == TruncatedRemainder(a, b)
  {
    var m, d := Magnitude(a), Magnitude(b);
    var p := if (a < 0) != (b < 0) then -q else q;
    Signs(q, d);
    assert m == d * p + Magnitude(r);
    DivisionUnique(m, d, p, Magnitude(r));
  }

  lemma C99Division(a: int, b: int, q: int, r: int)
    requires b != 0
    ensures (q == TruncatedQuotient(a, b) && r == TruncatedRemainder(a, b)) <==>
      && a == q * b + r && (r == 0 || (r < 0 <==> a < 0))
      && (if r < 0 then -r else r) < (if b < 0 then -b else b)
  {
    assert C99Pair(a, b, q, r) <==>
      && a == q * b + r && (r == 0 || (r < 0 <==> a < 0))
      && (if r < 0 then -r else r) < (if b < 0 then -b else b);
    hide C99Pair, Magnitude;
    TruncationIsPair(a, b);
    if C99Pair(a, b, q, r) {
      PairIsTruncation(a, b, q, r);
    }
  }

  // The unary minus of a word, and (a < 0) ? -a : a stored as an unsigned one.
  function Negative(x: int): uint64 {
    Wrap(-x)
  }

  function Unsigned(a: int64): (u: uint64)
    ensures u == Magnitude(a)
  {
    if a < 0 then Negative(a) else Wrap(a)
  }

  lemma Negation(x: uint64)
    ensures x <= TWO_63 ==> Signed(Negative(x)) == if x == 0 then 0 else 0 - x
  {
  }

  lemma UnsignedQuotient(a: uint64, b: uint64, q: uint64, r: uint64)
    requires 0 < b && a == q * b + r && r < b
    ensures q == a / b && r == a % b
  {
    DivisionUnique(a, b, q, r);
  }

  datatype SignedDivision = SignedError | SignedResult(value: int64)

  // The least number has no quotient by -1, and its own negation is itself.
  predicate Representable(a: int64, b: int64) {
    !(a == INT64_MIN && b == -1)
  }

  lemma SmallerQuotient(m: nat, d: nat, q: nat, r: nat)
    requires 0 < d && m == d * q + r && r < d
    ensures q <= m && (d == 1 ==> q == m) && (1 < d && 0 < m ==> q < m)
  {
    if 0 < q {
      assert d * q == q + (d - 1) * q;
      assert 1 < d ==> 0 < (d - 1) * q by {
        MulSign(q, d - 1);
      }
    }
  }

  lemma QuotientFits(a: int64, b: int64)
    requires b != 0
    ensures Representable(a, b) ==> INT64_MIN <= TruncatedQuotient(a, b) < TWO_63
    ensures !Representable(a, b) ==> TruncatedQuotient(a, b) == TWO_63
    ensures Magnitude(a) / Magnitude(b) <= Magnitude(a)
  {
    var m, d := Magnitude(a), Magnitude(b);
    DivisionLaw(m, d);
    SmallerQuotient(m, d, m / d, m % d);
  }

  // __divdi3
  method DivDi3(a: int64, b: int64) returns (d: SignedDivision)
    ensures d.SignedError? <==> b == 0
    ensures d.SignedResult? ==>
      (d.value == TruncatedQuotient(a, b) <==> !(a == -0x8000_0000_0000_0000 && b == -1))
    ensures d.SignedResult? && a == -0x8000_0000_0000_0000 && b == -1 ==> d.value == -0x8000_0000_0000_0000
  {
    hide Times, Negative, Wrap;
    var au := Unsigned(a);
    var bu := Unsigned(b);
    var u := UDivRem(au, bu);
    if u.DivideError? {
      return SignedError;
    }
    UnsignedQuotient(au, bu, u.quotient, u.rem);
    QuotientFits(a, b);
    Negation(u.quotient);
    return SignedResult(Signed(if (a < 0) != (b < 0) then Negative(u.quotient) else u.quotient));
  }

  // __moddi3
  method ModDi3(a: int64, b: int64) returns (d: SignedDivision)
    ensures d.SignedError? <==> b == 0
    ensures d.SignedResult? ==> d.value == TruncatedRemainder(a, b)
  {
    hide Times, Negative, Wrap;
    var au := Unsigned(a);
    var bu := Unsigned(b);
    var u := UDivRem(au, bu);
    if u.DivideError? {
      return SignedError;
    }
    UnsignedQuotient(au, bu, u.quotient, u.rem);
    Negation(u.rem);
    if a < 0 {
      return SignedResult(Signed(Negative(u.rem)));
    }
    return SignedResult(Signed(u.rem));
  }
}
