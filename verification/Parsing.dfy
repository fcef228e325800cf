// Text to numbers: putka-clib/src/inttypes.c, bases 10 and 16.

module Parsing {
  import opened Numerals
  import opened Int64
  import opened Printing

  datatype Kind = Space | Zero | Base(base: nat)

  predicate Is(kind: Kind, ch: char) {
    match kind
    case Space => ch == ' ' || ch == '\n' || ch == '\r' || ch == '\t' || ch == '\U{C}' || ch == '\U{B}'
    case Zero => ch == '0'
    case Base(base) => IsDigit(ch, base)
  }

  // A C string: a NUL follows the text.
  function At(s: string, i: nat): char {
    if i < |s| then s[i] else '\0'
  }

  // The end of the characters of one kind that start at i.
  function Skip(s: string, i: nat, kind: Kind): (j: nat)
    requires i <= |s|
    ensures i <= j <= |s| && (forall k | i <= k < j :: Is(kind, s[k])) && (j < |s| ==> !Is(kind, s[j]))
    decreases |s| - i
  {
    if i < |s| && Is(kind, s[i]) then Skip(s, i + 1, kind) else i
  }

  function SkipSign(s: string, i: nat): (j: nat)
    requires i <= |s|
    ensures i <= j <= |s|
  {
    if At(s, i) == '-' || At(s, i) == '+' then i + 1 else i
  }

  function SkipPrefix(s: string, i: nat, base: nat): (j: nat)
    requires i <= |s|
    ensures i <= j <= |s|
  {
    if base == 16 && At(s, i) == '0' && (At(s, i + 1) == 'x' || At(s, i + 1) == 'X') then i + 2 else i
  }

  datatype Parsed = Parsed(val: uint64, end: nat, minus: bool)

  // What the digits of base 10 or 16 are worth to the parser.  Base 16 gives up on more than
  // 16 of them; base 10 wraps.
  function Worth(digits: string, base: nat): uint64
    requires IsBase(base) && AreDigits(digits, base)
  {
    if base == 16 && |digits| > 16 then TWO_64 - 1 else Wrap(Value(digits, base))
  }

  function Parse(s: string, base: nat): Parsed
    requires IsBase(base)
  {
    var start := Skip(s, 0, Space);
    var first := Skip(s, SkipPrefix(s, SkipSign(s, start), base), Zero);
    var end := Skip(s, first, Base(base));
    Parsed(Worth(s[first..end], base), end, At(s, start) == '-')
  }

  // Bitwise or.
  function Or(x: nat, y: nat): nat
    decreases x + y
  {
    if x == 0 then y else if y == 0 then x
    else 2 * Or(x / 2, y / 2) + (if x % 2 == 1 || y % 2 == 1 then 1 else 0)
  }

  // Where one word has only zeros under the bits of the other, or is plus.
  lemma {:induction false} DisjointOr(x: nat, y: nat, k: nat)
    requires y < Pow2(k)
    ensures Or(Shifted(x, k), y) == Shifted(x, k) + y
  {
    if k > 0 && x > 0 && y > 0 {
      DisjointOr(x, y / 2, k - 1);
      assert Shifted(x, k) / 2 == Shifted(x, k - 1) && Shifted(x, k) % 2 == 0;
      ShiftedIsProduct(x, k);
    } else if x == 0 {
      ShiftedIsProduct(x, k);
    }
  }

  // A while loop over the characters of one kind.
  method SkipOver(s: string, i: nat, kind: Kind) returns (j: nat)
    requires i <= |s|
    ensures j == Skip(s, i, kind)
  {
    j := i;
    while j < |s| && Is(kind, s[j])
      invariant i <= j <= |s| && Skip(s, i, kind) == Skip(s, j, kind)
    {
      j := j + 1;
    }
  }

  lemma {:induction false} ShiftedAdds(x: nat, y: nat, k: nat)
    ensures Shifted(x + y, k) == Shifted(x, k) + Shifted(y, k)
    ensures Shifted(x, k + 4) == Shifted(16 * x, k)
  {
    if k > 0 {
      ShiftedAdds(x, y, k - 1);
    } else {
      assert Shifted(x, 4) == 2 * Shifted(x, 3) == 4 * Shifted(x, 2) == 8 * Shifted(x, 1);
    }
  }

  lemma {:induction false} ShiftedBelow(x: nat, n: nat, k: nat)
    requires x < Pow2(n)
    ensures Shifted(x, k) < Pow2(n + k)
  {
    if k > 0 {
      ShiftedBelow(x, n, k - 1);
    }
  }

  lemma HexStep(v: nat, d: nat, k: nat)
    requires d < 16
    ensures Or(Shifted(v, k + 4), Shifted(d, k)) == Shifted(16 * v + d, k)
  {
    ShiftedBelow(d, 4, k);
    assert Pow2(4) == 16;
    assert 4 + k == k + 4;
    DisjointOr(v, Shifted(d, k), k + 4);
    ShiftedAdds(16 * v, d, k);
    ShiftedAdds(v, 0, k);
  }

  // k hexadecimal digits fit in 4 * k bits.
  lemma {:induction false} HexBelow(s: string)
    requires AreDigits(s, 16)
    ensures Value(s, 16) < Pow2(4 * |s|)
  {
    if s != "" {
      HexBelow(s[..|s| - 1]);
      var n := 4 * (|s| - 1);
      assert Pow2(n + 4) == 2 * Pow2(n + 3) == 4 * Pow2(n + 2) == 8 * Pow2(n + 1);
    }
  }

  lemma {:induction false} Pow2Grows(m: nat, n: nat)
    requires m <= n
    ensures Pow2(m) <= Pow2(n)
  {
    if m < n {
      Pow2Grows(m, n - 1);
    }
  }

  lemma FourBits(n: nat)
    ensures Pow2(n + 4) == 16 * Pow2(n)
  {
    assert Pow2(n + 4) == 2 * Pow2(n + 3) == 4 * Pow2(n + 2);
    assert Pow2(n + 2) == 2 * Pow2(n + 1) == 4 * Pow2(n);
  }

  lemma SixteenBits(n: nat)
    ensures Pow2(n + 16) == 65536 * Pow2(n)
  {
    FourBits(n);
    FourBits(n + 4);
    FourBits(n + 8);
    FourBits(n + 12);
  }

  lemma Pow2Of64()
    ensures Pow2(64) == TWO_64
  {
    SixteenBits(0);
    SixteenBits(16);
    SixteenBits(32);
    SixteenBits(48);
    assert Pow2(0) == 1;
    hide Pow2;
    assert Pow2(32) == 65536 * Pow2(16) == 0x1_0000_0000;
  }

  lemma HexFits(s: string, i: nat)
    requires AreDigits(s, 16) && i <= |s| <= 16
    ensures Shifted(Value(s[..i], 16), 4 * (|s| - i)) < TWO_64
  {
    hide Pow2, Shifted, Value;
    HexBelow(s[..i]);
    ShiftedBelow(Value(s[..i], 16), 4 * i, 4 * (|s| - i));
    Pow2Grows(4 * |s|, 64);
    Pow2Of64();
  }

  lemma NotShifted(v: nat)
    ensures Shifted(v, 0) == v
  {
  }

  // The loop of base 16: every digit is shifted to its place.
  method HexDigits(s: string) returns (val: uint64)
    requires AreDigits(s, 16) && |s| <= 16
    ensures val == Value(s, 16)
  {
    hide Digit, Or, Shifted, Pow2;
    val := 0;
    var str: nat, p := 0, |s| - 1;
    assert Shifted(0, 4 * |s|) == 0 by { ShiftedIsProduct(0, 4 * |s|); }
    while p >= str
      invariant 0 <= str <= |s|
      invariant val == Shifted(Value(s[..str], 16), 4 * (|s| - str))
      decreases p - str
    {
      HexStep(Value(s[..str], 16), Digit(s[str]), 4 * (p - str));
      PushDigit(s[..str], s[str], 16);
      assert s[..str + 1] == s[..str] + [s[str]];
      HexFits(s, str + 1);
      val := Or(val, Shifted(Digit(s[str]), 4 * (p - str)));
      str := str + 1;
    }
    assert s[..str] == s;
    NotShifted(Value(s, 16));
  }

  lemma {:induction false} WrapTurns(x: nat, turns: nat)
    ensures Wrap(x + turns * TWO_64) == Wrap(x)
  {
    if 0 < turns {
      WrapTurns(x, turns - 1);
      var y := x + (turns - 1) * TWO_64;
      assert Wrap(y + TWO_64) == Wrap(y);
    }
  }

  lemma WrapStep(v: nat, d: nat)
    ensures Wrap(10 * Wrap(v) + d) == Wrap(10 * v + d)
  {
    var q := v / TWO_64;
    assert v == Wrap(v) + q * TWO_64;
    WrapTurns(10 * Wrap(v) + d, 10 * q);
  }

  // The loop of base 10, on words that wrap.
  method DecimalDigits(s: string) returns (val: uint64)
    requires AreDigits(s, 10)
    ensures val == Wrap(Value(s, 10))
  {
    val := 0;
    assert Wrap(Value(s[..0], 10)) == 0;
    hide Digit, Wrap, Value;
    var p: nat := 0;
    while p < |s|
      invariant p <= |s| && val == Wrap(Value(s[..p], 10))
    {
      PushDigit(s[..p], s[p], 10);
      assert s[..p + 1] == s[..p] + [s[p]];
      WrapStep(Value(s[..p], 10), Digit(s[p]));
      val := Wrap(10 * val + Digit(s[p]));
      p := p + 1;
    }
    assert s[..p] == s;
  }

  lemma NoWrap(v: nat)
    requires Shifted(v, 4 * 0) < TWO_64
    ensures Wrap(v) == v
  {
  }

  // The branches of the two bases, for the digits between str and p.
  method DigitsWorth(digits: string, base: nat) returns (val: uint64)
    requires IsBase(base) && AreDigits(digits, base)
    ensures val == Worth(digits, base)
  {
    hide Digit, Wrap, Value;
    if base == 16 {
      if |digits| > 16 {
        val := TWO_64 - 1;
      } else {
        val := HexDigits(digits);
        HexFits(digits, |digits|);
        assert digits[..|digits|] == digits;
        NoWrap(Value(digits, 16));
      }
    } else {
      val := DecimalDigits(digits);
    }
  }

  // _strtoumax_sgn
  method StrToUMaxSgn(s: string, base: nat) returns (val: uint64, end: nat, minus: bool)
    requires IsBase(base)
    ensures Parsed(val, end, minus) == Parse(s, base)
  {
    hide Worth, Skip;
    var str := SkipOver(s, 0, Space);
    ghost var start := str;
    if At(s, str) == '-' {
      minus := true;
      str := str + 1;
    } else {
      minus := false;
      if At(s, str) == '+' {
        str := str + 1;
      }
    }
    assert str == SkipSign(s, start);
    if base == 16 && At(s, str) == '0' && (At(s, str + 1) == 'x' || At(s, str + 1) == 'X') {
      str := str + 2;
    }
    assert str == SkipPrefix(s, SkipSign(s, start), base);
    hide SkipSign, SkipPrefix;
    str := SkipOver(s, str, Zero);
    end := SkipOver(s, str, Base(base));
    val := DigitsWorth(s[str..end], base);
  }

  // strtoumax: a minus sign gives the largest number.
  method StrToUMax(s: string, base: nat) returns (val: uint64, end: nat)
    requires IsBase(base)
    ensures var p := Parse(s, base); end == p.end && val == if p.minus then 0xFFFF_FFFF_FFFF_FFFF else p.val
  {
    var v, e, minus := StrToUMaxSgn(s, base);
    return if minus then TWO_64 - 1 else v, e;
  }

  // The nearest number of 64 bits.
  function Clamp(x: int): (c: int64)
    ensures -0x8000_0000_0000_0000 <= c <= 0x7FFF_FFFF_FFFF_FFFF
    ensures c < x ==> c == 0x7FFF_FFFF_FFFF_FFFF
    ensures x < c ==> c == -0x8000_0000_0000_0000
  {
    if x < INT64_MIN then INT64_MIN else if x >= TWO_63 then TWO_63 - 1 else x
  }

  // strtoimax, which section 7.8.2.3 of C99 wants to stop at the ends of the range.
  method StrToIMax(s: string, base: nat) returns (val: int64, end: nat)
    requires IsBase(base)
    ensures var p := Parse(s, base); end == p.end && val == Clamp(if p.minus then 0 - p.val else p.val)
  {
    var v, e, minus := StrToUMaxSgn(s, base);
    if v > TWO_63 - 1 {
      if minus {
        return INT64_MIN, e;
      }
      return TWO_63 - 1, e;
    }
    if minus {
      return 0 - v, e;
    }
    return v, e;
  }
}
