// What is printed is what is parsed again.

module RoundTrips {
  import opened Numerals
  import opened Int64
  import opened Printing
  import opened Parsing

  lemma SkipIs(s: string, i: nat, kind: Kind, j: nat)
    requires i <= j <= |s| && (forall k | i <= k < j :: Is(kind, s[k])) && (j < |s| ==> !Is(kind, s[j]))
    ensures Skip(s, i, kind) == j
  {
  }

  predicate AreSpaces(s: string) {
    forall i | 0 <= i < |s| :: s[i] == ' '
  }

  predicate IsFlag(sign: string) {
    sign == "" || sign == "+" || sign == " " || sign == "-"
  }

  lemma {:induction false} HexLength(num: nat, k: nat, big: bool)
    requires num < Pow2(4 * k)
    ensures |Digits(num, 16, big)| <= k
  {
    if num > 0 {
      assert k > 0;
      FourBits(4 * (k - 1));
      HexLength(num / 16, k - 1, big);
    }
  }

  function Printed(before: string, sign: string, zeros: nat, digits: string, after: string): string {
    before + sign + Zeros(zeros) + digits + after
  }

  // What the parser makes of its stops.
  lemma ParseStops(s: string, base: nat, start: nat, i: nat, c: nat, z: nat, end: nat, num: uint64)
    requires IsBase(base) && i <= |s| && start == Skip(s, 0, Space) && SkipSign(s, start) == i
    requires c <= |s| && z <= |s| && SkipPrefix(s, i, base) == c && Skip(s, c, Zero) == z
    requires Skip(s, z, Base(base)) == end && Worth(s[z..end], base) == num
    ensures Parse(s, base) == Parsed(num, end, At(s, start) == '-')
  {
    hide Skip, Worth, SkipPrefix, SkipSign;
  }

  // White space, a sign, a prefix, digits, and something that does not go on with them.
  predicate IsText(spaces: string, sign: string, prefix: string, s: string, rest: string, base: nat) {
    && IsBase(base) && (forall i | 0 <= i < |spaces| :: Is(Space, spaces[i]))
    && (sign == "" || sign == "+" || sign == "-")
    && (prefix == "" || (base == 16 && (prefix == "0x" || prefix == "0X")))
    && AreDigits(s, base)
    && (rest != "" ==>
         && !IsDigit(rest[0], base)
         && (sign + prefix + s == "" ==> !Is(Space, rest[0]) && rest[0] != '+' && rest[0] != '-')
         && (base == 16 && prefix == "" && s == "0" ==> rest[0] != 'x' && rest[0] != 'X'))
  }

  // Base 16 stops at the largest word, base 10 wraps.
  function Kept(v: nat, base: nat): uint64 {
    if base == 16 && v >= TWO_64 then TWO_64 - 1 else Wrap(v)
  }

  function Text(spaces: string, sign: string, prefix: string, s: string, rest: string): string {
    spaces + sign + prefix + s + rest
  }

  lemma TextAt(spaces: string, sign: string, prefix: string, s: string, rest: string)
    ensures var t := Text(spaces, sign, prefix, s, rest);
      var a := |spaces|;
      var b := a + |sign|;
      var c := b + |prefix|;
      var e := c + |s|;
      && |t| == e + |rest|
      && (forall k | 0 <= k < a :: t[k] == spaces[k]) && (forall k | a <= k < b :: t[k] == sign[k - a])
      && (forall k | b <= k < c :: t[k] == prefix[k - b]) && (forall k | c <= k < e :: t[k] == s[k - c])
      && (rest != "" ==> t[e] == rest[0])
  {
  }

  // The parser's way over them.
  lemma TextPlaces(spaces: string, sign: string, prefix: string, s: string, rest: string, base: nat)
    requires IsText(spaces, sign, prefix, s, rest, base)
    ensures var t, a := Text(spaces, sign, prefix, s, rest), |spaces|;
      && Skip(t, 0, Space) == a && SkipSign(t, a) == a + |sign| && (At(t, a) == '-' <==> sign == "-")
      && SkipPrefix(t, a + |sign|, base) == a + |sign| + |prefix|
  {
    hide Skip, Text;
    var t, a := Text(spaces, sign, prefix, s, rest), |spaces|;
    TextAt(spaces, sign, prefix, s, rest);
    assert s != "" ==> IsDigit(s[0], base);
    assert |s| > 1 ==> IsDigit(s[1], base);
    hide AreDigits;
    SkipIs(t, 0, Space, a);
  }

  lemma NumberPlaces(spaces: string, sign: string, prefix: string, s: string, rest: string, base: nat,
                     t: string, c: nat) returns (z: nat)
    requires IsText(spaces, sign, prefix, s, rest, base) && t == Text(spaces, sign, prefix, s, rest)
    requires c == |spaces| + |sign| + |prefix|
    ensures c <= |t| && c <= z <= c + |s| <= |t|
    ensures Skip(t, c, Zero) == z && Skip(t, z, Base(base)) == c + |s|
    ensures t[z..c + |s|] == s[z - c..] && s[..z - c] == Zeros(z - c) && (z < c + |s| ==> s[z - c] != '0')
  {
    hide Skip, Text;
    TextAt(spaces, sign, prefix, s, rest);
    z := Skip(t, c, Zero);
    assert z <= c + |s|;
    SkipIs(t, z, Base(base), c + |s|);
    assert forall k | 0 <= k < z - c :: s[k] == t[k + c];
  }

  lemma {:induction false} HexAtLeast(s: string)
    requires AreDigits(s, 16) && s != "" && s[0] != '0'
    ensures Value(s, 16) >= Pow2(4 * (|s| - 1))
  {
    if |s| > 1 {
      HexAtLeast(s[..|s| - 1]);
      FourBits(4 * (|s| - 2));
    }
  }

  lemma WorthKept(s: string, base: nat)
    requires IsBase(base) && AreDigits(s, base) && (s != "" ==> s[0] != '0')
    ensures Worth(s, base) == Kept(Value(s, base), base)
  {
    hide Value, Pow2;
    Pow2Of64();
    if base == 16 {
      if |s| > 16 {
        HexAtLeast(s);
        Pow2Grows(64, 4 * (|s| - 1));
      } else {
        HexBelow(s);
        Pow2Grows(4 * |s|, 64);
      }
    }
  }

  lemma WorthBehindZeros(s: string, k: nat, base: nat)
    requires IsBase(base) && AreDigits(s, base) && k <= |s| && s[..k] == Zeros(k) && (k < |s| ==> s[k] != '0')
    ensures AreDigits(s[k..], base) && Worth(s[k..], base) == Kept(Value(s, base), base)
  {
    hide Value, Worth, Zeros, IsDigit, Kept;
    assert s == Zeros(k) + s[k..];
    LeadingZeros(k, s[k..], base);
    WorthKept(s[k..], base);
  }

  lemma NumberWorth(spaces: string, sign: string, prefix: string, s: string, rest: string, base: nat,
                    t: string, c: nat) returns (z: nat)
    requires IsText(spaces, sign, prefix, s, rest, base) && t == Text(spaces, sign, prefix, s, rest)
    requires c == |spaces| + |sign| + |prefix|
    ensures AreDigits(s, base) && c <= |t| && z <= |t|
    ensures Skip(t, c, Zero) == z && Skip(t, z, Base(base)) == c + |s|
    ensures Worth(t[z..c + |s|], base) == Kept(Value(s, base), base)
  {
    assert AreDigits(s, base) && IsBase(base);
    hide IsText, Value, Skip, Worth, Zeros, Text, AreDigits, Kept;
    z := NumberPlaces(spaces, sign, prefix, s, rest, base, t, c);
    WorthBehindZeros(s, z - c, base);
  }

  lemma ParseParts(spaces: string, sign: string, prefix: string, s: string, rest: string, base: nat)
    requires IsText(spaces, sign, prefix, s, rest, base)
    ensures AreDigits(s, base)
    ensures Parse(Text(spaces, sign, prefix, s, rest), base) ==
              Parsed(Kept(Value(s, base), base), |spaces| + |sign| + |prefix| + |s|, sign == "-")
  {
    assert IsBase(base);
    hide *;
    var t, a := Text(spaces, sign, prefix, s, rest), |spaces|;
    var c := a + |sign| + |prefix|;
    var z := NumberWorth(spaces, sign, prefix, s, rest, base, t, c);
    TextPlaces(spaces, sign, prefix, s, rest, base);
    ParseStops(t, base, a, a + |sign|, c, z, c + |s|, Kept(Value(s, base), base));
  }

  lemma NotInFront(rest: string, base: nat)
    requires IsBase(base) && rest != ""
    requires rest[0] !in if base == 16 then "0123456789abcdefABCDEF" else "0123456789"
    ensures !IsDigit(rest[0], base)
  {
    DigitCharacters(rest[0], 0);
  }

  // White space of any kind, a sign, a prefix of base 16, digits whatever their number, and
  // anything that does not go on with them: the parser stops behind the digits and has their
  // value.
  lemma ParseText(spaces: string, sign: string, prefix: string, s: string, rest: string, base: nat)
    requires IsBase(base) && forall i | 0 <= i < |spaces| :: spaces[i] in " \t\n\U{B}\U{C}\r"
    requires sign == "" || sign == "+" || sign == "-"
    requires prefix == "" || (base == 16 && (prefix == "0x" || prefix == "0X"))
    requires AreDigits(s, base)
    requires rest != "" ==> rest[0] !in if base == 16 then "0123456789abcdefABCDEF" else "0123456789"
    requires rest != "" && sign + prefix + s == "" ==> rest[0] !in " \t\n\U{B}\U{C}\r+-"
    requires rest != "" && base == 16 && prefix == "" && s == "0" ==> rest[0] !in "xX"
    ensures var v := Value(s, base);
      Parse(spaces + sign + prefix + s + rest, base) ==
        Parsed(if base == 16 && v >= 0x1_0000_0000_0000_0000 then 0xFFFF_FFFF_FFFF_FFFF
               else v % 0x1_0000_0000_0000_0000,
               |spaces| + |sign| + |prefix| + |s|, sign == "-")
  {
    if rest != "" {
      NotInFront(rest, base);
    }
    assert forall i | 0 <= i < |spaces| :: Is(Space, spaces[i]);
    hide IsDigit;
    assert IsText(spaces, sign, prefix, s, rest, base);
    hide IsText, Parse, Value;
    ParseParts(spaces, sign, prefix, s, rest, base);
  }

  // A number's zeros and digits with spaces around, and a sign that is none of them.
  lemma ParseSpaced(before: string, sign: string, number: string, after: string, base: nat)
    requires IsBase(base) && AreSpaces(before) && AreSpaces(after) && AreDigits(number, base)
    requires sign == "" || sign == "+" || sign == "-"
    ensures var p := Parse(before + sign + number + after, base);
      && p.val == Kept(Value(number, base), base) && p.minus == (sign == "-")
      && (sign + number != "" ==> p.end == |before| + |sign| + |number|)
  {
    hide Parse, IsDigit, Value;
    if sign + number == "" {
      assert before + sign + number + after == before + after + "" + "" + "" + "";
      ParseText(before + after, "", "", "", "", base);
    } else {
      assert before + sign + number + after == before + sign + "" + number + after;
      ParseText(before, sign, "", number, after, base);
    }
  }

  // The whole of a printed number.
  lemma ParsePrinted(before: string, sign: string, zeros: nat, num: uint64, after: string, base: nat, big: bool)
    requires IsBase(base) && AreSpaces(before) && AreSpaces(after) && IsFlag(sign)
    ensures var p := Parse(Printed(before, sign, zeros, Digits(num, base, big), after), base);
      && p.val == num && p.minus == (sign == "-")
      && (0 < zeros || 0 < num ==> p.end == |before| + |sign| + zeros + |Digits(num, base, big)|)
  {
    hide Digits, Parse, IsDigit, Value;
    var digits := Digits(num, base, big);
    var number := Zeros(zeros) + digits;
    ValueOfDigits(num, base, big);
    LeadingZeros(zeros, digits, base);
    if sign == " " {
      assert Printed(before, sign, zeros, digits, after) == before + " " + "" + number + after;
      ParseSpaced(before + " ", "", number, after, base);
    } else {
      assert Printed(before, sign, zeros, digits, after) == before + sign + number + after;
      ParseSpaced(before, sign, number, after, base);
    }
  }

  // Any layout of a number is that number to the parser, with its sign.
  lemma LayoutParses(leftAlign: bool, sign: string, width: int, precision: int, num: uint64)
    requires IsFlag(sign)
    ensures var p := Parse(Arranged(leftAlign, sign, width, precision, Digits(num, 10, false)), 10);
      p.val == num && p.minus == (sign == "-")
  {
    hide Digits, Parse;
    var digits := Digits(num, 10, false);
    var zeros := Missing(|digits|, precision);
    var body := sign + Zeros(zeros) + digits;
    var fill := Spaces(Missing(|body|, width));
    if leftAlign {
      assert Arranged(leftAlign, sign, width, precision, digits) == Printed("", sign, zeros, digits, fill);
      ParsePrinted("", sign, zeros, num, fill, 10, false);
    } else {
      assert Arranged(leftAlign, sign, width, precision, digits) == Printed(fill, sign, zeros, digits, "");
      ParsePrinted(fill, sign, zeros, num, "", 10, false);
    }
  }

  predicate IsSignFlag(ch: char) {
    ch == '\0' || ch == '+' || ch == ' '
  }

  // strtoimax undoes fprintf_int on every number, with any width, precision, side and sign flag.
  method IntThroughText(tag: FormatTag, num: int64) returns (back: int64)
    requires IsSignFlag(tag.alwaysSign)
    modifies tag
    ensures back == num
  {
    hide Arranged, Parse;
    LayoutParses(tag.leftAlign, if num < 0 then "-" else Sign(tag.alwaysSign), tag.width,
                 if tag.hasPrecision then tag.precision else 1, Magnitude(num));
    var len, out := FprintfInt(tag, num);
    var end;
    back, end := StrToIMax(out, 10);
  }

  // strtoumax undoes fprintf_uint.
  method UintThroughText(tag: FormatTag, num: uint64) returns (back: uint64)
    requires IsSignFlag(tag.alwaysSign)
    modifies tag
    ensures back == num
  {
    hide Arranged, Parse;
    LayoutParses(tag.leftAlign, Sign(tag.alwaysSign), tag.width, if tag.hasPrecision then tag.precision else 1, num);
    var len, out := FprintfUint(tag, num);
    var end;
    back, end := StrToUMax(out, 10);
  }

  lemma DigitsParse(num: uint64, base: nat, big: bool)
    requires IsBase(base)
    ensures var p := Parse(Digits(num, base, big), base);
      p.val == num && !p.minus && (num > 0 ==> p.end == |Digits(num, base, big)|)
  {
    hide Digits, Parse;
    var digits := Digits(num, base, big);
    ParsePrinted("", "", 0, num, "", base, big);
    assert Printed("", "", 0, digits, "") == digits;
  }

  // ... and fmt_uint_64 and fmt_hex_64, which print zero as nothing at all.
  method DigitsThroughText(num: uint64, hex: bool, bigtxt: bool) returns (back: uint64)
    ensures back == num
  {
    hide Digits, Parse;
    var buf := new char[32](_ => '\0');
    var at: nat, end: nat;
    if hex {
      Pow2Of64();
      HexLength(num, 16, bigtxt);
      DigitsParse(num, 16, bigtxt);
      at := FmtHex64(buf, 31, num, bigtxt);
    } else {
      DigitsOf64(num);
      DigitsParse(num, 10, false);
      at := FmtUint64(buf, 31, num);
    }
    back, end := StrToUMax(buf[at..31], if hex then 16 else 10);
  }

  // ---- digits of any length ----

  // Digits behind a sign are parsed to the end, whatever their number.
  lemma ParseSigned(sign: string, s: string, base: nat)
    requires IsBase(base) && AreDigits(s, base) && (sign == "" || sign == "+" || sign == "-")
    ensures Parse(sign + s, base) == Parsed(Kept(Value(s, base), base), |sign + s|, sign == "-")
  {
    hide Parse, Value;
    ParseText("", sign, "", s, "", base);
    assert "" + sign + "" + s + "" == sign + s;
  }

  // strtoimax stops at the ends of the range, as it should, for all hexadecimal numbers and for
  // decimal ones of less than 2^64; from there on only where the bits that are left happen to do
  // as well.
  lemma ClampExactly(sign: string, s: string, base: nat)
    requires IsBase(base) && AreDigits(s, base) && (sign == "" || sign == "+" || sign == "-")
    ensures var v, p := Value(s, base), Parse(sign + s, base);
      Clamp(if p.minus then 0 - p.val else p.val) == Clamp(if sign == "-" then 0 - v else v) <==>
        || base == 16 || v < TWO_64
        || v % TWO_64 >= if sign == "-" then TWO_63 else TWO_63 - 1
  {
    hide Value, Parse;
    ParseSigned(sign, s, base);
  }

  lemma ClampFails()
    ensures var s := Digits(TWO_64 + 1, 10, false);
      AreDigits(s, 10) && Value(s, 10) == TWO_64 + 1 && Clamp(Parse(s, 10).val) == 1
  {
    hide Parse, Digits, Value;
    ValueOfDigits(TWO_64 + 1, 10, false);
    ParseSigned("", Digits(TWO_64 + 1, 10, false), 10);
    assert "" + Digits(TWO_64 + 1, 10, false) == Digits(TWO_64 + 1, 10, false);
  }

  // What section 7.8.2.3 of C99 wants of strtoumax: the number, negated as a word behind a minus
  // sign, and the largest word when it does not fit.
  function WantedUMax(v: nat, minus: bool): uint64 {
    if v >= TWO_64 then TWO_64 - 1 else if minus then Wrap(TWO_64 - v) else v
  }

  // Behind a minus sign that is what strtoumax returns for 1 and for what does not fit, and for
  // no other number.
  lemma UMaxExactly(sign: string, s: string, base: nat)
    requires IsBase(base) && AreDigits(s, base) && (sign == "" || sign == "+" || sign == "-")
    ensures var v, p := Value(s, base), Parse(sign + s, base);
      (if p.minus then TWO_64 - 1 else p.val) == WantedUMax(v, sign == "-") <==>
        if sign == "-" then v == 1 || v >= TWO_64
        else base == 16 || v < TWO_64 || v % TWO_64 == TWO_64 - 1
  {
    hide Value, Parse;
    ParseSigned(sign, s, base);
  }
}
