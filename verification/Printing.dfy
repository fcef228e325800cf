// Numbers to text: putka-clib/src/stdio.xprintf.c.

module Printing {
  import opened Numerals
  import opened Int64

  const UINT32_MAX: int := 0xFFFF_FFFF

  // What a buffer holds where text was written backwards from `end`.
  twostate predicate Written(buf: array<char>, at: int, end: int, text: string)
    reads buf
  {
    && 0 <= at <= end <= buf.Length && buf[at..end] == text
    && forall i | 0 <= i < buf.Length && !(at <= i < end) :: buf[i] == old(buf[i])
  }

  // fmt_uint_32
  method FmtUint32(buf: array<char>, bufend: nat, num0: nat) returns (at: nat)
    requires num0 <= UINT32_MAX && |Digits(num0, 10, false)| <= bufend <= buf.Length
    modifies buf
    ensures Written(buf, at, bufend, Digits(num0, 10, false))
  {
    var num := num0;
    at := bufend;
    while num > 0
      invariant at <= bufend && Digits(num0, 10, false) == Digits(num, 10, false) + buf[at..bufend]
      invariant forall i | 0 <= i < buf.Length && !(at <= i < bufend) :: buf[i] == old(buf[i])
    {
      ghost var done := buf[at..bufend];
      at := at - 1;
      buf[at] := '0' + (num % 10) as char;
      assert buf[at..bufend] == [Mark(num % 10, false)] + done;
      num := num / 10;
    }
  }

  // fmt_hex_64
  method FmtHex64(buf: array<char>, bufend: nat, num0: uint64, bigtxt: bool) returns (at: nat)
    requires |Digits(num0, 16, bigtxt)| <= bufend <= buf.Length
    modifies buf
    ensures Written(buf, at, bufend, Digits(num0, 16, bigtxt))
  {
    var num: nat := num0;
    var marks := if bigtxt then "0123456789ABCDEF" else "0123456789abcdef";
    at := bufend;
    while num > 0
      invariant at <= bufend && Digits(num0, 16, bigtxt) == Digits(num, 16, bigtxt) + buf[at..bufend]
      invariant forall i | 0 <= i < buf.Length && !(at <= i < bufend) :: buf[i] == old(buf[i])
    {
      ghost var done := buf[at..bufend];
      at := at - 1;
      buf[at] := marks[num % 16];
      assert buf[at..bufend] == [Mark(num % 16, bigtxt)] + done;
      num := num / 16;
    }
  }

  // What fmt_uint_64 has still to write, at bufend, of the digits of num0.
  ghost predicate ToWrite(num0: nat, num: nat, gap: int, done: string) {
    if num == 0 then
      Digits(num0, 10, false) == done
    else
      0 <= gap && Digits(num0, 10, false) == Digits(num, 10, false) + Zeros(gap) + done
  }

  // The zeros in front of a piece that was shorter than nine digits.
  method PadZeros(buf: array<char>, from: int, to: int)
    requires 0 <= to <= from <= buf.Length
    modifies buf
    ensures Written(buf, to, from, Zeros(from - to))
  {
    var at := from;
    while at > to
      invariant to <= at <= from
      invariant forall i | at <= i < from :: buf[i] == '0'
      invariant forall i | 0 <= i < buf.Length && !(at <= i < from) :: buf[i] == old(buf[i])
    {
      at := at - 1;
      buf[at] := '0';
    }
  }

  lemma Slices(buf: array<char>, i: int, j: int, k: int)
    requires 0 <= i <= j <= k <= buf.Length
    ensures buf[i..k] == buf[i..j] + buf[j..k]
  {
  }

  lemma Room(num0: nat, num: nat, gap: int, done: string)
    requires ToWrite(num0, num, gap, done) && 0 < num
    ensures 0 <= gap && |Digits(num, 10, false)| + gap + |done| == |Digits(num0, 10, false)|
  {
    hide Digits;
  }

  lemma LastPiece(num0: nat, num: nat, gap: int, done: string)
    requires ToWrite(num0, num, gap, done) && 0 < num
    ensures ToWrite(num0, 0, 9 - |Digits(num, 10, false)|, Digits(num, 10, false) + (Zeros(gap) + done))
  {
    hide Digits;
  }

  lemma NextPiece(num0: nat, num: nat, gap: int, done: string)
    requires ToWrite(num0, num, gap, done) && 1_000_000_000 <= num
    ensures var q, m := num / 1_000_000_000, num % 1_000_000_000;
      && q < num && |Digits(m, 10, false)| <= |Digits(num, 10, false)|
      && ToWrite(num0, q, 9 - |Digits(m, 10, false)|, Digits(m, 10, false) + (Zeros(gap) + done))
  {
    hide Digits, Raised;
    var q, m := num / 1_000_000_000, num % 1_000_000_000;
    Billion(num);
    DigitsSplit(q, m, 9);
    PaddedIsZeros(m, 9);
  }

  // One round of its loop.
  method Piece(buf: array<char>, bufend0: nat, ghost num0: uint64, num: uint64, bufend: int, newend: int)
    returns (num': uint64, bufend': int, newend': int)
    requires |Digits(num0, 10, false)| <= bufend0 <= buf.Length && 0 < num
    requires 0 <= newend <= bufend0 && ToWrite(num0, num, newend - bufend, buf[newend..bufend0])
    modifies buf
    ensures num' < num && newend' <= newend
    ensures 0 <= newend' <= bufend0 && ToWrite(num0, num', newend' - bufend', buf[newend'..bufend0])
    ensures forall i | 0 <= i < buf.Length && !(newend' <= i < bufend0) :: buf[i] == old(buf[i])
  {
    hide Digits, ToWrite;
    ghost var gap, done := newend - bufend, buf[newend..bufend0];
    Room(num0, num, gap, done);
    PadZeros(buf, newend, bufend);
    assert buf[bufend..bufend0] == Zeros(gap) + done;
    var num32: nat;
    if num <= UINT32_MAX {
      num32, num' := num, 0;
      LastPiece(num0, num, gap, done);
    } else {
      var d := UDivRem(num, 1_000_000_000);
      UnsignedQuotient(num, 1_000_000_000, d.quotient, d.rem);
      num32, num' := d.rem, d.quotient;
      NextPiece(num0, num, gap, done);
    }
    newend' := FmtUint32(buf, bufend, num32);
    assert buf[bufend..bufend0] == Zeros(gap) + done;
    Slices(buf, newend', bufend, bufend0);
    assert newend' - (bufend - 9) == 9 - |Digits(num32, 10, false)|;
    bufend' := bufend - 9;
  }

  // fmt_uint_64: pieces of nine digits from the right, the last of them as long as it is.
  method FmtUint64(buf: array<char>, bufend0: nat, num0: uint64) returns (at: nat)
    requires |Digits(num0, 10, false)| <= bufend0 <= buf.Length
    modifies buf
    ensures Written(buf, at, bufend0, Digits(num0, 10, false))
  {
    if num0 <= UINT32_MAX {
      at := FmtUint32(buf, bufend0, num0);
      return;
    }
    var num: uint64, bufend: int, newend: int := num0, bufend0, bufend0;
    while num > 0
      invariant 0 <= newend <= bufend0 && ToWrite(num0, num, newend - bufend, buf[newend..bufend0])
      invariant forall i | 0 <= i < buf.Length && !(newend <= i < bufend0) :: buf[i] == old(buf[i])
    {
      num, bufend, newend := Piece(buf, bufend0, num0, num, bufend, newend);
    }
    return newend;
  }

  // ---- a conversion of printf ----

  function Sign(ch: char): string {
    if ch == '\0' then "" else [ch]
  }

  function Missing(have: int, want: int): nat {
    if have < want then want - have else 0
  }

  function Spaces(n: nat): (s: string)
    ensures |s| == n && forall i | 0 <= i < n :: s[i] == ' '
  {
    seq(n, i => ' ')
  }

  // At least `precision` digits behind the sign, and spaces up to `width` on the one side or the
  // other.  The fill character plays no part, since there always is a precision.
  function Arranged(leftAlign: bool, sign: string, width: int, precision: int, digits: string): string {
    var body := sign + Zeros(Missing(|digits|, precision)) + digits;
    var fill := Spaces(Missing(|body|, width));
    if leftAlign then body + fill else fill + body
  }

  // In plain numbers: how long the text is, and what stands where in it.
  lemma ArrangedPlainly(leftAlign: bool, sign: string, width: int, precision: int, digits: string)
    ensures var n := |sign| + if precision > |digits| then precision else |digits|;
      var text := Arranged(leftAlign, sign, width, precision, digits);
      var from := if leftAlign then 0 else |text| - n;
      && |text| == (if width > n then width else n)
      && text[from..from + |sign|] == sign
      && (forall k | from + |sign| <= k < from + n - |digits| :: text[k] == '0')
      && text[from + n - |digits|..from + n] == digits
      && (forall k | 0 <= k < from || from + n <= k < |text| :: text[k] == ' ')
  {
  }

  // struct printf_format_tag; no sign is '\0'.
  class FormatTag {
    var leftAlign: bool
    var alwaysSign: char
    var fillChar: char
    var width: int
    var precision: int
    var hasPrecision: bool

    constructor (leftAlign: bool, alwaysSign: char, fillChar: char, width: int, precision: int, hasPrecision: bool)
      ensures this.leftAlign == leftAlign && this.alwaysSign == alwaysSign && this.fillChar == fillChar
      ensures this.width == width && this.precision == precision && this.hasPrecision == hasPrecision
    {
      this.leftAlign, this.alwaysSign, this.fillChar := leftAlign, alwaysSign, fillChar;
      this.width, this.precision, this.hasPrecision := width, precision, hasPrecision;
    }
  }

  // The fill on the left, counted down.
  method FillDown(len0: int, out0: string, ch: char, from: int, to: int) returns (len: int, out: string, minlen: int)
    requires to <= from && ch == ' ' && len0 == |out0|
    ensures out == out0 + Spaces(from - to) && minlen == to && len == |out|
  {
    len, out, minlen := len0, out0, from;
    while minlen > to
      invariant to <= minlen <= from && out == out0 + Spaces(from - minlen) && len == |out|
    {
      assert out0 + Spaces(from - minlen) + [' '] == out0 + Spaces(from - minlen + 1);
      minlen := minlen - 1;
      len, out := len + 1, out + [ch];
    }
  }

  // The zeros that the precision asks for.
  method PutZeros(len0: int, out0: string, from: int, to: int) returns (len: int, out: string)
    requires from <= to && len0 == |out0|
    ensures out == out0 + Zeros(to - from) && len == |out|
  {
    len, out := len0, out0;
    var numlen := from;
    while numlen < to
      invariant from <= numlen <= to && out == out0 + Zeros(numlen - from) && len == |out|
    {
      assert out0 + Zeros(numlen - from) + "0" == out0 + Zeros(numlen - from + 1);
      numlen := numlen + 1;
      len, out := len + 1, out + "0";
    }
  }

  // The fill on the right, up to the width.
  method FillUp(len0: int, out0: string, ch: char, minlen: int) returns (len: int, out: string)
    requires ch == ' ' && len0 == |out0|
    ensures out == out0 + Spaces(Missing(|out0|, minlen)) && len == |out|
  {
    len, out := len0, out0;
    ghost var n: nat := 0;
    while minlen > len
      invariant out == out0 + Spaces(n) && n <= Missing(|out0|, minlen) && len == |out|
    {
      assert out0 + Spaces(n) + [' '] == out0 + Spaces(n + 1);
      len, out := len + 1, out + [ch];
      n := n + 1;
    }
  }

  lemma LaidOut(leftAlign: bool, sign: string, width: int, precision: int, digits: string, left: string, minlen: int)
    requires var length := |sign| + Missing(|digits|, precision) + |digits|;
      && (left == if leftAlign then "" else "" + Spaces(Missing(length, width)))
      && minlen == if leftAlign then length + Missing(length, width) else length
    ensures var out := left + sign + Zeros(Missing(|digits|, precision)) + digits;
      out + Spaces(Missing(|out|, minlen)) == Arranged(leftAlign, sign, width, precision, digits)
  {
    var zeros := Zeros(Missing(|digits|, precision));
    assert left + sign + zeros + digits == left + (sign + zeros + digits);
  }

  // The part of fprintf_uint that follows, for the digits at ptr.
  method Put(tag: FormatTag, digits: string, numstrlen: int) returns (len: int, out: string)
    requires numstrlen == |digits| && tag.hasPrecision
    modifies tag`fillChar
    ensures out == Arranged(tag.leftAlign, Sign(tag.alwaysSign), tag.width, tag.precision, digits) && len == |out|
  {
    var numlen := numstrlen;
    var preclen := numlen;
    if tag.hasPrecision {
      tag.fillChar := ' ';
      if numlen < tag.precision {
        preclen := tag.precision;
      }
    }
    if tag.alwaysSign != '\0' {
      numlen, preclen := numlen + 1, preclen + 1;
    }
    var minlen := preclen;
    if preclen < tag.width {
      minlen := tag.width;
    }
    if tag.alwaysSign != '\0' && tag.fillChar == '0' {
      preclen := minlen;
    }
    ghost var sign := Sign(tag.alwaysSign);
    assert preclen == |sign| + Missing(|digits|, tag.precision) + |digits|;
    assert minlen == preclen + Missing(preclen, tag.width);
    assert sign == if tag.alwaysSign == '\0' then "" else [tag.alwaysSign];
    hide Zeros, Spaces, Arranged, Missing, Sign;
    len, out := 0, "";
    if !tag.leftAlign {
      len, out, minlen := FillDown(len, out, tag.fillChar, minlen, preclen);
    }
    ghost var left := out;
    if tag.alwaysSign != '\0' {
      numlen, preclen := numlen - 1, preclen - 1;
      len, out := len + 1, out + [tag.alwaysSign];
    }
    assert out == left + sign;
    len, out := PutZeros(len, out, numlen, preclen);
    len, out := len + numstrlen, out + digits;
    len, out := FillUp(len, out, tag.fillChar, minlen);
    LaidOut(tag.leftAlign, sign, tag.width, tag.precision, digits, left, minlen);
  }

  lemma FourMore(k: nat)
    ensures Raised(1, k + 4) == 1_0000 * Raised(1, k)
  {
    assert Raised(1, k + 4) == 10 * Raised(1, k + 3) == 100 * Raised(1, k + 2);
  }

  lemma DigitsOf64(num: uint64)
    ensures |Digits(num, 10, false)| <= 20
  {
    FourMore(16);
    FourMore(12);
    FourMore(8);
    FourMore(4);
    DigitsLength(num, 20);
  }

  // fprintf_uint, with an output that takes all it is given, and says so.
  method FprintfUint(tag: FormatTag, num: uint64) returns (len: int, out: string)
    modifies tag
    ensures len == |out| && out == Arranged(old(tag.leftAlign),
              if old(tag.alwaysSign) == '\0' then "" else [old(tag.alwaysSign)], old(tag.width),
              if old(tag.hasPrecision) then old(tag.precision) else 1, Digits(num, 10, false))
    ensures tag.leftAlign == old(tag.leftAlign) && tag.alwaysSign == old(tag.alwaysSign) && tag.width == old(tag.width)
  {
    hide Digits;
    var buf := new char[32](_ => '\0');
    DigitsOf64(num);
    var ptr := FmtUint64(buf, 31, num);
    var digits := buf[ptr..31];
    var numstrlen := 31 - ptr;
    if !tag.hasPrecision {
      tag.hasPrecision, tag.precision := true, 1;
    }
    len, out := Put(tag, digits, numstrlen);
  }

  lemma MagnitudeOfWord(num: int64)
    ensures Wrap(if num < 0 then Signed(Negative(num)) else num) == Magnitude(num)
  {
  }

  // fprintf_int: the sign goes into the tag, and the magnitude through an unsigned word.
  method FprintfInt(tag: FormatTag, num: int64) returns (len: int, out: string)
    modifies tag
    ensures len == |out| && out == Arranged(old(tag.leftAlign),
              if num < 0 then "-" else if old(tag.alwaysSign) == '\0' then "" else [old(tag.alwaysSign)],
              old(tag.width), if old(tag.hasPrecision) then old(tag.precision) else 1,
              Digits(if num < 0 then 0 - num else num, 10, false))
  {
    hide Negative, Wrap, Signed, Arranged;
    MagnitudeOfWord(num);
    var num': int64 := num;
    if num < 0 {
      tag.alwaysSign := '-';
      num' := Signed(Negative(num));
    }
    len, out := FprintfUint(tag, Wrap(num'));
  }
}
