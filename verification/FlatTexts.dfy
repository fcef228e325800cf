// A text as lines and as one flat string, and what editing the lines does to the string.

module FlatTexts {
  // Lines with a newline after each of them, and between them.
  function Before(lines: seq<string>): string {
    if lines == [] then "" else Before(lines[..|lines| - 1]) + lines[|lines| - 1] + "\n"
  }

  function After(lines: seq<string>): string {
    if lines == [] then "" else "\n" + lines[0] + After(lines[1..])
  }

  function Join(lines: seq<string>): string
    requires lines != []
  {
    lines[0] + After(lines[1..])
  }

  // Where column c of line r is in the flat string.
  function At(lines: seq<string>, r: nat, c: nat): nat
    requires r < |lines| && c <= |lines[r]|
  {
    |Before(lines[..r])| + c
  }

  // Any line can be taken as the middle of the text.
  lemma {:induction false} JoinAround(lines: seq<string>, r: nat)
    requires r < |lines|
    ensures Join(lines) == Before(lines[..r]) + lines[r] + After(lines[r + 1..])
  {
    if r == 0 {
      assert Before(lines[..0]) == "";
    } else {
      JoinAround(lines, r - 1);
      assert lines[r..][0] == lines[r] && lines[r..][1..] == lines[r + 1..];
      assert lines[..r][..r - 1] == lines[..r - 1];
      var before, line, rest := Before(lines[..r - 1]), lines[r - 1], After(lines[r + 1..]);
      assert before + line + ("\n" + lines[r] + rest) == before + line + "\n" + lines[r] + rest;
    }
  }

  // Only the last line has no newline after it.
  lemma JoinLast(lines: seq<string>)
    requires lines != []
    ensures Join(lines) == Before(lines[..|lines| - 1]) + lines[|lines| - 1]
  {
    JoinAround(lines, |lines| - 1);
    assert Join(lines) == Before(lines[..|lines| - 1]) + lines[|lines| - 1] + "";
  }

  lemma Cut(before: string, line: string, after: string, from: nat, to: nat)
    requires from <= to <= |line|
    ensures (before + line + after)[..|before| + from] == before + line[..from]
    ensures (before + line + after)[|before| + to..] == line[to..] + after
  {
    assert before + line + after == (before + line[..from]) + (line[from..] + after);
    assert before + line + after == (before + line[..to]) + (line[to..] + after);
  }

  lemma Regroup(a: string, b: string, c: string, d: string, e: string)
    ensures a + (b + c + d) + e == (a + b) + c + (d + e)
  {
  }

  // Changing inside a line changes the flat string in the same place.
  lemma EditLine(lines: seq<string>, r: nat, from: nat, to: nat, text: string)
    requires r < |lines| && from <= to <= |lines[r]|
    ensures At(lines, r, from) <= At(lines, r, to) <= |Join(lines)|
    ensures Join(lines[r := lines[r][..from] + text + lines[r][to..]]) ==
              Join(lines)[..At(lines, r, from)] + text + Join(lines)[At(lines, r, to)..]
  {
    var line := lines[r][..from] + text + lines[r][to..];
    JoinAround(lines, r);
    JoinAround(lines[r := line], r);
    assert lines[r := line][..r] == lines[..r] && lines[r := line][r + 1..] == lines[r + 1..];
    Cut(Before(lines[..r]), lines[r], After(lines[r + 1..]), from, to);
    Regroup(Before(lines[..r]), lines[r][..from], text, lines[r][to..], After(lines[r + 1..]));
  }

  // Cutting a line in two puts a newline into the flat string.
  lemma SplitLine(lines: seq<string>, r: nat, c: nat)
    requires r < |lines| && c <= |lines[r]|
    ensures var split := lines[..r] + [lines[r][..c], lines[r][c..]] + lines[r + 1..];
      && At(lines, r, c) <= |Join(lines)|
      && Join(split) == Join(lines)[..At(lines, r, c)] + "\n" + Join(lines)[At(lines, r, c)..]
      && At(split, r + 1, 0) == At(lines, r, c) + 1
  {
    var first, second := lines[r][..c], lines[r][c..];
    var split := lines[..r] + [first, second] + lines[r + 1..];
    var before, after := Before(lines[..r]), After(lines[r + 1..]);
    JoinAround(lines, r);
    JoinAround(split, r + 1);
    assert split[r + 2..] == lines[r + 1..];
    assert split[..r + 1] == lines[..r] + [first];
    assert (lines[..r] + [first])[..r] == lines[..r];
    assert Before(split[..r + 1]) == before + first + "\n";
    Cut(before, lines[r], after, c, c);
    assert before + first + "\n" + second + after == (before + first) + "\n" + (second + after);
  }

  const BACKSPACE := '\U{8}'

  // A document with its cursor, and what a key does to it.
  datatype Document = Document(text: string, at: nat)

  predicate Typable(ch: char) {
    ch >= ' ' || ch == '\t' || ch == '\n'
  }

  function Press(d: Document, ch: char): (e: Document)
    requires d.at <= |d.text|
    ensures e.at <= |e.text|
  {
    if ch == BACKSPACE then
      if d.at == 0 then d else Document(d.text[..d.at - 1] + d.text[d.at..], d.at - 1)
    else if Typable(ch) then
      Document(d.text[..d.at] + [ch] + d.text[d.at..], d.at + 1)
    else d
  }

  function PressAll(d: Document, keys: string): (e: Document)
    requires d.at <= |d.text|
    ensures e.at <= |e.text|
  {
    if keys == [] then d else Press(PressAll(d, keys[..|keys| - 1]), keys[|keys| - 1])
  }

  // Typing puts the typed text, as it is, in front of the cursor.
  lemma {:induction false} TypingInserts(d: Document, typed: string)
    requires d.at <= |d.text|
    requires forall i | 0 <= i < |typed| :: typed[i] >= ' ' || typed[i] == '\t' || typed[i] == '\n'
    ensures PressAll(d, typed) == Document(d.text[..d.at] + typed + d.text[d.at..], d.at + |typed|)
  {
    if typed == [] {
      assert d.text[..d.at] + typed + d.text[d.at..] == d.text;
    } else {
      var n := |typed| - 1;
      TypingInserts(d, typed[..n]);
      var before := d.text[..d.at] + typed[..n];
      var text := before + d.text[d.at..];
      assert text[..d.at + n] == before && text[d.at + n..] == d.text[d.at..];
      assert typed[..n] + [typed[n]] == typed;
      assert d.text[..d.at] + typed[..n] + [typed[n]] == d.text[..d.at] + typed;
    }
  }

  function Backspaces(n: nat): (keys: string)
    ensures |keys| == n && forall i | 0 <= i < n :: keys[i] == '\U{8}'
  {
    seq(n, i => BACKSPACE)
  }

  // As many backspaces take it away again.
  lemma {:induction false} BackspacesErase(d: Document, n: nat)
    requires n <= d.at <= |d.text|
    ensures PressAll(d, Backspaces(n)) == Document(d.text[..d.at - n] + d.text[d.at..], d.at - n)
  {
    var keys := Backspaces(n);
    if n == 0 {
      assert keys == [] && d.text[..d.at - 0] + d.text[d.at..] == d.text;
    } else {
      BackspacesErase(d, n - 1);
      assert keys[..n - 1] == Backspaces(n - 1) && keys[n - 1] == '\U{8}';
      var text := d.text[..d.at - (n - 1)] + d.text[d.at..];
      var at := d.at - (n - 1);
      assert text[..at - 1] == d.text[..d.at - n] && text[at..] == d.text[d.at..];
    }
  }

  lemma {:induction false} PressMore(d: Document, s: string, t: string)
    requires d.at <= |d.text|
    ensures PressAll(d, s + t) == PressAll(PressAll(d, s), t)
  {
    if t == [] {
      assert s + t == s;
    } else {
      PressMore(d, s, t[..|t| - 1]);
      assert (s + t)[..|s + t| - 1] == s + t[..|t| - 1];
    }
  }

  lemma TakeOut(a: string, b: string, c: string)
    ensures (a + b + c)[..|a|] == a && (a + b + c)[|a| + |b|..] == c
  {
  }

  lemma TypeAndErase(d: Document, typed: string)
    requires d.at <= |d.text|
    requires forall i | 0 <= i < |typed| :: typed[i] >= ' ' || typed[i] == '\t' || typed[i] == '\n'
    ensures PressAll(d, typed + Backspaces(|typed|)) == d
  {
    hide PressAll, Backspaces;
    PressMore(d, typed, Backspaces(|typed|));
    TypingInserts(d, typed);
    BackspacesErase(PressAll(d, typed), |typed|);
    TakeOut(d.text[..d.at], typed, d.text[d.at..]);
    assert d.text[..d.at] + d.text[d.at..] == d.text;
  }

  // ---- sessions ----

  const ESCAPE := '\U{1B}'

  // The document being edited, the file, whether escape was the last key, and whether the editor
  // was left.
  datatype Desk = Desk(doc: Document, file: string, waiting: bool, left: bool)

  // One character typed; `opens` says whether the file can be opened for writing.
  function Type(d: Desk, ch: char, opens: bool): (e: Desk)
    requires d.doc.at <= |d.doc.text|
    ensures e.doc.at <= |e.doc.text|
  {
    if d.left then d
    else if d.waiting then
      if ch == 'q' then d.(waiting := false, left := true)
      else if ch == 'w' && opens then d.(waiting := false, file := d.doc.text)
      else d.(waiting := false)
    else if ch == ESCAPE then d.(waiting := true)
    else d.(doc := Press(d.doc, ch))
  }

  function TypeAll(d: Desk, input: string, opens: bool): (e: Desk)
    requires d.doc.at <= |d.doc.text|
    ensures e.doc.at <= |e.doc.text|
  {
    if input == [] then d else Type(TypeAll(d, input[..|input| - 1], opens), input[|input| - 1], opens)
  }

  lemma {:induction false} TypeMore(d: Desk, s: string, t: string, opens: bool)
    requires d.doc.at <= |d.doc.text|
    ensures TypeAll(d, s + t, opens) == TypeAll(TypeAll(d, s, opens), t, opens)
  {
    if t == [] {
      assert s + t == s;
    } else {
      TypeMore(d, s, t[..|t| - 1], opens);
      assert (s + t)[..|s + t| - 1] == s + t[..|t| - 1];
    }
  }

  lemma {:induction false} TypingIsPressing(d: Desk, keys: string, opens: bool)
    requires d.doc.at <= |d.doc.text| && !d.left && !d.waiting && ESCAPE !in keys
    ensures TypeAll(d, keys, opens) == d.(doc := PressAll(d.doc, keys))
  {
    hide Press;
    if keys == [] {
    } else {
      TypingIsPressing(d, keys[..|keys| - 1], opens);
    }
  }

  lemma {:induction false} LeftForGood(d: Desk, input: string, i: nat, opens: bool)
    requires d.doc.at <= |d.doc.text| && i <= |input| && TypeAll(d, input[..i], opens).left
    ensures TypeAll(d, input, opens) == TypeAll(d, input[..i], opens)
    decreases |input|
  {
    if i == |input| {
      assert input[..i] == input;
    } else {
      var before := input[..|input| - 1];
      assert before[..i] == input[..i];
      LeftForGood(d, before, i, opens);
    }
  }

  lemma TypeNext(d: Desk, s: string, i: nat, opens: bool)
    requires d.doc.at <= |d.doc.text| && i < |s|
    ensures TypeAll(d, s[..i + 1], opens) == Type(TypeAll(d, s[..i], opens), s[i], opens)
    ensures TypeAll(d, s[..0], opens) == d
  {
    hide Type;
    var t := s[..i + 1];
    assert t[..|t| - 1] == s[..i] && t[|t| - 1] == s[i];
  }

  lemma Twice(d: Desk, a: char, b: char, opens: bool)
    requires d.doc.at <= |d.doc.text|
    ensures TypeAll(d, [a, b], opens) == Type(Type(d, a, opens), b, opens)
  {
    hide Type;
    TypeNext(d, [a, b], 0, opens);
    TypeNext(d, [a, b], 1, opens);
    hide TypeAll;
    assert [a, b][..2] == [a, b];
  }

  // Escape and anything but q and w changes nothing, and so does w if the file cannot be opened.
  lemma OtherCommands(d: Desk, ch: char, opens: bool)
    requires d.doc.at <= |d.doc.text| && !d.left && !d.waiting && ch != 'q' && !(ch == 'w' && opens)
    ensures TypeAll(d, ['\U{1B}', ch], opens) == d
  {
    Twice(d, '\U{1B}', ch, opens);
  }

  // What was typed is in the file once it was written, and only then; later keys do not matter.
  lemma WriteAndQuit(d: Desk, keys: string, more: string, opens: bool)
    requires d.doc.at <= |d.doc.text| && !d.left && !d.waiting
    requires '\U{1B}' !in keys && '\U{1B}' !in more
    ensures var e := TypeAll(d, keys + ['\U{1B}', 'w'] + more + ['\U{1B}', 'q'], opens);
      e.left && e.file == if opens then PressAll(d.doc, keys).text else d.file
  {
    hide Press;
    var d1 := TypeAll(d, keys, opens);
    TypingIsPressing(d, keys, opens);
    TypeMore(d, keys, [ESCAPE, 'w'], opens);
    var d2 := TypeAll(d1, [ESCAPE, 'w'], opens);
    Twice(d1, ESCAPE, 'w', opens);
    TypeMore(d, keys + [ESCAPE, 'w'], more, opens);
    TypingIsPressing(d2, more, opens);
    var d3 := TypeAll(d2, more, opens);
    TypeMore(d, keys + [ESCAPE, 'w'] + more, [ESCAPE, 'q'], opens);
    Twice(d3, ESCAPE, 'q', opens);
  }
}
