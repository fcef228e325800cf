// The buffer of src/utils/texteditor.c: rows that end in NUL, edited where the cursor is.

module TextEditor {
  import opened FlatTexts

  // struct row_t: an allocated buffer and the length that is used of it, the NUL counted.
  datatype Row = Row(buf: string, len: nat)

  predicate IsText(s: string) {
    forall i | 0 <= i < |s| :: s[i] != '\0'
  }

  predicate IsLine(s: string) {
    forall i | 0 <= i < |s| :: s[i] != '\0' && s[i] != '\n'
  }

  predicate RowOk(row: Row) {
    1 <= row.len == |row.buf| && row.buf[row.len - 1] == '\0' && IsLine(row.buf[..row.len - 1])
  }

  function Line(row: Row): (line: string)
    requires RowOk(row)
    ensures IsLine(line) && row == Row(line + "\0", |line| + 1)
  {
    row.buf[..row.len - 1]
  }

  predicate RowsOk(rows: seq<Row>) {
    forall i | 0 <= i < |rows| :: RowOk(rows[i])
  }

  function Lines(rows: seq<Row>): (lines: seq<string>)
    requires RowsOk(rows)
    ensures |lines| == |rows| && forall i | 0 <= i < |rows| :: lines[i] == Line(rows[i])
  {
    seq(|rows|, i requires 0 <= i < |rows| => Line(rows[i]))
  }

  function Newlines(s: string): nat {
    if s == [] then 0 else (if s[0] == '\n' then 1 else 0) + Newlines(s[1..])
  }

  // realloc: what is new in the buffer is anything.
  method Realloc(buf: string, n: nat) returns (r: string)
    ensures |r| == n && forall i | 0 <= i < n && i < |buf| :: r[i] == buf[i]
  {
    r := if n <= |buf| then buf[..n] else buf + seq(n - |buf|, _ => '?');
  }

  method ReallocRows(rows: seq<Row>, n: nat) returns (r: seq<Row>)
    ensures |r| == n && forall i | 0 <= i < n && i < |rows| :: r[i] == rows[i]
  {
    r := if n <= |rows| then rows[..n] else rows + seq(n - |rows|, _ => Row("", 0));
  }

  method Malloc(n: nat) returns (r: string)
    ensures |r| == n
  {
    r := seq(n, _ => '?');
  }

  // memcpy of n characters of src to dst + at.
  function Memcpy(dst: string, at: nat, src: string, n: nat): (r: string)
    requires at + n <= |dst| && n <= |src|
    ensures |r| == |dst|
  {
    dst[..at] + src[..n] + dst[at + n..]
  }

  // The insert branch: a hole is made at column c.
  method InsertChar(row: Row, c: nat, ch: char) returns (new': Row)
    requires RowOk(row) && c < row.len && ch != '\0' && ch != '\n'
    ensures RowOk(new') && Line(new') == Line(row)[..c] + [ch] + Line(row)[c..]
  {
    var len := row.len + 1;
    var buf := Realloc(row.buf, len);
    var i := len - 1;
    while i > c
      invariant c <= i <= len - 1 && |buf| == len
      invariant forall j | 0 <= j < i :: buf[j] == row.buf[j]
      invariant forall j | i < j < len :: buf[j] == row.buf[j - 1]
    {
      buf := buf[i := buf[i - 1]];
      i := i - 1;
    }
    buf := buf[c := ch];
    new' := Row(buf, len);
    assert buf[..len - 1] == Line(row)[..c] + [ch] + Line(row)[c..];
  }

  // The backspace branch inside a row: column c is closed up.
  method RemoveChar(row: Row, c: nat) returns (new': Row)
    requires RowOk(row) && c + 1 < row.len
    ensures RowOk(new') && Line(new') == Line(row)[..c] + Line(row)[c + 1..]
  {
    var len := row.len - 1;
    var buf := row.buf;
    var i := c;
    assert forall j | 0 <= j < len :: row.buf[j] == Line(row)[j];
    while i < len
      invariant c <= i <= len && |buf| == row.len
      invariant forall j | 0 <= j < c :: buf[j] == row.buf[j]
      invariant forall j | c <= j < i :: buf[j] == row.buf[j + 1]
      invariant forall j | i <= j < row.len :: buf[j] == row.buf[j]
    {
      buf := buf[i := buf[i + 1]];
      if buf[i] == '\0' {
        i := i + 1;
        break;
      }
      i := i + 1;
    }
    buf := Realloc(buf, len);
    new' := Row(buf, len);
    assert buf[..len - 1] == Line(row)[..c] + Line(row)[c + 1..];
  }

  // The backspace branch at column 0: a row is put at the end of the one before it.
  method AppendRow(row: Row, next: Row) returns (new': Row)
    requires RowOk(row) && RowOk(next)
    ensures RowOk(new') && Line(new') == Line(row) + Line(next)
  {
    var newLength := row.len + next.len - 1;
    var buf := Realloc(row.buf, newLength);
    buf := Memcpy(buf, row.len - 1, next.buf, next.len);
    buf := buf[newLength - 1 := '\0'];
    new' := Row(buf, newLength);
    assert buf[..newLength - 1] == Line(row) + Line(next);
  }

  // The newline branch: what is right of the cursor, and what is left of it.
  method CutRow(row: Row, c: nat) returns (first: Row, second: Row)
    requires RowOk(row) && c < row.len
    ensures RowOk(first) && Line(first) == Line(row)[..c]
    ensures RowOk(second) && Line(second) == Line(row)[c..]
  {
    var len := row.len - c;
    if len <= 0 {
      len := 1;
    }
    var buf := Malloc(len);
    buf := Memcpy(buf, 0, row.buf[c..], len);
    buf := buf[len - 1 := '\0'];
    second := Row(buf, len);
    assert buf[..len - 1] == Line(row)[c..];
    buf := Realloc(row.buf, c + 1);
    buf := buf[c := '\0'];
    first := Row(buf, c + 1);
    assert buf[..c] == Line(row)[..c];
  }

  // rows[i] = rows[i + 1] from row r to the end.
  method ShiftUp(rows: seq<Row>, r: nat) returns (new': seq<Row>)
    requires r < |rows|
    ensures new' == rows[..r] + rows[r + 1..]
  {
    new' := rows;
    var i := r;
    while i < |rows| - 1
      invariant r <= i <= |rows| - 1 && |new'| == |rows|
      invariant forall j | 0 <= j < r || i <= j < |rows| :: new'[j] == rows[j]
      invariant forall j | r <= j < i :: new'[j] == rows[j + 1]
    {
      new' := new'[i := new'[i + 1]];
      i := i + 1;
    }
    new' := ReallocRows(new', |rows| - 1);
  }

  // rows[i] = rows[i - 1] down to row r + 2, one row having been added; row r + 1 is free to use.
  method ShiftDown(rows: seq<Row>, r: nat) returns (new': seq<Row>)
    requires r < |rows|
    ensures |new'| == |rows| + 1 && new'[..r + 1] == rows[..r + 1] && new'[r + 2..] == rows[r + 1..]
  {
    new' := ReallocRows(rows, |rows| + 1);
    var i := |rows|;
    while i > r + 1
      invariant r + 1 <= i <= |rows| && |new'| == |rows| + 1
      invariant forall j | 0 <= j < i :: new'[j] == rows[j]
      invariant forall j | i < j <= |rows| :: new'[j] == rows[j - 1]
    {
      new' := new'[i := new'[i - 1]];
      i := i - 1;
    }
  }

  method CountRows(data: string) returns (count: nat)
    ensures count == 1 + Newlines(data)
  {
    count := 1;
    var i: nat := 0;
    assert data[i..] == data;
    while i < |data|
      invariant i <= |data| && count + Newlines(data[i..]) == 1 + Newlines(data)
    {
      assert data[i..][1..] == data[i + 1..];
      if data[i] == '\n' {
        count := count + 1;
      }
      i := i + 1;
    }
  }

  // One round of the loop that loads a file: the row that starts at i, up to its newline or the
  // end.  The last row is copied with the byte that happens to follow the file's buffer, which
  // the NUL then takes the place of.
  method LoadRow(data: string, past: char, i: nat) returns (row: Row)
    requires IsText(data) && i <= |data|
    ensures RowOk(row) && i + row.len <= |data| + 1 && Line(row) == data[i..i + row.len - 1]
    ensures i + row.len <= |data| ==> data[i + row.len - 1] == '\n'
  {
    var rowLength := 0;
    while i + rowLength < |data|
      invariant i + rowLength <= |data| && forall j | i <= j < i + rowLength :: data[j] != '\n'
    {
      if data[i + rowLength] == '\n' {
        break;
      }
      rowLength := rowLength + 1;
    }
    rowLength := rowLength + 1;
    var buf := Malloc(rowLength);
    buf := Memcpy(buf, 0, (data + [past])[i..], rowLength);
    buf := buf[rowLength - 1 := '\0'];
    assert (data + [past])[i..][..rowLength - 1] == data[i..i + rowLength - 1] == buf[..rowLength - 1];
    row := Row(buf, rowLength);
  }

  // The lines loaded so far are the data up to i; `left` more are to come.
  ghost predicate Loaded(data: string, i: nat, left: nat, lines: seq<string>) {
    if left == 0 then
      lines != [] && Join(lines) == data
    else
      i <= |data| && left == 1 + Newlines(data[i..]) && Before(lines) == data[..i]
  }

  lemma {:induction false} NewlinesInLine(s: string, n: nat)
    requires n <= |s| && IsLine(s[..n])
    ensures Newlines(s) == Newlines(s[n..])
  {
    if n == 0 {
      assert s[0..] == s;
    } else {
      assert s[0] == s[..n][0];
      assert s[1..][..n - 1] == s[..n][1..];
      NewlinesInLine(s[1..], n - 1);
      assert s[1..][n - 1..] == s[n..];
    }
  }

  lemma LoadedNext(data: string, i: nat, next: nat, left: nat, lines: seq<string>, line: string)
    requires 0 < left && Loaded(data, i, left, lines)
    requires i < next <= |data| + 1 && line == data[i..next - 1] && IsLine(line)
    requires next <= |data| ==> data[next - 1] == '\n'
    ensures Loaded(data, next, left - 1, lines + [line])
  {
    hide Join;
    assert data[i..][..|line|] == line;
    NewlinesInLine(data[i..], |line|);
    assert data[i..][|line|..] == data[next - 1..];
    assert (lines + [line])[..|lines|] == lines;
    if next <= |data| {
      assert data[next - 1..][1..] == data[next..];
      assert data[..i] + line + "\n" == data[..next];
    } else {
      JoinLast(lines + [line]);
      assert data[..i] + line == data;
    }
  }

  lemma NothingLoaded(data: string, rows: seq<Row>)
    ensures RowsOk(rows[..0]) && Loaded(data, 0, 1 + Newlines(data), Lines(rows[..0]))
  {
    assert data[0..] == data && rows[..0] == [] && Lines(rows[..0]) == [];
  }

  lemma OneMoreRow(rows: seq<Row>, r: nat, row: Row)
    requires r < |rows| && RowsOk(rows[..r]) && RowOk(row)
    ensures RowsOk(rows[r := row][..r + 1])
    ensures Lines(rows[r := row][..r + 1]) == Lines(rows[..r]) + [Line(row)]
  {
    assert rows[r := row][..r + 1] == rows[..r] + [row];
  }

  method LoadRows(data: string, past: char, rowCount: nat) returns (rows: seq<Row>)
    requires IsText(data) && rowCount == 1 + Newlines(data)
    ensures RowsOk(rows) && |rows| == rowCount && Join(Lines(rows)) == data
  {
    hide Newlines, Join, Before, RowsOk, RowOk;
    rows := ReallocRows([], rowCount);
    var i: nat, r: nat := 0, 0;
    NothingLoaded(data, rows);
    while r < rowCount
      invariant r <= rowCount == |rows|
      invariant RowsOk(rows[..r]) && Loaded(data, i, rowCount - r, Lines(rows[..r]))
    {
      var row := LoadRow(data, past, i);
      LoadedNext(data, i, i + row.len, rowCount - r, Lines(rows[..r]), Line(row));
      OneMoreRow(rows, r, row);
      rows := rows[r := row];
      i := i + row.len;
      r := r + 1;
    }
    assert rows[..r] == rows;
  }

  lemma WriteLine(lines: seq<string>, i: nat)
    requires i < |lines|
    ensures Before(lines[..i + 1]) == Before(lines[..i]) + lines[i] + "\n"
    ensures i + 1 == |lines| ==> Join(lines) == Before(lines[..i]) + lines[i]
  {
    assert lines[..i + 1][..i] == lines[..i];
    JoinLast(lines);
  }

  // A row in the place of two.
  lemma OneForTwo(rows: seq<Row>, r: nat, row: Row)
    requires RowsOk(rows) && RowOk(row) && r + 1 < |rows|
    ensures var put := rows[r := row][..r + 1] + rows[r := row][r + 2..];
      RowsOk(put) && Lines(put) == Lines(rows)[..r] + [Line(row)] + Lines(rows)[r + 2..]
  {
    assert rows[r := row][..r + 1] + rows[r := row][r + 2..] == rows[..r] + [row] + rows[r + 2..];
  }

  // The two halves of a row, put in its place and the free one after it.
  lemma PutTwo(rows: seq<Row>, shifted: seq<Row>, r: nat, first: Row, second: Row)
    requires RowsOk(rows) && RowOk(first) && RowOk(second) && r < |rows|
    requires |shifted| == |rows| + 1 && shifted[..r + 1] == rows[..r + 1] && shifted[r + 2..] == rows[r + 1..]
    ensures var put := shifted[r + 1 := second][r := first];
      && RowsOk(put)
      && Lines(put) == Lines(rows)[..r] + [Line(first), Line(second)] + Lines(rows)[r + 1..]
  {
    var put := shifted[r + 1 := second][r := first];
    assert put == rows[..r] + [first, second] + rows[r + 1..] by {
      assert put[..r] == rows[..r] && put[r + 2..] == rows[r + 1..];
    }
  }

  // Places in a line, before and after that line was changed.
  lemma SamePlace(lines: seq<string>, lines': seq<string>, r: nat, c: nat, c': nat)
    requires r < |lines| == |lines'| && lines[..r] == lines'[..r] && c <= |lines[r]| && c' <= |lines'[r]|
    ensures At(lines', r, c') - At(lines, r, c) == c' - c
  {
  }

  // A row joined to the one before it is what a newline would cut in two again.
  lemma UndoSplit(lines: seq<string>, lines': seq<string>, r: nat, c: nat)
    requires r + 1 < |lines| && c == |lines[r]|
    requires lines' == lines[..r] + [lines[r] + lines[r + 1]] + lines[r + 2..]
    ensures At(lines, r + 1, 0) == At(lines', r, c) + 1 <= |Join(lines)|
    ensures Join(lines') == Join(lines)[..At(lines', r, c)] + Join(lines)[At(lines', r, c) + 1..]
  {
    hide Join, At;
    SplitLine(lines', r, c);
    assert lines'[..r] + [lines'[r][..c], lines'[r][c..]] + lines'[r + 1..] == lines;
    TakeOut(Join(lines')[..At(lines', r, c)], "\n", Join(lines')[At(lines', r, c)..]);
  }

  class Editor {
    var rows: seq<Row>
    var rowCount: nat
    var currentRow: nat
    var currentCol: nat

    // Every row ends in its NUL and nowhere before, and the cursor is in a row.
    ghost predicate Valid()
      reads this
    {
      && rowCount == |rows| && RowsOk(rows)
      && currentRow < rowCount && currentCol < rows[currentRow].len
    }

    ghost function Doc(): (d: Document)
      requires Valid()
      reads this
      ensures d.at <= |d.text|
    {
      var lines := Lines(rows);
      EditLine(lines, currentRow, currentCol, currentCol, "");
      Document(Join(lines), At(lines, currentRow, currentCol))
    }

    // The start of editor_main, with the whole of the file read.
    constructor (data: string, past: char)
      requires IsText(data)
      ensures Valid() && Doc() == Document(data, 0)
    {
      rows, rowCount, currentRow, currentCol := [], 0, 0, 0;
      new;
      rowCount := CountRows(data);
      rows := LoadRows(data, past, rowCount);
      assert |Lines(rows)[0]| >= 0;
    }

    // editor_write: what the file then holds.
    method Write() returns (file: string)
      requires Valid()
      ensures file == Doc().text
    {
      ghost var lines := Lines(rows);
      file := "";
      var i: nat := 0;
      assert Before(lines[..0]) == "";
      hide Before, Join;
      while i < rowCount
        invariant i <= rowCount
        invariant i < rowCount ==> file == Before(lines[..i])
        invariant i == rowCount ==> file == Join(lines)
      {
        WriteLine(lines, i);
        file := file + rows[i].buf[..rows[i].len - 1];
        if i != rowCount - 1 {
          file := file + "\n";
        }
        i := i + 1;
      }
    }

    // A typed character.
    method Insert(ch: char)
      requires Valid() && Typable(ch) && ch != '\n'
      modifies this
      ensures Valid() && Doc() == Press(old(Doc()), ch)
    {
      hide Join, At;
      ghost var lines := Lines(rows);
      EditLine(lines, currentRow, currentCol, currentCol, [ch]);
      var row := InsertChar(rows[currentRow], currentCol, ch);
      rows := rows[currentRow := row];
      assert Lines(rows) == lines[currentRow := Line(row)];
      currentCol := currentCol + 1;
      SamePlace(lines, Lines(rows), currentRow, currentCol - 1, currentCol);
    }

    // The return key.
    method NewLine()
      requires Valid()
      modifies this
      ensures Valid() && Doc() == Press(old(Doc()), '\n')
    {
      hide Join, At;
      ghost var lines := Lines(rows);
      SplitLine(lines, currentRow, currentCol);
      var first, second := CutRow(rows[currentRow], currentCol);
      ghost var was := rows;
      rowCount := rowCount + 1;
      rows := ShiftDown(rows, currentRow);
      PutTwo(was, rows, currentRow, first, second);
      rows := rows[currentRow + 1 := second][currentRow := first];
      currentCol := 0;
      currentRow := currentRow + 1;
    }

    method RemoveBefore()
      requires Valid() && currentCol > 0
      modifies this
      ensures Valid() && old(Doc()).at > 0 && Doc() == Press(old(Doc()), BACKSPACE)
    {
      hide Join, At;
      ghost var lines := Lines(rows);
      currentCol := currentCol - 1;
      SamePlace(lines, lines, currentRow, currentCol, currentCol + 1);
      EditLine(lines, currentRow, currentCol, currentCol + 1, "");
      var row := RemoveChar(rows[currentRow], currentCol);
      rows := rows[currentRow := row];
      assert lines[currentRow][..currentCol] + "" + lines[currentRow][currentCol + 1..] == Line(row);
      assert Lines(rows) == lines[currentRow := Line(row)];
      SamePlace(lines, Lines(rows), currentRow, currentCol, currentCol);
      assert Join(lines)[..Doc().at] + "" + Join(lines)[Doc().at + 1..] ==
        Join(lines)[..Doc().at] + Join(lines)[Doc().at + 1..];
    }

    method JoinWithPrevious()
      requires Valid() && currentCol == 0 && currentRow > 0
      modifies this
      ensures Valid() && old(Doc()).at > 0 && Doc() == Press(old(Doc()), BACKSPACE)
    {
      hide Join, At;
      ghost var lines, was := Lines(rows), rows;
      var r := currentRow - 1;
      var row := AppendRow(rows[r], rows[currentRow]);
      var oldLength := rows[r].len;
      rows := ShiftUp(rows[r := row], currentRow);
      rowCount := rowCount - 1;
      currentRow := currentRow - 1;
      currentCol := oldLength - 1;
      OneForTwo(was, r, row);
      UndoSplit(lines, Lines(rows), r, currentCol);
    }

    // The backspace key.
    method Backspace()
      requires Valid()
      modifies this
      ensures Valid() && Doc() == Press(old(Doc()), BACKSPACE)
    {
      if currentCol > 0 {
        RemoveBefore();
      } else if currentRow > 0 {
        JoinWithPrevious();
      } else {
        assert At(Lines(rows), 0, 0) == 0;
      }
    }

    // Any key but escape: what editor_main does with the character it reads.  A printable one, a tab
    // or a newline goes in front of the cursor, a backspace takes one away there, and no other does
    // anything.
    method Key(ch: char)
      requires Valid() && ch != '\U{1B}'
      modifies this
      ensures Valid() && Doc() == Press(old(Doc()), ch) && old(Doc()).at <= |old(Doc()).text|
      ensures var d := old(Doc());
        ch >= ' ' || ch == '\t' || ch == '\n' ==>
          Doc() == Document(d.text[..d.at] + [ch] + d.text[d.at..], d.at + 1)
      ensures var d := old(Doc());
        ch == '\U{8}' ==>
          Doc() == if d.at == 0 then d else Document(d.text[..d.at - 1] + d.text[d.at..], d.at - 1)
      ensures ch < ' ' && ch != '\t' && ch != '\n' && ch != '\U{8}' ==> Doc() == old(Doc())
    {
      if ch == BACKSPACE {
        Backspace();
      } else if ch == '\n' {
        NewLine();
      } else if ch >= ' ' || ch == '\t' {
        Insert(ch);
      }
    }

    // Every run of such keys, from every valid cursor.
    method Keys(keys: string)
      requires Valid() && '\U{1B}' !in keys
      modifies this
      ensures Valid() && Doc() == PressAll(old(Doc()), keys)
    {
      hide Press, this.Doc;
      var i: nat := 0;
      while i < |keys|
        invariant i <= |keys| && Valid() && Doc() == PressAll(old(Doc()), keys[..i])
      {
        assert keys[..i + 1][..i] == keys[..i];
        Key(keys[i]);
        i := i + 1;
      }
      assert keys[..i] == keys;
    }

    // One round of the loop of editor_main; a command follows escape.
    method Take(ch: char, file0: string, waiting0: bool, opens: bool) returns (file: string, waiting: bool, left: bool)
      requires Valid()
      modifies this
      ensures Valid() && Desk(Doc(), file, waiting, left) == Type(Desk(old(Doc()), file0, waiting0, false), ch, opens)
    {
      hide Press;
      file, waiting, left := file0, false, false;
      if waiting0 {
        if ch == 'q' {
          left := true;
        } else if ch == 'w' && opens {
          file := Write();
        }
      } else if ch == ESCAPE {
        waiting := true;
      } else {
        Key(ch);
      }
    }
  }

  // Open, then whatever is typed, escape and its commands among it: the file, and whether the
  // editor was left, are what they are for a flat text.  Whether the file can be opened for
  // writing is up to the file system.
  method Session(data: string, past: char, input: string, opens: bool) returns (file: string, left: bool)
    requires IsText(data)
    ensures var desk := TypeAll(Desk(Document(data, 0), data, false, false), input, opens);
      file == desk.file && left == desk.left
  {
    var editor := new Editor(data, past);
    file, left := data, false;
    ghost var start := Desk(Document(data, 0), data, false, false);
    var waiting := false;
    var i: nat := 0;
    assert input[..0] == [];
    hide Press, editor.Doc, TypeAll, Type;
    while i < |input| && !left
      invariant i <= |input| && fresh(editor) && editor.Valid()
      invariant TypeAll(start, input[..i], opens) == Desk(editor.Doc(), file, waiting, left)
    {
      TypeNext(start, input, i, opens);
      file, waiting, left := editor.Take(input[i], file, waiting, opens);
      i := i + 1;
    }
    if left {
      LeftForGood(start, input, i, opens);
    } else {
      assert input[..i] == input;
    }
  }
}
