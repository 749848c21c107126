/** The maze grid built from text (maze.c): each input line holds a row of
    cells written as single digits separated by single blanks, possibly
    ending in a newline; add_row parses one line into a row of ints and
    appends it, requiring every row to have the width of the first. */
module Maze {

  predicate IsDigit(c: char) {
    '0' <= c <= '9'
  }

  function DigitValue(c: char): (d: int)
    requires IsDigit(c)
    ensures 0 <= d <= 9
  {
    c as int - '0' as int
  }

  /** The character strtol reads back as `d`. */
  function DigitChar(d: int): (c: char)
    requires 0 <= d <= 9
    ensures IsDigit(c) && DigitValue(c) == d
  {
    ('0' as int + d) as char
  }

  /** The lines the model reads: a digit at every even offset and a
      non-digit separator at every odd one (in the maze files a blank, or
      the final newline). strtol stops at that separator, so each cell is
      the one digit before it. */
  predicate WellFormedLine(line: string) {
    forall i :: 0 <= i < |line| ==> (IsDigit(line[i]) <==> i % 2 == 0)
  }

  /** add_row's width of a line: its length less half its length, which is
      the number of cells whether or not the line ends in a newline. */
  function RowWidth(line: string): (w: nat)
    ensures |line| <= 2 * w <= |line| + 1
  {
    |line| - |line| / 2
  }

  /** The row add_row stores for a line: cell `k` is the number strtol reads
      at offset `2 * k`. */
  function ParsedRow(line: string): (row: seq<int>)
    requires WellFormedLine(line)
    ensures |row| == RowWidth(line)
  {
    seq(RowWidth(line), k requires 0 <= k < RowWidth(line) => DigitValue(line[2 * k]))
  }

  /** The number of digit characters in a line. */
  function DigitCount(line: string): nat {
    if line == [] then 0
    else (if IsDigit(line[0]) then 1 else 0) + DigitCount(line[1..])
  }

  /** For a well-formed line the inferred width is exactly its number of
      cells. */
  lemma {:induction false} RowWidthIsDigitCount(line: string)
    requires WellFormedLine(line)
    ensures RowWidth(line) == DigitCount(line)
    decreases |line|
  {
    if 2 <= |line| {
      var rest := line[2..];
      assert WellFormedLine(rest) by {
        forall i | 0 <= i < |rest|
          ensures IsDigit(rest[i]) <==> i % 2 == 0
        {
          assert rest[i] == line[i + 2];
        }
      }
      RowWidthIsDigitCount(rest);
      assert line[1..][1..] == rest;
      assert IsDigit(line[0]) && !IsDigit(line[1]);
    } else if |line| == 1 {
      assert IsDigit(line[0]);
      assert line[1..] == [];
    }
  }

  /** A row of digits written out the way the maze files hold it. */
  function RowText(row: seq<int>): (line: string)
    requires forall k :: 0 <= k < |row| ==> 0 <= row[k] <= 9
    ensures |line| == if row == [] then 0 else 2 * |row| - 1
  {
    if row == [] then []
    else if |row| == 1 then [DigitChar(row[0])]
    else [DigitChar(row[0]), ' '] + RowText(row[1..])
  }

  /** Writing a row out and parsing it back gives the same row, with or
      without the newline getline leaves at the end of the line. */
  lemma {:induction false} ParseRowText(row: seq<int>)
    requires forall k :: 0 <= k < |row| ==> 0 <= row[k] <= 9
    ensures WellFormedLine(RowText(row)) && ParsedRow(RowText(row)) == row
    ensures row != [] ==> WellFormedLine(RowText(row) + "\n") && ParsedRow(RowText(row) + "\n") == row
  {
    var line := RowText(row);
    RowTextCells(row);
    forall i | 0 <= i < |line|
      ensures IsDigit(line[i]) <==> i % 2 == 0
    {
      if i % 2 == 0 {
        assert line[2 * (i / 2)] == DigitChar(row[i / 2]);
      } else {
        assert line[2 * (i / 2) + 1] == ' ';
      }
    }
    if row != [] {
      var nl := line + "\n";
      forall i | 0 <= i < |nl|
        ensures IsDigit(nl[i]) <==> i % 2 == 0
      {
        if i < |line| {
          assert nl[i] == line[i];
        }
      }
      assert ParsedRow(nl) == ParsedRow(line) by {
        forall k | 0 <= k < |row|
          ensures nl[2 * k] == line[2 * k]
        {
        }
      }
    }
  }

  /** The characters of a written-out row: digits at even offsets, blanks
      between them. */
  lemma {:induction false} RowTextCells(row: seq<int>)
    requires forall k :: 0 <= k < |row| ==> 0 <= row[k] <= 9
    ensures forall k :: 0 <= k < |row| ==> RowText(row)[2 * k] == DigitChar(row[k])
    ensures forall k :: 0 <= k < |row| - 1 ==> RowText(row)[2 * k + 1] == ' '
  {
    if 1 < |row| {
      RowTextCells(row[1..]);
      var line := RowText(row);
      var tail := RowText(row[1..]);
      assert line == [DigitChar(row[0]), ' '] + tail;
      forall k | 1 <= k < |row|
        ensures line[2 * k] == DigitChar(row[k])
      {
        assert line[2 * k] == tail[2 * (k - 1)];
      }
      forall k | 1 <= k < |row| - 1
        ensures line[2 * k + 1] == ' '
      {
        assert line[2 * k + 1] == tail[2 * (k - 1) + 1];
      }
    }
  }

  /** A maze under construction (struct MAZE_ST): the rows read so far. */
  class Grid {
    var data: seq<seq<int>>
    var width: nat
    var height: nat

    /** `height` counts the rows, all `width` wide; the width is 0 only
        before the first row. */
    ghost predicate Valid()
      reads this
    {
      && height == |data|
      && (forall r :: 0 <= r < |data| ==> |data[r]| == width)
      && (width == 0 <==> height == 0)
    }

    /** The empty maze create_maze starts from. */
    constructor ()
      ensures Valid()
      ensures width == 0 && height == 0 && data == []
    {
      width, height := 0, 0;
      data := [];
    }

    /** add_row. A line whose width differs from the rows already read makes
        the program exit with a failure status; that is `ok == false` here,
        with the maze left as it was. Otherwise the parsed row is appended. */
    method AddRow(line: string) returns (ok: bool)
      requires Valid()
      requires line != [] && WellFormedLine(line)
      modifies this
      ensures Valid()
      ensures ok <==> old(width) == 0 || old(width) == RowWidth(line)
      ensures ok ==> data == old(data) + [ParsedRow(line)]
      ensures ok ==> height == old(height) + 1 && width == RowWidth(line)
      ensures !ok ==> unchanged(this)
    {
      var w := |line| - |line| / 2;
      if width != 0 && width != w {
        return false;
      }
      width := w;
      var row := new int[w];
      var linepos, rowpos := 0, 0;
      while rowpos < width
        invariant width == w == row.Length == RowWidth(line)
        invariant data == old(data) && height == old(height)
        invariant linepos == 2 * rowpos && rowpos <= width
        invariant forall k :: 0 <= k < rowpos ==> row[k] == DigitValue(line[2 * k])
      {
        row[rowpos] := DigitValue(line[linepos]);
        linepos, rowpos := linepos + 2, rowpos + 1;
      }
      assert row[..] == ParsedRow(line);
      data := data + [row[..]];
      height := height + 1;
      ok := true;
    }
  }

  /** create_maze over the lines getline returns (each non-empty): one row
      per line while the widths agree; `ok == false` stands for the exit at
      the first line whose width differs from the first line's. */
  method CreateMaze(lines: seq<string>) returns (m: Grid, ok: bool)
    requires forall i :: 0 <= i < |lines| ==> lines[i] != [] && WellFormedLine(lines[i])
    ensures m.Valid()
    ensures ok <==> forall i :: 0 <= i < |lines| ==> RowWidth(lines[i]) == RowWidth(lines[0])
    ensures ok ==> m.height == |lines|
    ensures ok ==> forall i :: 0 <= i < |lines| ==> m.data[i] == ParsedRow(lines[i])
  {
    m := new Grid();
    var n := 0;
    ok := true;
    while n < |lines|
      invariant n <= |lines|
      invariant m.Valid() && m.height == n
      invariant forall i :: 0 <= i < n ==> m.data[i] == ParsedRow(lines[i])
      invariant forall i :: 0 <= i < n ==> RowWidth(lines[i]) == RowWidth(lines[0])
      invariant 0 < n ==> m.width == RowWidth(lines[0])
    {
      ok := m.AddRow(lines[n]);
      if !ok {
        return;
      }
      n := n + 1;
    }
  }
}
