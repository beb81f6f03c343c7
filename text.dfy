/**
 * Turning maze text into a wall grid: the part of Maze.__init__ after the file
 * has been read and split into lines (maze/maze.py:68-100).
 */
module MazeText {
  import opened Wrappers
  import opened MazeGrid

  /** Why the text was rejected. */
  datatype LoadError = StartCount | GoalCount

  /** Number of occurrences of `ch` in `s`. */
  function Occurrences(s: string, ch: char): nat
  {
    if s == [] then 0 else (if s[0] == ch then 1 else 0) + Occurrences(s[1..], ch)
  }

  /** Number of occurrences of `ch` in the whole text. Line separators are never a marker. */
  function Count(lines: seq<string>, ch: char): nat
  {
    if lines == [] then 0 else Occurrences(lines[0], ch) + Count(lines[1..], ch)
  }

  /** The length of the longest line. */
  function MaxLen(lines: seq<string>): (m: nat)
    requires |lines| > 0
    ensures forall i :: 0 <= i < |lines| ==> |lines[i]| <= m
    ensures exists i :: 0 <= i < |lines| && |lines[i]| == m
  {
    if |lines| == 1 then |lines[0]|
    else
      var rest := MaxLen(lines[1..]);
      assert forall i :: 1 <= i < |lines| ==> lines[i] == lines[1..][i - 1];
      if |lines[0]| < rest then rest else |lines[0]|
  }

  /** Every character other than the two markers and space is a wall. */
  predicate IsWallChar(ch: char)
  {
    ch != 'A' && ch != 'B' && ch != ' '
  }

  /** Whether column `j` of `line` is a wall: positions past the end of a short line are open. */
  predicate WallAt(line: string, j: nat)
  {
    j < |line| && IsWallChar(line[j])
  }

  /** `ch` stands at `c` in the text. */
  predicate HasCharAt(lines: seq<string>, c: Cell, ch: char)
  {
    0 <= c.row < |lines| && 0 <= c.col < |lines[c.row]| && lines[c.row][c.col] == ch
  }

  /** `g` is the grid the text `lines` describes. */
  ghost predicate LoadedFrom(g: Grid, lines: seq<string>)
  {
    |lines| > 0 &&
    g.height == |lines| && g.width == MaxLen(lines) && g.Shaped() &&
    (forall i, j :: 0 <= i < g.height && 0 <= j < g.width ==> g.walls[i][j] == WallAt(lines[i], j)) &&
    HasCharAt(lines, g.start, 'A') && HasCharAt(lines, g.goal, 'B')
  }

  /**
   * Builds one row of the wall grid, `width` cells wide, from `line`, and
   * reports the column of an 'A' and of a 'B' met on the way (the last one).
   */
  method ScanRow(line: string, width: nat) returns (row: seq<bool>, a: Option<nat>, b: Option<nat>)
    requires |line| <= width
    ensures |row| == width && forall j :: 0 <= j < width ==> row[j] == WallAt(line, j)
    ensures a.Some? ==> a.value < |line| && line[a.value] == 'A'
    ensures a.None? ==> forall j :: 0 <= j < |line| ==> line[j] != 'A'
    ensures b.Some? ==> b.value < |line| && line[b.value] == 'B'
    ensures b.None? ==> forall j :: 0 <= j < |line| ==> line[j] != 'B'
  {
    row, a, b := [], None, None;
    for j := 0 to width
      invariant |row| == j && forall k :: 0 <= k < j ==> row[k] == WallAt(line, k)
      invariant a.Some? ==> a.value < |line| && line[a.value] == 'A'
      invariant a.None? ==> forall k :: 0 <= k < j && k < |line| ==> line[k] != 'A'
      invariant b.Some? ==> b.value < |line| && line[b.value] == 'B'
      invariant b.None? ==> forall k :: 0 <= k < j && k < |line| ==> line[k] != 'B'
    {
      if j < |line| {
        var ch := line[j];
        if ch == 'A' {
          a := Some(j);
          row := row + [false];
        } else if ch == 'B' {
          b := Some(j);
          row := row + [false];
        } else if ch == ' ' {
          row := row + [false];
        } else {
          row := row + [true];
        }
      } else {
        // a position past the end of a short line is open
        row := row + [false];
      }
    }
  }

  /**
   * Builds the wall grid from the lines of the maze text, rejecting text
   * without exactly one 'A' (checked first) and exactly one 'B'.
   */
  method Load(lines: seq<string>) returns (r: Result<Grid, LoadError>)
    ensures r == Err(StartCount) <==> Count(lines, 'A') != 1
    ensures r == Err(GoalCount) <==> Count(lines, 'A') == 1 && Count(lines, 'B') != 1
    ensures r.Ok? ==> r.value.Valid() && LoadedFrom(r.value, lines)
  {
    if Count(lines, 'A') != 1 {
      return Err(StartCount);
    }
    if Count(lines, 'B') != 1 {
      return Err(GoalCount);
    }
    CountedCharOccurs(lines, 'A');
    CountedCharOccurs(lines, 'B');
    var height := |lines|;
    var width := MaxLen(lines);
    var walls: seq<seq<bool>> := [];
    var start: Option<Cell> := None;
    var goal: Option<Cell> := None;
    for i := 0 to height
      invariant |walls| == i
      invariant forall k :: 0 <= k < i ==> |walls[k]| == width
      invariant forall k, j :: 0 <= k < i && 0 <= j < width ==> walls[k][j] == WallAt(lines[k], j)
      invariant start.Some? ==> HasCharAt(lines, start.value, 'A')
      invariant start.None? ==> forall k, j :: 0 <= k < i && 0 <= j < |lines[k]| ==> lines[k][j] != 'A'
      invariant goal.Some? ==> HasCharAt(lines, goal.value, 'B')
      invariant goal.None? ==> forall k, j :: 0 <= k < i && 0 <= j < |lines[k]| ==> lines[k][j] != 'B'
    {
      var row, a, b := ScanRow(lines[i], width);
      if a.Some? {
        start := Some(Cell(i, a.value));
      }
      if b.Some? {
        goal := Some(Cell(i, b.value));
      }
      walls := walls + [row];
    }
    r := Ok(Grid(height, width, walls, start.value, goal.value));
  }

  lemma {:induction false} CharCounted(s: string, ch: char, j: nat)
    requires j < |s| && s[j] == ch
    ensures Occurrences(s, ch) >= 1
  {
    if j > 0 {
      CharCounted(s[1..], ch, j - 1);
    }
  }

  lemma {:induction false} TwoCharsCounted(s: string, ch: char, j: nat, k: nat)
    requires j < k < |s| && s[j] == ch && s[k] == ch
    ensures Occurrences(s, ch) >= 2
  {
    if j > 0 {
      TwoCharsCounted(s[1..], ch, j - 1, k - 1);
    } else {
      CharCounted(s[1..], ch, k - 1);
    }
  }

  lemma {:induction false} CharInLinesCounted(lines: seq<string>, ch: char, i: nat, j: nat)
    requires HasCharAt(lines, Cell(i, j), ch)
    ensures Count(lines, ch) >= Occurrences(lines[i], ch) >= 1
  {
    if i > 0 {
      CharInLinesCounted(lines[1..], ch, i - 1, j);
    } else {
      CharCounted(lines[0], ch, j);
    }
  }

  /** Two different positions holding `ch` make its count at least two. */
  lemma {:induction false} TwoCharsInLinesCounted(lines: seq<string>, ch: char, a: Cell, b: Cell)
    requires HasCharAt(lines, a, ch) && HasCharAt(lines, b, ch) && a != b
    ensures Count(lines, ch) >= 2
  {
    if a.row > 0 && b.row > 0 {
      TwoCharsInLinesCounted(lines[1..], ch, Cell(a.row - 1, a.col), Cell(b.row - 1, b.col));
    } else if a.row == 0 && b.row == 0 {
      if a.col < b.col {
        TwoCharsCounted(lines[0], ch, a.col, b.col);
      } else {
        TwoCharsCounted(lines[0], ch, b.col, a.col);
      }
    } else if a.row == 0 {
      CharCounted(lines[0], ch, a.col);
      CharInLinesCounted(lines[1..], ch, b.row - 1, b.col);
    } else {
      CharCounted(lines[0], ch, b.col);
      CharInLinesCounted(lines[1..], ch, a.row - 1, a.col);
    }
  }

  /** A character with a positive count occurs somewhere in the text. */
  lemma {:induction false} CountedCharOccurs(lines: seq<string>, ch: char)
    requires Count(lines, ch) > 0
    ensures exists i, j :: HasCharAt(lines, Cell(i, j), ch)
  {
    if Occurrences(lines[0], ch) > 0 {
      var j := OccurrenceIndex(lines[0], ch);
      assert HasCharAt(lines, Cell(0, j), ch);
    } else {
      CountedCharOccurs(lines[1..], ch);
      var i, j :| HasCharAt(lines[1..], Cell(i, j), ch);
      assert HasCharAt(lines, Cell(i + 1, j), ch);
    }
  }

  lemma {:induction false} OccurrenceIndex(s: string, ch: char) returns (j: nat)
    requires Occurrences(s, ch) > 0
    ensures j < |s| && s[j] == ch
  {
    if s[0] == ch {
      j := 0;
    } else {
      var k := OccurrenceIndex(s[1..], ch);
      j := k + 1;
    }
  }

  /** A loaded grid's start is the only 'A' of the text and its goal the only 'B'. */
  lemma MarkersAreUnique(g: Grid, lines: seq<string>, c: Cell)
    requires LoadedFrom(g, lines) && Count(lines, 'A') == 1 && Count(lines, 'B') == 1
    ensures HasCharAt(lines, c, 'A') <==> c == g.start
    ensures HasCharAt(lines, c, 'B') <==> c == g.goal
  {
    if HasCharAt(lines, c, 'A') && c != g.start {
      TwoCharsInLinesCounted(lines, 'A', c, g.start);
    }
    if HasCharAt(lines, c, 'B') && c != g.goal {
      TwoCharsInLinesCounted(lines, 'B', c, g.goal);
    }
  }
}
