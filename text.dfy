/** The ASCII-art format of game/maze.go: what Maze.String writes and what
    ParseMaze reads, as functions on maze values.  Every cell takes three
    columns and two lines; its East wall is the character after its two
    spaces, its South wall the two characters after the '+' below it. */
module Text {
  import opened Grid

  datatype Option<T> = None | Some(value: T)

  datatype Result<T, E> = Success(value: T) | Failure(error: E)

  /** The errors ParseMaze returns; the message texts are not modelled. */
  datatype ParseError =
    | TooFewLines
    | InvalidDimensions(width: int, height: int)
    // "invalid line length at y=%d": a content line of the wrong length
    | InvalidLineLength(y: int)
    // "invalid wall line length at y=%d": a wall line of the wrong length
    | InvalidWallLineLength(y: int)

  // ---------------------------------------------------------------------------
  // Encoding (Maze.String)
  // ---------------------------------------------------------------------------

  /** n copies of "+--". */
  function TopRun(n: nat): string
  {
    if n == 0 then "" else TopRun(n - 1) + "+--"
  }

  /** The first line: "+--" for every column, then "+". */
  function TopBorder(width: nat): string
  {
    TopRun(width) + "+"
  }

  /** The character written after a cell's two spaces. */
  function EastChar(l: Layout, x: int, y: int): char
    requires l.WellFormed()
  {
    if l.HasWall(x, y, East) then '|' else ' '
  }

  /** The two characters written after the '+' below a cell. */
  function SouthGlyph(l: Layout, x: int, y: int): string
    requires l.WellFormed()
  {
    if l.HasWall(x, y, South) then "--" else "  "
  }

  /** The first n cells of the content line of row y. */
  function ContentCells(l: Layout, y: int, n: nat): string
    requires l.WellFormed()
  {
    if n == 0 then "" else ContentCells(l, y, n - 1) + "  " + [EastChar(l, n - 1, y)]
  }

  /** The content line of row y: a leading '|', then every cell. */
  function ContentLine(l: Layout, y: int): string
    requires l.WellFormed()
  {
    "|" + ContentCells(l, y, l.width)
  }

  /** The first n cells of the wall line below row y. */
  function WallCells(l: Layout, y: int, n: nat): string
    requires l.WellFormed()
  {
    if n == 0 then "" else WallCells(l, y, n - 1) + "+" + SouthGlyph(l, n - 1, y)
  }

  /** The wall line below row y: every cell, then a closing '+'. */
  function WallLine(l: Layout, y: int): string
    requires l.WellFormed()
  {
    WallCells(l, y, l.width) + "+"
  }

  /** The content and wall lines of the first n rows. */
  function RowLines(l: Layout, n: nat): seq<string>
    requires l.WellFormed()
  {
    if n == 0 then [] else RowLines(l, n - 1) + [ContentLine(l, n - 1), WallLine(l, n - 1)]
  }

  /** The lines Maze.String writes, without their newlines. */
  function Lines(l: Layout): seq<string>
    requires l.WellFormed()
  {
    [TopBorder(l.width)] + RowLines(l, l.height)
  }

  /** Every line followed by a newline. */
  function Unlines(lines: seq<string>): string
  {
    if |lines| == 0 then "" else Unlines(lines[..|lines| - 1]) + lines[|lines| - 1] + "\n"
  }

  /** The text Maze.String returns. */
  function Encode(l: Layout): string
    requires l.WellFormed()
  {
    Unlines(Lines(l))
  }

  // ---------------------------------------------------------------------------
  // The shape of the encoding
  // ---------------------------------------------------------------------------

  lemma {:induction false} TopRunAt(n: nat, x: int)
    requires 0 <= x < n
    ensures |TopRun(n)| == 3 * n
    ensures TopRun(n)[3 * x] == '+' && TopRun(n)[3 * x + 1] == '-' && TopRun(n)[3 * x + 2] == '-'
  {
    TopRunLength(n);
    TopRunLength(n - 1);
    if x < n - 1 {
      TopRunAt(n - 1, x);
    }
  }

  /** The top border has 3W + 1 characters: '+' and "--" for every column, then '+'. */
  lemma TopBorderAt(width: nat, x: int)
    requires 0 <= x < width
    ensures |TopBorder(width)| == 3 * width + 1 && TopBorder(width)[3 * width] == '+'
    ensures TopBorder(width)[3 * x] == '+'
    ensures TopBorder(width)[3 * x + 1] == '-' && TopBorder(width)[3 * x + 2] == '-'
  {
    TopRunAt(width, x);
  }

  lemma {:induction false} TopRunLength(n: nat)
    ensures |TopRun(n)| == 3 * n
  {
    if n > 0 { TopRunLength(n - 1); }
  }

  lemma {:induction false} ContentCellsLength(l: Layout, y: int, n: nat)
    requires l.WellFormed()
    ensures |ContentCells(l, y, n)| == 3 * n
  {
    if n > 0 { ContentCellsLength(l, y, n - 1); }
  }

  lemma {:induction false} ContentCellsAt(l: Layout, y: int, n: nat, x: int)
    requires l.WellFormed() && 0 <= x < n
    ensures |ContentCells(l, y, n)| == 3 * n
    ensures ContentCells(l, y, n)[3 * x] == ' ' && ContentCells(l, y, n)[3 * x + 1] == ' '
    ensures ContentCells(l, y, n)[3 * x + 2] == EastChar(l, x, y)
  {
    ContentCellsLength(l, y, n);
    ContentCellsLength(l, y, n - 1);
    if x < n - 1 {
      ContentCellsAt(l, y, n - 1, x);
    }
  }

  /** A content line has 3W + 1 characters: '|', then per cell two spaces and
      '|' when the cell has its East wall, a space when it has not. */
  lemma ContentLineAt(l: Layout, y: int, x: int)
    requires l.WellFormed() && 0 <= x < l.width
    ensures |ContentLine(l, y)| == 3 * l.width + 1 && ContentLine(l, y)[0] == '|'
    ensures ContentLine(l, y)[3 * x + 1] == ' ' && ContentLine(l, y)[3 * x + 2] == ' '
    ensures ContentLine(l, y)[3 * x + 3] == if l.HasWall(x, y, East) then '|' else ' '
  {
    ContentCellsAt(l, y, l.width, x);
  }

  lemma {:induction false} WallCellsLength(l: Layout, y: int, n: nat)
    requires l.WellFormed()
    ensures |WallCells(l, y, n)| == 3 * n
  {
    if n > 0 { WallCellsLength(l, y, n - 1); }
  }

  lemma {:induction false} WallCellsAt(l: Layout, y: int, n: nat, x: int)
    requires l.WellFormed() && 0 <= x < n
    ensures |WallCells(l, y, n)| == 3 * n
    ensures WallCells(l, y, n)[3 * x] == '+'
    ensures WallCells(l, y, n)[3 * x + 1] == WallCells(l, y, n)[3 * x + 2] == if l.HasWall(x, y, South) then '-' else ' '
  {
    WallCellsLength(l, y, n);
    WallCellsLength(l, y, n - 1);
    if x < n - 1 {
      WallCellsAt(l, y, n - 1, x);
    }
  }

  /** A wall line has 3W + 1 characters: per cell '+' and then "--" when the
      cell has its South wall, two spaces when it has not; then '+'. */
  lemma WallLineAt(l: Layout, y: int, x: int)
    requires l.WellFormed() && 0 <= x < l.width
    ensures |WallLine(l, y)| == 3 * l.width + 1 && WallLine(l, y)[3 * l.width] == '+'
    ensures WallLine(l, y)[3 * x] == '+'
    ensures WallLine(l, y)[3 * x + 1] == WallLine(l, y)[3 * x + 2] == if l.HasWall(x, y, South) then '-' else ' '
  {
    WallCellsAt(l, y, l.width, x);
  }

  lemma {:induction false} RowLinesAt(l: Layout, n: nat, y: int)
    requires l.WellFormed() && 0 <= y < n
    ensures |RowLines(l, n)| == 2 * n
    ensures RowLines(l, n)[2 * y] == ContentLine(l, y) && RowLines(l, n)[2 * y + 1] == WallLine(l, y)
  {
    RowLinesLength(l, n);
    if y < n - 1 {
      RowLinesAt(l, n - 1, y);
    }
  }

  lemma {:induction false} RowLinesLength(l: Layout, n: nat)
    requires l.WellFormed()
    ensures |RowLines(l, n)| == 2 * n
  {
    if n > 0 { RowLinesLength(l, n - 1); }
  }

  /** The two lines of row y among the lines Maze.String writes. */
  lemma LinesAt(l: Layout, y: int)
    requires l.WellFormed() && 0 <= y < l.height
    ensures |Lines(l)| == 2 * l.height + 1 && Lines(l)[0] == TopBorder(l.width)
    ensures Lines(l)[2 * y + 1] == ContentLine(l, y) && Lines(l)[2 * y + 2] == WallLine(l, y)
  {
    RowLinesAt(l, l.height, y);
  }

  /** Maze.String writes 2H + 1 lines of 3W + 1 characters, none holding a
      newline, starting with the top border (LinesAt gives the other lines). */
  lemma LinesShape(l: Layout)
    requires l.WellFormed()
    ensures |Lines(l)| == 2 * l.height + 1
    ensures Lines(l)[0] == TopBorder(l.width)
    ensures forall i :: 0 <= i < |Lines(l)| ==> |Lines(l)[i]| == 3 * l.width + 1 && '\n' !in Lines(l)[i]
    ensures Shaped(Lines(l), l.width, l.height)
  {
    RowLinesLength(l, l.height);
    forall i | 0 <= i < |Lines(l)|
      ensures |Lines(l)[i]| == 3 * l.width + 1 && '\n' !in Lines(l)[i]
    {
      LineShape(l, i);
    }
  }

  /** Line i of Maze.String has 3W + 1 characters and no newline. */
  lemma LineShape(l: Layout, i: int)
    requires l.WellFormed() && 0 <= i < 2 * l.height + 1
    ensures |Lines(l)| == 2 * l.height + 1
    ensures |Lines(l)[i]| == 3 * l.width + 1 && '\n' !in Lines(l)[i]
  {
    RowLinesLength(l, l.height);
    if i == 0 {
      TopRunLength(l.width);
      TopRunNoNewline(l.width);
    } else {
      var y := (i - 1) / 2;
      RowLinesAt(l, l.height, y);
      ContentCellsLength(l, y, l.width);
      WallCellsLength(l, y, l.width);
      ContentCellsNoNewline(l, y, l.width);
      WallCellsNoNewline(l, y, l.width);
      assert i == 2 * y + 1 || i == 2 * y + 2;
    }
  }

  // ---------------------------------------------------------------------------
  // strings.TrimSpace and strings.Split
  // ---------------------------------------------------------------------------

  /** The ASCII white space that strings.TrimSpace removes: '\t', '\n', '\v',
      '\f', '\r' and ' '. */
  predicate IsSpace(c: char)
  {
    c == ' ' || ('\t' <= c <= '\r')
  }

  /** s without its leading white space. */
  function TrimLeft(s: string): (r: string)
    ensures |r| > 0 ==> !IsSpace(r[0])
    ensures |r| <= |s| && r == s[|s| - |r|..]
    ensures forall i :: 0 <= i < |s| - |r| ==> IsSpace(s[i])
    decreases |s|
  {
    if |s| > 0 && IsSpace(s[0]) then TrimLeft(s[1..]) else s
  }

  /** s without its trailing white space. */
  function TrimRight(s: string): (r: string)
    ensures |r| > 0 ==> !IsSpace(r[|r| - 1])
    ensures |r| <= |s| && r == s[..|r|]
    ensures forall i :: |r| <= i < |s| ==> IsSpace(s[i])
    decreases |s|
  {
    if |s| > 0 && IsSpace(s[|s| - 1]) then TrimRight(s[..|s| - 1]) else s
  }

  /** strings.TrimSpace: leading and trailing white space removed. */
  function TrimSpace(s: string): string
  {
    TrimRight(TrimLeft(s))
  }

  /** strings.Split with a one-character separator: the pieces between
      separators, one more piece than there are separators. */
  function Split(s: string, sep: char): (r: seq<string>)
    ensures |r| >= 1
    ensures forall i :: 0 <= i < |r| ==> sep !in r[i]
    decreases |s|
  {
    if |s| == 0 then [""]
    else
      var rest := Split(s[1..], sep);
      if s[0] == sep then [""] + rest else [[s[0]] + rest[0]] + rest[1..]
  }

  /** strings.Join, the inverse of Split. */
  function Join(pieces: seq<string>, sep: char): string
    requires |pieces| >= 1
  {
    if |pieces| == 1 then pieces[0]
    else Join(pieces[..|pieces| - 1], sep) + [sep] + pieces[|pieces| - 1]
  }

  lemma {:induction false} SplitAppend(a: string, b: string, sep: char)
    ensures Split(a + [sep] + b, sep) == Split(a, sep) + Split(b, sep)
    decreases |a|
  {
    if |a| == 0 {
      var s := a + [sep] + b;
      assert s == [sep] + b && s[1..] == b;
    } else {
      SplitAppend(a[1..], b, sep);
      SplitAppendStep(a, b, sep);
    }
  }

  /** The step of SplitAppend: putting the first character of a back. */
  lemma SplitAppendStep(a: string, b: string, sep: char)
    requires |a| > 0
    requires Split(a[1..] + [sep] + b, sep) == Split(a[1..], sep) + Split(b, sep)
    ensures Split(a + [sep] + b, sep) == Split(a, sep) + Split(b, sep)
  {
    var t := a[1..] + [sep] + b;
    assert a == [a[0]] + a[1..];
    assert a + [sep] + b == [a[0]] + t;
    SplitCons(a[0], t, sep);
    SplitCons(a[0], a[1..], sep);
    PushFront(a[0], sep, Split(t, sep), Split(a[1..], sep), Split(b, sep));
  }

  /** Split of a string with a known first character. */
  lemma SplitCons(c: char, t: string, sep: char)
    ensures Split([c] + t, sep) == PushChar(c, sep, Split(t, sep))
  {
    assert ([c] + t)[0] == c && ([c] + t)[1..] == t;
  }

  /** The pieces of Split after one more character c in front. */
  function PushChar(c: char, sep: char, pieces: seq<string>): seq<string>
    requires |pieces| >= 1
  {
    if c == sep then [""] + pieces else [[c] + pieces[0]] + pieces[1..]
  }

  lemma PushFront(c: char, sep: char, x: seq<string>, y: seq<string>, z: seq<string>)
    requires x == y + z && |y| >= 1
    ensures PushChar(c, sep, x) == PushChar(c, sep, y) + z
  {
    if c != sep {
      assert x[0] == y[0] && x[1..] == y[1..] + z;
    }
  }

  lemma {:induction false} SplitWithoutSeparator(a: string, sep: char)
    requires sep !in a
    ensures Split(a, sep) == [a]
    decreases |a|
  {
    if |a| > 0 {
      SplitWithoutSeparator(a[1..], sep);
      assert [a[0]] + a[1..] == a;
    }
  }

  /** Splitting pieces joined by a separator they do not contain gives them back. */
  lemma {:induction false} SplitJoin(pieces: seq<string>, sep: char)
    requires |pieces| >= 1
    requires forall i :: 0 <= i < |pieces| ==> sep !in pieces[i]
    ensures Split(Join(pieces, sep), sep) == pieces
  {
    var n := |pieces|;
    if n == 1 {
      SplitWithoutSeparator(pieces[0], sep);
    } else {
      SplitJoin(pieces[..n - 1], sep);
      SplitAppend(Join(pieces[..n - 1], sep), pieces[n - 1], sep);
      SplitWithoutSeparator(pieces[n - 1], sep);
      assert pieces[..n - 1] + [pieces[n - 1]] == pieces;
    }
  }

  lemma {:induction false} JoinPrepend(a: string, pieces: seq<string>, sep: char)
    requires |pieces| >= 1
    ensures Join([a] + pieces, sep) == a + [sep] + Join(pieces, sep)
    decreases |pieces|
  {
    var n := |pieces|;
    if n > 1 {
      assert ([a] + pieces)[..n] == [a] + pieces[..n - 1];
      JoinPrepend(a, pieces[..n - 1], sep);
    }
  }

  lemma {:induction false} JoinExtendFirst(c: char, pieces: seq<string>, sep: char)
    requires |pieces| >= 1
    ensures Join([[c] + pieces[0]] + pieces[1..], sep) == [c] + Join(pieces, sep)
    decreases |pieces|
  {
    var n := |pieces|;
    if n > 1 {
      var q := [[c] + pieces[0]] + pieces[1..];
      assert q[..n - 1] == [[c] + pieces[..n - 1][0]] + pieces[..n - 1][1..];
      JoinExtendFirst(c, pieces[..n - 1], sep);
    }
  }

  /** Joining the pieces of a split restores the text. */
  lemma {:induction false} JoinSplit(s: string, sep: char)
    ensures Join(Split(s, sep), sep) == s
    decreases |s|
  {
    if |s| > 0 {
      var rest := Split(s[1..], sep);
      JoinSplit(s[1..], sep);
      if s[0] == sep {
        JoinPrepend("", rest, sep);
      } else {
        JoinExtendFirst(s[0], rest, sep);
      }
      assert [s[0]] + s[1..] == s;
    }
  }

  lemma {:induction false} UnlinesIsJoin(lines: seq<string>)
    requires |lines| >= 1
    ensures Unlines(lines) == Join(lines, '\n') + "\n"
  {
    if |lines| > 1 {
      UnlinesIsJoin(lines[..|lines| - 1]);
    }
  }

  lemma {:induction false} JoinStart(pieces: seq<string>, sep: char)
    requires |pieces| >= 1 && |pieces[0]| >= 1
    ensures |Join(pieces, sep)| >= 1 && Join(pieces, sep)[0] == pieces[0][0]
  {
    if |pieces| > 1 {
      JoinStart(pieces[..|pieces| - 1], sep);
    }
  }

  lemma {:induction false} TopRunNoNewline(n: nat)
    ensures '\n' !in TopRun(n)
  {
    if n > 0 { TopRunNoNewline(n - 1); }
  }

  lemma {:induction false} ContentCellsNoNewline(l: Layout, y: int, n: nat)
    requires l.WellFormed()
    ensures '\n' !in ContentCells(l, y, n)
  {
    if n > 0 { ContentCellsNoNewline(l, y, n - 1); }
  }

  lemma {:induction false} WallCellsNoNewline(l: Layout, y: int, n: nat)
    requires l.WellFormed()
    ensures '\n' !in WallCells(l, y, n)
  {
    if n > 0 { WallCellsNoNewline(l, y, n - 1); }
  }

  /** Trimming a text that starts and ends with a visible character and is
      followed by one newline removes just that newline. */
  lemma TrimFinalNewline(j: string)
    requires |j| >= 1 && !IsSpace(j[0]) && !IsSpace(j[|j| - 1])
    ensures TrimSpace(j + "\n") == j
  {
    var e := j + "\n";
    assert e[0] == j[0];
    assert TrimLeft(e) == e;
    assert e[..|e| - 1] == j;
    assert IsSpace(e[|e| - 1]);
    assert TrimRight(e) == TrimRight(j);
    assert TrimRight(j) == j;
  }

  lemma {:induction false} JoinEnd(pieces: seq<string>, sep: char)
    requires |pieces| >= 1 && |pieces[|pieces| - 1]| >= 1
    ensures |Join(pieces, sep)| >= 1
    ensures Join(pieces, sep)[|Join(pieces, sep)| - 1] == pieces[|pieces| - 1][|pieces[|pieces| - 1]| - 1]
  {
  }

  /** ParseMaze sees exactly the lines Maze.String wrote: trimming removes
      only the final newline, and no line holds a newline of its own. */
  lemma EncodedLines(l: Layout)
    requires l.WellFormed()
    ensures SplitLines(Encode(l)) == Lines(l)
  {
    var ls := Lines(l);
    LinesShape(l);
    UnlinesIsJoin(ls);
    TopRunLength(l.width);
    var last := ls[|ls| - 1];
    assert |last| == 3 * l.width + 1;
    JoinStart(ls, '\n');
    JoinEnd(ls, '\n');
    assert ls[0][0] == '+' by {
      if l.width > 0 {
        TopRunAt(l.width, 0);
      }
    }
    assert last[|last| - 1] == '+' by {
      if l.height == 0 {
        assert last == TopBorder(l.width);
      } else {
        assert last == WallLine(l, l.height - 1);
      }
    }
    TrimFinalNewline(Join(ls, '\n'));
    SplitJoin(ls, '\n');
  }

  // ---------------------------------------------------------------------------
  // Decoding (ParseMaze)
  // ---------------------------------------------------------------------------

  /** Go's integer division, which truncates toward zero. */
  function GoQuotient(a: int, b: int): (q: int)
    requires b > 0
    ensures a >= 0 ==> q * b <= a < q * b + b
    ensures a < 0 ==> q <= 0 && a <= q * b && q * b - b < a
  {
    if a >= 0 then a / b else -((-a) / b)
  }

  /** One call maze.RemoveWall(x, y, d) made while parsing. */
  datatype Removal = Removal(x: int, y: int, d: Direction)

  /** The maze after the removals, made in order. */
  function ApplyRemovals(l: Layout, ops: seq<Removal>): (r: Layout)
    requires l.WellFormed()
    ensures r.WellFormed() && r.width == l.width && r.height == l.height
  {
    if |ops| == 0 then l
    else
      var o := ops[|ops| - 1];
      ApplyRemovals(l, ops[..|ops| - 1]).SetWall(o.x, o.y, o.d, false)
  }

  /** Removals made one sequence after another are the removals of the
      concatenation. */
  lemma {:induction false} ApplyRemovalsAppend(l: Layout, a: seq<Removal>, b: seq<Removal>)
    requires l.WellFormed()
    ensures ApplyRemovals(l, a + b) == ApplyRemovals(ApplyRemovals(l, a), b)
  {
    if |b| > 0 {
      var b' := b[..|b| - 1];
      ApplyRemovalsAppend(l, a, b');
      assert (a + b)[..|a + b| - 1] == a + b';
    } else {
      assert a + b == a;
    }
  }

  /** Does two-character glyph x of a border line show an opening? */
  predicate Open(line: string, x: int)
    requires 0 <= x && 3 * x + 3 <= |line|
  {
    line[x * 3 + 1..x * 3 + 3] == "  "
  }

  lemma OpenChars(line: string, x: int)
    requires 0 <= x && 3 * x + 3 <= |line|
    ensures Open(line, x) <==> line[3 * x + 1] == ' ' && line[3 * x + 2] == ' '
  {
    if line[3 * x + 1] == ' ' && line[3 * x + 2] == ' ' {
      assert line[x * 3 + 1..x * 3 + 3] == "  ";
    }
  }

  /** The removals the content line c of row y asks for in its first n cells:
      West of column 0 when c[0] is not '|', East wherever c[3x+3] is a space. */
  function ContentRemovals(c: string, y: int, n: nat): seq<Removal>
    requires 3 * n + 1 <= |c|
  {
    if n == 0 then []
    else
      ContentRemovals(c, y, n - 1)
      + (if n - 1 == 0 && c[0] != '|' then [Removal(0, y, West)] else [])
      + (if c[3 * (n - 1) + 3] == ' ' then [Removal(n - 1, y, East)] else [])
  }

  /** The South removals the wall line w below row y asks for in its first n cells. */
  function SouthRemovals(w: string, y: int, n: nat): seq<Removal>
    requires 3 * n + 1 <= |w|
  {
    if n == 0 then []
    else SouthRemovals(w, y, n - 1) + (if Open(w, n - 1) then [Removal(n - 1, y, South)] else [])
  }

  /** The North removals of row 0 that the top line t asks for in its first n cells. */
  function NorthRemovals(t: string, n: nat): seq<Removal>
    requires 3 * n + 1 <= |t|
  {
    if n == 0 then []
    else NorthRemovals(t, n - 1) + (if Open(t, n - 1) then [Removal(n - 1, 0, North)] else [])
  }

  /** Both lines of row y have the length 3W + 1. */
  predicate RowOk(lines: seq<string>, width: int, y: int)
    requires 0 <= y && 2 * y + 2 < |lines|
  {
    |lines[2 * y + 1]| == 3 * width + 1 && |lines[2 * y + 2]| == 3 * width + 1
  }

  /** The lines have the shape ParseMaze reads: enough of them for the rows,
      a top line of at least 3W + 1 characters, every row's lines of 3W + 1. */
  predicate Shaped(lines: seq<string>, width: nat, height: nat)
  {
    && 2 * height < |lines|
    && 3 * width + 1 <= |lines[0]|
    && forall y :: 0 <= y < height ==> RowOk(lines, width, y)
  }

  /** The removals parsing row y makes, in the order it makes them. */
  function RowRemovals(lines: seq<string>, width: nat, y: nat): seq<Removal>
    requires 2 * y + 2 < |lines| && 3 * width + 1 <= |lines[0]| && RowOk(lines, width, y)
  {
    ContentRemovals(lines[2 * y + 1], y, width)
    + SouthRemovals(lines[2 * y + 2], y, width)
    + (if y == 0 then NorthRemovals(lines[0], width) else [])
  }

  /** Applying a row's removals is applying its content line's, then its
      wall line's, then (row 0 only) the top line's. */
  lemma RowRemovalsInPhases(l: Layout, lines: seq<string>, width: nat, y: nat)
    requires l.WellFormed()
    requires 2 * y + 2 < |lines| && 3 * width + 1 <= |lines[0]| && RowOk(lines, width, y)
    ensures var afterContent := ApplyRemovals(l, ContentRemovals(lines[2 * y + 1], y, width));
            var afterSouth := ApplyRemovals(afterContent, SouthRemovals(lines[2 * y + 2], y, width));
            ApplyRemovals(l, RowRemovals(lines, width, y)) ==
              if y == 0 then ApplyRemovals(afterSouth, NorthRemovals(lines[0], width)) else afterSouth
  {
    var c := ContentRemovals(lines[2 * y + 1], y, width);
    var s := SouthRemovals(lines[2 * y + 2], y, width);
    var n := if y == 0 then NorthRemovals(lines[0], width) else [];
    assert RowRemovals(lines, width, y) == c + s + n;
    ApplyInPhases(l, c, s, n);
  }

  lemma ApplyInPhases(l: Layout, a: seq<Removal>, b: seq<Removal>, c: seq<Removal>)
    requires l.WellFormed()
    ensures ApplyRemovals(l, a + b + c) == ApplyRemovals(ApplyRemovals(ApplyRemovals(l, a), b), c)
  {
    ApplyRemovalsAppend(l, a, b);
    ApplyRemovalsAppend(l, a + b, c);
  }

  /** The maze after parsing the first n rows: fully walled, then opened by
      each row's removals, row after row and in the order they are made. */
  function ParsedUpTo(lines: seq<string>, width: nat, height: nat, n: nat): (l: Layout)
    requires Shaped(lines, width, n)
    ensures l.WellFormed() && l.width == width && l.height == height
  {
    if n == 0 then Full(width, height)
    else ApplyRemovals(ParsedUpTo(lines, width, height, n - 1), RowRemovals(lines, width, n - 1))
  }

  /** The error of the first row, from y on, whose content line or else whose
      wall line has the wrong length; None when every row is well formed. */
  function CheckRows(lines: seq<string>, width: int, y: nat, height: nat): (e: Option<ParseError>)
    requires 2 * height < |lines|
    ensures e.None? <==> forall y' :: y <= y' < height ==> RowOk(lines, width, y')
    ensures e.Some? ==>
              && (e.value.InvalidLineLength? || e.value.InvalidWallLineLength?)
              && y <= e.value.y < height
              && (forall y' :: y <= y' < e.value.y ==> RowOk(lines, width, y'))
              && !RowOk(lines, width, e.value.y)
              && (e.value.InvalidLineLength? <==> |lines[2 * e.value.y + 1]| != 3 * width + 1)
    decreases height - y
  {
    if y >= height then None
    else if |lines[2 * y + 1]| != 3 * width + 1 then assert !RowOk(lines, width, y); Some(InvalidLineLength(y))
    else if |lines[2 * y + 2]| != 3 * width + 1 then assert !RowOk(lines, width, y); Some(InvalidWallLineLength(y))
    else CheckRows(lines, width, y + 1, height)
  }

  /** The lines ParseMaze works on. */
  function SplitLines(s: string): seq<string>
  {
    Split(TrimSpace(s), '\n')
  }

  /** The width ParseMaze derives from the top line, (len(lines[0]) - 1) / 3. */
  function DerivedWidth(lines: seq<string>): int
    requires |lines| >= 1
  {
    GoQuotient(|lines[0]| - 1, 3)
  }

  /** The height ParseMaze derives from the number of lines, (len(lines) - 1) / 2. */
  function DerivedHeight(lines: seq<string>): int
    requires |lines| >= 1
  {
    (|lines| - 1) / 2
  }

  /** ParseMaze on the lines of the trimmed input. */
  function DecodeLines(lines: seq<string>): Result<Layout, ParseError>
  {
    if |lines| < 3 then Failure(TooFewLines)
    else
      var width := DerivedWidth(lines);
      var height := DerivedHeight(lines);
      if width < 1 || height < 1 then Failure(InvalidDimensions(width, height))
      else
        match CheckRows(lines, width, 0, height)
        case Some(e) => Failure(e)
        case None => Success(Parsed(lines, width, height))
  }

  /** ParseMaze: the maze, or the first error it meets. */
  function Decode(s: string): Result<Layout, ParseError>
  {
    DecodeLines(SplitLines(s))
  }

  /** The outcomes of ParseMaze: too few lines, then a width or height below
      one, then the first row with a line of the wrong length; otherwise a
      maze of the derived size. */
  lemma DecodeOutcome(s: string)
    ensures var lines := SplitLines(s);
            var width, height := DerivedWidth(lines), DerivedHeight(lines);
            && (Decode(s) == Failure(TooFewLines) <==> |lines| < 3)
            && (Decode(s) == Failure(InvalidDimensions(width, height)) <==>
                  |lines| >= 3 && (width < 1 || height < 1))
            && (Decode(s).Success? <==>
                  |lines| >= 3 && width >= 1 && height >= 1 &&
                  forall y :: 0 <= y < height ==> RowOk(lines, width, y))
            && (Decode(s).Success? ==>
                  Decode(s).value.width == width && Decode(s).value.height == height)
            && (Decode(s).Failure? && |lines| >= 3 && width >= 1 && height >= 1 ==>
                  Decode(s).error.InvalidLineLength? || Decode(s).error.InvalidWallLineLength?)
  {
  }

  /** The layout ParseMaze builds from well-shaped lines: a fully walled maze
      of the derived size, opened by the removals of all its rows. */
  function Parsed(lines: seq<string>, width: nat, height: nat): (l: Layout)
    requires Shaped(lines, width, height)
    ensures l.WellFormed() && l.width == width && l.height == height
  {
    ParsedUpTo(lines, width, height, height)
  }

  // ---------------------------------------------------------------------------
  // What the decoded walls are
  // ---------------------------------------------------------------------------

  /** The removal RemoveWall(x', y', d') that clears flag d of (x, y) as the
      far side of the edge it opens. */
  function FarRemoval(x: int, y: int, d: Direction): Removal
  {
    var n := Neighbour(x, y, d);
    Removal(n.x, n.y, d.Opposite())
  }

  /** One removal o clears flag d of (x, y) exactly when (x, y) is in bounds
      and o is either the request for that very flag or, with the neighbour
      in bounds, the request for the neighbour's opposite flag. */
  lemma RemovalClears(l: Layout, o: Removal, x: int, y: int, d: Direction)
    requires l.WellFormed()
    ensures l.SetWall(o.x, o.y, o.d, false).HasWall(x, y, d) ==
            (l.HasWall(x, y, d) &&
             !(l.IsValidPosition(x, y) &&
               (o == Removal(x, y, d) ||
                (l.IsValidPosition(Neighbour(x, y, d).x, Neighbour(x, y, d).y) && o == FarRemoval(x, y, d)))))
  {
    SetWallEffect(l, o.x, o.y, o.d, false);
    NeighbourOfNeighbour(x, y, d);
    NeighbourOfNeighbour(o.x, o.y, o.d);
    OppositeIsInvolution(d);
    OppositeIsInvolution(o.d);
  }

  /** After a sequence of removals a flag is set exactly when it was set
      before and the sequence holds neither request that clears it. */
  lemma {:induction false} RemovalsEffect(l: Layout, ops: seq<Removal>, x: int, y: int, d: Direction)
    requires l.WellFormed()
    ensures ApplyRemovals(l, ops).HasWall(x, y, d) ==
            (l.HasWall(x, y, d) &&
             !(l.IsValidPosition(x, y) &&
               (Removal(x, y, d) in ops ||
                (l.IsValidPosition(Neighbour(x, y, d).x, Neighbour(x, y, d).y) && FarRemoval(x, y, d) in ops))))
  {
    if |ops| > 0 {
      var p := ops[..|ops| - 1];
      var o := ops[|ops| - 1];
      RemovalsEffect(l, p, x, y, d);
      RemovalClears(ApplyRemovals(l, p), o, x, y, d);
      assert ops == p + [o];
    }
  }

  /** Removals only ever open edges, so a symmetric maze stays symmetric. */
  lemma {:induction false} RemovalsKeepSymmetry(l: Layout, ops: seq<Removal>)
    requires l.WellFormed() && l.Symmetric()
    ensures ApplyRemovals(l, ops).Symmetric()
  {
    if |ops| > 0 {
      var o := ops[|ops| - 1];
      RemovalsKeepSymmetry(l, ops[..|ops| - 1]);
      SetWallKeepsSymmetry(ApplyRemovals(l, ops[..|ops| - 1]), o.x, o.y, o.d, false);
    }
  }

  /** The glyph of the parsed lines that decides a wall flag. */
  predicate GlyphShowsOpening(lines: seq<string>, width: nat, o: Removal)
    requires 0 <= o.x < width && 0 <= o.y && 2 * o.y + 2 < |lines|
    requires 3 * width + 1 <= |lines[0]| && RowOk(lines, width, o.y)
  {
    match o.d
    case West => o.x == 0 && lines[2 * o.y + 1][0] != '|'
    case East => lines[2 * o.y + 1][3 * o.x + 3] == ' '
    case South => Open(lines[2 * o.y + 2], o.x)
    case North => o.y == 0 && Open(lines[0], o.x)
  }

  lemma {:induction false} InContentRemovals(c: string, y: int, n: nat, o: Removal)
    requires 3 * n + 1 <= |c|
    ensures o in ContentRemovals(c, y, n) <==>
            o.y == y && 0 <= o.x < n &&
            ((o.d == West && o.x == 0 && c[0] != '|') || (o.d == East && c[3 * o.x + 3] == ' '))
  {
    if n > 0 { InContentRemovals(c, y, n - 1, o); }
  }

  lemma {:induction false} InSouthRemovals(w: string, y: int, n: nat, o: Removal)
    requires 3 * n + 1 <= |w|
    ensures o in SouthRemovals(w, y, n) <==> o.y == y && 0 <= o.x < n && o.d == South && Open(w, o.x)
  {
    if n > 0 { InSouthRemovals(w, y, n - 1, o); }
  }

  lemma {:induction false} InNorthRemovals(t: string, n: nat, o: Removal)
    requires 3 * n + 1 <= |t|
    ensures o in NorthRemovals(t, n) <==> o.y == 0 && 0 <= o.x < n && o.d == North && Open(t, o.x)
  {
    if n > 0 { InNorthRemovals(t, n - 1, o); }
  }

  lemma InRowRemovals(lines: seq<string>, width: nat, y: nat, o: Removal)
    requires 2 * y + 2 < |lines| && 3 * width + 1 <= |lines[0]| && RowOk(lines, width, y)
    ensures o in RowRemovals(lines, width, y) <==>
            0 <= o.x < width && o.y == y && GlyphShowsOpening(lines, width, o)
  {
    var c := ContentRemovals(lines[2 * y + 1], y, width);
    var s := SouthRemovals(lines[2 * y + 2], y, width);
    InContentRemovals(lines[2 * y + 1], y, width, o);
    InSouthRemovals(lines[2 * y + 2], y, width, o);
    if y == 0 {
      InNorthRemovals(lines[0], width, o);
      InThree(c, s, NorthRemovals(lines[0], width), o);
    } else {
      InThree(c, s, [], o);
    }
  }

  lemma InThree<T>(a: seq<T>, b: seq<T>, c: seq<T>, o: T)
    ensures o in a + b + c <==> o in a || o in b || o in c
  {
  }

  /** Parsing the first n rows asks for removal o: o lies in one of those
      rows and its glyph shows an opening. */
  predicate OpenedBy(lines: seq<string>, width: nat, n: nat, o: Removal)
    requires Shaped(lines, width, n)
  {
    0 <= o.x < width && 0 <= o.y < n && RowOk(lines, width, o.y) && GlyphShowsOpening(lines, width, o)
  }

  /** The flag a parsed maze has when its lines are well shaped, read off the
      glyphs: a flag is open when its own glyph or the glyph of the far side
      of its edge shows an opening. */
  predicate GlyphWall(lines: seq<string>, width: nat, height: nat, x: int, y: int, d: Direction)
    requires Shaped(lines, width, height)
  {
    !OpenedBy(lines, width, height, Removal(x, y, d)) && !OpenedBy(lines, width, height, FarRemoval(x, y, d))
  }

  /** The same, direction by direction: East and South come from the cell's
      own line; West also from the East glyph of the cell to the left, and
      North from the top line in row 0 and from the wall line above elsewhere. */
  lemma GlyphWallByDirection(lines: seq<string>, width: nat, height: nat, x: int, y: int)
    requires Shaped(lines, width, height) && 0 <= x < width && 0 <= y < height
    ensures RowOk(lines, width, y)
    ensures GlyphWall(lines, width, height, x, y, East) == (lines[2 * y + 1][3 * x + 3] != ' ')
    ensures GlyphWall(lines, width, height, x, y, South) == !Open(lines[2 * y + 2], x)
    ensures GlyphWall(lines, width, height, x, y, West) ==
            (if x == 0 then lines[2 * y + 1][0] == '|' else lines[2 * y + 1][3 * x] != ' ')
    ensures GlyphWall(lines, width, height, x, y, North) ==
            (if y == 0 then !Open(lines[0], x) else (RowOk(lines, width, y - 1) && !Open(lines[2 * y], x)))
  {
    assert RowOk(lines, width, y);
    if y > 0 {
      assert RowOk(lines, width, y - 1);
    }
  }

  /** The flag d of (x, y) after the first n rows are parsed: open exactly
      when one of those rows asks for it or for the far side of its edge. */
  predicate WallAfterRows(lines: seq<string>, width: nat, height: nat, n: nat, x: int, y: int, d: Direction)
    requires Shaped(lines, width, height)
  {
    && !(y < n && OpenedBy(lines, width, height, Removal(x, y, d)))
    && !(FarRemoval(x, y, d).y < n && OpenedBy(lines, width, height, FarRemoval(x, y, d)))
  }

  /** Layout l has the walls of the first n parsed rows. */
  predicate WallsAfterRows(lines: seq<string>, width: nat, height: nat, n: nat, l: Layout)
    requires Shaped(lines, width, height)
  {
    && l.WellFormed() && l.width == width && l.height == height
    && forall x, y, d :: 0 <= x < width && 0 <= y < height ==>
         l.HasWall(x, y, d) == WallAfterRows(lines, width, height, n, x, y, d)
  }

  /** Parsing row r turns the walls of the first r rows into those of the first r + 1. */
  lemma RowEffect(lines: seq<string>, width: nat, height: nat, r: nat, base: Layout)
    requires Shaped(lines, width, height) && r < height
    requires WallsAfterRows(lines, width, height, r, base)
    ensures 2 * r + 2 < |lines| && RowOk(lines, width, r)
    ensures WallsAfterRows(lines, width, height, r + 1, ApplyRemovals(base, RowRemovals(lines, width, r)))
  {
    assert RowOk(lines, width, r);
    var row := RowRemovals(lines, width, r);
    forall x, y, d | 0 <= x < width && 0 <= y < height
      ensures ApplyRemovals(base, row).HasWall(x, y, d) == WallAfterRows(lines, width, height, r + 1, x, y, d)
    {
      RemovalsEffect(base, row, x, y, d);
      InRowRemovals(lines, width, r, Removal(x, y, d));
      InRowRemovals(lines, width, r, FarRemoval(x, y, d));
    }
  }

  /** After the first n rows are parsed, the maze has the walls those rows ask for. */
  predicate ParsedRowsShowGlyphs(lines: seq<string>, width: nat, height: nat, n: nat)
    requires Shaped(lines, width, height) && n <= height
  {
    assert Shaped(lines, width, n);
    WallsAfterRows(lines, width, height, n, ParsedUpTo(lines, width, height, n))
  }

  /** The walls after parsing the first n rows of well-shaped lines. */
  lemma {:induction false} ParsedRowsWalls(lines: seq<string>, width: nat, height: nat, n: nat)
    requires Shaped(lines, width, height) && n <= height
    ensures ParsedRowsShowGlyphs(lines, width, height, n)
  {
    if n == 0 {
      NoRowsParsed(lines, width, height);
    } else {
      ParsedRowsWalls(lines, width, height, n - 1);
      NextRowParsed(lines, width, height, n - 1);
    }
  }

  /** Before any row is parsed, every flag is set. */
  lemma NoRowsParsed(lines: seq<string>, width: nat, height: nat)
    requires Shaped(lines, width, height)
    ensures ParsedRowsShowGlyphs(lines, width, height, 0)
  {
    assert Shaped(lines, width, 0);
  }

  /** Parsing one more row keeps the walls those rows ask for. */
  lemma NextRowParsed(lines: seq<string>, width: nat, height: nat, r: nat)
    requires Shaped(lines, width, height) && r < height
    requires ParsedRowsShowGlyphs(lines, width, height, r)
    ensures ParsedRowsShowGlyphs(lines, width, height, r + 1)
  {
    assert Shaped(lines, width, r) && Shaped(lines, width, r + 1);
    var base := ParsedUpTo(lines, width, height, r);
    RowEffect(lines, width, height, r, base);
    assert ParsedUpTo(lines, width, height, r + 1) == ApplyRemovals(base, RowRemovals(lines, width, r));
  }

  /** The maze after the first n parsed rows is symmetric. */
  ghost predicate ParsedRowsSymmetric(lines: seq<string>, width: nat, height: nat, n: nat)
    requires Shaped(lines, width, n)
  {
    ParsedUpTo(lines, width, height, n).Symmetric()
  }

  /** Parsing keeps the fully walled maze symmetric, row after row. */
  lemma {:induction false} ParsedUpToSymmetric(lines: seq<string>, width: nat, height: nat, n: nat)
    requires Shaped(lines, width, n)
    ensures ParsedRowsSymmetric(lines, width, height, n)
  {
    if n == 0 {
      NoRowsSymmetric(lines, width, height);
    } else {
      assert Shaped(lines, width, n - 1);
      ParsedUpToSymmetric(lines, width, height, n - 1);
      NextRowSymmetric(lines, width, height, n);
    }
  }

  lemma NoRowsSymmetric(lines: seq<string>, width: nat, height: nat)
    requires Shaped(lines, width, 0)
    ensures ParsedRowsSymmetric(lines, width, height, 0)
  {
    FullIsSymmetric(width, height);
  }

  lemma NextRowSymmetric(lines: seq<string>, width: nat, height: nat, n: nat)
    requires 0 < n && Shaped(lines, width, n)
    requires ParsedRowsSymmetric(lines, width, height, n - 1)
    ensures ParsedRowsSymmetric(lines, width, height, n)
  {
    assert Shaped(lines, width, n - 1) && RowOk(lines, width, n - 1);
    var base := ParsedUpTo(lines, width, height, n - 1);
    RemovalsKeepSymmetry(base, RowRemovals(lines, width, n - 1));
    assert ParsedUpTo(lines, width, height, n) == ApplyRemovals(base, RowRemovals(lines, width, n - 1));
  }

  /** Every flag of the parsed maze, read off the glyphs. */
  lemma ParsedWalls(lines: seq<string>, width: nat, height: nat, x: int, y: int, d: Direction)
    requires Shaped(lines, width, height) && 0 <= x < width && 0 <= y < height
    ensures Parsed(lines, width, height).HasWall(x, y, d) == GlyphWall(lines, width, height, x, y, d)
  {
    ParsedRowsWalls(lines, width, height, height);
    assert WallsAfterRows(lines, width, height, height, Parsed(lines, width, height));
  }

  /** What ParseMaze returns: a symmetric maze of the derived size, at least
      one row and one column, whose every flag is given by the glyphs. */
  lemma DecodeGlyphs(lines: seq<string>)
    requires DecodeLines(lines).Success?
    ensures var r := DecodeLines(lines).value;
            && r.WellFormed() && r.Symmetric()
            && 3 <= |lines|
            && 1 <= r.width == DerivedWidth(lines)
            && 1 <= r.height == DerivedHeight(lines)
            && Shaped(lines, r.width, r.height)
            && forall x, y, d :: 0 <= x < r.width && 0 <= y < r.height ==>
                 r.HasWall(x, y, d) == GlyphWall(lines, r.width, r.height, x, y, d)
  {
    var width := DerivedWidth(lines);
    var height := DerivedHeight(lines);
    assert CheckRows(lines, width, 0, height).None?;
    var r := Parsed(lines, width, height);
    assert DecodeLines(lines) == Success(r);
    forall x, y, d | 0 <= x < width && 0 <= y < height
      ensures r.HasWall(x, y, d) == GlyphWall(lines, width, height, x, y, d)
    {
      ParsedWalls(lines, width, height, x, y, d);
    }
    ParsedUpToSymmetric(lines, width, height, height);
    assert ParsedRowsSymmetric(lines, width, height, height);
  }

  // ---------------------------------------------------------------------------
  // Round trips
  // ---------------------------------------------------------------------------

  /** The walls Maze.String cannot express: North of row 0 and West of column 0. */
  predicate Unencoded(x: int, y: int, d: Direction)
  {
    (d == North && y == 0) || (d == West && x == 0)
  }

  /** The glyphs of an encoded symmetric maze show its walls, except that
      North of row 0 and West of column 0 always read as closed. */
  lemma EncodedGlyphWall(l: Layout, x: int, y: int, d: Direction)
    requires l.WellFormed() && l.Symmetric() && l.IsValidPosition(x, y)
    requires Shaped(Lines(l), l.width, l.height)
    ensures GlyphWall(Lines(l), l.width, l.height, x, y, d) == (l.HasWall(x, y, d) || Unencoded(x, y, d))
  {
    GlyphWallByDirection(Lines(l), l.width, l.height, x, y);
    match d {
      case East => EncodedEast(l, x, y);
      case South => EncodedSouth(l, x, y);
      case West => EncodedWest(l, x, y);
      case North => EncodedNorth(l, x, y);
    }
  }

  lemma EncodedEast(l: Layout, x: int, y: int)
    requires l.WellFormed() && l.IsValidPosition(x, y)
    ensures 2 * y + 1 < |Lines(l)| && 3 * x + 3 < |Lines(l)[2 * y + 1]|
    ensures (Lines(l)[2 * y + 1][3 * x + 3] != ' ') == l.HasWall(x, y, East)
  {
    LinesAt(l, y);
    ContentLineAt(l, y, x);
  }

  lemma EncodedSouth(l: Layout, x: int, y: int)
    requires l.WellFormed() && l.IsValidPosition(x, y)
    ensures 2 * y + 2 < |Lines(l)| && 3 * x + 3 <= |Lines(l)[2 * y + 2]|
    ensures !Open(Lines(l)[2 * y + 2], x) == l.HasWall(x, y, South)
  {
    LinesAt(l, y);
    WallLineAt(l, y, x);
    OpenChars(Lines(l)[2 * y + 2], x);
  }

  lemma EncodedWest(l: Layout, x: int, y: int)
    requires l.WellFormed() && l.Symmetric() && l.IsValidPosition(x, y)
    ensures 2 * y + 1 < |Lines(l)| && 3 * x < |Lines(l)[2 * y + 1]|
    ensures (if x == 0 then Lines(l)[2 * y + 1][0] == '|' else Lines(l)[2 * y + 1][3 * x] != ' ')
            == (l.HasWall(x, y, West) || x == 0)
  {
    LinesAt(l, y);
    ContentLineAt(l, y, x);
    if x > 0 {
      ContentLineAt(l, y, x - 1);
      assert Neighbour(x, y, West) == Position(x - 1, y);
      assert l.HasWall(x, y, West) == l.HasWall(x - 1, y, East);
    }
  }

  lemma EncodedNorth(l: Layout, x: int, y: int)
    requires l.WellFormed() && l.Symmetric() && l.IsValidPosition(x, y)
    ensures 0 < |Lines(l)| && 3 * x + 3 <= |Lines(l)[0]|
    ensures y == 0 ==> Open(Lines(l)[0], x) == false
    ensures y > 0 ==> 2 * y < |Lines(l)| && 3 * x + 3 <= |Lines(l)[2 * y]| &&
                      !Open(Lines(l)[2 * y], x) == l.HasWall(x, y, North)
  {
    LinesAt(l, y);
    TopBorderAt(l.width, x);
    OpenChars(Lines(l)[0], x);
    if y > 0 {
      LinesAt(l, y - 1);
      WallLineAt(l, y - 1, x);
      OpenChars(Lines(l)[2 * y], x);
      assert Neighbour(x, y, North) == Position(x, y - 1);
      assert l.HasWall(x, y, North) == l.HasWall(x, y - 1, South);
    }
  }

  /** Decoding an encoded symmetric maze restores every wall except North of
      row 0 and West of column 0, which always come back closed. */
  lemma DecodeEncode(l: Layout)
    requires l.WellFormed() && l.Symmetric() && l.width >= 1 && l.height >= 1
    ensures Decode(Encode(l)).Success?
    ensures var r := Decode(Encode(l)).value;
            && r.WellFormed() && r.width == l.width && r.height == l.height
            && forall x, y, d :: r.HasWall(x, y, d) == (l.HasWall(x, y, d) || (r.IsValidPosition(x, y) && Unencoded(x, y, d)))
  {
    var w, h := l.width, l.height;
    var lines := Lines(l);
    EncodedLines(l);
    LinesShape(l);
    assert DerivedWidth(lines) == w;
    assert DerivedHeight(lines) == h;
    assert Shaped(lines, w, h);
    assert CheckRows(lines, w, 0, h).None?;
    var r := Parsed(lines, w, h);
    assert Decode(Encode(l)) == Success(r);
    forall x, y, d
      ensures r.HasWall(x, y, d) == (l.HasWall(x, y, d) || (r.IsValidPosition(x, y) && Unencoded(x, y, d)))
    {
      if r.IsValidPosition(x, y) {
        ParsedWalls(lines, w, h, x, y, d);
        EncodedGlyphWall(l, x, y, d);
      }
    }
  }

  /** The round trip ParseMaze(String(m)) = m, for symmetric mazes whose
      row-0 North and column-0 West walls are intact. */
  lemma RoundTrip(l: Layout)
    requires l.WellFormed() && l.Symmetric() && l.width >= 1 && l.height >= 1
    requires forall x :: 0 <= x < l.width ==> l.HasWall(x, 0, North)
    requires forall y :: 0 <= y < l.height ==> l.HasWall(0, y, West)
    ensures Decode(Encode(l)) == Success(l)
  {
    DecodeEncode(l);
    var r := Decode(Encode(l)).value;
    forall x, y, d
      ensures r.HasWall(x, y, d) == l.HasWall(x, y, d)
    {
    }
    LayoutExtensionality(r, l);
  }

  /** Maze.String never reads the North walls of row 0 or the West walls of
      column 0: mazes that differ only there encode to the same text. */
  lemma EncodeIgnoresUnencoded(a: Layout, b: Layout)
    requires a.WellFormed() && b.WellFormed() && a.width == b.width && a.height == b.height
    requires forall x, y, d :: !Unencoded(x, y, d) ==> a.HasWall(x, y, d) == b.HasWall(x, y, d)
    ensures Encode(a) == Encode(b)
  {
    forall y | 0 <= y < a.height
      ensures ContentLine(a, y) == ContentLine(b, y) && WallLine(a, y) == WallLine(b, y)
    {
      SameCells(a, b, y, a.width);
    }
    SameRowLines(a, b, a.height);
  }

  lemma {:induction false} SameCells(a: Layout, b: Layout, y: int, n: nat)
    requires a.WellFormed() && b.WellFormed()
    requires forall x, y, d :: !Unencoded(x, y, d) ==> a.HasWall(x, y, d) == b.HasWall(x, y, d)
    ensures ContentCells(a, y, n) == ContentCells(b, y, n) && WallCells(a, y, n) == WallCells(b, y, n)
  {
    if n > 0 {
      SameCells(a, b, y, n - 1);
      assert !Unencoded(n - 1, y, East) && !Unencoded(n - 1, y, South);
    }
  }

  lemma {:induction false} SameRowLines(a: Layout, b: Layout, n: nat)
    requires a.WellFormed() && b.WellFormed() && a.width == b.width
    requires forall y :: 0 <= y < n ==> ContentLine(a, y) == ContentLine(b, y) && WallLine(a, y) == WallLine(b, y)
    ensures RowLines(a, n) == RowLines(b, n)
  {
    if n > 0 { SameRowLines(a, b, n - 1); }
  }

  /** String(ParseMaze(String(m))) = String(m) for every symmetric maze of at
      least one row and one column. */
  lemma EncodeDecodeEncode(l: Layout)
    requires l.WellFormed() && l.Symmetric() && l.width >= 1 && l.height >= 1
    ensures Decode(Encode(l)).Success? && Encode(Decode(Encode(l)).value) == Encode(l)
  {
    DecodeEncode(l);
    EncodeIgnoresUnencoded(Decode(Encode(l)).value, l);
  }
}
