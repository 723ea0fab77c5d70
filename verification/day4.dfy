/**
 Day 4, a word search on a grid of letters. Part 1 counts the occurrences of
 `XMAS` in any of the eight directions; part 2 counts the cells where two diagonal
 `MAS` words cross.
 */
module Day4 {
  import opened Parsing
  import opened Slices

  datatype Direction = Up | UpRight | Right | DownRight | Down | DownLeft | Left | UpLeft

  datatype Coord = Coord(row: nat, col: nat)

  /** The letters row by row, the width taken from the last line, and the number of lines. */
  datatype Grid = Grid(data: seq<char>, cols: nat, rows: nat)

  /* ---------------------------------------------------------------- str::lines */

  predicate NoNewline(l: string) {
    forall j :: 0 <= j < |l| ==> l[j] != '\n'
  }

  predicate EndsWithCr(l: string) {
    l != [] && l[|l| - 1] == '\r'
  }

  /** Index of the first `\n`, or the length when there is none. */
  function NewlineAt(s: string): (k: nat)
    ensures k <= |s| && NoNewline(s[..k])
    ensures k < |s| ==> s[k] == '\n'
  {
    if s == [] || s[0] == '\n' then 0
    else
      var k := 1 + NewlineAt(s[1..]);
      assert s[..k] == [s[0]] + s[1..][..k - 1];
      k
  }

  function StripCr(l: string): (r: string)
    ensures r == l || (EndsWithCr(l) && r == l[..|l| - 1])
  {
    if EndsWithCr(l) then l[..|l| - 1] else l
  }

  /**
   `str::lines`: split at `\n`, dropping one `\r` right before it; a final line
   ending is optional and does not start another line.
   */
  function Lines(s: string): (ls: seq<string>)
    ensures forall i :: 0 <= i < |ls| ==> NoNewline(ls[i])
    ensures s == [] <==> ls == []
    decreases |s|
  {
    if s == [] then []
    else
      var k := NewlineAt(s);
      if k == |s| then
        assert s[..k] == s;
        [s]
      else
        var rest := Lines(s[k + 1..]);
        var l := StripCr(s[..k]);
        assert NoNewline(l);
        [l] + rest
  }

  /** Every line followed by `\n`. */
  function Unlines(ls: seq<string>): string
  {
    if ls == [] then [] else ls[0] + "\n" + Unlines(ls[1..])
  }

  lemma {:induction false} NewlineAtLine(l: string, rest: string)
    requires NoNewline(l)
    ensures NewlineAt(l + rest) == |l| + NewlineAt(rest)
  {
    if l == [] {
      assert l + rest == rest;
    } else {
      assert (l + rest)[0] == l[0];
      assert (l + rest)[1..] == l[1..] + rest;
      NewlineAtLine(l[1..], rest);
    }
  }

  /** A line terminated by `\n` is the first line. */
  lemma LinesCons(l: string, rest: string)
    requires NoNewline(l) && !EndsWithCr(l)
    ensures Lines(l + "\n" + rest) == [l] + Lines(rest)
  {
    var s := l + "\n" + rest;
    assert s == l + ("\n" + rest);
    NewlineAtLine(l, "\n" + rest);
    assert s[..|l|] == l;
    assert s[|l| + 1..] == rest;
  }

  /** A line terminated by `\r\n` is the first line too. */
  lemma LinesConsCrlf(l: string, rest: string)
    requires NoNewline(l)
    ensures Lines(l + "\r\n" + rest) == [l] + Lines(rest)
  {
    var s := l + "\r\n" + rest;
    var lr := l + "\r";
    assert s == lr + ("\n" + rest);
    assert NoNewline(lr) by {
      assert forall j :: 0 <= j < |l| ==> lr[j] == l[j];
    }
    NewlineAtLine(lr, "\n" + rest);
    assert s[..|lr|] == lr;
    assert lr[..|lr| - 1] == l;
    assert s[|lr| + 1..] == rest;
  }

  /** Lines terminated by `\n` split back into themselves. */
  lemma {:induction false} LinesUnlines(ls: seq<string>)
    requires forall i :: 0 <= i < |ls| ==> NoNewline(ls[i]) && !EndsWithCr(ls[i])
    ensures Lines(Unlines(ls)) == ls
  {
    if ls != [] {
      LinesCons(ls[0], Unlines(ls[1..]));
      LinesUnlines(ls[1..]);
    }
  }

  /* ---------------------------------------------------------------- Grid::from_str */

  /** All the lines' characters, one line after another. */
  function Flatten(ls: seq<string>): string
  {
    if ls == [] then [] else ls[0] + Flatten(ls[1..])
  }

  /** `Grid::from_str`: `cols` is the length of the last line; lines are not checked to agree. */
  function FromStr(s: string): (g: Grid)
    ensures g.rows == |Lines(s)|
    ensures g.cols == (if Lines(s) == [] then 0 else |Lines(s)[|Lines(s)| - 1]|)
    ensures g.data == Flatten(Lines(s))
    ensures s == [] ==> g == Grid([], 0, 0)
  {
    var ls := Lines(s);
    Grid(Flatten(ls), if ls == [] then 0 else |ls[|ls| - 1]|, |ls|)
  }

  /** Rows of width `w` that are `d` rows into the layout start at `d * w`. */
  lemma {:induction false} FlattenAt(ls: seq<string>, w: nat, r: nat, c: nat)
    requires forall i :: 0 <= i < |ls| ==> |ls[i]| == w
    requires r < |ls| && c < w
    ensures r * w + c < |Flatten(ls)| && Flatten(ls)[r * w + c] == ls[r][c]
    decreases r
  {
    var tail := Flatten(ls[1..]);
    assert Flatten(ls) == ls[0] + tail;
    if r == 0 {
      assert Flatten(ls)[c] == ls[0][c];
    } else {
      FlattenAt(ls[1..], w, r - 1, c);
      var j := (r - 1) * w + c;
      assert r * w + c == w + j;
      assert Flatten(ls)[w + j] == tail[j];
    }
  }

  lemma {:induction false} FlattenLength(ls: seq<string>, w: nat)
    requires forall i :: 0 <= i < |ls| ==> |ls[i]| == w
    ensures |Flatten(ls)| == |ls| * w
  {
    if ls != [] {
      FlattenLength(ls[1..], w);
      assert |ls| * w == w + (|ls| - 1) * w;
    }
  }

  /** `cells`: rows times columns. */
  function Cells(g: Grid): nat {
    g.rows * g.cols
  }

  /** Every cell of the grid has a letter (true for rectangular text). */
  predicate Covered(g: Grid) {
    Cells(g) <= |g.data|
  }

  /** Text made of `n` lines of width `w` becomes an `n` by `w` grid holding exactly its cells. */
  lemma FromStrRectangle(ls: seq<string>, w: nat)
    requires ls != []
    requires forall i :: 0 <= i < |ls| ==> NoNewline(ls[i]) && !EndsWithCr(ls[i]) && |ls[i]| == w
    ensures var g := FromStr(Unlines(ls));
      g.rows == |ls| && g.cols == w && |g.data| == Cells(g) && Covered(g)
  {
    LinesUnlines(ls);
    FlattenLength(ls, w);
  }

  /* ---------------------------------------------------------------- coordinates */

  predicate Inside(g: Grid, row: int, col: int) {
    0 <= row < g.rows && 0 <= col < g.cols
  }

  predicate InGrid(g: Grid, c: Coord) {
    Inside(g, c.row, c.col)
  }

  /**
   `index`, as the source writes it: the row is scaled by the number of rows. It
   agrees with the row-major index only on the first row or on a square grid.
   */
  function IndexAsWritten(g: Grid, c: Coord): (i: nat)
    ensures i == Index(g, c) <==> c.row == 0 || g.rows == g.cols
  {
    assert c.row > 0 && g.rows != g.cols ==> c.row * g.rows != c.row * g.cols by {
      if c.row > 0 && g.rows < g.cols {
        MulStrict(g.rows, g.cols, c.row);
      } else if c.row > 0 && g.rows > g.cols {
        MulStrict(g.cols, g.rows, c.row);
      }
    }
    c.row * g.rows + c.col
  }

  /** `index` as evidently intended: the row is scaled by the row length, so `coord` undoes it. */
  function Index(g: Grid, c: Coord): (i: nat)
    ensures c.col < g.cols ==> i / g.cols == c.row && i % g.cols == c.col
  {
    if c.col < g.cols then
      DivModUnique(c.row * g.cols + c.col, g.cols, c.row, c.col);
      c.row * g.cols + c.col
    else
      c.row * g.cols + c.col
  }

  lemma {:induction false} MulStrict(a: nat, b: nat, d: nat)
    requires a < b
    ensures a * d + d <= b * d
    decreases b - a
  {
    if a + 1 < b {
      MulStrict(a, b - 1, d);
    }
    assert (b - 1) * d + d == b * d;
  }

  lemma DivModUnique(x: nat, d: nat, q: nat, r: nat)
    requires d > 0 && x == q * d + r && r < d
    ensures x / d == q && x % d == r
  {
    var q', r' := x / d, x % d;
    assert x == q' * d + r';
    if q' < q {
      MulStrict(q', q, d);
    } else if q' > q {
      MulStrict(q, q', d);
    }
  }

  /** `coord`: the row and column of a cell, reading the grid row by row. */
  function CoordOf(g: Grid, i: nat): (c: Coord)
    requires g.cols > 0
    ensures Index(g, c) == i
    ensures c.col < g.cols
    ensures i < Cells(g) ==> InGrid(g, c)
  {
    var c := Coord(i / g.cols, i % g.cols);
    assert i < Cells(g) ==> c.row < g.rows by {
      if c.row >= g.rows {
        assert c.row * g.cols >= g.rows * g.cols;
      }
    }
    c
  }

  /** In-grid coordinates and cell numbers correspond one to one. */
  lemma IndexInGrid(g: Grid, c: Coord)
    requires InGrid(g, c)
    ensures Index(g, c) < Cells(g)
    ensures CoordOf(g, Index(g, c)) == c
  {
    MulStrict(c.row, g.rows, g.cols);
    DivModUnique(Index(g, c), g.cols, c.row, c.col);
  }

  /** `abc\ndef` is the 2-by-3 grid of the letters `abcdef`. */
  lemma FromStrExample(s: string)
    requires s == "abc\ndef"
    ensures FromStr(s) == Grid("abcdef", 3, 2)
  {
    ExampleLines(s);
    assert Flatten(["abc", "def"]) == "abc" + ("def" + []) == "abcdef";
  }

  /** Ragged text: `abc\nd` is one column wide (its last line), two rows high, and keeps all four letters. */
  lemma FromStrRagged(s: string)
    requires s == "abc\nd"
    ensures FromStr(s) == Grid("abcd", 1, 2) && Cells(FromStr(s)) == 2
  {
    RaggedLines(s);
    assert Flatten(["abc", "d"]) == "abc" + ("d" + []) == "abcd";
  }

  lemma RaggedLines(s: string)
    requires s == "abc\nd"
    ensures Lines(s) == ["abc", "d"]
  {
    var k := NewlineAt(s);
    assert s[3] == '\n' && NoNewline(s[..3]);
    assert k == 3;
    assert s[..3] == "abc" && s[4..] == "d";
    var t := s[4..];
    assert NewlineAt(t) == 1 by {
      assert NoNewline(t);
    }
  }

  /** On that 2-by-3 grid, cell 3 (`d`) is read through the written `index` as cell 2 (`c`). */
  lemma IndexAsWrittenMisreads(g: Grid)
    requires g == Grid("abcdef", 3, 2)
    ensures CoordOf(g, 3) == Coord(1, 0)
    ensures IndexAsWritten(g, Coord(1, 0)) == 2 && Index(g, Coord(1, 0)) == 3
    ensures g.data[IndexAsWritten(g, Coord(1, 0))] == 'c' && g.data[Index(g, Coord(1, 0))] == 'd'
  {
    var data := g.data;
    assert data == ['a', 'b', 'c', 'd', 'e', 'f'];
    assert data[2] == 'c' && data[3] == 'd';
  }

  lemma ExampleLines(s: string)
    requires s == "abc\ndef"
    ensures Lines(s) == ["abc", "def"]
  {
    var k := NewlineAt(s);
    assert s[3] == '\n' && NoNewline(s[..3]);
    assert k == 3;
    assert s[..3] == "abc" && s[4..] == "def";
    var t := s[4..];
    assert NewlineAt(t) == 3 by {
      assert NoNewline(t);
    }
  }

  /**
   The text `ab\ncd\nef` is a grid of 3 rows and 2 columns. The written `index` of
   its last cell is 7, past the six letters, so `value_coord` panics there.
   */
  lemma IndexAsWrittenOverruns(s: string)
    requires s == "ab\ncd\nef"
    ensures var g := FromStr(s);
      && g == Grid("abcdef", 2, 3) && Covered(g)
      && InGrid(g, Coord(2, 1)) && IndexAsWritten(g, Coord(2, 1)) == 7 > |g.data|
      && Index(g, Coord(2, 1)) == 5
      && !ReadableAsWritten(g)
  {
    OverrunGrid(s);
    OverrunsAnyThreeByTwo(FromStr(s));
  }

  lemma OverrunGrid(s: string)
    requires s == "ab\ncd\nef"
    ensures FromStr(s) == Grid("abcdef", 2, 3)
  {
    OverrunLines(s);
    assert Flatten(["ab", "cd", "ef"]) == "ab" + ("cd" + ("ef" + [])) == "abcdef";
  }

  /** In any grid of 3 rows and 2 columns holding six letters, the written `index` of the last cell is 7. */
  lemma OverrunsAnyThreeByTwo(g: Grid)
    requires g.rows == 3 && g.cols == 2 && |g.data| == 6
    ensures Covered(g) && InGrid(g, Coord(2, 1))
    ensures IndexAsWritten(g, Coord(2, 1)) == 7 > |g.data| && Index(g, Coord(2, 1)) == 5
    ensures !ReadableAsWritten(g)
  {
  }

  lemma OverrunLines(s: string)
    requires s == "ab\ncd\nef"
    ensures Lines(s) == ["ab", "cd", "ef"]
  {
    var rest := s[3..];
    assert s == "ab" + "\n" + rest;
    LinesCons("ab", rest);
    LastTwoLines(rest);
  }

  lemma LastTwoLines(s: string)
    requires s == "cd\nef"
    ensures Lines(s) == ["cd", "ef"]
  {
    var ef := s[3..];
    assert s == "cd" + "\n" + ef;
    LinesCons("cd", ef);
    assert ef == "ef";
    assert NewlineAt(ef) == 2 by {
      assert NoNewline(ef);
    }
  }

  /** The letter at an in-grid coordinate (`value_coord`, with the intended `index`). */
  function ValueAt(g: Grid, c: Coord): char
    requires Covered(g) && InGrid(g, c)
  {
    IndexInGrid(g, c);
    g.data[Index(g, c)]
  }

  /** The letter of in-grid text line `r`, column `c` is read back at coordinate (r, c). */
  lemma ValueAtRectangle(ls: seq<string>, w: nat, r: nat, c: nat)
    requires ls != []
    requires forall i :: 0 <= i < |ls| ==> NoNewline(ls[i]) && !EndsWithCr(ls[i]) && |ls[i]| == w
    requires r < |ls| && c < w
    ensures Covered(FromStr(Unlines(ls))) && InGrid(FromStr(Unlines(ls)), Coord(r, c))
    ensures ValueAt(FromStr(Unlines(ls)), Coord(r, c)) == ls[r][c]
  {
    FromStrRectangle(ls, w);
    LinesUnlines(ls);
    FlattenAt(ls, w, r, c);
  }

  /* ---------------------------------------------------------------- value_coord as written */

  /**
   `value_coord` as the source writes it: the letter at the written `index`. The
   source unwraps the lookup, so the index must fall inside the data. On a square
   grid holding its cells it is the row-major letter.
   */
  function ValueCoord(g: Grid, c: Coord): (v: char)
    requires InGrid(g, c) && IndexAsWritten(g, c) < |g.data|
    ensures g.rows == g.cols && Covered(g) ==> v == ValueAt(g, c)
  {
    g.data[IndexAsWritten(g, c)]
  }

  /**
   `value_coord` does not panic on any cell. Both solvers read every cell as the
   start of a word, so this is exactly when they run to completion.
   */
  ghost predicate ReadableAsWritten(g: Grid) {
    forall c :: InGrid(g, c) ==> IndexAsWritten(g, c) < |g.data|
  }

  /**
   The letters `value_coord` reads, laid out row by row: cell `i` holds what the
   source reads at `coord(i)`. The source's solvers behave as the row-major ones
   below do on this grid, since coordinates and moves depend only on the shape.
   */
  function Reading(g: Grid): (h: Grid)
    requires ReadableAsWritten(g)
    ensures h.rows == g.rows && h.cols == g.cols
    ensures |h.data| == Cells(g) && Covered(h)
  {
    if g.cols == 0 then Grid([], g.cols, g.rows)
    else Grid(seq(Cells(g), i requires 0 <= i < Cells(g) => ValueCoord(g, CoordOf(g, i))), g.cols, g.rows)
  }

  /** At every in-grid coordinate, the row-major letter of `Reading(g)` is what `value_coord` reads. */
  lemma ReadingValue(g: Grid, c: Coord)
    requires ReadableAsWritten(g) && InGrid(g, c)
    ensures InGrid(Reading(g), c)
    ensures ValueAt(Reading(g), c) == ValueCoord(g, c)
  {
    IndexInGrid(g, c);
  }

  /** On square or single-row text holding exactly its cells, `value_coord` never panics and reads the grid as it is. */
  lemma ReadingSquare(g: Grid)
    ensures g.rows == g.cols && |g.data| == Cells(g) ==> ReadableAsWritten(g) && Reading(g) == g
    ensures g.rows <= 1 && |g.data| == Cells(g) ==> ReadableAsWritten(g) && Reading(g) == g
  {
    if (g.rows == g.cols || g.rows <= 1) && |g.data| == Cells(g) {
      forall c | InGrid(g, c)
        ensures IndexAsWritten(g, c) < |g.data|
      {
        IndexInGrid(g, c);
      }
      var h := Reading(g);
      forall i | 0 <= i < Cells(g)
        ensures h.data[i] == g.data[i]
      {
        assert g.cols > 0;
      }
      assert h.data == g.data;
    }
  }

  /** The test's `coord(67)` on a 10-column grid is row 6, column 7. */
  lemma CoordExample(g: Grid)
    requires g.cols == 10
    ensures CoordOf(g, 67) == Coord(6, 7)
  {
  }

  /* ---------------------------------------------------------------- moving */

  function DRow(d: Direction): int {
    match d
    case Up | UpRight | UpLeft => -1
    case Right | Left => 0
    case DownRight | Down | DownLeft => 1
  }

  function DCol(d: Direction): int {
    match d
    case Up | Down => 0
    case UpRight | Right | DownRight => 1
    case DownLeft | Left | UpLeft => -1
  }

  /** `self.cols - 1` and `self.rows - 1` are computed in unsigned arithmetic and must not underflow. */
  predicate Steppable(g: Grid, d: Direction) {
    (DCol(d) == 1 ==> g.cols > 0) && (DRow(d) == 1 ==> g.rows > 0)
  }

  /** `_move`: one step in direction `d`, if it stays on the grid. */
  function Move(g: Grid, c: Coord, d: Direction): (r: Option<Coord>)
    requires Steppable(g, d)
    ensures r.Some? ==> r.value.row == c.row + DRow(d) && r.value.col == c.col + DCol(d)
    ensures InGrid(g, c) ==> (r.Some? <==> Inside(g, c.row + DRow(d), c.col + DCol(d)))
    ensures InGrid(g, c) && r.Some? ==> InGrid(g, r.value)
  {
    match d
    case Up => if c.row > 0 then Some(Coord(c.row - 1, c.col)) else None
    case UpRight =>
      if c.row > 0 && c.col < g.cols - 1 then Some(Coord(c.row - 1, c.col + 1)) else None
    case Right => if c.col < g.cols - 1 then Some(Coord(c.row, c.col + 1)) else None
    case DownRight =>
      if c.row < g.rows - 1 && c.col < g.cols - 1 then Some(Coord(c.row + 1, c.col + 1)) else None
    case Down => if c.row < g.rows - 1 then Some(Coord(c.row + 1, c.col)) else None
    case DownLeft =>
      if c.row < g.rows - 1 && c.col > 0 then Some(Coord(c.row + 1, c.col - 1)) else None
    case Left => if c.col > 0 then Some(Coord(c.row, c.col - 1)) else None
    case UpLeft => if c.row > 0 && c.col > 0 then Some(Coord(c.row - 1, c.col - 1)) else None
  }

  /** `k` steps in direction `d` from `c` stay on the grid. */
  predicate Reaches(g: Grid, c: Coord, d: Direction, k: nat) {
    Inside(g, c.row + k * DRow(d), c.col + k * DCol(d))
  }

  /** The letter `k` steps in direction `d` from `c`. */
  function Letter(g: Grid, c: Coord, d: Direction, k: nat): char
    requires Covered(g) && Reaches(g, c, d, k)
  {
    var row: nat := c.row + k * DRow(d);
    var col: nat := c.col + k * DCol(d);
    ValueAt(g, Coord(row, col))
  }

  /* ---------------------------------------------------------------- part 1 */

  /**
   `four_letter_word`: the four letters from cell `i` along `d`, or nothing when
   the word would leave the grid.
   */
  function FourLetterWord(g: Grid, i: nat, d: Direction): (r: Option<string>)
    requires Covered(g) && i < Cells(g)
    ensures var s := CoordOf(g, i);
      && (r.Some? <==> Reaches(g, s, d, 3))
      && (r.Some? ==> r.value == [Letter(g, s, d, 0), Letter(g, s, d, 1), Letter(g, s, d, 2), Letter(g, s, d, 3)])
    ensures r.Some? ==> r.value[0] == g.data[i]
  {
    var s := CoordOf(g, i);
    IndexInGrid(g, s);
    match Move(g, s, d)
    case None => None
    case Some(c1) =>
      match Move(g, c1, d)
      case None => None
      case Some(c2) =>
        match Move(g, c2, d)
        case None => None
        case Some(c3) => Some([ValueAt(g, s), ValueAt(g, c1), ValueAt(g, c2), ValueAt(g, c3)])
  }

  /** The eight directions, in the order `four_letter_words` tries them. */
  const Directions: seq<Direction> := [Up, UpRight, Right, DownRight, Down, DownLeft, Left, UpLeft]

  /** The position of `d` in `Directions`. */
  function Ordinal(d: Direction): (k: nat)
    ensures k < |Directions| && Directions[k] == d
  {
    match d
    case Up => 0
    case UpRight => 1
    case Right => 2
    case DownRight => 3
    case Down => 4
    case DownLeft => 5
    case Left => 6
    case UpLeft => 7
  }

  /** The words present along the directions `ds`, in that order. */
  function WordsAlong(g: Grid, i: nat, ds: seq<Direction>): (ws: seq<string>)
    requires Covered(g) && i < Cells(g)
    ensures |ws| <= |ds|
    ensures forall k :: 0 <= k < |ws| ==> |ws[k]| == 4 && ws[k][0] == g.data[i]
  {
    if ds == [] then []
    else
      var tail := WordsAlong(g, i, ds[1..]);
      match FourLetterWord(g, i, ds[0])
      case None => tail
      case Some(w) => [w] + tail
  }

  /** A word is among those along `ds` exactly when some direction of `ds` reads it. */
  lemma {:induction false} WordsAlongMembers(g: Grid, i: nat, ds: seq<Direction>, w: string)
    requires Covered(g) && i < Cells(g)
    ensures w in WordsAlong(g, i, ds) <==> exists k :: 0 <= k < |ds| && FourLetterWord(g, i, ds[k]) == Some(w)
  {
    if ds != [] {
      var rest := ds[1..];
      WordsAlongMembers(g, i, rest, w);
      assert w in WordsAlong(g, i, ds) <==> FourLetterWord(g, i, ds[0]) == Some(w) || w in WordsAlong(g, i, rest);
      if exists k :: 0 <= k < |ds| && FourLetterWord(g, i, ds[k]) == Some(w) {
        var k :| 0 <= k < |ds| && FourLetterWord(g, i, ds[k]) == Some(w);
        if k > 0 {
          assert rest[k - 1] == ds[k];
        }
      }
      if exists k :: 0 <= k < |rest| && FourLetterWord(g, i, rest[k]) == Some(w) {
        var k :| 0 <= k < |rest| && FourLetterWord(g, i, rest[k]) == Some(w);
        assert ds[k + 1] == rest[k];
      }
    }
  }

  /** `four_letter_words`: the present words in the fixed direction order; at most eight. */
  function FourLetterWords(g: Grid, i: nat): (ws: seq<string>)
    requires Covered(g) && i < Cells(g)
    ensures |ws| <= 8
    ensures forall k :: 0 <= k < |ws| ==> |ws[k]| == 4 && ws[k][0] == g.data[i]
  {
    WordsAlong(g, i, Directions)
  }

  /** The words from cell `i` are exactly those some direction reads. */
  lemma FourLetterWordsMembers(g: Grid, i: nat, w: string)
    requires Covered(g) && i < Cells(g)
    ensures w in FourLetterWords(g, i) <==> exists d :: FourLetterWord(g, i, d) == Some(w)
  {
    WordsAlongMembers(g, i, Directions, w);
    if exists d :: FourLetterWord(g, i, d) == Some(w) {
      var d :| FourLetterWord(g, i, d) == Some(w);
      assert FourLetterWord(g, i, Directions[Ordinal(d)]) == Some(w);
    }
  }

  lemma WordsAlongCons(g: Grid, i: nat, d: Direction, ds: seq<Direction>)
    requires Covered(g) && i < Cells(g)
    ensures WordsAlong(g, i, [d] + ds)
         == (if FourLetterWord(g, i, d).Some? then [FourLetterWord(g, i, d).value] else []) + WordsAlong(g, i, ds)
  {
    assert ([d] + ds)[0] == d && ([d] + ds)[1..] == ds;
  }

  /** From the top-left cell of a grid at least 4 by 4, words go only right and down. */
  lemma TopLeftDirections(g: Grid)
    requires Covered(g) && g.rows >= 4 && g.cols >= 4
    ensures FourLetterWord(g, 0, Right).Some? && FourLetterWord(g, 0, DownRight).Some?
    ensures FourLetterWord(g, 0, Down).Some?
    ensures FourLetterWord(g, 0, Up).None? && FourLetterWord(g, 0, UpRight).None?
    ensures FourLetterWord(g, 0, DownLeft).None? && FourLetterWord(g, 0, Left).None?
    ensures FourLetterWord(g, 0, UpLeft).None?
  {
    assert CoordOf(g, 0) == Coord(0, 0);
  }

  /** At the top-left cell of a grid at least 4 by 4 only Right, DownRight and Down give words. */
  lemma TopLeftWords(g: Grid)
    requires Covered(g) && g.rows >= 4 && g.cols >= 4
    ensures FourLetterWord(g, 0, Right).Some? && FourLetterWord(g, 0, DownRight).Some?
    ensures FourLetterWord(g, 0, Down).Some?
    ensures FourLetterWords(g, 0)
         == [FourLetterWord(g, 0, Right).value, FourLetterWord(g, 0, DownRight).value, FourLetterWord(g, 0, Down).value]
  {
    TopLeftDirections(g);
    var d8: seq<Direction> := [UpLeft];
    var d7 := [Left] + d8;
    var d6 := [DownLeft] + d7;
    var d5 := [Down] + d6;
    var d4 := [DownRight] + d5;
    var d3 := [Right] + d4;
    var d2 := [UpRight] + d3;
    var d1 := [Up] + d2;
    assert d1 == Directions;
    var wr, wdr, wdn := FourLetterWord(g, 0, Right).value, FourLetterWord(g, 0, DownRight).value, FourLetterWord(g, 0, Down).value;
    assert WordsAlong(g, 0, d8) == [] by {
      WordsAlongCons(g, 0, UpLeft, []);
    }
    assert WordsAlong(g, 0, d7) == [] by {
      WordsAlongCons(g, 0, Left, d8);
    }
    assert WordsAlong(g, 0, d6) == [] by {
      WordsAlongCons(g, 0, DownLeft, d7);
    }
    assert WordsAlong(g, 0, d5) == [wdn] by {
      WordsAlongCons(g, 0, Down, d6);
    }
    assert WordsAlong(g, 0, d4) == [wdr, wdn] by {
      WordsAlongCons(g, 0, DownRight, d5);
    }
    assert WordsAlong(g, 0, d3) == [wr, wdr, wdn] by {
      WordsAlongCons(g, 0, Right, d4);
    }
    assert WordsAlong(g, 0, d2) == [wr, wdr, wdn] by {
      WordsAlongCons(g, 0, UpRight, d3);
    }
    assert WordsAlong(g, 0, d1) == [wr, wdr, wdn] by {
      WordsAlongCons(g, 0, Up, d2);
    }
  }

  /** The test's `four_letter_word(3, Up)`: nothing lies above the first row. */
  lemma NothingAboveFirstRow(g: Grid)
    requires Covered(g) && g.cols > 3 && g.rows > 0
    ensures FourLetterWord(g, 3, Up) == None
  {
    assert CoordOf(g, 3) == Coord(0, 3);
  }

  /** How many of `ws` equal `target`. */
  function CountEqual(ws: seq<string>, target: string): (n: nat)
    ensures n <= |ws|
    ensures (forall k :: 0 <= k < |ws| ==> ws[k] != target) ==> n == 0
  {
    if ws == [] then 0 else (if ws[0] == target then 1 else 0) + CountEqual(ws[1..], target)
  }

  /** `XMAS` words starting at cell `i`. */
  function XmasAt(g: Grid, i: nat): nat
    requires Covered(g) && i < Cells(g)
  {
    CountEqual(FourLetterWords(g, i), "XMAS")
  }

  lemma CountEqualCons(w: string, ws: seq<string>, target: string)
    ensures CountEqual([w] + ws, target) == (if w == target then 1 else 0) + CountEqual(ws, target)
  {
    assert ([w] + ws)[1..] == ws;
  }

  predicate Distinct(ds: seq<Direction>) {
    forall j, k :: 0 <= j < k < |ds| ==> ds[j] != ds[k]
  }

  /** The directions of `ds` along which the four letters from cell `i` spell `w`. */
  function ReadingDirections(g: Grid, i: nat, ds: seq<Direction>, w: string): set<Direction>
    requires Covered(g) && i < Cells(g)
  {
    set d | d in ds && FourLetterWord(g, i, d) == Some(w)
  }

  lemma DistinctTail(ds: seq<Direction>)
    requires ds != [] && Distinct(ds)
    ensures Distinct(ds[1..]) && ds[0] !in ds[1..]
  {
    var tail := ds[1..];
    forall j, k | 0 <= j < k < |tail|
      ensures tail[j] != tail[k]
    {
      assert tail[j] == ds[j + 1] && tail[k] == ds[k + 1];
    }
    forall k | 0 <= k < |tail|
      ensures tail[k] != ds[0]
    {
      assert tail[k] == ds[k + 1];
    }
  }

  lemma CountWordsAlongStep(g: Grid, i: nat, ds: seq<Direction>, w: string)
    requires Covered(g) && i < Cells(g) && ds != []
    ensures CountEqual(WordsAlong(g, i, ds), w)
         == (if FourLetterWord(g, i, ds[0]) == Some(w) then 1 else 0) + CountEqual(WordsAlong(g, i, ds[1..]), w)
  {
    match FourLetterWord(g, i, ds[0])
    case None =>
    case Some(x) => CountEqualCons(x, WordsAlong(g, i, ds[1..]), w);
  }

  lemma ReadingDirectionsStep(g: Grid, i: nat, ds: seq<Direction>, w: string)
    requires Covered(g) && i < Cells(g) && ds != [] && Distinct(ds)
    ensures |ReadingDirections(g, i, ds, w)|
         == (if FourLetterWord(g, i, ds[0]) == Some(w) then 1 else 0) + |ReadingDirections(g, i, ds[1..], w)|
  {
    var d, tail := ds[0], ds[1..];
    DistinctTail(ds);
    var rest := ReadingDirections(g, i, tail, w);
    assert ds == [d] + tail;
    if FourLetterWord(g, i, d) == Some(w) {
      assert ReadingDirections(g, i, ds, w) == {d} + rest;
    } else {
      assert ReadingDirections(g, i, ds, w) == rest;
    }
  }

  /** Counting a word among those along distinct directions counts the directions reading it. */
  lemma {:induction false} CountWordsAlong(g: Grid, i: nat, ds: seq<Direction>, w: string)
    requires Covered(g) && i < Cells(g) && Distinct(ds)
    ensures CountEqual(WordsAlong(g, i, ds), w) == |ReadingDirections(g, i, ds, w)|
  {
    if ds != [] {
      var tail := ds[1..];
      DistinctTail(ds);
      CountWordsAlong(g, i, tail, w);
      CountWordsAlongStep(g, i, ds, w);
      ReadingDirectionsStep(g, i, ds, w);
    }
  }

  /** A cell's share of `xmas` is the number of directions in which `XMAS` reads from it. */
  lemma XmasAtDirections(g: Grid, i: nat)
    requires Covered(g) && i < Cells(g)
    ensures XmasAt(g, i) == |set d | d in Directions && FourLetterWord(g, i, d) == Some("XMAS")|
  {
    assert Distinct(Directions);
    CountWordsAlong(g, i, Directions, "XMAS");
  }

  /** The `xmas` loop over the first `n` cells. */
  function XmasUpTo(g: Grid, n: nat): nat
    requires Covered(g) && n <= Cells(g)
  {
    if n == 0 then 0 else XmasUpTo(g, n - 1) + XmasAt(g, n - 1)
  }

  /**
   `xmas` with the corrected `index`: the `XMAS` words from every cell. Only `X`
   cells start one, in at most eight directions each.
   */
  function Xmas(g: Grid): (n: nat)
    requires Covered(g)
    ensures n <= 8 * CountChar(g.data[..Cells(g)], 'X')
  {
    XmasUpToBound(g, Cells(g));
    XmasUpTo(g, Cells(g))
  }

  /** Occurrences of `ch` in `s`. */
  function CountChar(s: string, ch: char): (n: nat)
    ensures n <= |s|
    ensures (forall j :: 0 <= j < |s| ==> s[j] != ch) ==> n == 0
  {
    if s == [] then 0 else CountChar(s[..|s| - 1], ch) + (if s[|s| - 1] == ch then 1 else 0)
  }

  /** A cell contributes at most eight words, and none unless it holds `X`. */
  lemma XmasAtBound(g: Grid, i: nat)
    requires Covered(g) && i < Cells(g)
    ensures XmasAt(g, i) <= 8
    ensures g.data[i] != 'X' ==> XmasAt(g, i) == 0
  {
    var ws := FourLetterWords(g, i);
    if g.data[i] != 'X' {
      assert forall k :: 0 <= k < |ws| ==> ws[k][0] != "XMAS"[0];
    }
  }

  /** Only `X` cells start an `XMAS`, in at most eight directions each. */
  lemma {:induction false} XmasUpToBound(g: Grid, n: nat)
    requires Covered(g) && n <= Cells(g)
    ensures XmasUpTo(g, n) <= 8 * CountChar(g.data[..n], 'X')
  {
    if n > 0 {
      var k := n - 1;
      XmasUpToBound(g, k);
      XmasAtBound(g, k);
      assert g.data[..n][..k] == g.data[..k];
    }
  }

  /* ---------------------------------------------------------------- part 2 */

  /**
   `matching_three_letter_word_middle_coord`: the middle coordinate of the three
   letters from cell `i` along `d`, when they spell `target`.
   */
  function MatchMiddle(g: Grid, i: nat, d: Direction, target: string): (r: Option<Coord>)
    requires Covered(g) && i < Cells(g)
    ensures var s := CoordOf(g, i);
      && (r.Some? <==> Reaches(g, s, d, 2) && [Letter(g, s, d, 0), Letter(g, s, d, 1), Letter(g, s, d, 2)] == target)
      && (r.Some? ==> r.value.row == s.row + DRow(d) && r.value.col == s.col + DCol(d))
    ensures r.Some? ==> InGrid(g, r.value) && [ValueAt(g, r.value)] == target[1..2]
  {
    var s := CoordOf(g, i);
    IndexInGrid(g, s);
    match Move(g, s, d)
    case None => None
    case Some(middle) =>
      match Move(g, middle, d)
      case None => None
      case Some(last) =>
        var word := [ValueAt(g, s), ValueAt(g, middle), ValueAt(g, last)];
        if word == target then Some(middle) else None
  }

  /** The diagonals tried by `mas_middle_cells`, in order. */
  const Diagonals: seq<Direction> := [UpRight, DownRight, DownLeft, UpLeft]

  /** The middles of the `MAS` words along the directions `ds`, in that order. */
  function MiddlesAlong(g: Grid, i: nat, ds: seq<Direction>): (ms: seq<Coord>)
    requires Covered(g) && i < Cells(g)
    ensures |ms| <= |ds|
    ensures forall m :: m in ms ==> InGrid(g, m) && ValueAt(g, m) == 'A'
  {
    if ds == [] then []
    else
      var tail := MiddlesAlong(g, i, ds[1..]);
      match MatchMiddle(g, i, ds[0], "MAS")
      case None => tail
      case Some(m) =>
        assert [ValueAt(g, m)] == "A";
        [m] + tail
  }

  /** `mas_middle_cells`: middles of the diagonal `MAS` words starting at cell `i`. */
  function MasMiddles(g: Grid, i: nat): (ms: seq<Coord>)
    requires Covered(g) && i < Cells(g)
    ensures |ms| <= 4
    ensures forall m :: m in ms ==> InGrid(g, m) && ValueAt(g, m) == 'A'
  {
    MiddlesAlong(g, i, Diagonals)
  }

  /** The middles collected over the first `n` cells, cell by cell. */
  function AllMiddles(g: Grid, n: nat): (ms: seq<Coord>)
    requires Covered(g) && n <= Cells(g)
    ensures |ms| <= 4 * n
    ensures forall m :: m in ms ==> InGrid(g, m) && ValueAt(g, m) == 'A'
  {
    if n == 0 then [] else AllMiddles(g, n - 1) + MasMiddles(g, n - 1)
  }

  /** The row-major index of every coordinate, in order. */
  function Indexes(g: Grid, ms: seq<Coord>): (ks: seq<nat>)
    ensures |ks| == |ms|
    ensures forall j :: 0 <= j < |ms| ==> ks[j] == Index(g, ms[j])
  {
    if ms == [] then [] else [Index(g, ms[0])] + Indexes(g, ms[1..])
  }

  /** The cell numbers of all middles (the source sorts them, which does not change the counts). */
  function MiddleIndexes(g: Grid): (ks: seq<nat>)
    requires Covered(g)
    ensures forall k :: k in ks ==> k < Cells(g) && g.data[k] == 'A'
  {
    var ms := AllMiddles(g, Cells(g));
    var ks := Indexes(g, ms);
    forall k | k in ks
      ensures k < Cells(g) && g.data[k] == 'A'
    {
      var j :| 0 <= j < |ks| && ks[j] == k;
      assert ms[j] in ms;
      IndexInGrid(g, ms[j]);
    }
    ks
  }

  /**
   `xmas_pt2` with the corrected `index`: how many cells are the middle of two or
   more diagonal `MAS` words. These are the centres of an X-MAS, and each holds `A`.
   */
  function XmasPt2(g: Grid): (n: nat)
    requires Covered(g)
    ensures n == |XmasCentres(g)|
    ensures n <= |APositions(g)|
  {
    var counted := Repeated(multiset(MiddleIndexes(g)));
    XmasPt2Crossings(g);
    RepeatedAs(MiddleIndexes(g), APositions(g));
    |counted|
  }

  /** The `HashMap` counting: the keys seen more than once. */
  function Repeated(counts: multiset<nat>): (ks: set<nat>)
    ensures forall k :: k in ks <==> counts[k] > 1
  {
    set k | k in counts && counts[k] > 1
  }

  /** Positions of the data holding `A`. */
  function APositions(g: Grid): set<nat>
  {
    set k | 0 <= k < |g.data| && g.data[k] == 'A'
  }

  /** Keys that all lie in `bound` repeat at most `|bound|` times over. */
  lemma RepeatedAs(ks: seq<nat>, bound: set<nat>)
    requires forall k :: k in ks ==> k in bound
    ensures |Repeated(multiset(ks))| <= |bound|
  {
    var counted := Repeated(multiset(ks));
    forall k | k in counted
      ensures k in bound
    {
      assert k in ks;
    }
    SubsetCardinality(counted, bound);
  }

  lemma {:induction false} SubsetCardinality<T>(a: set<T>, b: set<T>)
    requires a <= b
    ensures |a| <= |b|
    decreases |a|
  {
    if a != {} {
      var x :| x in a;
      SubsetCardinality(a - {x}, b - {x});
    }
  }

  /* ---------------------------------------------------------------- part 2, what is counted */

  /**
   `MAS` reads along `d` with its `A` at `m`: the `M` one step back from `m`, the
   `S` one step on.
   */
  predicate MasThrough(g: Grid, m: Coord, d: Direction)
    requires Covered(g)
  {
    && InGrid(g, m)
    && Inside(g, m.row - DRow(d), m.col - DCol(d))
    && Inside(g, m.row + DRow(d), m.col + DCol(d))
    && ValueAt(g, Coord(m.row - DRow(d), m.col - DCol(d))) == 'M'
    && ValueAt(g, m) == 'A'
    && ValueAt(g, Coord(m.row + DRow(d), m.col + DCol(d))) == 'S'
  }

  /** The puzzle's X-MAS: both diagonals through `m` read `MAS`, each in either direction. */
  predicate CrossedAt(g: Grid, m: Coord)
    requires Covered(g)
  {
    && (MasThrough(g, m, UpRight) || MasThrough(g, m, DownLeft))
    && (MasThrough(g, m, DownRight) || MasThrough(g, m, UpLeft))
  }

  /** The cell one step back from `m` along `d`. */
  function Behind(m: Coord, d: Direction): Coord
    requires m.row - DRow(d) >= 0 && m.col - DCol(d) >= 0
  {
    Coord(m.row - DRow(d), m.col - DCol(d))
  }

  lemma MatchMiddleSound(g: Grid, i: nat, d: Direction, m: Coord)
    requires Covered(g) && i < Cells(g)
    requires MatchMiddle(g, i, d, "MAS") == Some(m)
    ensures MasThrough(g, m, d) && i == Index(g, Behind(m, d))
  {
    var s := CoordOf(g, i);
    assert Behind(m, d) == s;
    var word := [Letter(g, s, d, 0), Letter(g, s, d, 1), Letter(g, s, d, 2)];
    assert word == "MAS";
    assert Letter(g, s, d, 0) == ValueAt(g, s) && word[0] == 'M';
    assert Letter(g, s, d, 1) == ValueAt(g, m) && word[1] == 'A';
    assert Letter(g, s, d, 2) == ValueAt(g, Coord(m.row + DRow(d), m.col + DCol(d))) && word[2] == 'S';
  }

  /** Where `MAS` reads through `m`, it is the three letters from the cell behind `m`. */
  lemma MasLetters(g: Grid, m: Coord, d: Direction)
    requires Covered(g) && MasThrough(g, m, d)
    ensures Reaches(g, Behind(m, d), d, 2)
    ensures Letter(g, Behind(m, d), d, 0) == 'M'
    ensures Letter(g, Behind(m, d), d, 1) == 'A'
    ensures Letter(g, Behind(m, d), d, 2) == 'S'
  {
  }

  lemma SpellsMas(a: char, b: char, c: char)
    requires a == 'M' && b == 'A' && c == 'S'
    ensures [a, b, c] == "MAS"
  {
  }

  lemma MatchMiddleComplete(g: Grid, i: nat, d: Direction, m: Coord)
    requires Covered(g) && i < Cells(g)
    requires MasThrough(g, m, d) && i == Index(g, Behind(m, d))
    ensures MatchMiddle(g, i, d, "MAS") == Some(m)
  {
    var s := Behind(m, d);
    IndexInGrid(g, s);
    MasLetters(g, m, d);
    var a, b, c := Letter(g, s, d, 0), Letter(g, s, d, 1), Letter(g, s, d, 2);
    SpellsMas(a, b, c);
    var r := MatchMiddle(g, i, d, "MAS");
    assert CoordOf(g, i) == s;
    assert r.Some?;
    assert r.value.row == m.row && r.value.col == m.col;
  }

  /** Cell `i` starts a `MAS` along `d` with middle `m` exactly when `MAS` reads through `m` from cell `i`. */
  lemma MatchMiddleIff(g: Grid, i: nat, d: Direction, m: Coord)
    requires Covered(g) && i < Cells(g)
    ensures MatchMiddle(g, i, d, "MAS") == Some(m) <==> MasThrough(g, m, d) && i == Index(g, Behind(m, d))
  {
    if MatchMiddle(g, i, d, "MAS") == Some(m) {
      MatchMiddleSound(g, i, d, m);
    }
    if MasThrough(g, m, d) && i == Index(g, Behind(m, d)) {
      MatchMiddleComplete(g, i, d, m);
    }
  }

  /** 1 when cell `i` yields middle `m` along `d`, else 0. */
  function Hit(g: Grid, i: nat, d: Direction, m: Coord): nat
    requires Covered(g) && i < Cells(g)
  {
    if MatchMiddle(g, i, d, "MAS") == Some(m) then 1 else 0
  }

  /** 1 when `MAS` reads along `d` through `m` from one of the first `n` cells, else 0. */
  function Seen(g: Grid, n: nat, d: Direction, m: Coord): nat
    requires Covered(g)
  {
    if MasThrough(g, m, d) && Index(g, Behind(m, d)) < n then 1 else 0
  }

  /** Along one direction a middle is found at most once: from the cell one step behind it. */
  lemma SeenStep(g: Grid, k: nat, d: Direction, m: Coord)
    requires Covered(g) && k < Cells(g)
    ensures Seen(g, k + 1, d, m) == Seen(g, k, d, m) + Hit(g, k, d, m)
  {
    MatchMiddleIff(g, k, d, m);
  }

  lemma MiddlesAlongCons(g: Grid, i: nat, d: Direction, ds: seq<Direction>, m: Coord)
    requires Covered(g) && i < Cells(g)
    ensures multiset(MiddlesAlong(g, i, [d] + ds))[m] == Hit(g, i, d, m) + multiset(MiddlesAlong(g, i, ds))[m]
  {
    assert ([d] + ds)[0] == d && ([d] + ds)[1..] == ds;
  }

  /** A cell yields middle `m` once for each diagonal along which it does. */
  lemma MasMiddlesCount(g: Grid, i: nat, m: Coord)
    requires Covered(g) && i < Cells(g)
    ensures multiset(MasMiddles(g, i))[m]
         == Hit(g, i, UpRight, m) + Hit(g, i, DownRight, m) + Hit(g, i, DownLeft, m) + Hit(g, i, UpLeft, m)
  {
    var d4: seq<Direction> := [UpLeft];
    var d3 := [DownLeft] + d4;
    var d2 := [DownRight] + d3;
    var d1 := [UpRight] + d2;
    assert d1 == Diagonals;
    MiddlesAlongCons(g, i, UpLeft, [], m);
    MiddlesAlongCons(g, i, DownLeft, d4, m);
    MiddlesAlongCons(g, i, DownRight, d3, m);
    MiddlesAlongCons(g, i, UpRight, d2, m);
  }

  lemma AllMiddlesStep(g: Grid, k: nat, m: Coord)
    requires Covered(g) && k < Cells(g)
    ensures multiset(AllMiddles(g, k + 1))[m] == multiset(AllMiddles(g, k))[m] + multiset(MasMiddles(g, k))[m]
  {
    var before, here := AllMiddles(g, k), MasMiddles(g, k);
    assert AllMiddles(g, k + 1) == before + here;
    assert multiset(before + here) == multiset(before) + multiset(here);
  }

  /** Over the first `n` cells, `m` is collected once per diagonal `MAS` through it that starts there. */
  lemma {:induction false} AllMiddlesCount(g: Grid, n: nat, m: Coord)
    requires Covered(g) && n <= Cells(g)
    ensures multiset(AllMiddles(g, n))[m]
         == Seen(g, n, UpRight, m) + Seen(g, n, DownRight, m) + Seen(g, n, DownLeft, m) + Seen(g, n, UpLeft, m)
  {
    if n > 0 {
      var k := n - 1;
      AllMiddlesCount(g, k, m);
      AllMiddlesStep(g, k, m);
      MasMiddlesCount(g, k, m);
      SeenStep(g, k, UpRight, m);
      SeenStep(g, k, DownRight, m);
      SeenStep(g, k, DownLeft, m);
      SeenStep(g, k, UpLeft, m);
    } else {
      assert AllMiddles(g, n) == [];
    }
  }

  /** `MAS` cannot read both ways along one diagonal: one end would be both `M` and `S`. */
  lemma MasOneWay(g: Grid, m: Coord)
    requires Covered(g)
    ensures !(MasThrough(g, m, UpRight) && MasThrough(g, m, DownLeft))
    ensures !(MasThrough(g, m, DownRight) && MasThrough(g, m, UpLeft))
  {
  }

  /** A coordinate is collected more than once exactly when it is the centre of an X-MAS. */
  lemma MiddleRepeatedIff(g: Grid, m: Coord)
    requires Covered(g)
    ensures multiset(AllMiddles(g, Cells(g)))[m] > 1 <==> CrossedAt(g, m)
  {
    var n := Cells(g);
    AllMiddlesCount(g, n, m);
    forall d | MasThrough(g, m, d)
      ensures Index(g, Behind(m, d)) < n
    {
      IndexInGrid(g, Behind(m, d));
    }
    MasOneWay(g, m);
  }

  /** Counting in-grid coordinates by cell number counts them by coordinate. */
  lemma {:induction false} IndexesCount(g: Grid, ms: seq<Coord>, c: Coord)
    requires forall j :: 0 <= j < |ms| ==> InGrid(g, ms[j])
    requires InGrid(g, c)
    ensures multiset(Indexes(g, ms))[Index(g, c)] == multiset(ms)[c]
  {
    if ms != [] {
      var head, tail := ms[0], ms[1..];
      IndexesCount(g, tail, c);
      IndexInGrid(g, head);
      IndexInGrid(g, c);
      assert multiset(ms) == multiset{head} + multiset(tail) by {
        assert ms == [head] + tail;
      }
      assert multiset(Indexes(g, ms)) == multiset{Index(g, head)} + multiset(Indexes(g, tail));
    }
  }

  /** The cell numbers of the X-MAS centres. */
  function XmasCentres(g: Grid): set<nat>
    requires Covered(g)
  {
    set k | 0 <= k < Cells(g) && g.cols > 0 && CrossedAt(g, CoordOf(g, k))
  }

  /** The cell numbers collected more than once are exactly the X-MAS centres. */
  lemma XmasPt2Crossings(g: Grid)
    requires Covered(g)
    ensures Repeated(multiset(MiddleIndexes(g))) == XmasCentres(g)
  {
    var ms := AllMiddles(g, Cells(g));
    var counted := Repeated(multiset(MiddleIndexes(g)));
    forall k | 0 <= k < Cells(g)
      ensures k in counted <==> k in XmasCentres(g)
    {
      assert g.cols > 0;
      var c := CoordOf(g, k);
      IndexesCount(g, ms, c);
      MiddleRepeatedIff(g, c);
    }
    forall k | k in counted
      ensures k < Cells(g)
    {
      assert k in MiddleIndexes(g);
    }
  }

  /* ---------------------------------------------------------------- the solvers as written */

  /** The letter `value_coord` reads `k` steps along `d` from `c`. */
  function LetterAsWritten(g: Grid, c: Coord, d: Direction, k: nat): char
    requires ReadableAsWritten(g) && Reaches(g, c, d, k)
  {
    var row: nat := c.row + k * DRow(d);
    var col: nat := c.col + k * DCol(d);
    ValueCoord(g, Coord(row, col))
  }

  lemma ReadingLetter(g: Grid, c: Coord, d: Direction, k: nat)
    requires ReadableAsWritten(g) && Reaches(g, c, d, k)
    ensures Letter(Reading(g), c, d, k) == LetterAsWritten(g, c, d, k)
  {
    var row: nat := c.row + k * DRow(d);
    var col: nat := c.col + k * DCol(d);
    ReadingValue(g, Coord(row, col));
  }

  /** A walk that stays inside after `n` steps stays inside at every step before. */
  lemma ReachesBetween(g: Grid, c: Coord, d: Direction, k: nat, n: nat)
    requires Reaches(g, c, d, 0) && Reaches(g, c, d, n) && k <= n
    ensures Reaches(g, c, d, k)
  {
    assert -1 <= DRow(d) <= 1 && -1 <= DCol(d) <= 1;
    if DRow(d) == 1 {
      assert k * DRow(d) == k && n * DRow(d) == n;
    } else if DRow(d) == -1 {
      assert k * DRow(d) == -(k as int) && n * DRow(d) == -(n as int);
    }
    if DCol(d) == 1 {
      assert k * DCol(d) == k && n * DCol(d) == n;
    } else if DCol(d) == -1 {
      assert k * DCol(d) == -(k as int) && n * DCol(d) == -(n as int);
    }
  }

  /** The `n + 1` letters `value_coord` reads from `c` along `d`. */
  function WordAsWritten(g: Grid, c: Coord, d: Direction, n: nat): (w: string)
    requires ReadableAsWritten(g) && InGrid(g, c) && Reaches(g, c, d, n)
    ensures |w| == n + 1
  {
    seq(n + 1, k requires 0 <= k <= n => ReachesBetween(g, c, d, k, n); LetterAsWritten(g, c, d, k))
  }

  /**
   `four_letter_word` as written: a word exists iff three steps stay inside the
   grid, and it is the four letters `value_coord` reads along the way.
   */
  lemma FourLetterWordAsWritten(g: Grid, i: nat, d: Direction)
    requires ReadableAsWritten(g) && i < Cells(g)
    ensures var s := CoordOf(g, i); var r := FourLetterWord(Reading(g), i, d);
      && (r.Some? <==> Reaches(g, s, d, 3))
      && (r.Some? ==> r.value == WordAsWritten(g, s, d, 3))
  {
    var s := CoordOf(g, i);
    var h := Reading(g);
    assert CoordOf(h, i) == s;
    var r := FourLetterWord(h, i, d);
    if r.Some? {
      ReachesBetween(g, s, d, 1, 3);
      ReachesBetween(g, s, d, 2, 3);
      FourLettersAsWritten(g, s, d);
    }
  }

  /** The four letters of the grid `value_coord` reads are the four it reads from `g`. */
  lemma FourLettersAsWritten(g: Grid, s: Coord, d: Direction)
    requires ReadableAsWritten(g) && InGrid(g, s)
    requires Reaches(g, s, d, 1) && Reaches(g, s, d, 2) && Reaches(g, s, d, 3)
    ensures [Letter(Reading(g), s, d, 0), Letter(Reading(g), s, d, 1), Letter(Reading(g), s, d, 2), Letter(Reading(g), s, d, 3)]
         == WordAsWritten(g, s, d, 3)
  {
    ReadingLetter(g, s, d, 0);
    ReadingLetter(g, s, d, 1);
    ReadingLetter(g, s, d, 2);
    ReadingLetter(g, s, d, 3);
  }

  /**
   `matching_three_letter_word_middle_coord` as written: a middle is returned iff
   two steps stay inside and the three letters `value_coord` reads are the target.
   */
  lemma MatchMiddleAsWritten(g: Grid, i: nat, d: Direction, target: string)
    requires ReadableAsWritten(g) && i < Cells(g)
    ensures var s := CoordOf(g, i); var r := MatchMiddle(Reading(g), i, d, target);
      && (r.Some? <==> Reaches(g, s, d, 2) && WordAsWritten(g, s, d, 2) == target)
      && (r.Some? ==> r.value.row == s.row + DRow(d) && r.value.col == s.col + DCol(d))
  {
    var s := CoordOf(g, i);
    var h := Reading(g);
    assert CoordOf(h, i) == s;
    if Reaches(g, s, d, 2) {
      ReachesBetween(g, s, d, 1, 2);
      ThreeLettersAsWritten(g, s, d);
    }
  }

  /** The three letters of the grid `value_coord` reads are the three it reads from `g`. */
  lemma ThreeLettersAsWritten(g: Grid, s: Coord, d: Direction)
    requires ReadableAsWritten(g) && InGrid(g, s)
    requires Reaches(g, s, d, 1) && Reaches(g, s, d, 2)
    ensures [Letter(Reading(g), s, d, 0), Letter(Reading(g), s, d, 1), Letter(Reading(g), s, d, 2)]
         == WordAsWritten(g, s, d, 2)
  {
    ReadingLetter(g, s, d, 0);
    ReadingLetter(g, s, d, 1);
    ReadingLetter(g, s, d, 2);
  }

  /**
   `xmas` as written. Only cells where `value_coord` reads `X` start an `XMAS`; on
   square text holding exactly its cells it is the corrected count.
   */
  function XmasAsWritten(g: Grid): (n: nat)
    requires ReadableAsWritten(g)
    ensures n <= 8 * CountChar(Reading(g).data, 'X')
    ensures g.rows == g.cols && |g.data| == Cells(g) ==> n == Xmas(g)
  {
    var h := Reading(g);
    ReadingSquare(g);
    assert h.data[..Cells(h)] == h.data;
    Xmas(h)
  }

  /** The key map of `xmas_pt2` as written: the written `index` of every middle found. */
  function MiddleKeys(g: Grid): (ks: seq<nat>)
    requires ReadableAsWritten(g)
    ensures forall k :: k in ks ==> k < |g.data| && g.data[k] == 'A'
    ensures g.rows == g.cols && |g.data| == Cells(g) ==> ks == MiddleIndexes(g)
  {
    var h := Reading(g);
    var ms := AllMiddles(h, Cells(h));
    var ks := Map((c: Coord) => IndexAsWritten(g, c), ms);
    forall k | k in ks
      ensures k < |g.data| && g.data[k] == 'A'
    {
      var j :| 0 <= j < |ks| && ks[j] == k;
      assert ms[j] in ms;
      ReadingValue(g, ms[j]);
    }
    ReadingSquare(g);
    ks
  }

  /**
   `xmas_pt2` as written: the keys met more than once. Each is a position of the
   data holding `A`; on square text holding exactly its cells they are the X-MAS
   centres.
   */
  function XmasPt2AsWritten(g: Grid): (n: nat)
    requires ReadableAsWritten(g)
    ensures n <= |APositions(g)|
    ensures g.rows == g.cols && |g.data| == Cells(g) ==> n == |XmasCentres(g)|
  {
    var counted := Repeated(multiset(MiddleKeys(g)));
    RepeatedAs(MiddleKeys(g), APositions(g));
    if g.rows == g.cols && |g.data| == Cells(g) then
      XmasPt2Crossings(g);
      |counted|
    else
      |counted|
  }

  /** `XMAS` reads along `d` from `s` in the letters `value_coord` returns. */
  predicate XmasReadAsWritten(g: Grid, s: Coord, d: Direction)
    requires ReadableAsWritten(g)
  {
    && InGrid(g, s)
    && Reaches(g, s, d, 3)
    && WordAsWritten(g, s, d, 3) == "XMAS"
  }

  /** A cell's share of `xmas` as written is the number of directions in which the source reads `XMAS` from it. */
  lemma XmasAtAsWritten(g: Grid, i: nat)
    requires ReadableAsWritten(g) && i < Cells(g)
    ensures XmasAt(Reading(g), i) == |set d | d in Directions && XmasReadAsWritten(g, CoordOf(g, i), d)|
  {
    var h := Reading(g);
    var s := CoordOf(g, i);
    XmasAtDirections(h, i);
    forall d | d in Directions
      ensures FourLetterWord(h, i, d) == Some("XMAS") <==> XmasReadAsWritten(g, s, d)
    {
      FourLetterWordAsWritten(g, i, d);
    }
    assert (set d | d in Directions && FourLetterWord(h, i, d) == Some("XMAS"))
        == (set d | d in Directions && XmasReadAsWritten(g, s, d));
  }

  /* ---------------------------------------------------------------- where the two indexes part */

  lemma DivergentLines(s: string)
    requires s == "zzzz\nXMAS"
    ensures Lines(s) == ["zzzz", "XMAS"]
  {
    var k := NewlineAt(s);
    assert s[4] == '\n' && NoNewline(s[..4]);
    assert k == 4;
    assert s[..4] == "zzzz" && s[5..] == "XMAS";
    var t := s[5..];
    assert NewlineAt(t) == 4 by {
      assert NoNewline(t);
    }
  }

  /** As written, row 1 of the 2-by-4 grid `zzzzXMAS` is read from positions 2 to 5. */
  lemma DivergentReading(g: Grid)
    requires g == Grid("zzzzXMAS", 4, 2)
    ensures ReadableAsWritten(g) && Reading(g) == Grid("zzzzzzXM", 4, 2)
  {
    var e := "zzzzzzXM";
    forall c | InGrid(g, c)
      ensures IndexAsWritten(g, c) < |g.data|
    {
    }
    var h := Reading(g);
    forall i | 0 <= i < 8
      ensures h.data[i] == e[i]
    {
      var c := CoordOf(g, i);
      if i < 4 {
        assert c == Coord(0, i);
        assert IndexAsWritten(g, c) == i;
      } else {
        assert c == Coord(1, i - 4);
        assert IndexAsWritten(g, c) == i - 2;
      }
    }
    assert h.data == e;
  }

  /** No word of four fits from row 1, column 2 of a 2-by-4 grid. */
  lemma NoWordFrom(h: Grid)
    requires h.rows == 2 && h.cols == 4 && Covered(h)
    ensures XmasAt(h, 6) == 0
  {
    XmasAtDirections(h, 6);
    assert CoordOf(h, 6) == Coord(1, 2);
    forall d | d in Directions
      ensures FourLetterWord(h, 6, d).None?
    {
      assert !Reaches(h, Coord(1, 2), d, 3);
    }
    var found := set d | d in Directions && FourLetterWord(h, 6, d) == Some("XMAS");
    assert found == {};
  }

  /** The source's reading of `zzzzXMAS` holds a single `X`, from which no word fits. */
  lemma DivergentAsWrittenCount(h: Grid)
    requires h == Grid("zzzzzzXM", 4, 2)
    ensures Xmas(h) == 0
  {
    assert forall j :: 0 <= j < 6 ==> h.data[j] == 'z';
    NoXNoWords(h, 6);
    NoWordFrom(h);
    LastRowCount(h);
  }

  /** Cells before `n` that hold no `X` start no word. */
  lemma NoXNoWords(g: Grid, n: nat)
    requires Covered(g) && n <= Cells(g)
    requires forall j :: 0 <= j < n ==> g.data[j] != 'X'
    ensures XmasUpTo(g, n) == 0
  {
    var d := g.data[..n];
    assert forall j :: 0 <= j < |d| ==> d[j] != 'X';
    XmasUpToBound(g, n);
  }

  /** The count on a 2-by-4 grid with no word before its last two cells and none from them. */
  lemma LastRowCount(g: Grid)
    requires g.rows == 2 && g.cols == 4 && Covered(g)
    requires XmasUpTo(g, 6) == 0 && XmasAt(g, 6) == 0 && g.data[7] != 'X'
    ensures Xmas(g) == 0
  {
    XmasAtBound(g, 7);
    assert XmasUpTo(g, 8) == XmasUpTo(g, 6) + XmasAt(g, 6) + XmasAt(g, 7);
  }

  /** Read row by row, `zzzzXMAS` holds one `XMAS`: rightwards from cell 4. */
  lemma DivergentRowMajorCount(g: Grid)
    requires g == Grid("zzzzXMAS", 4, 2)
    ensures Xmas(g) == 1
  {
    FirstRowHasNoX(g);
    RightWord(g);
    XmasRightOnly(g);
    assert g.data[5] == 'M' && g.data[6] == 'A' && g.data[7] == 'S';
    SecondRowCount(g);
  }

  /** The count on a 2-by-4 grid whose only `X` is cell 4, with one word from it. */
  lemma SecondRowCount(g: Grid)
    requires g.rows == 2 && g.cols == 4 && Covered(g)
    requires XmasUpTo(g, 4) == 0 && XmasAt(g, 4) == 1
    requires g.data[5] != 'X' && g.data[6] != 'X' && g.data[7] != 'X'
    ensures Xmas(g) == 1
  {
    XmasAtBound(g, 5);
    XmasAtBound(g, 6);
    XmasAtBound(g, 7);
    assert XmasUpTo(g, 6) == XmasUpTo(g, 4) + XmasAt(g, 4) + XmasAt(g, 5);
    assert XmasUpTo(g, 8) == XmasUpTo(g, 6) + XmasAt(g, 6) + XmasAt(g, 7);
  }

  lemma FirstRowHasNoX(g: Grid)
    requires g == Grid("zzzzXMAS", 4, 2)
    ensures XmasUpTo(g, 4) == 0
  {
    var d := g.data[..4];
    assert d == "zzzz";
    assert forall j :: 0 <= j < |d| ==> d[j] != 'X';
    assert CountChar(d, 'X') == 0;
    XmasUpToBound(g, 4);
  }

  /** From row 1, column 0 of a 2-by-4 grid, a word of four fits only rightwards. */
  lemma OnlyRightFits(g: Grid, d: Direction)
    requires g.rows == 2 && g.cols == 4 && Covered(g) && d != Right
    ensures FourLetterWord(g, 4, d).None?
  {
    assert CoordOf(g, 4) == Coord(1, 0);
  }

  lemma RightWord(g: Grid)
    requires g == Grid("zzzzXMAS", 4, 2)
    ensures FourLetterWord(g, 4, Right) == Some("XMAS")
  {
    var s := CoordOf(g, 4);
    assert s == Coord(1, 0);
    var w := FourLetterWord(g, 4, Right);
    assert w.Some?;
    assert w.value[0] == ValueAt(g, Coord(1, 0)) == 'X';
    assert w.value[1] == ValueAt(g, Coord(1, 1)) == 'M';
    assert w.value[2] == ValueAt(g, Coord(1, 2)) == 'A';
    assert w.value[3] == ValueAt(g, Coord(1, 3)) == 'S';
  }

  /** On a 2-by-4 grid, cell 4 starts one `XMAS` when the word to its right is one. */
  lemma XmasRightOnly(g: Grid)
    requires g.rows == 2 && g.cols == 4 && Covered(g)
    requires FourLetterWord(g, 4, Right) == Some("XMAS")
    ensures XmasAt(g, 4) == 1
  {
    XmasAtDirections(g, 4);
    var found := set d | d in Directions && FourLetterWord(g, 4, d) == Some("XMAS");
    forall d | d in found
      ensures d == Right
    {
      if d != Right {
        OnlyRightFits(g, d);
      }
    }
    SubsetCardinality(found, {Right});
    assert Right in found;
  }

  /**
   On `zzzz\nXMAS` (two rows of four) the source never panics and counts no
   `XMAS`, while the corrected count finds the one in the second line.
   */
  lemma XmasAsWrittenDiverges(s: string)
    requires s == "zzzz\nXMAS"
    ensures var g := FromStr(s);
      && Covered(g) && ReadableAsWritten(g)
      && XmasAsWritten(g) == 0 && Xmas(g) == 1
  {
    DivergentLines(s);
    var g := FromStr(s);
    assert Flatten(["zzzz", "XMAS"]) == "zzzz" + ("XMAS" + []) == "zzzzXMAS";
    assert g == Grid("zzzzXMAS", 4, 2);
    DivergentReading(g);
    DivergentAsWrittenCount(Reading(g));
    DivergentRowMajorCount(g);
  }
}
