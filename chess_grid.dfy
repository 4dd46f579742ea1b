/** Value-level view of ChessBoard's 8x8 grid: the square-name conversion that
    getPieceAt and movePiece use, the effect of a move on a snapshot of the cells, and
    counting the pieces on it. */
module ChessGrid {
  import opened JavaChars
  import opened Pieces

  /** A snapshot of the cells of the board, row by row; null is an empty cell. */
  type Grid = seq<seq<Piece?>>

  /** What a Java array access on the grid yields: a value, or the
      ArrayIndexOutOfBoundsException raised by an index outside 0..7. */
  datatype Result<T> = Ok(value: T) | ArrayIndexOutOfBounds

  /** A (row, column) pair as computed from a square name; it may lie off the grid. */
  datatype Cell = Cell(row: int, col: int)

  predicate InGrid(c: Cell) {
    0 <= c.row < 8 && 0 <= c.col < 8
  }

  predicate IsBoard(g: Grid) {
    |g| == 8 && forall i :: 0 <= i < 8 ==> |g[i]| == 8
  }

  /** The conversion in movePiece and getPieceAt: row = 8 - rank, col = file - 'A',
      with no case folding of the file letter. */
  function BoardIndex(square: string): (c: Cell)
    requires IsSquareText(square)
    ensures InGrid(c) <==> 'A' <= square[0] <= 'H' && '1' <= square[1] <= '8'
  {
    Cell(8 - NumericValue(square[1]), square[0] as int - 'A' as int)
  }

  /** The name of a cell under the same convention: the inverse of BoardIndex. */
  function SquareName(c: Cell): (s: string)
    requires InGrid(c)
    ensures |s| == 2 && IsSquareText(s)
    ensures 'A' <= s[0] <= 'H' && '1' <= s[1] <= '8'
  {
    [('A' as int + c.col) as char, ('0' as int + 8 - c.row) as char]
  }

  lemma IndexOfName(c: Cell)
    requires InGrid(c)
    ensures BoardIndex(SquareName(c)) == c
  {
  }

  lemma NameOfIndex(square: string)
    requires IsSquareText(square) && |square| == 2 && InGrid(BoardIndex(square))
    ensures SquareName(BoardIndex(square)) == square
  {
  }

  /** Two-character square names A1..H8 map to distinct cells. */
  lemma BoardIndexInjective(s: string, t: string)
    requires IsSquareText(s) && IsSquareText(t) && |s| == 2 && |t| == 2
    requires InGrid(BoardIndex(s)) && BoardIndex(s) == BoardIndex(t)
    ensures s == t
  {
  }

  /** getPieceAt on a snapshot of the cells: board[8 - rank][file - 'A']. */
  function PieceAt(g: Grid, square: string): (r: Result<Piece?>)
    requires IsBoard(g) && IsSquareText(square)
    ensures r.Ok? <==> 'A' <= square[0] <= 'H' && '1' <= square[1] <= '8'
    ensures r.Ok? ==> r.value == g[BoardIndex(square).row][BoardIndex(square).col]
  {
    var c := BoardIndex(square);
    if InGrid(c) then Ok(g[c.row][c.col]) else ArrayIndexOutOfBounds
  }

  /** The cells after movePiece's two writes: the destination receives the piece from the
      source, then the source is cleared. When the two cells coincide the second write wins. */
  function Moved(g: Grid, from: Cell, to: Cell): (h: Grid)
    requires IsBoard(g) && InGrid(from) && InGrid(to)
    ensures IsBoard(h)
    ensures h[from.row][from.col] == null
    ensures from != to ==> h[to.row][to.col] == g[from.row][from.col]
    ensures forall i, j :: 0 <= i < 8 && 0 <= j < 8 && Cell(i, j) != from && Cell(i, j) != to ==> h[i][j] == g[i][j]
  {
    var placed := g[to.row := g[to.row][to.col := g[from.row][from.col]]];
    placed[from.row := placed[from.row][from.col := null]]
  }

  /** After a move between two distinct squares, looking up the destination finds the moved
      piece and looking up the source finds nothing. */
  lemma PieceAtAfterMove(g: Grid, currentPosition: string, newPosition: string)
    requires IsBoard(g) && IsSquareText(currentPosition) && IsSquareText(newPosition)
    requires InGrid(BoardIndex(currentPosition)) && InGrid(BoardIndex(newPosition))
    requires BoardIndex(currentPosition) != BoardIndex(newPosition)
    ensures var h := Moved(g, BoardIndex(currentPosition), BoardIndex(newPosition));
      PieceAt(h, newPosition) == PieceAt(g, currentPosition) && PieceAt(h, currentPosition) == Ok(null)
  {
  }

  lemma GridExtensionality(g: Grid, h: Grid)
    requires IsBoard(g) && IsBoard(h)
    requires forall i, j :: 0 <= i < 8 && 0 <= j < 8 ==> g[i][j] == h[i][j]
    ensures g == h
  {
    forall i | 0 <= i < 8
      ensures g[i] == h[i]
    {
    }
  }

  /** No piece occupies two cells. */
  ghost predicate Unique(g: Grid)
    requires IsBoard(g)
  {
    forall i, j, k, l ::
      0 <= i < 8 && 0 <= j < 8 && 0 <= k < 8 && 0 <= l < 8 && g[i][j] != null && g[i][j] == g[k][l] ==>
        i == k && j == l
  }

  ghost predicate OnGrid(g: Grid, p: Piece)
    requires IsBoard(g)
  {
    exists i, j :: 0 <= i < 8 && 0 <= j < 8 && g[i][j] == p
  }

  lemma MovedKeepsUnique(g: Grid, from: Cell, to: Cell)
    requires IsBoard(g) && InGrid(from) && InGrid(to) && Unique(g)
    ensures Unique(Moved(g, from, to))
  {
  }

  /** A move onto an occupied cell removes the piece standing there from the board. */
  lemma MoveCaptures(g: Grid, from: Cell, to: Cell)
    requires IsBoard(g) && InGrid(from) && InGrid(to) && Unique(g)
    requires from != to && g[to.row][to.col] != null
    ensures !OnGrid(Moved(g, from, to), g[to.row][to.col])
  {
  }

  /** After a move between two distinct cells the moved piece is found at the destination
      and nowhere else. */
  lemma MovedPieceOnlyAtDestination(g: Grid, from: Cell, to: Cell)
    requires IsBoard(g) && InGrid(from) && InGrid(to) && Unique(g)
    requires from != to && g[from.row][from.col] != null
    ensures Moved(g, from, to)[to.row][to.col] == g[from.row][from.col]
    ensures forall i, j :: 0 <= i < 8 && 0 <= j < 8 && Cell(i, j) != to ==> Moved(g, from, to)[i][j] != g[from.row][from.col]
  {
  }

  /** A move whose source and destination are the same cell erases the piece. */
  lemma MoveOntoItselfErases(g: Grid, c: Cell)
    requires IsBoard(g) && InGrid(c) && Unique(g) && g[c.row][c.col] != null
    ensures !OnGrid(Moved(g, c, c), g[c.row][c.col])
  {
  }

  function Occupied(p: Piece?): nat {
    if p == null then 0 else 1
  }

  /** The number of non-empty cells among the first n of a row. */
  function RowCount(s: seq<Piece?>, n: nat): (r: nat)
    requires n <= |s|
    ensures r <= n
  {
    if n == 0 then 0 else RowCount(s, n - 1) + Occupied(s[n - 1])
  }

  /** The number of non-empty cells among the first n rows. */
  function GridCount(g: Grid, n: nat): (r: nat)
    requires n <= |g|
    ensures (forall i :: 0 <= i < n ==> |g[i]| <= 8) ==> r <= 8 * n
  {
    if n == 0 then 0 else GridCount(g, n - 1) + RowCount(g[n - 1], |g[n - 1]|)
  }

  function PieceCount(g: Grid): (r: nat)
    requires IsBoard(g)
    ensures r <= 64
  {
    GridCount(g, 8)
  }

  lemma {:induction false} RowCountUpdate(s: seq<Piece?>, k: nat, v: Piece?, n: nat)
    requires k < |s| && n <= |s|
    ensures n <= k ==> RowCount(s[k := v], n) == RowCount(s, n)
    ensures k < n ==> RowCount(s[k := v], n) + Occupied(s[k]) == RowCount(s, n) + Occupied(v)
  {
    if n > 0 {
      RowCountUpdate(s, k, v, n - 1);
    }
  }

  lemma {:induction false} GridCountUpdate(g: Grid, k: nat, r: seq<Piece?>, n: nat)
    requires k < |g| && n <= |g|
    ensures n <= k ==> GridCount(g[k := r], n) == GridCount(g, n)
    ensures k < n ==> GridCount(g[k := r], n) + RowCount(g[k], |g[k]|) == GridCount(g, n) + RowCount(r, |r|)
  {
    if n > 0 {
      GridCountUpdate(g, k, r, n - 1);
    }
  }

  /** Writing one cell changes the count by what leaves and what arrives. */
  lemma CellUpdateCount(g: Grid, c: Cell, v: Piece?)
    requires IsBoard(g) && InGrid(c)
    ensures IsBoard(g[c.row := g[c.row][c.col := v]])
    ensures PieceCount(g[c.row := g[c.row][c.col := v]]) + Occupied(g[c.row][c.col]) == PieceCount(g) + Occupied(v)
  {
    var r := g[c.row][c.col := v];
    RowCountUpdate(g[c.row], c.col, v, 8);
    GridCountUpdate(g, c.row, r, 8);
  }

  /** A move between two cells keeps every piece but the captured one: the count drops by
      one exactly when the destination was occupied. */
  lemma MovedCount(g: Grid, from: Cell, to: Cell)
    requires IsBoard(g) && InGrid(from) && InGrid(to)
    requires from != to && g[from.row][from.col] != null
    ensures PieceCount(Moved(g, from, to)) + Occupied(g[to.row][to.col]) == PieceCount(g)
  {
    var p := g[from.row][from.col];
    var placed := g[to.row := g[to.row][to.col := p]];
    CellUpdateCount(g, to, p);
    assert placed[from.row][from.col] == p;
    CellUpdateCount(placed, from, null);
    assert Moved(g, from, to) == placed[from.row := placed[from.row][from.col := null]];
  }

  lemma {:induction false} FullRowCount(s: seq<Piece?>, n: nat)
    requires n <= |s| && forall j :: 0 <= j < |s| ==> s[j] != null
    ensures RowCount(s, n) == n
  {
    if n > 0 {
      FullRowCount(s, n - 1);
    }
  }

  lemma {:induction false} EmptyRowCount(s: seq<Piece?>, n: nat)
    requires n <= |s| && forall j :: 0 <= j < |s| ==> s[j] == null
    ensures RowCount(s, n) == 0
  {
    if n > 0 {
      EmptyRowCount(s, n - 1);
    }
  }

  /** The rows initialiseGame fills: the two back ranks and the two pawn ranks. */
  predicate HomeRow(row: int) {
    row == 0 || row == 1 || row == 6 || row == 7
  }

  /** Home rows full and rows 2 to 5 empty means exactly 32 pieces. */
  lemma StartingShapeCount(g: Grid)
    requires IsBoard(g)
    requires forall i, j :: 0 <= i < 8 && 0 <= j < 8 ==> (g[i][j] != null <==> HomeRow(i))
    ensures PieceCount(g) == 32
  {
    forall i | 0 <= i < 8
      ensures RowCount(g[i], 8) == if HomeRow(i) then 8 else 0
    {
      if HomeRow(i) {
        FullRowCount(g[i], 8);
      } else {
        EmptyRowCount(g[i], 8);
      }
    }
    assert GridCount(g, 2) == 16;
    assert GridCount(g, 4) == 16;
    assert GridCount(g, 6) == 16;
    assert GridCount(g, 8) == 32;
  }
}
