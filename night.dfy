/** The knight of the default package (class Night): isValidMove classifies a destination
    square into one of four verdict strings. It reads the knight's position and colour and
    the board, and changes none of them. Its square convention is row = rank - 1 and
    col = upper-cased file - 'A', unlike the Chess package's board. */
module Night {
  import opened JavaChars
  import opened Pieces

  const OUT_OF_BOUNDS: string := "Out Of Bounds"
  const SAME_POSITION: string := "Can't move to the same position"
  const VALID_MOVE: string := "Valid Move"
  const INVALID_MOVE: string := "Invalid Move"

  /** Row of a square name: rank - 1. */
  function Row(square: string): (r: int)
    requires IsSquareText(square)
    ensures -1 <= r <= 8
    ensures 0 <= r <= 7 <==> '1' <= square[1] <= '8'
  {
    NumericValue(square[1]) - 1
  }

  /** Column of a square name: the upper-cased file letter minus 'A'. */
  function Col(square: string): (c: int)
    requires |square| >= 1
    ensures 0 <= c <= 7 <==> 'A' <= square[0] <= 'H' || 'a' <= square[0] <= 'h'
  {
    ToUpperCase(square[0]) as int - 'A' as int
  }

  predicate OnBoard(square: string)
    requires IsSquareText(square)
  {
    0 <= Row(square) <= 7 && 0 <= Col(square) <= 7
  }

  function Abs(x: int): nat {
    if x < 0 then -x else x
  }

  /** The two absolute differences isValidMove accepts. */
  predicate LShaped(rowDiff: int, colDiff: int) {
    (Abs(rowDiff) == 2 && Abs(colDiff) == 1) || (Abs(rowDiff) == 1 && Abs(colDiff) == 2)
  }

  /** Night.isValidMove. The first check that fails decides the verdict: bounds, then
      the same position (compared as strings), then shape and occupancy. */
  function IsValidMove(knight: Piece, newPosition: string, board: array2<Piece?>): (r: string)
    requires IsSquareText(knight.position) && IsSquareText(newPosition)
    requires board.Length0 >= 8 && board.Length1 >= 8
    reads knight, board
    ensures r == OUT_OF_BOUNDS || r == SAME_POSITION || r == VALID_MOVE || r == INVALID_MOVE
    ensures r == OUT_OF_BOUNDS <==> !OnBoard(newPosition)
    ensures r == SAME_POSITION <==> OnBoard(newPosition) && newPosition == knight.position
  {
    var currentRow, currentCol := Row(knight.position), Col(knight.position);
    var newRow, newCol := Row(newPosition), Col(newPosition);
    if newRow < 0 || newRow > 7 || newCol < 0 || newCol > 7 then
      OUT_OF_BOUNDS
    else if newPosition == knight.position then
      SAME_POSITION
    else
      var rowDiff, colDiff := Abs(newRow - currentRow), Abs(newCol - currentCol);
      if ((rowDiff == 2 && colDiff == 1) || (rowDiff == 1 && colDiff == 2)) &&
         (board[newRow, newCol] == null || board[newRow, newCol].isWhite != knight.isWhite)
      then
        VALID_MOVE
      else
        INVALID_MOVE
  }

  /** The eight displacements of a knight, as an independent reference. */
  const KnightJumps: set<(int, int)> :=
    {(2, 1), (2, -1), (-2, 1), (-2, -1), (1, 2), (1, -2), (-1, 2), (-1, -2)}

  lemma LShapedIsKnightJump(rowDiff: int, colDiff: int)
    ensures LShaped(rowDiff, colDiff) <==> (rowDiff, colDiff) in KnightJumps
  {
  }

  /** The displacement from the knight's square to the destination. */
  function Jump(knight: Piece, newPosition: string): (int, int)
    requires IsSquareText(knight.position) && IsSquareText(newPosition)
    reads knight
  {
    (Row(newPosition) - Row(knight.position), Col(newPosition) - Col(knight.position))
  }

  /** The destination cell is empty or holds a piece of the other colour. */
  predicate Capturable(knight: Piece, newPosition: string, board: array2<Piece?>)
    requires IsSquareText(newPosition) && OnBoard(newPosition)
    requires board.Length0 >= 8 && board.Length1 >= 8
    reads knight, board
  {
    var target := board[Row(newPosition), Col(newPosition)];
    target == null || target.isWhite != knight.isWhite
  }

  /** "Valid Move" exactly for an on-board knight jump onto an empty or enemy square. */
  lemma ValidMoveIffJump(knight: Piece, newPosition: string, board: array2<Piece?>)
    requires IsSquareText(knight.position) && IsSquareText(newPosition)
    requires board.Length0 >= 8 && board.Length1 >= 8
    ensures IsValidMove(knight, newPosition, board) == VALID_MOVE <==>
      OnBoard(newPosition) && Jump(knight, newPosition) in KnightJumps && Capturable(knight, newPosition, board)
  {
  }

  /** A knight jump onto a square of the knight's own colour is "Invalid Move". */
  lemma FriendlyTargetIsInvalid(knight: Piece, newPosition: string, board: array2<Piece?>)
    requires IsSquareText(knight.position) && IsSquareText(newPosition)
    requires board.Length0 >= 8 && board.Length1 >= 8
    requires OnBoard(newPosition) && Jump(knight, newPosition) in KnightJumps
    requires board[Row(newPosition), Col(newPosition)] != null
    requires board[Row(newPosition), Col(newPosition)].isWhite == knight.isWhite
    ensures IsValidMove(knight, newPosition, board) == INVALID_MOVE
  {
  }

  /** Any other on-board destination that differs from the knight's own name is
      "Invalid Move", whatever stands on it. */
  lemma NonJumpIsInvalid(knight: Piece, newPosition: string, board: array2<Piece?>)
    requires IsSquareText(knight.position) && IsSquareText(newPosition)
    requires board.Length0 >= 8 && board.Length1 >= 8
    requires OnBoard(newPosition) && newPosition != knight.position
    requires Jump(knight, newPosition) !in KnightJumps
    ensures IsValidMove(knight, newPosition, board) == INVALID_MOVE
  {
  }

  /** The file letter is read case-insensitively: two names that differ only in the case of
      their file letter get the same verdict unless one of them is the knight's own name. */
  lemma FileLetterCaseInsensitive(knight: Piece, s: string, t: string, board: array2<Piece?>)
    requires IsSquareText(knight.position) && IsSquareText(s) && IsSquareText(t)
    requires board.Length0 >= 8 && board.Length1 >= 8
    requires s[1] == t[1] && ToUpperCase(s[0]) == ToUpperCase(t[0])
    requires s != knight.position && t != knight.position
    ensures Row(s) == Row(t) && Col(s) == Col(t)
    ensures IsValidMove(knight, s, board) == IsValidMove(knight, t, board)
  {
  }

  /** The same-position check compares strings, so the knight's own square written with a
      lower-case file is not recognised as its own square. */
  lemma OwnSquareInLowerCaseIsInvalid(knight: Piece, board: array2<Piece?>)
    requires knight.position == "B1"
    requires board.Length0 >= 8 && board.Length1 >= 8
    ensures IsValidMove(knight, "B1", board) == SAME_POSITION
    ensures IsValidMove(knight, "b1", board) == INVALID_MOVE
  {
  }

  /** Java upper-cases dotless i to 'I', so a knight whose file is 'ı' stands in column 8,
      off the board, and still jumps to G2. */
  lemma KnightOnDotlessIFile(knight: Piece, board: array2<Piece?>)
    requires knight.position == "\U{0131}1"
    requires board.Length0 >= 8 && board.Length1 >= 8
    requires board[1, 6] == null
    ensures Col(knight.position) == 8
    ensures IsValidMove(knight, "G2", board) == VALID_MOVE
  {
  }

  /** A knight on B1 reaches A3, C3 and D2 when they are empty, but not B3. */
  lemma KnightFromB1(knight: Piece, board: array2<Piece?>)
    requires knight.position == "B1"
    requires board.Length0 >= 8 && board.Length1 >= 8
    requires board[2, 0] == null && board[2, 2] == null && board[1, 3] == null
    ensures IsValidMove(knight, "A3", board) == VALID_MOVE
    ensures IsValidMove(knight, "C3", board) == VALID_MOVE
    ensures IsValidMove(knight, "D2", board) == VALID_MOVE
    ensures IsValidMove(knight, "B3", board) == INVALID_MOVE
  {
  }
}
