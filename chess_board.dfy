/** The board of the Chess package: an 8x8 array of nullable piece references that
    initialiseGame fills, movePiece updates in place and getPieceAt reads. */
module Chess {
  import opened JavaChars
  import opened Pieces
  import opened ChessGrid

  /** The isValidMove of the piece classes, which are not part of this model: it is given
      the piece, the piece's position string, the destination square name and the cells of
      the board, and it cannot change any of them. */
  type MoveRule = (Piece, string, string, Grid) -> bool

  const BackRank: seq<Kind> := [Rook, Knight, Bishop, Queen, King, Bishop, Knight, Rook]

  /** The kind initialiseGame stores at board[row][col] of a home row. */
  function StartKind(row: int, col: int): (k: Kind)
    requires HomeRow(row) && 0 <= col < 8
    ensures k == Pawn <==> row == 1 || row == 6
    ensures k == King <==> (row == 0 || row == 7) && col == 4
  {
    if row == 1 || row == 6 then Pawn else BackRank[col]
  }

  /** The position string initialiseGame gives the piece it stores at board[row][col]:
      the file letter of the column and the rank row + 1. */
  function StartName(row: int, col: int): (s: string)
    requires 0 <= row < 8 && 0 <= col < 8
    ensures |s| == 2 && IsSquareText(s) && 'A' <= s[0] <= 'H' && '1' <= s[1] <= '8'
  {
    [('A' as int + col) as char, ('1' as int + row) as char]
  }

  /** The piece at board[row][col] is the one initialiseGame builds for that cell. */
  ghost predicate StartsAs(p: Piece?, row: int, col: int)
    requires HomeRow(row) && 0 <= col < 8
    reads p
  {
    p != null && p.kind == StartKind(row, col) && p.isWhite == (row < 2) && p.position == StartName(row, col)
  }

  /** The name initialiseGame gives a piece designates, under getPieceAt's conversion, the
      cell mirrored across the middle of the board: "A1" is stored at row 0 but names row 7. */
  lemma StartNameMirrored(row: int, col: int)
    requires 0 <= row < 8 && 0 <= col < 8
    ensures BoardIndex(StartName(row, col)) == Cell(7 - row, col)
  {
  }

  /** Distinct cells receive distinct names from initialiseGame. */
  lemma StartNameInjective(i: int, j: int, k: int, l: int)
    requires 0 <= i < 8 && 0 <= j < 8 && 0 <= k < 8 && 0 <= l < 8
    requires StartName(i, j) == StartName(k, l)
    ensures i == k && j == l
  {
  }

  class ChessBoard {
    var board: array2<Piece?>

    ghost predicate Valid()
      reads this
    {
      board.Length0 == 8 && board.Length1 == 8
    }

    /** The current contents of the cells as a value. */
    function Cells(): (g: Grid)
      requires Valid()
      reads this, board
      ensures IsBoard(g)
      ensures forall i, j :: 0 <= i < 8 && 0 <= j < 8 ==> g[i][j] == board[i, j]
    {
      var b := board;
      seq(8, i requires 0 <= i < 8 reads b => seq(8, j requires 0 <= j < 8 reads b => b[i, j]))
    }

    /** The pieces standing on the board. */
    ghost function Pieces(): set<Piece>
      requires Valid()
      reads this, board
    {
      set i, j | 0 <= i < 8 && 0 <= j < 8 && board[i, j] != null :: board[i, j]
    }

    /** Rows 0, 1, 6 and 7 hold the pieces initialiseGame builds for them. */
    ghost predicate HomeRowsSet()
      requires Valid()
      reads this, board, Pieces()
    {
      forall i, j :: 0 <= i < 8 && 0 <= j < 8 && HomeRow(i) ==> StartsAs(board[i, j], i, j)
    }

    ghost predicate MiddleEmpty()
      requires Valid()
      reads this, board
    {
      forall i, j :: 2 <= i < 6 && 0 <= j < 8 ==> board[i, j] == null
    }

    constructor ()
      ensures Valid() && fresh(board)
      ensures HomeRowsSet() && MiddleEmpty()
      ensures Unique(Cells()) && PieceCount(Cells()) == 32
      ensures forall i, j :: 0 <= i < 8 && 0 <= j < 8 && board[i, j] != null ==> fresh(board[i, j])
    {
      board := new Piece?[8, 8]((i, j) => null);
      new;
      InitialiseGame();
      StartingLayoutUnique(this);
      StartingShapeCount(Cells());
    }

    /** Fills the home rows with fresh pieces; rows 2 to 5 are left as they were. */
    method InitialiseGame()
      requires Valid()
      modifies board
      ensures HomeRowsSet()
      ensures forall i, j :: 0 <= i < 8 && 0 <= j < 8 && HomeRow(i) ==> fresh(board[i, j])
      ensures forall i, j :: 2 <= i < 6 && 0 <= j < 8 ==> board[i, j] == old(board[i, j])
    {
      WhitePieces();

      for i := 0 to 8
        invariant forall j :: 0 <= j < 8 ==> StartsAs(board[0, j], 0, j) && fresh(board[0, j])
        invariant forall j :: 0 <= j < i ==> StartsAs(board[1, j], 1, j) && fresh(board[1, j])
        invariant forall r, j :: 2 <= r < 8 && 0 <= j < 8 ==> board[r, j] == old(board[r, j])
      {
        board[1, i] := new Piece([('A' as int + i) as char, '2'], true, Pawn);
      }

      BlackPieces();

      for i := 0 to 8
        invariant forall r, j :: (r == 0 || r == 1 || r == 7) && 0 <= j < 8 ==> StartsAs(board[r, j], r, j) && fresh(board[r, j])
        invariant forall j :: 0 <= j < i ==> StartsAs(board[6, j], 6, j) && fresh(board[6, j])
        invariant forall r, j :: 2 <= r < 6 && 0 <= j < 8 ==> board[r, j] == old(board[r, j])
      {
        board[6, i] := new Piece([('A' as int + i) as char, '7'], false, Pawn);
      }
    }

    /** The white back rank of initialiseGame, which stores the piece named "A1" at board[0][0]. */
    method WhitePieces()
      requires Valid()
      modifies board
      ensures forall j :: 0 <= j < 8 ==> StartsAs(board[0, j], 0, j) && fresh(board[0, j])
      ensures forall i, j :: 0 < i < 8 && 0 <= j < 8 ==> board[i, j] == old(board[i, j])
    {
      Place(0, 0, "A1", true, Rook);
      Place(0, 1, "B1", true, Knight);
      Place(0, 2, "C1", true, Bishop);
      Place(0, 3, "D1", true, Queen);
      Place(0, 4, "E1", true, King);
      Place(0, 5, "F1", true, Bishop);
      Place(0, 6, "G1", true, Knight);
      Place(0, 7, "H1", true, Rook);
    }

    /** The black back rank of initialiseGame, which stores the piece named "A8" at board[7][0]. */
    method BlackPieces()
      requires Valid()
      modifies board
      ensures forall j :: 0 <= j < 8 ==> StartsAs(board[7, j], 7, j) && fresh(board[7, j])
      ensures forall i, j :: 0 <= i < 7 && 0 <= j < 8 ==> board[i, j] == old(board[i, j])
    {
      Place(7, 0, "A8", false, Rook);
      Place(7, 1, "B8", false, Knight);
      Place(7, 2, "C8", false, Bishop);
      Place(7, 3, "D8", false, Queen);
      Place(7, 4, "E8", false, King);
      Place(7, 5, "F8", false, Bishop);
      Place(7, 6, "G8", false, Knight);
      Place(7, 7, "H8", false, Rook);
    }

    /** One statement of the back ranks: a fresh piece with the given name, colour and kind
        is stored at board[row][col] and no other cell changes. */
    method Place(row: int, col: int, name: string, isWhite: bool, kind: Kind)
      requires Valid() && 0 <= row < 8 && 0 <= col < 8
      modifies board
      ensures fresh(board[row, col])
      ensures board[row, col] != null && board[row, col].position == name
      ensures board[row, col].isWhite == isWhite && board[row, col].kind == kind
      ensures forall i, j :: 0 <= i < 8 && 0 <= j < 8 && (i != row || j != col) ==> board[i, j] == old(board[i, j])
    {
      board[row, col] := new Piece(name, isWhite, kind);
    }

    /** Whether isValidMove lets the piece at cell `from` go to newPosition. */
    ghost predicate Accepts(from: Cell, newPosition: string, isValidMove: MoveRule)
      requires Valid()
      reads this, board, Pieces()
    {
      InGrid(from) && board[from.row, from.col] != null &&
      isValidMove(board[from.row, from.col], board[from.row, from.col].position, newPosition, Cells())
    }

    /** Moves the piece on currentPosition to newPosition when isValidMove accepts it:
        the destination is overwritten (capturing whatever stood there), the piece's position
        becomes newPosition and the source is cleared. Squares off the grid raise
        ArrayIndexOutOfBounds, the destination only once the move has been accepted. */
    method MovePiece(currentPosition: string, newPosition: string, isValidMove: MoveRule) returns (r: Result<bool>)
      requires Valid() && IsSquareText(currentPosition) && IsSquareText(newPosition)
      modifies board, Pieces()
      ensures var from, to := BoardIndex(currentPosition), BoardIndex(newPosition);
        r == if !InGrid(from) then ArrayIndexOutOfBounds
             else if !old(Accepts(from, newPosition, isValidMove)) then Ok(false)
             else if !InGrid(to) then ArrayIndexOutOfBounds
             else Ok(true)
      ensures r != Ok(true) ==> unchanged(board) && unchanged(Pieces())
      ensures r == Ok(true) ==>
        var from, to := BoardIndex(currentPosition), BoardIndex(newPosition);
        InGrid(from) && InGrid(to) &&
        var p := old(board[from.row, from.col]);
        p != null &&
        Cells() == Moved(old(Cells()), from, to) &&
        p.position == newPosition &&
        (from != to ==> PieceAt(Cells(), p.position) == Ok(p)) &&
        forall q :: q in old(Pieces()) && q != p ==> q.position == old(q.position)
    {
      var from := BoardIndex(currentPosition);
      var to := BoardIndex(newPosition);
      if !InGrid(from) {
        return ArrayIndexOutOfBounds;
      }
      var piece := board[from.row, from.col];
      if piece != null && isValidMove(piece, piece.position, newPosition, Cells()) {
        if !InGrid(to) {
          return ArrayIndexOutOfBounds;
        }
        ghost var before := Cells();
        assert piece in Pieces();
        board[to.row, to.col] := piece;
        piece.SetPosition(newPosition);
        board[from.row, from.col] := null;
        GridExtensionality(Cells(), Moved(before, from, to));
        return Ok(true);
      } else {
        return Ok(false);
      }
    }

    /** The piece standing on a square, or null; squares off the grid raise
        ArrayIndexOutOfBounds. Nothing changes. */
    method GetPieceAt(position: string) returns (r: Result<Piece?>)
      requires Valid() && IsSquareText(position)
      ensures r == PieceAt(Cells(), position)
    {
      var c := BoardIndex(position);
      if !InGrid(c) {
        return ArrayIndexOutOfBounds;
      }
      return Ok(board[c.row, c.col]);
    }
  }

  /** The freshly initialised board keeps each piece in one cell only: the pieces of the
      home rows carry pairwise different position strings. */
  lemma StartingLayoutUnique(b: ChessBoard)
    requires b.Valid() && b.HomeRowsSet() && b.MiddleEmpty()
    ensures Unique(b.Cells())
    ensures forall i, j :: 0 <= i < 8 && 0 <= j < 8 ==> (b.Cells()[i][j] != null <==> HomeRow(i))
  {
  }

  /** On a freshly initialised board, getPieceAt on a square of ranks 1, 2, 7 or 8 finds the
      piece whose own position names the mirrored rank, of the colour of the other side. */
  lemma FreshBoardLookupMirrored(b: ChessBoard, square: string)
    requires b.Valid() && b.HomeRowsSet()
    requires |square| == 2 && 'A' <= square[0] <= 'H' && square[1] in {'1', '2', '7', '8'}
    ensures var r := PieceAt(b.Cells(), square);
      r.Ok? && r.value != null &&
      r.value.position == [square[0], ('9' as int - NumericValue(square[1])) as char] &&
      r.value.position != square &&
      r.value.isWhite == (square[1] in {'7', '8'})
  {
  }

  /** The instance the source shows: on a fresh board getPieceAt("A1") returns the black rook
      that was built with position "A8". */
  lemma FreshBoardA1(b: ChessBoard)
    requires b.Valid() && b.HomeRowsSet()
    ensures var r := PieceAt(b.Cells(), "A1");
      r.Ok? && r.value != null && r.value.kind == Rook && !r.value.isWhite && r.value.position == "A8"
  {
  }
}
