# The Java Rook: board grid, move execution and knight validation

A Dafny model of the rules logic of The Java Rook, a Swing chess game. There are two
independent parts, because the repository holds two versions of the piece classes.

- **The `Chess` package board** (`ChessBoard.java`). An 8×8 grid of nullable piece
  references. `initialiseGame` fills it with the 32 starting pieces. `movePiece` turns two
  square names such as `"E2"` into indices. It then moves the piece in place when the
  piece's `isValidMove` accepts the move. `getPieceAt` is a plain lookup. The model is the
  class `Chess.ChessBoard` over an `array2<Piece?>`. Pieces are objects of
  `Pieces.Piece`, whose `position` field `movePiece` updates through `SetPosition`. The
  module `ChessGrid` describes what the methods do on a value snapshot of the cells
  (`Grid`). It holds the lemmas about moves, captures, counts and square names.
- **The default-package knight** (`Night.java`). `isValidMove` returns one of four
  verdict strings. It is modelled as the pure function `Night.IsValidMove`, with lemmas
  that compare it with an independent table of the eight knight displacements.

The piece classes of the `Chess` package are not part of this model, so their
`isValidMove` is a parameter of `MovePiece`. It has the type `MoveRule`, a total function.
It receives the piece, the piece's position string, the destination name and the snapshot
of the cells. Being a total function, it cannot change the board or any piece.

Behaviours of the source that the model keeps as written:

- **Mirrored start.** `initialiseGame` stores the piece named `"A1"` at `board[0][0]`. But
  `getPieceAt` and `movePiece` map rank r to row 8 − r. So on a fresh board
  `getPieceAt("A1")` returns the black rook built as `"A8"` (`Chess.FreshBoardA1`). Every
  home-rank square behaves the same way (`Chess.FreshBoardLookupMirrored`).
- **Out-of-range squares.** A square off the grid makes `movePiece` and `getPieceAt`
  raise `ArrayIndexOutOfBoundsException`. The model returns this as the
  `ArrayIndexOutOfBounds` value of `Result`. `movePiece` only indexes the destination
  after `isValidMove` has accepted the move. So an off-grid destination gives `false`
  when the source is empty or the rule rejects the move, and the exception otherwise.
  The board is unchanged in every case.
- **A move onto its own square.** When source and destination are the same cell, the
  second write (clearing the source) wins. The piece disappears from the board
  (`ChessGrid.MoveOntoItselfErases`).
- **Re-running `initialiseGame`.** It refills rows 0, 1, 6 and 7 with fresh pieces and
  leaves rows 2 to 5 as they were. Only the constructor, which starts from an empty
  array, guarantees that the middle is empty and that exactly 32 pieces are on the board.
- **Knight name comparison.** `Night.isValidMove` compares the destination with its own
  position as strings, after the case-insensitive bounds check. The knight's own square
  written with a lower-case file is therefore `"Invalid Move"`, not
  `"Can't move to the same position"` (`Night.OwnSquareInLowerCaseIsInvalid`).

The back-rank statements of `initialiseGame` (eight constructor calls per colour) are
grouped into the methods `WhitePieces` and `BlackPieces`. Each statement
`board[r][c] = new X(name, colour)` is one call of `Place`, which stores one fresh piece.
`InitialiseGame` calls the two methods in the source's order, around the two pawn loops.
The pawn loops are `for` loops with invariants.

## Model

| member | source | states |
|---|---|---|
| `JavaChars.NumericValue` | Night.java:10 | getNumericValue of a decimal digit lies in 0..9 and names that digit back |
| `JavaChars.ToUpperCase` | Night.java:11 | upper-case folding: the result is an ASCII capital exactly when the input is an ASCII letter, dotless 'ı' or long 's'; lower case maps 32 down, 'ı' to 'I', long 's' to 'S', everything else is unchanged |
| `Pieces.Piece.constructor` | Desktop/The_Java_Rook/Chess/ChessBoard.java:15 | a new piece carries the given position, colour and kind |
| `Pieces.Piece.SetPosition` | Desktop/The_Java_Rook/Chess/ChessBoard.java:94 | setPosition replaces the position and changes only that piece |
| `ChessGrid.BoardIndex` | Desktop/The_Java_Rook/Chess/ChessBoard.java:85-88 | the conversion row = 8 − rank, col = file − 'A' lands on the grid exactly for files A–H and ranks 1–8 |
| `ChessGrid.SquareName` | ChessUI.java:60 | the name the UI builds for a cell is a two-character square A1..H8 |
| `ChessGrid.IndexOfName` | Desktop/The_Java_Rook/Chess/ChessBoard.java:104-105 | converting the name of a cell gives that cell back |
| `ChessGrid.NameOfIndex` | Desktop/The_Java_Rook/Chess/ChessBoard.java:104-105 | for a two-character on-grid name, naming its cell gives the name back |
| `ChessGrid.BoardIndexInjective` | Desktop/The_Java_Rook/Chess/ChessBoard.java:85-88 | distinct two-character square names map to distinct cells |
| `ChessGrid.PieceAt` | Desktop/The_Java_Rook/Chess/ChessBoard.java:103-107 | the lookup returns board[8 − rank][file − 'A'] and raises the index exception exactly off the grid |
| `ChessGrid.Moved` | Desktop/The_Java_Rook/Chess/ChessBoard.java:93-95 | after the two writes the source is empty, the destination holds the source's piece when the cells differ, and the other 62 cells are unchanged |
| `ChessGrid.PieceAtAfterMove` | Desktop/The_Java_Rook/Chess/ChessBoard.java:93-107 | after a move, looking up the destination finds the moved piece and looking up the source finds nothing |
| `ChessGrid.MovedKeepsUnique` | Desktop/The_Java_Rook/Chess/ChessBoard.java:93-95 | a move keeps every piece in at most one cell |
| `ChessGrid.MoveCaptures` | Desktop/The_Java_Rook/Chess/ChessBoard.java:93 | a piece standing on the destination is no longer anywhere on the board |
| `ChessGrid.MovedPieceOnlyAtDestination` | Desktop/The_Java_Rook/Chess/ChessBoard.java:93-95 | the moved piece is at the destination and in no other cell |
| `ChessGrid.MoveOntoItselfErases` | Desktop/The_Java_Rook/Chess/ChessBoard.java:93-95 | a move whose source and destination coincide removes the piece from the board |
| `ChessGrid.MovedCount` | Desktop/The_Java_Rook/Chess/ChessBoard.java:93-95 | a move keeps the number of pieces, less one exactly when it captures |
| `ChessGrid.StartingShapeCount` | Desktop/The_Java_Rook/Chess/ChessBoard.java:7-42 | home rows full and rows 2–5 empty means exactly 32 pieces |
| `Chess.StartKind` | Desktop/The_Java_Rook/Chess/ChessBoard.java:15-42 | pawns are on rows 1 and 6 only; the king is in column 4 of the back rows |
| `Chess.StartName` | Desktop/The_Java_Rook/Chess/ChessBoard.java:26 | the name given to the piece at board[row][col] is a two-character square in A1..H8 |
| `Chess.StartNameInjective` | Desktop/The_Java_Rook/Chess/ChessBoard.java:15-37 | distinct cells are given distinct names by initialiseGame |
| `Chess.StartNameMirrored` | Desktop/The_Java_Rook/Chess/ChessBoard.java:15-30 | the name stored at row r designates row 7 − r under the lookup's conversion |
| `Chess.ChessBoard.constructor` | Desktop/The_Java_Rook/Chess/ChessBoard.java:6-9 | a new board has the starting pieces on rows 0, 1, 6 and 7, empty rows 2–5, 32 pieces, each in one cell, and every piece on it is a new object |
| `Chess.ChessBoard.InitialiseGame` | Desktop/The_Java_Rook/Chess/ChessBoard.java:11-43 | rows 0, 1, 6, 7 hold fresh pieces of the starting kinds, colours and names; rows 2–5 are untouched |
| `Chess.ChessBoard.Place` | Desktop/The_Java_Rook/Chess/ChessBoard.java:15-22 | one back-rank statement: board[row][col] holds a fresh piece with the given name, colour and kind, and no other cell changes |
| `Chess.ChessBoard.WhitePieces` | Desktop/The_Java_Rook/Chess/ChessBoard.java:15-22 | row 0 holds fresh white R, N, B, Q, K, B, N, R named A1..H1; other rows untouched |
| `Chess.ChessBoard.BlackPieces` | Desktop/The_Java_Rook/Chess/ChessBoard.java:30-37 | row 7 holds fresh black R, N, B, Q, K, B, N, R named A8..H8; other rows untouched |
| `Chess.ChessBoard.MovePiece` | Desktop/The_Java_Rook/Chess/ChessBoard.java:83-101 | the result (true, false or the index exception) for every case; on anything but true the board and all pieces are unchanged; on true the cells are the old cells after the move, the piece's position is the new name and its lookup finds it, and no other piece's position changes |
| `Chess.ChessBoard.GetPieceAt` | Desktop/The_Java_Rook/Chess/ChessBoard.java:103-107 | returns the lookup on the current cells and changes nothing |
| `Chess.StartingLayoutUnique` | Desktop/The_Java_Rook/Chess/ChessBoard.java:11-43 | on the starting layout no piece occupies two cells and exactly the home rows are occupied |
| `Chess.FreshBoardLookupMirrored` | Desktop/The_Java_Rook/Chess/ChessBoard.java:15-42 | on a fresh board the piece found on a rank-1, 2, 7 or 8 square is named with the mirrored rank and belongs to the other side |
| `Chess.FreshBoardA1` | Desktop/The_Java_Rook/Chess/ChessBoard.java:104-106 | on a fresh board getPieceAt("A1") is the black rook named "A8" |
| `Night.Row` | Night.java:10 | row = rank − 1 lies in −1..8, and in 0..7 exactly for ranks '1'..'8' |
| `Night.Col` | Night.java:14 | the column lies in 0..7 exactly for files A–H in either case |
| `Night.IsValidMove` | Night.java:8-37 | the verdict is one of the four strings; "Out Of Bounds" exactly off the board, before any other check; "Can't move to the same position" exactly for an on-board destination equal to the knight's position |
| `Night.LShapedIsKnightJump` | Night.java:27-29 | the two accepted absolute differences are exactly the eight knight displacements |
| `Night.ValidMoveIffJump` | Night.java:17-33 | "Valid Move" exactly when the destination is on the board, a knight displacement away, and empty or enemy-occupied |
| `Night.FriendlyTargetIsInvalid` | Night.java:29-36 | a knight jump onto a piece of the knight's colour is "Invalid Move" |
| `Night.NonJumpIsInvalid` | Night.java:27-36 | an on-board destination other than the knight's own name and not a knight jump is "Invalid Move" |
| `Night.FileLetterCaseInsensitive` | Night.java:11-14 | names differing only in the case of the file letter have the same row, column and verdict, unless one is the knight's own name |
| `Night.OwnSquareInLowerCaseIsInvalid` | Night.java:22-24 | a knight on "B1" gets the same-position verdict for "B1" but "Invalid Move" for "b1" |
| `Night.KnightOnDotlessIFile` | Night.java:11-14 | a knight on "ı1" is in column 8 and gets "Valid Move" for an empty G2 |
| `Night.KnightFromB1` | Night.java:13-36 | a knight on B1 reaches empty A3, C3 and D2 but not B3 |

## Left out

- `printBoard` and `printPiece`: console output, with the piece letter taken from the class name by reflection.
- The "Invalid move!" message that `movePiece` prints on rejection: console output only.
- `ChessUI.java`: Swing windows, mouse handling, images, dialogs and the promotion dialog. Its turn handling calls a `movePiece` that returns a string and a `promote` method, and neither exists in the board shown. Only its square-naming expression is used, for `ChessGrid.SquareName`.
- The movement rules of the `Chess` package pieces and the `Piece` base class: their source is not part of this model. `isValidMove` is the `MoveRule` parameter. This rule sees the mover's position string and the kind, colour and identity of every piece on the board, but not the other pieces' position strings. Exceptions the rule might raise are not modelled.
- Check, checkmate, stalemate, promotion and turn order: none of them appears in the board or knight code shown.
- `Character.getNumericValue` on characters that are not decimal digits, and names shorter than two characters (where `charAt(1)` throws): every square-name argument must have length at least 2 and a digit as its second character.
- `Character.toUpperCase` beyond the characters it maps to ASCII capitals: only 'a'..'z', dotless 'ı' and long 's' are folded. Java's other foldings map a non-ASCII character to a non-ASCII character. Either way the column is far above 9, so the bounds and jump verdicts of the knight are the same for every character.
- Java's `char` is a UTF-16 code unit; Dafny's `char` is a Unicode scalar value. No conversion in the model depends on the difference.
- `Night.IsValidMove`: the board must have at least 8 rows and 8 columns. On a smaller array Java throws when it reads the cell of an on-board, L-shaped destination that lies outside the array; this case is not modelled.
- Null references for the square-name strings or the board (NullPointerException in Java).
