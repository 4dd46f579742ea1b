/** The piece abstraction both board models share: a kind tag standing for the source's
    subclasses (Rook, Knight, Bishop, Queen, King, Pawn), a colour fixed at construction, and a
    position string that moves update in place. */
module Pieces {

  datatype Kind = Rook | Knight | Bishop | Queen | King | Pawn

  class Piece {
    var position: string
    const isWhite: bool
    const kind: Kind

    constructor (position: string, isWhite: bool, kind: Kind)
      ensures this.position == position && this.isWhite == isWhite && this.kind == kind
    {
      this.position := position;
      this.isWhite := isWhite;
      this.kind := kind;
    }

    method SetPosition(newPosition: string)
      modifies this
      ensures position == newPosition
    {
      position := newPosition;
    }
  }
}
