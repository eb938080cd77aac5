/**
  The records of pieces.py: the two sides, the display tags of the piece kinds and the
  plain record a piece is. None of them has behaviour; they give the board its intended
  element type.
 */
module Pieces {

  /** The side a piece belongs to (pieces.py:4-6). */
  datatype Side = White | Black

  /** The piece kinds, used for display only (pieces.py:9-26). */
  datatype PieceType =
    | Sui | Boushou | Ohdsutsu | Tsutsu | Taishou | Chujou | Shoushou
    | Shinobi | Samurai | Kiba | Yumi | Toride | Yari | Hyou

  /** A piece: its side, its name and the coordinates it records for itself (pieces.py:29-41). */
  datatype Piece = Piece(color: Side, name: string, x: int, y: int)
}
