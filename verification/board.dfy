/**
 What the engine asks of a python-chess `Board`. The library itself is not
 modelled: each query is an uninterpreted function stored in the value, so
 every property proved below holds whatever the chess rules answer.
 */
module Board {

  /** `chess.WHITE` is `True` and `chess.BLACK` is `False`. */
  const WHITE: bool := true
  const BLACK: bool := false

  /** Piece types `chess.PAWN` .. `chess.KING` are the integers 1 .. 6. */
  const PAWN: int := 1
  const KING: int := 6

  /**
   A position, seen through the queries the engine makes of it:
   - `legalMoves`: the `legal_moves` generator, in generation order;
   - `givesCheck(m)`, `isCapture(m)`: `gives_check` and `is_capture`;
   - `pieces(p, c)`: `pieces(p, c).tolist()`, one flag per square;
   - `hasCastlingRights(c)`, `hasQueensideCastlingRights(c)`;
   - `fen`: `fen()`, the key of the evaluation cache.
   */
  datatype Board<!M> = Board(
    legalMoves: seq<M>,
    givesCheck: M -> bool,
    isCapture: M -> bool,
    pieces: (int, bool) -> seq<bool>,
    hasCastlingRights: bool -> bool,
    hasQueensideCastlingRights: bool -> bool,
    fen: string)
}
