/** The chess engine (chess.js) as the coordinator sees it: an oracle that is asked whose
    turn it is, whether a move is legal (and what position it leads to), and which
    game-over conditions hold. Its rules are not modelled; the coordinator receives the
    move function as a value. */
module ChessOracle {
  import opened Wrappers

  /** A player colour; also the side to move that chess.js reports as 'w' or 'b'. */
  datatype Color = White | Black

  /** The opponent's colour. */
  function Other(c: Color): (o: Color)
    ensures o != c
  {
    if c == White then Black else White
  }

  /** Reads the colour a client claims ('white' or 'black'); any other text names no colour. */
  function ClaimedColor(claim: string): (c: Option<Color>)
    ensures c == Some(White) <==> claim == "white"
    ensures c == Some(Black) <==> claim == "black"
  {
    if claim == "white" then Some(White)
    else if claim == "black" then Some(Black)
    else None
  }

  /** A chess.js game as the server sees it: its FEN text, the side to move and the
      results of isGameOver, isCheckmate, isDraw, isStalemate, isThreefoldRepetition and
      isInsufficientMaterial, together with `past`, the FENs of the positions the game
      went through before this one. The server never reads `past`, but chess.js does
      (repetition, and draw, which includes it), so two games at the same FEN may answer
      the same move differently. No relation between the flags is assumed. */
  datatype Position = Position(
    fen: string,
    turn: Color,
    isGameOver: bool,
    isCheckmate: bool,
    isDraw: bool,
    isStalemate: bool,
    isThreefoldRepetition: bool,
    isInsufficientMaterial: bool,
    past: seq<string>)

  /** A move as the client sends it; the server passes it through without looking inside. */
  datatype Move = Move(from: string, to: string, promotion: string)

  /** chess.js `move`: the position after a legal move, or None where the library
      returns null or throws. */
  type Rules = (Position, Move) -> Option<Position>

  /** Reasons carried by a gameOver event. */
  datatype Reason =
    | Checkmate
    | Draw
    | Stalemate
    | Repetition
    | InsufficientMaterial
    | Unspecified  // the empty reason '' when no flag holds
    | Forfeit

  /** The reason text on the wire; only the unspecified reason is empty. */
  function ReasonText(r: Reason): (t: string)
    ensures t == "" <==> r == Unspecified
  {
    match r
    case Checkmate => "checkmate"
    case Draw => "draw"
    case Stalemate => "stalemate"
    case Repetition => "repetition"
    case InsufficientMaterial => "insufficient material"
    case Unspecified => ""
    case Forfeit => "forfeit"
  }

  /** The reason reported after a move that ends the game: the first flag that holds,
      in the order checkmate, draw, stalemate, repetition, insufficient material. */
  function GameOverReason(p: Position): (r: Reason)
    ensures r != Forfeit
    ensures r == Checkmate <==> p.isCheckmate
    ensures r == Draw <==> !p.isCheckmate && p.isDraw
    ensures r == Stalemate <==> !p.isCheckmate && !p.isDraw && p.isStalemate
    ensures r == Repetition <==>
      !p.isCheckmate && !p.isDraw && !p.isStalemate && p.isThreefoldRepetition
    ensures r == InsufficientMaterial <==>
      !p.isCheckmate && !p.isDraw && !p.isStalemate && !p.isThreefoldRepetition
      && p.isInsufficientMaterial
    ensures r == Unspecified <==>
      !p.isCheckmate && !p.isDraw && !p.isStalemate && !p.isThreefoldRepetition
      && !p.isInsufficientMaterial
  {
    if p.isCheckmate then Checkmate
    else if p.isDraw then Draw
    else if p.isStalemate then Stalemate
    else if p.isThreefoldRepetition then Repetition
    else if p.isInsufficientMaterial then InsufficientMaterial
    else Unspecified
  }
}
