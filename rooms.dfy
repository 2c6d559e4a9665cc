/** A game room as the server keeps it, the events it emits, and the facts about one
    room that every handler preserves. */
module Rooms {
  import opened Wrappers
  import opened ChessOracle

  /** socket.io connection ids (never empty) and room ids. */
  type SocketId = string
  type RoomId = string

  datatype Status = Waiting | Playing | Ended

  /** One moveHistory entry: the position after the move, the move, and the side to move. */
  datatype Snapshot = Snapshot(fen: string, lastMove: Move, turn: Color)

  /** The room record. A slot holds the socket id of its player or is empty (null);
      the display names stay behind when their player leaves. `lastMove` is undefined
      until the first accepted move. */
  datatype Room = Room(
    id: RoomId,
    white: Option<SocketId>,
    black: Option<SocketId>,
    whiteName: Option<string>,
    blackName: Option<string>,
    spectators: seq<SocketId>,
    game: Position,
    status: Status,
    moveHistory: seq<Snapshot>,
    gameOver: bool,
    hidden: bool,
    lastMove: Option<Move>)

  /** Payloads of the events the server emits. */
  datatype Event =
    | GameStart(fen: string)
    | PlayerConnected(playersCount: nat)
    | BoardUpdate(fen: string, lastMove: Option<Move>, turn: Color, moveHistory: seq<Snapshot>)
    | GameOver(reason: Reason, winner: Option<Color>)
    | PlayerDisconnected(color: Color, playersCount: nat)
    | RoomStatusUpdate(status: Status)

  /** `io.to(roomId)` reaches every socket joined to the room; `socket.emit` one socket. */
  datatype Target = ToRoom(room: RoomId) | ToSocket(socket: SocketId)

  datatype Emit = Emit(target: Target, event: Event)

  /** The slot of colour `c`. */
  function Slot(r: Room, c: Color): Option<SocketId>
  {
    if c == White then r.white else r.black
  }

  /** The room with the slot of colour `c` emptied and everything else kept. */
  function ClearSlot(r: Room, c: Color): (r': Room)
    ensures Slot(r', c).None? && Slot(r', Other(c)) == Slot(r, Other(c))
    ensures r'.(white := r.white, black := r.black) == r
  {
    if c == White then r.(white := None) else r.(black := None)
  }

  /** The number of filled player slots. */
  function PlayersCount(r: Room): (n: nat)
    ensures n <= 2
    ensures n == 0 <==> r.white.None? && r.black.None?
    ensures n == 2 <==> r.white.Some? && r.black.Some?
  {
    (if r.white.Some? then 1 else 0) + (if r.black.Some? then 1 else 0)
  }

  /** The colour whose slot a socket holds, white looked at first. */
  function HeldColor(r: Room, sid: SocketId): (c: Option<Color>)
    ensures c == Some(White) <==> r.white == Some(sid)
    ensures c == Some(Black) <==> r.white != Some(sid) && r.black == Some(sid)
    ensures c.Some? ==> Slot(r, c.value) == Some(sid)
  {
    if r.white == Some(sid) then Some(White)
    else if r.black == Some(sid) then Some(Black)
    else None
  }

  /** Array.filter keeping every id other than `x`. */
  function RemoveAll(s: seq<SocketId>, x: SocketId): (r: seq<SocketId>)
    ensures multiset(r) == multiset(s)[x := 0]
    ensures |r| <= |s|
  {
    if s == [] then []
    else
      assert s == [s[0]] + s[1..];
      if s[0] == x then RemoveAll(s[1..], x)
      else [s[0]] + RemoveAll(s[1..], x)
  }

  /** Somebody is still in the room: a player or a spectator. */
  predicate Occupied(r: Room)
  {
    r.white.Some? || r.black.Some? || |r.spectators| > 0
  }

  /** The last history entry describes the current position and lastMove. */
  predicate HistoryMatchesGame(r: Room)
  {
    (r.moveHistory == [] <==> r.lastMove.None?)
    && (r.moveHistory != [] ==>
          r.moveHistory[|r.moveHistory| - 1] == Snapshot(r.game.fen, r.lastMove.value, r.game.turn))
  }

  /** What holds of every room in the registry between two events. */
  predicate RoomValid(id: RoomId, r: Room)
  {
    r.id == id
    && Occupied(r)
    && (r.hidden <==> r.white.None? && r.black.None?)
    && (r.status == Ended ==> r.gameOver)
    && (r.status == Waiting ==> r.black.None? && r.spectators == [])
    && HistoryMatchesGame(r)
  }

  /** How a room may change across one event: it keeps its id, never becomes visible
      again once hidden, and its history only grows. */
  predicate Evolves(before: Room, after: Room)
  {
    after.id == before.id
    && (before.hidden ==> after.hidden)
    && before.moveHistory <= after.moveHistory
  }
}
