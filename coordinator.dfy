/** The socket event handlers of the game server, run one at a time by the event loop,
    over the shared room registry. Each handler is proved to have the effect the Session
    module gives it and to keep the registry invariant. */
module Server {
  import opened Wrappers
  import opened ChessOracle
  import opened Rooms
  import Session

  /** A room id longer than every id in use, so certainly not one of them. */
  ghost function UnusedId(ids: set<RoomId>): (id: RoomId)
    ensures id !in ids
  {
    seq(LongestId(ids) + 1, _ => 'r')
  }

  ghost function LongestId(ids: set<RoomId>): (n: nat)
    ensures forall id :: id in ids ==> |id| <= n
  {
    if ids == {} then 0
    else
      var id :| id in ids;
      var rest := LongestId(ids - {id});
      if |id| > rest then |id| else rest
  }

  /** Regrouping appended emits, stated apart so that the disconnect loop's proof stays small. */
  lemma AppendAssociates(a: seq<Emit>, b: seq<Emit>, c: seq<Emit>)
    ensures a + b + c == a + (b + c)
  {
  }

  class Coordinator {
    /** gameRooms */
    var rooms: Session.Registry
    /** Every event emitted so far, in order. */
    var log: seq<Emit>
    /** The chess engine's move function, and the position of `new Chess()`. */
    const rules: Rules
    const start: Position

    ghost predicate Valid()
      reads this
    {
      Session.RegistryValid(rooms)
    }

    constructor (rules: Rules, start: Position)
      ensures Valid() && rooms == map[] && log == []
      ensures this.rules == rules && this.start == start
    {
      this.rules := rules;
      this.start := start;
      rooms := map[];
      log := [];
    }

    /** createRoom: a room under an id not in use, with the caller as white. */
    method CreateRoom(sid: SocketId, name: string) returns (reply: Session.CreateReply)
      requires Valid()
      modifies this
      ensures Valid() && Session.Evolved(old(rooms), rooms)
      ensures reply.roomId !in old(rooms)
      ensures var s := Session.CreateRoom(old(rooms), reply.roomId, sid, name, start);
        rooms == s.rooms && reply == s.reply && log == old(log) + s.emits
    {
      ghost var unused := UnusedId(rooms.Keys);
      var roomId :| roomId !in rooms;
      Session.CreateKeepsValid(rooms, roomId, sid, name, start);
      rooms := rooms[roomId := Room(
        roomId,
        Some(sid), None,
        Some(name), None,
        [],
        start,
        Waiting,
        [],
        false,
        false,
        None)];
      reply := Session.CreateReply(roomId, White);
    }

    /** joinRoom */
    method JoinRoom(roomId: RoomId, sid: SocketId, name: string) returns (reply: Session.JoinReply)
      requires Valid()
      modifies this
      ensures Valid() && Session.Evolved(old(rooms), rooms)
      ensures var s := Session.JoinRoom(old(rooms), roomId, sid, name);
        rooms == s.rooms && reply == s.reply && log == old(log) + s.emits
    {
      ghost var s := Session.JoinRoom(rooms, roomId, sid, name);
      Session.JoinKeepsValid(rooms, roomId, sid, name);
      if roomId !in rooms {
        reply := Session.JoinError(Session.RoomNotFound);
        return;
      }
      var room := rooms[roomId];
      if room.hidden && (room.white.None? || room.black.None?) {
        reply := Session.JoinError(Session.RoomUnavailable);
        return;
      }
      if room.white.None? {
        room := room.(white := Some(sid), whiteName := Some(name));
        rooms := rooms[roomId := room];
        reply := Session.PlayerRole(White);
      } else if room.black.None? {
        room := room.(black := Some(sid), blackName := Some(name));
        room := room.(status := Playing);
        rooms := rooms[roomId := room];
        reply := Session.PlayerRole(Black);
        log := log + [Emit(ToRoom(roomId), GameStart(room.game.fen))];
        log := log + [Emit(ToRoom(roomId), PlayerConnected(2))];
      } else {
        room := room.(spectators := room.spectators + [sid]);
        rooms := rooms[roomId := room];
        reply := Session.SpectatorRole(room.gameOver, room.status);
        log := log + [Emit(ToSocket(sid), BoardUpdate(room.game.fen, room.lastMove, room.game.turn, room.moveHistory))];
      }
      assert rooms == s.rooms && reply == s.reply && log == old(log) + s.emits;
    }

    /** makeMove */
    method MakeMove(roomId: RoomId, sid: SocketId, move: Move)
      requires Valid()
      modifies this
      ensures Valid() && Session.Evolved(old(rooms), rooms)
      ensures var s := Session.MakeMove(old(rooms), roomId, sid, move, rules);
        rooms == s.rooms && log == old(log) + s.emits
    {
      ghost var s := Session.MakeMove(rooms, roomId, sid, move, rules);
      Session.MoveKeepsValid(rooms, roomId, sid, move, rules);
      if roomId !in rooms {
        return;
      }
      var room := rooms[roomId];
      var isWhiteTurn := room.game.turn == White;
      var isPlayersTurn := (isWhiteTurn && room.white == Some(sid)) || (!isWhiteTurn && room.black == Some(sid));
      if !isPlayersTurn {
        assert !Session.MoveAccepted(rooms, roomId, sid, move, rules);
        return;
      }
      var result := rules(room.game, move);
      if result.Some? {
        ghost var before, p := room, result.value;
        room := room.(game := result.value);
        room := room.(lastMove := Some(move));
        room := room.(moveHistory := room.moveHistory + [Snapshot(room.game.fen, move, room.game.turn)]);
        var update := Emit(ToRoom(roomId), BoardUpdate(room.game.fen, Some(move), room.game.turn, room.moveHistory));
        log := log + [update];
        if room.game.isGameOver {
          var reason := GameOverReason(room.game);
          room := room.(gameOver := true);
          room := room.(status := Ended);
          log := log + [Emit(ToRoom(roomId), GameOver(reason, None))];
          assert log == old(log) + [update, Emit(ToRoom(roomId), GameOver(reason, None))];
        }
        // the room object is updated in place, so the registry sees all of it at once
        rooms := rooms[roomId := room];
        assert room == before.(game := p, lastMove := Some(move),
                               moveHistory := before.moveHistory + [Snapshot(p.fen, move, p.turn)],
                               gameOver := before.gameOver || p.isGameOver,
                               status := if p.isGameOver then Ended else before.status);
      } else {
        assert !Session.MoveAccepted(rooms, roomId, sid, move, rules);
      }
      assert rooms == s.rooms && log == old(log) + s.emits;
    }

    /** getBoardState: reads the registry and changes nothing. */
    method GetBoardState(roomId: RoomId) returns (state: Option<Session.BoardState>)
      requires Valid()
      ensures state == Session.GetBoardState(rooms, roomId)
      ensures state.Some? ==> (state.value.playersConnected == 0 <==> rooms[roomId].hidden)
    {
      if roomId in rooms {
        var room := rooms[roomId];
        var playersConnected := (if room.white.Some? then 1 else 0) + (if room.black.Some? then 1 else 0);
        state := Some(Session.BoardState(
          room.game.fen,
          room.lastMove,
          room.game.turn,
          playersConnected,
          room.moveHistory,
          room.status,
          room.gameOver));
      } else {
        state := None;
      }
    }

    /** forfeitGame */
    method ForfeitGame(roomId: RoomId, sid: SocketId, color: string)
      requires Valid()
      modifies this
      ensures Valid() && Session.Evolved(old(rooms), rooms)
      ensures var s := Session.ForfeitGame(old(rooms), roomId, sid, color);
        rooms == s.rooms && log == old(log) + s.emits
    {
      ghost var s := Session.ForfeitGame(rooms, roomId, sid, color);
      Session.ForfeitKeepsValid(rooms, roomId, sid, color);
      if roomId !in rooms {
        return;
      }
      var room := rooms[roomId];
      if (color == "white" && room.white == Some(sid)) || (color == "black" && room.black == Some(sid)) {
        room := room.(gameOver := true);
        room := room.(status := Ended);
        rooms := rooms[roomId := room];
        if color == "white" {
          log := log + [Emit(ToRoom(roomId), GameOver(Forfeit, Some(Black)))];
        } else {
          log := log + [Emit(ToRoom(roomId), GameOver(Forfeit, Some(White)))];
        }
        log := log + [Emit(ToRoom(roomId), RoomStatusUpdate(Ended))];
      }
    }

    /** disconnect: every room is visited once, in an order the runtime picks (returned as
        `order`), and cleaned up as CleanUpRoom does. */
    method Disconnect(sid: SocketId) returns (ghost order: seq<RoomId>)
      requires Valid()
      modifies this
      ensures Valid() && Session.Evolved(old(rooms), rooms)
      ensures Session.Enumerates(order, old(rooms))
      ensures var s := Session.Disconnect(old(rooms), sid, order);
        rooms == s.rooms && log == old(log) + s.emits
    {
      ghost var before, logBefore := rooms, log;
      var keys := rooms.Keys;
      var pending := keys;
      order := [];
      while pending != {}
        invariant pending <= keys == before.Keys
        invariant Session.Distinct(order)
        invariant forall k :: k in order <==> k in before && k !in pending
        invariant forall i :: 0 <= i < |order| ==> order[i] in before
        invariant rooms == Session.Disconnect(before, sid, order).rooms
        invariant log == logBefore + Session.Disconnect(before, sid, order).emits
        decreases pending
      {
        var roomId :| roomId in pending;
        Session.DisconnectStep(before, sid, order, roomId);
        ghost var roomsNow, logNow := rooms, log;
        CleanUpRoom(roomId, sid);
        ghost var emitted := Session.Disconnect(before, sid, order).emits;
        ghost var d := Session.LeaveRoom(roomId, before[roomId], sid);
        AppendAssociates(logBefore, emitted, d.emits);
        Session.DisconnectStepTaken(before, sid, order, roomId, roomsNow, rooms, emitted, emitted + d.emits);
        Session.EnumerationExtended(before, order, pending, roomId);
        pending := pending - {roomId};
        order := order + [roomId];
      }
      Session.DisconnectKeepsValid(before, sid, order);
    }

    /** The forEach body of disconnect for one room: the socket's slot is vacated (white
        looked at first) or its spectator entries removed, and the room is deleted if
        nobody is left in it. */
    method CleanUpRoom(roomId: RoomId, sid: SocketId)
      requires roomId in rooms
      modifies this
      ensures var d := Session.LeaveRoom(roomId, old(rooms)[roomId], sid);
        log == old(log) + d.emits
        && (Occupied(d.room) ==> rooms == old(rooms)[roomId := d.room])
        && (!Occupied(d.room) ==> rooms == old(rooms) - {roomId})
    {
      var room := rooms[roomId];
      if room.white == Some(sid) {
        room := LeaveSeat(roomId, room, sid, White);
      } else if room.black == Some(sid) {
        room := LeaveSeat(roomId, room, sid, Black);
      } else {
        room := room.(spectators := RemoveAll(room.spectators, sid));
      }
      if room.white.None? && room.black.None? && |room.spectators| == 0 {
        rooms := rooms - {roomId};
      } else {
        rooms := rooms[roomId := room];
      }
    }

    /** A player's departure from one room, written once for both colours: the seat is
        vacated, a running game ends as a forfeit won by the other side, the remaining
        player count is announced, and the room is hidden when the other seat is empty too. */
    method LeaveSeat(roomId: RoomId, room: Room, sid: SocketId, c: Color) returns (left: Room)
      requires HeldColor(room, sid) == Some(c)
      modifies this
      ensures rooms == old(rooms)
      ensures var d := Session.LeaveRoom(roomId, room, sid);
        left == d.room && log == old(log) + d.emits
    {
      ghost var d := Session.LeaveRoom(roomId, room, sid);
      ghost var emitted: seq<Emit> := [];
      left := ClearSlot(room, c);
      if left.status == Playing {
        left := left.(gameOver := true);
        left := left.(status := Ended);
        log := log + [Emit(ToRoom(roomId), GameOver(Forfeit, Some(Other(c))))];
        emitted := emitted + [Emit(ToRoom(roomId), GameOver(Forfeit, Some(Other(c))))];
      }
      var playersCount := (if left.white.Some? then 1 else 0) + (if left.black.Some? then 1 else 0);
      log := log + [Emit(ToRoom(roomId), PlayerDisconnected(c, playersCount))];
      emitted := emitted + [Emit(ToRoom(roomId), PlayerDisconnected(c, playersCount))];
      assert log == old(log) + emitted;
      if Slot(left, Other(c)).None? {
        left := left.(hidden := true);
        log := log + [Emit(ToRoom(roomId), RoomStatusUpdate(Ended))];
        emitted := emitted + [Emit(ToRoom(roomId), RoomStatusUpdate(Ended))];
      }
      assert log == old(log) + emitted;
      assert left == d.room && emitted == d.emits;
    }
  }
}
