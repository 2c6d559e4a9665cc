/** The effect of each socket event handler on the registry of rooms, as pure functions:
    the new registry, the reply passed to the client's callback, and the events emitted,
    in emission order. */
module Session {
  import opened Wrappers
  import opened ChessOracle
  import opened Rooms

  /** gameRooms: the live rooms by id. */
  type Registry = map<RoomId, Room>

  /** The outcome of one handler. */
  datatype Step<R> = Step(rooms: Registry, reply: R, emits: seq<Emit>)

  ghost predicate RegistryValid(rooms: Registry)
  {
    forall id :: id in rooms ==> RoomValid(id, rooms[id])
  }

  /** Every room that survives an event evolved as Evolves allows. */
  ghost predicate Evolved(before: Registry, after: Registry)
  {
    forall id :: id in before && id in after ==> Evolves(before[id], after[id])
  }

  predicate Distinct(order: seq<RoomId>)
  {
    forall i, j :: 0 <= i < j < |order| ==> order[i] != order[j]
  }

  /** `order` lists every key of `rooms` once, as Object.keys and Object.values do. */
  ghost predicate Enumerates(order: seq<RoomId>, rooms: Registry)
  {
    Distinct(order) && (forall id :: id in order <==> id in rooms)
  }

  // ---------------------------------------------------------------- createRoom

  datatype CreateReply = CreateReply(roomId: RoomId, color: Color)

  /** createRoom under a fresh id: the creator takes white in a new waiting room. */
  function CreateRoom(rooms: Registry, id: RoomId, sid: SocketId, name: string, start: Position)
    : (s: Step<CreateReply>)
    requires id !in rooms
    ensures s.rooms.Keys == rooms.Keys + {id}
    ensures forall k :: k in rooms ==> s.rooms[k] == rooms[k]
    ensures var r := s.rooms[id];
      r.id == id && r.white == Some(sid) && r.black.None?
      && r.whiteName == Some(name) && r.blackName.None? && r.spectators == []
      && r.game == start && r.status == Waiting && r.moveHistory == []
      && !r.gameOver && !r.hidden && r.lastMove.None?
    ensures s.reply == CreateReply(id, White) && s.emits == []
  {
    var room := Room(id, Some(sid), None, Some(name), None, [], start, Waiting, [], false, false, None);
    Step(rooms[id := room], CreateReply(id, White), [])
  }

  // ---------------------------------------------------------------- joinRoom

  datatype JoinReply =
    | PlayerRole(color: Color)
    | SpectatorRole(gameOver: bool, status: Status)
    | JoinError(message: string)

  const RoomNotFound := "Room not found"
  const RoomUnavailable := "Room is no longer available"

  /** The join is refused: unknown id, or a hidden room with an empty slot. */
  predicate JoinRefused(rooms: Registry, id: RoomId): (refused: bool)
    ensures id in rooms && !rooms[id].hidden ==> !refused
    ensures id !in rooms ==> refused
  {
    id !in rooms || (rooms[id].hidden && (rooms[id].white.None? || rooms[id].black.None?))
  }

  /** joinRoom: white if empty, else black (and the game starts), else spectator. */
  function JoinRoom(rooms: Registry, id: RoomId, sid: SocketId, name: string): (s: Step<JoinReply>)
    ensures id !in rooms ==> s == Step(rooms, JoinError(RoomNotFound), [])
    ensures id in rooms && JoinRefused(rooms, id) ==> s == Step(rooms, JoinError(RoomUnavailable), [])
    ensures s.reply.JoinError? <==> JoinRefused(rooms, id)
    ensures !JoinRefused(rooms, id) ==>
      s.rooms.Keys == rooms.Keys && forall k :: k in rooms && k != id ==> s.rooms[k] == rooms[k]
    ensures !JoinRefused(rooms, id) ==>
      var r, r' := rooms[id], s.rooms[id];
      (s.reply == PlayerRole(White) <==> r.white.None?)
      && (s.reply == PlayerRole(Black) <==> r.white.Some? && r.black.None?)
      && (s.reply.SpectatorRole? <==> r.white.Some? && r.black.Some?)
      && (s.reply == PlayerRole(White) ==>
            r' == r.(white := Some(sid), whiteName := Some(name)) && s.emits == [])
      && (s.reply == PlayerRole(Black) ==>
            r' == r.(black := Some(sid), blackName := Some(name), status := Playing)
            && s.emits == [Emit(ToRoom(id), GameStart(r.game.fen)), Emit(ToRoom(id), PlayerConnected(2))])
      && (s.reply.SpectatorRole? ==>
            r' == r.(spectators := r.spectators + [sid])
            && s.reply == SpectatorRole(r.gameOver, r.status)
            && s.emits == [Emit(ToSocket(sid), BoardUpdate(r.game.fen, r.lastMove, r.game.turn, r.moveHistory))])
    ensures RegistryValid(rooms) && id in rooms && rooms[id].hidden ==> s.reply == JoinError(RoomUnavailable)
  {
    if id !in rooms then Step(rooms, JoinError(RoomNotFound), [])
    else
      var r := rooms[id];
      if r.hidden && (r.white.None? || r.black.None?) then Step(rooms, JoinError(RoomUnavailable), [])
      else if r.white.None? then
        Step(rooms[id := r.(white := Some(sid), whiteName := Some(name))], PlayerRole(White), [])
      else if r.black.None? then
        Step(rooms[id := r.(black := Some(sid), blackName := Some(name), status := Playing)],
             PlayerRole(Black),
             [Emit(ToRoom(id), GameStart(r.game.fen)), Emit(ToRoom(id), PlayerConnected(2))])
      else
        Step(rooms[id := r.(spectators := r.spectators + [sid])],
             SpectatorRole(r.gameOver, r.status),
             [Emit(ToSocket(sid), BoardUpdate(r.game.fen, r.lastMove, r.game.turn, r.moveHistory))])
  }

  // ---------------------------------------------------------------- makeMove

  /** The sender holds the slot of the side to move. */
  predicate IsPlayersTurn(r: Room, sid: SocketId): (turn: bool)
    ensures turn <==> Slot(r, r.game.turn) == Some(sid)
  {
    (r.game.turn == White && r.white == Some(sid)) || (r.game.turn == Black && r.black == Some(sid))
  }

  /** The move passes the turn gate and the engine accepts it. */
  predicate MoveAccepted(rooms: Registry, id: RoomId, sid: SocketId, m: Move, rules: Rules)
  {
    id in rooms && IsPlayersTurn(rooms[id], sid) && rules(rooms[id].game, m).Some?
  }

  /** makeMove: an accepted move is recorded and broadcast; a move that ends the game
      also ends the room and is followed by a gameOver event. Anything else is ignored. */
  function MakeMove(rooms: Registry, id: RoomId, sid: SocketId, m: Move, rules: Rules): (s: Step<()>)
    ensures !MoveAccepted(rooms, id, sid, m, rules) ==> s.rooms == rooms && s.emits == []
    ensures MoveAccepted(rooms, id, sid, m, rules) ==>
      var r, p := rooms[id], rules(rooms[id].game, m).value;
      var history := r.moveHistory + [Snapshot(p.fen, m, p.turn)];
      s.rooms == rooms[id := r.(game := p, lastMove := Some(m), moveHistory := history,
                                gameOver := r.gameOver || p.isGameOver,
                                status := if p.isGameOver then Ended else r.status)]
      && |s.emits| == (if p.isGameOver then 2 else 1)
      && s.emits[0] == Emit(ToRoom(id), BoardUpdate(p.fen, Some(m), p.turn, history))
      && (p.isGameOver ==> s.emits[1] == Emit(ToRoom(id), GameOver(GameOverReason(p), None)))
    ensures s.emits != [] <==> MoveAccepted(rooms, id, sid, m, rules)
  {
    if !MoveAccepted(rooms, id, sid, m, rules) then Step(rooms, (), [])
    else
      var r, p := rooms[id], rules(rooms[id].game, m).value;
      var history := r.moveHistory + [Snapshot(p.fen, m, p.turn)];
      var moved := r.(game := p, lastMove := Some(m), moveHistory := history);
      var update := Emit(ToRoom(id), BoardUpdate(p.fen, Some(m), p.turn, history));
      if p.isGameOver then
        Step(rooms[id := moved.(gameOver := true, status := Ended)], (),
             [update, Emit(ToRoom(id), GameOver(GameOverReason(p), None))])
      else
        Step(rooms[id := moved], (), [update])
  }

  // ---------------------------------------------------------------- getBoardState

  datatype BoardState = BoardState(
    fen: string,
    lastMove: Option<Move>,
    turn: Color,
    playersConnected: nat,
    moveHistory: seq<Snapshot>,
    status: Status,
    gameOver: bool)

  /** getBoardState: a snapshot of the room, or no callback at all for an unknown id. */
  function GetBoardState(rooms: Registry, id: RoomId): (b: Option<BoardState>)
    ensures b.None? <==> id !in rooms
    ensures b.Some? ==>
      var r := rooms[id];
      b.value.fen == r.game.fen && b.value.turn == r.game.turn && b.value.lastMove == r.lastMove
      && b.value.moveHistory == r.moveHistory && b.value.status == r.status
      && b.value.gameOver == r.gameOver
      && b.value.playersConnected <= 2
      && (b.value.playersConnected == 0 <==> r.white.None? && r.black.None?)
      && (b.value.playersConnected == 2 <==> r.white.Some? && r.black.Some?)
    ensures RegistryValid(rooms) && b.Some? ==>
      (b.value.playersConnected == 0 <==> rooms[id].hidden)
      && (b.value.moveHistory != [] ==>
            b.value.moveHistory[|b.value.moveHistory| - 1]
            == Snapshot(b.value.fen, b.value.lastMove.value, b.value.turn))
  {
    if id !in rooms then None
    else
      var r := rooms[id];
      Some(BoardState(r.game.fen, r.lastMove, r.game.turn, PlayersCount(r), r.moveHistory,
                      r.status, r.gameOver))
  }

  // ---------------------------------------------------------------- forfeitGame

  /** The sender really holds the slot of the colour it claims. */
  predicate ForfeitAllowed(rooms: Registry, id: RoomId, sid: SocketId, claim: string): (allowed: bool)
    ensures allowed ==> id in rooms && HeldColor(rooms[id], sid).Some?
    ensures allowed ==> claim == "white" || claim == "black"
  {
    id in rooms && ClaimedColor(claim).Some? && Slot(rooms[id], ClaimedColor(claim).value) == Some(sid)
  }

  /** forfeitGame: the game ends with the other colour as winner; nothing else in the room changes. */
  function ForfeitGame(rooms: Registry, id: RoomId, sid: SocketId, claim: string): (s: Step<()>)
    ensures !ForfeitAllowed(rooms, id, sid, claim) ==> s.rooms == rooms && s.emits == []
    ensures ForfeitAllowed(rooms, id, sid, claim) ==>
      var c := ClaimedColor(claim).value;
      s.rooms == rooms[id := rooms[id].(gameOver := true, status := Ended)]
      && s.emits == [Emit(ToRoom(id), GameOver(Forfeit, Some(Other(c)))),
                     Emit(ToRoom(id), RoomStatusUpdate(Ended))]
  {
    if !ForfeitAllowed(rooms, id, sid, claim) then Step(rooms, (), [])
    else
      var winner := if claim == "white" then Black else White;
      Step(rooms[id := rooms[id].(gameOver := true, status := Ended)], (),
           [Emit(ToRoom(id), GameOver(Forfeit, Some(winner))), Emit(ToRoom(id), RoomStatusUpdate(Ended))])
  }

  // ---------------------------------------------------------------- invariants

  /** Every handler keeps the registry invariant and lets rooms evolve only as allowed. */
  lemma CreateKeepsValid(rooms: Registry, id: RoomId, sid: SocketId, name: string, start: Position)
    requires id !in rooms
    ensures RegistryValid(rooms) ==> RegistryValid(CreateRoom(rooms, id, sid, name, start).rooms)
    ensures Evolved(rooms, CreateRoom(rooms, id, sid, name, start).rooms)
  {
  }

  lemma JoinKeepsValid(rooms: Registry, id: RoomId, sid: SocketId, name: string)
    ensures RegistryValid(rooms) ==> RegistryValid(JoinRoom(rooms, id, sid, name).rooms)
    ensures Evolved(rooms, JoinRoom(rooms, id, sid, name).rooms)
  {
    var s := JoinRoom(rooms, id, sid, name);
    if !JoinRefused(rooms, id) {
      var r := rooms[id];
      var r' := if r.white.None? then r.(white := Some(sid), whiteName := Some(name))
        else if r.black.None? then r.(black := Some(sid), blackName := Some(name), status := Playing)
        else r.(spectators := r.spectators + [sid]);
      assert s.rooms == rooms[id := r'];
      assert Evolves(r, r');
      assert RoomValid(id, r) ==> RoomValid(id, r');
    }
  }

  lemma MoveKeepsValid(rooms: Registry, id: RoomId, sid: SocketId, m: Move, rules: Rules)
    ensures RegistryValid(rooms) ==> RegistryValid(MakeMove(rooms, id, sid, m, rules).rooms)
    ensures Evolved(rooms, MakeMove(rooms, id, sid, m, rules).rooms)
  {
  }

  lemma ForfeitKeepsValid(rooms: Registry, id: RoomId, sid: SocketId, claim: string)
    ensures RegistryValid(rooms) ==> RegistryValid(ForfeitGame(rooms, id, sid, claim).rooms)
    ensures Evolved(rooms, ForfeitGame(rooms, id, sid, claim).rooms)
  {
  }

  /** A room that somebody is still in after a departure is still valid, and it never
      becomes visible again or loses history. */
  lemma LeaveKeepsValid(id: RoomId, r: Room, sid: SocketId)
    ensures RoomValid(id, r) && Occupied(LeaveRoom(id, r, sid).room) ==> RoomValid(id, LeaveRoom(id, r, sid).room)
    ensures Evolves(r, LeaveRoom(id, r, sid).room)
  {
  }

  // ---------------------------------------------------------------- disconnect

  /** A waiting room has nobody but its creator, so the creator's departure announces an
      empty room, hides it and leaves nobody in it. */
  lemma WaitingCreatorLeaves(id: RoomId, r: Room, sid: SocketId)
    requires RoomValid(id, r) && r.status == Waiting && r.white == Some(sid)
    ensures var d := LeaveRoom(id, r, sid);
      !Occupied(d.room) && d.room.hidden
      && d.emits == [Emit(ToRoom(id), PlayerDisconnected(White, 0)), Emit(ToRoom(id), RoomStatusUpdate(Ended))]
  {
    assert HeldColor(r, sid) == Some(White);
  }


  /** One room after a socket leaves, before the deletion test, and what it emitted. */
  datatype Departure = Departure(room: Room, emits: seq<Emit>)

  /** The body of the forEach in disconnect, for one room. */
  function LeaveRoom(id: RoomId, r: Room, sid: SocketId): (d: Departure)
    ensures HeldColor(r, sid).None? ==>
      d.room == r.(spectators := RemoveAll(r.spectators, sid)) && d.emits == []
    ensures HeldColor(r, sid).Some? ==>
      var c := HeldColor(r, sid).value;
      var wasPlaying := r.status == Playing;
      var vacant := Slot(r, Other(c)).None?;
      d.room == ClearSlot(r, c).(status := if wasPlaying then Ended else r.status,
                                 gameOver := r.gameOver || wasPlaying,
                                 hidden := r.hidden || vacant)
      && d.emits ==
           (if wasPlaying then [Emit(ToRoom(id), GameOver(Forfeit, Some(Other(c))))] else [])
           + [Emit(ToRoom(id), PlayerDisconnected(c, PlayersCount(d.room)))]
           + (if vacant then [Emit(ToRoom(id), RoomStatusUpdate(Ended))] else [])
    ensures forall e :: e in d.emits ==> e.target == ToRoom(id)
  {
    match HeldColor(r, sid)
    case None => Departure(r.(spectators := RemoveAll(r.spectators, sid)), [])
    case Some(c) =>
      var wasPlaying := r.status == Playing;
      var r1 := ClearSlot(r, c);
      var r2 := if wasPlaying then r1.(gameOver := true, status := Ended) else r1;
      var forfeit := if wasPlaying then [Emit(ToRoom(id), GameOver(Forfeit, Some(Other(c))))] else [];
      var notice := [Emit(ToRoom(id), PlayerDisconnected(c, PlayersCount(r2)))];
      var vacant := Slot(r2, Other(c)).None?;
      var r3 := if vacant then r2.(hidden := true) else r2;
      Departure(r3, forfeit + notice + (if vacant then [Emit(ToRoom(id), RoomStatusUpdate(Ended))] else []))
  }

  /** disconnect: the forEach over the room ids in `order`, the last id visited after all
      the ones before it. Rooms do not affect one another, so each is cleaned up as it
      was when the handler started. */
  function Disconnect(rooms: Registry, sid: SocketId, order: seq<RoomId>): (s: Step<()>)
    requires forall i :: 0 <= i < |order| ==> order[i] in rooms
    ensures s.rooms.Keys <= rooms.Keys
    decreases |order|
  {
    if order == [] then Step(rooms, (), [])
    else
      var k := order[|order| - 1];
      var done := Disconnect(rooms, sid, order[..|order| - 1]);
      var d := LeaveRoom(k, rooms[k], sid);
      Step(Settle(done.rooms, k, d.room), (), done.emits + d.emits)
  }

  /** The deletion test at the end of the forEach body: keep the room if somebody is
      left in it, delete it otherwise. */
  function Settle(rooms: Registry, k: RoomId, room: Room): (r: Registry)
    ensures k in r <==> Occupied(room)
    ensures k in r ==> r[k] == room
    ensures r - {k} == rooms - {k}
  {
    if Occupied(room) then rooms[k := room] else rooms - {k}
  }

  /** Whatever the visiting order, disconnect deletes exactly the visited rooms nobody is
      left in, leaves every other room as LeaveRoom made it, and emits only to visited rooms. */
  lemma {:induction false} DisconnectResult(rooms: Registry, sid: SocketId, order: seq<RoomId>)
    requires Distinct(order) && forall i :: 0 <= i < |order| ==> order[i] in rooms
    ensures var s := Disconnect(rooms, sid, order);
      (forall k :: k in s.rooms <==>
         k in rooms && (k in order ==> Occupied(LeaveRoom(k, rooms[k], sid).room)))
      && (forall k :: k in s.rooms ==>
            s.rooms[k] == if k in order then LeaveRoom(k, rooms[k], sid).room else rooms[k])
      && (forall e :: e in s.emits ==> e.target.ToRoom? && e.target.room in order)
    decreases |order|
  {
    if order != [] {
      var k, prefix := order[|order| - 1], order[..|order| - 1];
      assert order == prefix + [k];
      assert forall j :: j in order <==> j in prefix || j == k;
      assert k !in prefix;
      DisconnectResult(rooms, sid, prefix);
      var done := Disconnect(rooms, sid, prefix);
      var d := LeaveRoom(k, rooms[k], sid);
      var s := Disconnect(rooms, sid, order);
      assert s == Step(Settle(done.rooms, k, d.room), (), done.emits + d.emits);
      forall j
        ensures j in s.rooms <==> j in rooms && (j in order ==> Occupied(LeaveRoom(j, rooms[j], sid).room))
        ensures j in s.rooms ==> s.rooms[j] == if j in order then LeaveRoom(j, rooms[j], sid).room else rooms[j]
      {
        assert j in order <==> j in prefix || j == k;
      }
      forall e | e in s.emits ensures e.target.ToRoom? && e.target.room in order {
        if e in done.emits {
          assert e.target.room in prefix;
        } else {
          assert e in d.emits;
        }
      }
    }
  }

  /** One more room visited: it is still as the handler found it, and the fold settles
      it after all the rooms visited before. */
  lemma DisconnectStep(rooms: Registry, sid: SocketId, order: seq<RoomId>, k: RoomId)
    requires Distinct(order) && forall i :: 0 <= i < |order| ==> order[i] in rooms
    requires k in rooms && k !in order
    ensures var done, d := Disconnect(rooms, sid, order), LeaveRoom(k, rooms[k], sid);
      k in done.rooms && done.rooms[k] == rooms[k]
      && Disconnect(rooms, sid, order + [k]) == Step(Settle(done.rooms, k, d.room), (), done.emits + d.emits)
  {
    DisconnectResult(rooms, sid, order);
    assert (order + [k])[..|order|] == order && (order + [k])[|order|] == k;
  }

  /** The disconnect fold advanced by one room: if the registry and the emits so far are
      those of `order`, and the room `k` is then cleaned up as LeaveRoom and the deletion
      test say, the registry and the emits are those of `order + [k]`. */
  lemma DisconnectStepTaken(before: Registry, sid: SocketId, order: seq<RoomId>, k: RoomId,
                            rooms: Registry, rooms': Registry, emitted: seq<Emit>, emitted': seq<Emit>)
    requires Distinct(order) && forall i :: 0 <= i < |order| ==> order[i] in before
    requires k in before && k !in order
    requires rooms == Disconnect(before, sid, order).rooms && emitted == Disconnect(before, sid, order).emits
    requires k in rooms && rooms[k] == before[k]
    requires var d := LeaveRoom(k, before[k], sid);
      emitted' == emitted + d.emits
      && (Occupied(d.room) ==> rooms' == rooms[k := d.room])
      && (!Occupied(d.room) ==> rooms' == rooms - {k})
    ensures rooms' == Disconnect(before, sid, order + [k]).rooms
    ensures emitted' == Disconnect(before, sid, order + [k]).emits
  {
    DisconnectStep(before, sid, order, k);
  }

  /** Visiting one more pending id keeps the visiting order free of repeats and made of
      exactly the ids no longer pending. */
  lemma EnumerationExtended(before: Registry, order: seq<RoomId>, pending: set<RoomId>, k: RoomId)
    requires pending <= before.Keys && k in pending && Distinct(order)
    requires forall j :: j in order <==> j in before && j !in pending
    ensures Distinct(order + [k])
    ensures forall j :: j in order + [k] <==> j in before && j !in pending - {k}
    ensures forall i :: 0 <= i < |order + [k]| ==> (order + [k])[i] in before
  {
  }

  /** Disconnect keeps the registry invariant and lets every surviving room evolve only
      as allowed: hidden rooms stay hidden and histories are kept. */
  lemma DisconnectKeepsValid(rooms: Registry, sid: SocketId, order: seq<RoomId>)
    requires Distinct(order) && forall i :: 0 <= i < |order| ==> order[i] in rooms
    ensures RegistryValid(rooms) ==> RegistryValid(Disconnect(rooms, sid, order).rooms)
    ensures Evolved(rooms, Disconnect(rooms, sid, order).rooms)
  {
    DisconnectResult(rooms, sid, order);
    var after := Disconnect(rooms, sid, order).rooms;
    forall k | k in after
      ensures Evolves(rooms[k], after[k])
      ensures RegistryValid(rooms) ==> RoomValid(k, after[k])
    {
      if k in order {
        LeaveKeepsValid(k, rooms[k], sid);
        var d := LeaveRoom(k, rooms[k], sid);
        assert after[k] == d.room && Occupied(d.room);
      }
    }
  }

  /** A socket that created a room nobody has joined yet takes the room with it: once
      disconnect has visited that room, the room is gone. */
  lemma WaitingRoomDeleted(rooms: Registry, sid: SocketId, order: seq<RoomId>, id: RoomId)
    requires RegistryValid(rooms) && Distinct(order) && forall i :: 0 <= i < |order| ==> order[i] in rooms
    requires id in order && rooms[id].status == Waiting && rooms[id].white == Some(sid)
    ensures id !in Disconnect(rooms, sid, order).rooms
  {
    DisconnectResult(rooms, sid, order);
    WaitingCreatorLeaves(id, rooms[id], sid);
  }

  // ---------------------------------------------------------------- /api/rooms

  /** One entry of the public room listing. */
  datatype Listed = Listed(
    id: RoomId,
    status: Status,
    whitePlayer: Option<string>,
    blackPlayer: Option<string>,
    spectatorCount: nat)

  function Summary(r: Room): Listed
  {
    Listed(r.id, r.status, r.whiteName, r.blackName, |r.spectators|)
  }

  /** The listing: the rooms of `order` that are not hidden, summarised, in that order. */
  function PublicRooms(rooms: Registry, order: seq<RoomId>): (list: seq<Listed>)
    requires forall k :: k in order ==> k in rooms
    ensures |list| <= |order|
    ensures forall k :: k in order && !rooms[k].hidden ==> Summary(rooms[k]) in list
    ensures forall e :: e in list ==> exists k :: k in order && !rooms[k].hidden && e == Summary(rooms[k])
  {
    if order == [] then []
    else
      var rest := PublicRooms(rooms, order[1..]);
      var r := rooms[order[0]];
      assert order == [order[0]] + order[1..];
      if r.hidden then rest else [Summary(r)] + rest
  }

  lemma DistinctTail(order: seq<RoomId>)
    requires order != [] && Distinct(order)
    ensures Distinct(order[1..]) && order[0] !in order[1..]
  {
    forall i, j | 0 <= i < j < |order[1..]| ensures order[1..][i] != order[1..][j] {
      assert order[1..][i] == order[i + 1] && order[1..][j] == order[j + 1];
    }
  }

  /** Counting the visible rooms of an enumeration from its first id. */
  lemma VisibleCountSplit(rooms: Registry, order: seq<RoomId>)
    requires order != [] && (forall k :: k in order ==> k in rooms) && Distinct(order)
    ensures |set k | k in order && !rooms[k].hidden| ==
            |set k | k in order[1..] && !rooms[k].hidden| + (if rooms[order[0]].hidden then 0 else 1)
  {
    DistinctTail(order);
    var x := order[0];
    var visible := set k | k in order && !rooms[k].hidden;
    var tailVisible := set k | k in order[1..] && !rooms[k].hidden;
    var first: set<RoomId> := if rooms[x].hidden then {} else {x};
    assert visible == tailVisible + first by {
      assert order == [x] + order[1..];
    }
    assert x !in tailVisible;
  }

  /** Over an enumeration without repeats the listing has one entry per visible room. */
  lemma {:induction false} ListingCount(rooms: Registry, order: seq<RoomId>)
    requires (forall k :: k in order ==> k in rooms) && Distinct(order)
    ensures |PublicRooms(rooms, order)| == |set k | k in order && !rooms[k].hidden|
  {
    if order == [] {
      assert (set k | k in order && !rooms[k].hidden) == {};
    } else {
      DistinctTail(order);
      ListingCount(rooms, order[1..]);
      VisibleCountSplit(rooms, order);
    }
  }

  /** When every room records its own key, no two entries of the listing name the same room. */
  lemma {:induction false} ListingIdsDistinct(rooms: Registry, order: seq<RoomId>)
    requires (forall k :: k in order ==> k in rooms && rooms[k].id == k) && Distinct(order)
    ensures forall i, j :: 0 <= i < j < |PublicRooms(rooms, order)| ==>
      PublicRooms(rooms, order)[i].id != PublicRooms(rooms, order)[j].id
  {
    if order != [] {
      var r := rooms[order[0]];
      var rest := PublicRooms(rooms, order[1..]);
      assert order == [order[0]] + order[1..];
      DistinctTail(order);
      ListingIdsDistinct(rooms, order[1..]);
      assert forall i, j :: 0 <= i < j < |rest| ==> rest[i].id != rest[j].id;
      var list := PublicRooms(rooms, order);
      if r.hidden {
        assert list == rest;
      } else {
        assert list == [Summary(r)] + rest;
        forall i, j | 0 <= i < j < |list| ensures list[i].id != list[j].id {
          assert list[j] == rest[j - 1];
          if i > 0 {
            assert list[i] == rest[i - 1];
          } else {
            assert rest[j - 1] in rest;
            var k :| k in order[1..] && !rooms[k].hidden && rest[j - 1] == Summary(rooms[k]);
            assert list[i].id == order[0] && list[j].id == k;
          }
        }
      }
    }
  }

  function ListedIds(list: seq<Listed>): set<RoomId>
  {
    set e | e in list :: e.id
  }

  /** Over a full enumeration of a valid registry, the listing names exactly the rooms
      that still have a player, each summarised with its spectator count. */
  lemma ListingShowsVisibleRooms(rooms: Registry, order: seq<RoomId>)
    requires RegistryValid(rooms) && Enumerates(order, rooms)
    ensures ListedIds(PublicRooms(rooms, order)) == set id | id in rooms && !rooms[id].hidden
    ensures ListedIds(PublicRooms(rooms, order)) ==
            set id | id in rooms && (rooms[id].white.Some? || rooms[id].black.Some?)
    ensures forall e :: e in PublicRooms(rooms, order) ==>
      e.id in rooms && e == Summary(rooms[e.id]) && e.spectatorCount == |rooms[e.id].spectators|
    ensures |PublicRooms(rooms, order)| == |set id | id in rooms && !rooms[id].hidden|
    ensures var list := PublicRooms(rooms, order);
      forall i, j :: 0 <= i < j < |list| ==> list[i].id != list[j].id
  {
    var list := PublicRooms(rooms, order);
    forall e | e in list
      ensures e.id in rooms && !rooms[e.id].hidden && e == Summary(rooms[e.id])
    {
      var k :| k in order && !rooms[k].hidden && e == Summary(rooms[k]);
      assert RoomValid(k, rooms[k]);
    }
    forall id | id in rooms && !rooms[id].hidden ensures id in ListedIds(list) {
      assert Summary(rooms[id]) in list;
    }
    assert (set k | k in order && !rooms[k].hidden) == set id | id in rooms && !rooms[id].hidden;
    ListingCount(rooms, order);
    forall k | k in order ensures rooms[k].id == k {
      assert RoomValid(k, rooms[k]);
    }
    ListingIdsDistinct(rooms, order);
  }

  // ---------------------------------------------------------------- a whole game

  /** Alice creates a room, Bob joins it, and Bob's connection drops: the game starts,
      then ends as a forfeit won by white, but the room stays listed because white is
      still seated. */
  lemma BlackLeavesMidGame(start: Position, id: RoomId, alice: SocketId, bob: SocketId)
    requires alice != bob
    ensures var created := CreateRoom(map[], id, alice, "Alice", start);
      var joined := JoinRoom(created.rooms, id, bob, "Bob");
      var left := Disconnect(joined.rooms, bob, [id]);
      created.reply == CreateReply(id, White)
      && joined.reply == PlayerRole(Black) && joined.rooms[id].status == Playing
      && joined.emits == [Emit(ToRoom(id), GameStart(start.fen)), Emit(ToRoom(id), PlayerConnected(2))]
      && id in left.rooms && left.rooms[id].status == Ended && left.rooms[id].gameOver
      && !left.rooms[id].hidden && left.rooms[id].white == Some(alice)
      && left.emits == [Emit(ToRoom(id), GameOver(Forfeit, Some(White))),
                        Emit(ToRoom(id), PlayerDisconnected(Black, 1))]
  {
    var created := CreateRoom(map[], id, alice, "Alice", start);
    var joined := JoinRoom(created.rooms, id, bob, "Bob");
    var r := joined.rooms[id];
    assert HeldColor(r, bob) == Some(Black);
    assert [id][..0] == [];
  }
}
