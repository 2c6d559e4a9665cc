# Room session coordinator of a two-player chess server

This project models and proves the core of the game server in `server/index.js`. The server keeps a registry of game rooms (`gameRooms`) keyed by room id, and five socket handlers change it:

- `createRoom` opens a room with its creator as white.
- `joinRoom` seats a newcomer. The newcomer gets white if that slot is empty, else black (which starts the game), else becomes a spectator.
- `makeMove` lets only the player whose side is to move submit a move. It records a move the chess engine accepts and broadcasts it. It ends the game when the engine reports game over.
- `forfeitGame` concedes the game for a player who really holds the colour they claim.
- `disconnect` visits every room. It vacates the leaving socket's slot (ending a running game as a forfeit) or removes it from the spectators. It hides a room once both slots are empty and deletes a room nobody is left in.

Two handlers only read the registry: `getBoardState` and the `/api/rooms` listing.

The model is organised as follows:

- `chess_oracle.dfy`, module `ChessOracle`: the chess engine as an oracle. A `Position` is a chess.js game: its FEN text, the side to move and the game-over flags, which the server reads, plus `past`, the FENs of the earlier positions, which only the engine reads (threefold repetition, and draw, which includes it). No relation is assumed between the flags. `Rules` abstracts the engine's `move` as a function of that whole game state, given to the coordinator as one value. `GameOverReason` gives the order in which the flags are consulted.
- `rooms.dfy`, module `Rooms`: the room record (the object built at `server/index.js:31-47`), the events the server emits, and per-room facts.
  - `RoomValid` is the invariant every room in the registry keeps between events. It says five things:
    - The room records its own key as `id`.
    - Somebody is still in the room.
    - The room is hidden exactly when both player slots are empty.
    - An `ended` room has `gameOver` set, and a `waiting` room has no black player and no spectators.
    - The last history entry describes the current position.
  - `Evolves` says how a room may change in one event: it is never un-hidden, and its history only grows.
- `session.dfy`, module `Session`: each handler as a pure function. It returns the new registry, the reply passed to the client's callback, and the list of emitted events in emission order. The lemmas about the whole registry are here.
- `coordinator.dfy`, module `Server`: class `Coordinator`. It holds the registry (`rooms`), the log of every emitted event (`log`), the engine (`rules`) and the starting position. Each handler is an imperative method that updates the room record field by field and appends each emit to the log. Each method is proved to have exactly the effect the matching `Session` function gives, to keep the invariant, and to let rooms evolve only as `Evolves` allows. `Disconnect` is the `forEach` loop over the room ids; `CleanUpRoom` is its body.

Node runs one handler at a time, so each handler is one method call. Any sequence of calls therefore keeps `Valid()`: every room stays occupied, and hidden rooms keep both slots empty and refuse every join. "Occupied" means that some socket id is still recorded in the room; that socket need not be connected any more (see the spectator entry below).

Where the code does not do what one might expect, the model follows the code:

- A hidden room refuses spectators too. The code hides a room exactly when both slots are empty, and then refuses any join that would find an empty slot.
- A room is hidden only when both players are gone, not when one of two players leaves. The scenario lemma `Session.BlackLeavesMidGame` shows this.
- `ended` is not terminal: a later join into an empty black slot sets `playing` again.
- A socket may take both slots, or spectate twice. On disconnect only its white seat is cleared.
- A waiting room never has spectators: a spectator joins only when both slots are filled, filling black sets `playing` (`server/index.js:79`), and nothing sets `waiting` again. So when the creator of a waiting room disconnects, the room is hidden (:228-230) and then deleted (:256-257), whatever the visiting order. `Session.WaitingCreatorLeaves` and `Session.WaitingRoomDeleted` state this.
- A socket that holds a slot and has also joined as a spectator (a second `joinRoom` into a full room) keeps its spectator entry when it disconnects, because the spectator filter at :252 is only the `else` branch. Such a room can outlive every live connection: it stays occupied by an id that is no longer connected.
- `makeMove` does not look at `status` or `gameOver`.

## Model

| member | source | states |
|---|---|---|
| `ChessOracle.Other` | server/index.js:189-193 | the winner named on a forfeit is the colour other than the forfeiting one |
| `ChessOracle.ClaimedColor` | server/index.js:182-183 | a claimed colour is recognised exactly when the text is `'white'` or `'black'` |
| `ChessOracle.ReasonText` | server/index.js:140-145 | the reason text on the wire is empty exactly for the unspecified reason |
| `ChessOracle.GameOverReason` | server/index.js:139-146 | the reported reason is the first flag that holds, in the order checkmate, draw, stalemate, threefold repetition, insufficient material; it is the empty reason exactly when none holds |
| `Rooms.ClearSlot` | server/index.js:215 | vacating a seat empties that colour's slot and changes nothing else in the room |
| `Rooms.PlayersCount` | server/index.js:162 | the player count is at most 2; it is 0 exactly when both slots are empty and 2 exactly when both are filled |
| `Rooms.HeldColor` | server/index.js:214-232 | a socket counts as white when it holds the white slot; it counts as black only when it holds the black slot but not the white one |
| `Rooms.RemoveAll` | server/index.js:252 | the filtered spectator list holds every other id as often as before and the leaving id not at all |
| `Session.CreateRoom` | server/index.js:29-52 | the registry gains exactly the new key, and every other room is unchanged; the new room has the creator as white, black empty, no spectators, status waiting, empty history, the start position, `gameOver` false and not hidden; the reply is the room id with colour white; nothing is emitted |
| `Session.JoinRefused` | server/index.js:57-68 | the two refusal tests of `joinRoom`: an unknown id is always refused, and a room that is not hidden never is |
| `Session.JoinRoom` | server/index.js:55-103 | an unknown id gets `Room not found`, and a hidden room with an empty slot gets `Room is no longer available`, both leaving the registry unchanged with no emits; otherwise exactly one of white, black or spectators changes, in that order of preference; taking black sets `playing` and emits `gameStart` then `playerConnected{2}`; a spectator gets a point-to-point `boardUpdate` snapshot; in a valid registry a hidden room refuses every join |
| `Session.IsPlayersTurn` | server/index.js:111-116 | the turn gate of `makeMove` holds exactly when the sender sits in the slot of the side to move |
| `Session.MakeMove` | server/index.js:106-155 | nothing changes and nothing is emitted unless the sender holds the slot of the side to move and the engine accepts the move; on acceptance only that room changes: new position, `lastMove`, and exactly one appended history entry `{fen, move, turn}`, followed by one `boardUpdate` broadcast; if the game is then over, `gameOver` and `ended` are set and a `gameOver` event with `GameOverReason` follows the `boardUpdate` |
| `Session.GetBoardState` | server/index.js:158-174 | no reply for an unknown room; otherwise the room's position, turn, last move, history, status and flag, with the count of filled slots; in a valid registry the count is 0 exactly when the room is hidden, and the last history entry matches the reported position |
| `Session.ForfeitAllowed` | server/index.js:182-183 | the identity check of `forfeitGame` passes only for a room that exists, a claim that is exactly `white` or `black`, and a sender who holds a seat in that room |
| `Session.ForfeitGame` | server/index.js:177-198 | acts only when the claimed colour's slot holds the sender; it then sets only `gameOver` and `ended`, and emits `gameOver{forfeit, other colour}` followed by `roomStatusUpdate{ended}`; otherwise nothing changes |
| `Session.LeaveRoom` | server/index.js:211-253 | a socket holding a slot vacates only that slot; a playing game ends and `gameOver{forfeit, other colour}` is emitted; `playerDisconnected` carries the vacated colour and the remaining player count; the room becomes hidden exactly when the other slot is empty too, with `roomStatusUpdate{ended}`; a socket that holds no slot only has its spectator entries removed |
| `Session.CreateKeepsValid` | server/index.js:31-49 | a new room is valid, so creating one keeps the registry invariant, and existing rooms evolve only as `Evolves` allows (that they are in fact unchanged follows from the `Session.CreateRoom` contract) |
| `Session.JoinKeepsValid` | server/index.js:72-101 | every join keeps the registry invariant; the joined room keeps its id, is never un-hidden, and its old history is a prefix of the new one (that the hidden flag and history are in fact unchanged follows from the `Session.JoinRoom` contract) |
| `Session.MoveKeepsValid` | server/index.js:120-152 | an accepted move keeps the registry invariant, since the appended history entry matches the new position; history only grows |
| `Session.ForfeitKeepsValid` | server/index.js:184-196 | a forfeit keeps the registry invariant; no room is un-hidden or loses history (that both are in fact unchanged follows from the `Session.ForfeitGame` contract) |
| `Session.LeaveKeepsValid` | server/index.js:214-253 | after a departure a room somebody is still in is valid again, hidden exactly when both slots are empty; the room is never un-hidden and its history is kept |
| `Session.WaitingCreatorLeaves` | server/index.js:214-231 | when the creator of a waiting room leaves, `playerDisconnected{white, 0}` and `roomStatusUpdate{ended}` are emitted, no forfeit, and nobody is left in the room |
| `Session.Settle` | server/index.js:255-259 | the deletion test at the end of the `forEach` body: the room stays under its key exactly when somebody is in it, with the value given, and every other key is untouched |
| `Session.Disconnect` | server/index.js:206-261 | the handler as a fold over the visiting order: each room, as the handler found it, goes through `LeaveRoom` and then `Settle`; disconnect never adds a room. What the fold does to each room is stated by `Session.DisconnectResult` |
| `Session.DisconnectResult` | server/index.js:210-259 | for any visiting order, disconnect deletes exactly the visited rooms that nobody is left in, leaves the rest as `LeaveRoom` made them, and emits only to visited rooms |
| `Session.DisconnectKeepsValid` | server/index.js:229-257 | after disconnect every remaining room is occupied and hidden exactly when both slots are empty; no room becomes visible again, and no history shrinks |
| `Session.WaitingRoomDeleted` | server/index.js:210-259 | in a valid registry, a disconnect deletes every waiting room the leaving socket created, for any visiting order |
| `Session.PublicRooms` | server/index.js:265-277 | the listing has every non-hidden room of the enumeration, summarised by id, status, names and spectator count, and nothing else |
| `Session.ListingCount` | server/index.js:266-267 | over an enumeration without repeats the listing has exactly as many entries as there are visible rooms in it |
| `Session.ListingIdsDistinct` | server/index.js:266-269 | when every room records its own key as `id`, no two listing entries carry the same id |
| `Session.ListingShowsVisibleRooms` | server/index.js:266-274 | over a valid registry the listed ids are exactly the non-hidden rooms, which are exactly the rooms with a seated player; there is one entry per such room, no id twice, and each entry's `spectatorCount` is the room's spectator list length |
| `Session.BlackLeavesMidGame` | server/index.js:232-249 | create, join and black's disconnect: the game starts with `gameStart` and `playerConnected{2}`, then ends as a forfeit won by white with `playerDisconnected{black, 1}`, and the room stays listed |
| `Server.Coordinator.constructor` | server/index.js:22 | the registry and the event log start empty |
| `Server.Coordinator.CreateRoom` | server/index.js:29-52 | picks an id not in use and has exactly the effect of `Session.CreateRoom` under it |
| `Server.Coordinator.JoinRoom` | server/index.js:55-103 | the registry, reply and appended emits are those of `Session.JoinRoom`; the invariant is kept |
| `Server.Coordinator.MakeMove` | server/index.js:106-155 | the registry and appended emits are those of `Session.MakeMove`; the invariant is kept |
| `Server.Coordinator.GetBoardState` | server/index.js:158-174 | changes nothing and replies as `Session.GetBoardState`, so two calls with no event between them agree |
| `Server.Coordinator.ForfeitGame` | server/index.js:177-198 | the registry and appended emits are those of `Session.ForfeitGame`; the invariant is kept |
| `Server.Coordinator.Disconnect` | server/index.js:206-261 | visits every room id once, in the order it returns, and the registry and appended emits are those of `Session.Disconnect` over that order; the invariant is kept, hidden rooms stay hidden, and histories only grow |
| `Server.Coordinator.CleanUpRoom` | server/index.js:211-259 | one room's departure as `Session.LeaveRoom` gives it, then deletion exactly when nobody is left in the room |
| `Server.Coordinator.LeaveSeat` | server/index.js:214-249 | the two player branches, written once with the colour as a parameter: the new room and the appended emits are those of `Session.LeaveRoom`, and the registry is not touched |

## Left out

- Chess rules: chess.js is an oracle. Its `move` is the `Rules` value (an illegal move, whether chess.js returns null or throws, is `None`). Its `fen`, `turn` and game-over queries are fields of `Position`. No relation between the flags is assumed, so the later branches of the reason cascade are modelled as written even where the library makes them unreachable.
- Room ids: the 8-character uuid prefix is modelled as any id not in use. An id collision, which would overwrite a live room, is not modelled.
- Enumeration order: `Object.keys` and `Object.values` order is a parameter (`order`). The registry after a disconnect is proved independent of it; the order of that handler's emits follows it.
- Delivery: socket.io room membership (`socket.join`) and actual delivery are not modelled. An emit is recorded with its target, a room or one socket.
- Callbacks are method results. Their timing relative to the emits of the same handler is not modelled.
- Exceptions are not modelled. Nothing in `server/index.js` catches an exception thrown by a handler (the only `try` is at :118-154, around the engine's move), and no handler for uncaught exceptions is installed. socket.io is not part of this model; with socket.io 4, which calls listeners on a later tick, such a throw is uncaught and ends the server process, so every room is lost. The model does not capture that crash. For each throwing input below it takes the path named instead, as if the handler had run to completion. Each of these is a crash any client can trigger.
  - Payloads: a `null` or `undefined` payload throws while it is destructured, before anything changes; the model assumes the payload shapes of `server/index.js`, and display names are strings. A primitive payload does not throw: its fields read as `undefined`. So `joinRoom` with a bare id string (as `client/src/pages/Game.jsx:29` sends) looks up the id `undefined` and, unless a room has that id, takes the not-found path, which the model covers as an id not in the registry.
  - Missing callback: `createRoom` without one (as `client/src/pages/Lobby.jsx:51` sends, a page the router never serves) inserts the room at :31-47 and then throws at :51. `getBoardState` without one throws at :164 after changing nothing. `joinRoom` without one throws at its first `callback` call. On the refusal paths (:58, :66) nothing has changed yet. On the white path (:75) the seat is already taken. On the black path (:81) the seat and `playing` are set, but the `gameStart` and `playerConnected` emits have not happened. On the spectator path (:90) the push at :88 has happened, but the `boardUpdate` at :96 has not. The model replies through a method result, so it always completes the handler.
  - Inherited keys: the registry is a plain object, so an id naming a member of `Object.prototype` (`constructor`, `toString`, `__proto__`, ...) finds a truthy value that is not a room. `joinRoom` then passes the check at :57 and throws at :71. `makeMove` throws at :111 and `getBoardState` at :162. `forfeitGame` throws at :182 with colour `white`, and at :183 with colour `black`, where the `||` goes on to read `room.players.black`. The model treats such ids as unknown: `JoinError(RoomNotFound)`, no change, or no reply. `disconnect` and the listing are unaffected, since `Object.keys` and `Object.values` list only own keys.
- The chat relay `sendMessage`, `console.log`, Express and socket.io setup, CORS and `server.listen` are not modelled: they hold no state.
- Concurrency: the event loop runs handlers one at a time, so each is one atomic method call.
- The React client under `client/src` is not part of this model.
