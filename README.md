# Multiplayer drawing game: room state machine

This project models the core of a Ktor drawing-and-guessing server, `DrawingGame.kt`. The server keeps a registry of game rooms (`gameRooms`). It also keeps one stroke in progress (`drawingPoint`), which is shared by every room. A room holds:

- its players, in join order;
- whether a game is on;
- the current drawer;
- the timer value;
- the secret word;
- the strokes on screen;
- a history snapshot of those strokes, which `redo` reads from.

The model has two layers.

- **Module `Rules`** holds pure functions over a `RoomState` value. `OnConnect` opens the socket. `OnJoin`, `OnDrawing` (all five drawing types), `OnAnswer` and `OnDisconnect` handle their commands. `CompleteRound` ends a round: it is the whole of `timeout` and the second half of `answer`. `ticker` only sets the timer and is written inline in `Handle`, which dispatches a decoded frame to these. Its lemmas state what each command promises. They also show that every command keeps the room invariant, and so does any interleaving of commands from several connections: the strokes on screen are a prefix of the history, and the secret word comes from the word pool.
- **Module `Server`** holds the classes `GameRoom` and `GameServer`. They update the fields, the registry map and the shared stroke in place, as the Kotlin code does. Each method is proved to leave `State()` equal to the matching `Rules` function of the old state. `Server.GameRoom.Ticker` is the exception: it only sets `currentDuration`, and its `modifies` frame keeps every other field. The source's `for` loop that resets `isAnswered` is a `while` loop over the player list. The `isAllAnsweredExcept` check is a loop with an early return.

Modules `Players`, `Strokes`, `Text` and `Protocol` hold the list operations, the undo/redo rules, the case-insensitive comparison and the command decoding.

Exceptions are modelled as results. A command returns `ok == false` when the Kotlin code would throw. Any changes made before the throw are kept. These are the cases:

- an index of -1 from `indexOfFirst`;
- `first()` or `removeLast()` on an empty list;
- `connectedClients[0]` on an empty list when a round ends;
- `drawingPoint!!` on null.

In the source, the `catch` ends that connection's receive loop without running `disconnect`.

Quirks of the code that the model keeps:

- The in-progress stroke is one global value shared by all rooms.
- Opening a socket appends a new player even when the username is already in the list.
- `disconnect` only fills `currentPlayer` when it is null. A departed drawer therefore stays `currentPlayer`. Until the round ends (a `timeout`, or a wrong answer once every remaining player has answered) and the turn passes to the first player, or until a player with the departed drawer's username connects again, every correct answer throws before scoring (`Rules.DepartedDrawerStays`).
- When the drawer is not found, the next drawer is the first player.

## Model

| member | source | states |
|---|---|---|
| Text.EqualsIgnoreCaseIffSameLowercase | src/main/kotlin/com/dannndi/feature/drawing/DrawingGame.kt:243 | the position-wise case-insensitive comparison holds iff the two lower-cased strings are equal |
| Protocol.KindOf | src/main/kotlin/com/dannndi/feature/drawing/DrawingGame.kt:191-232 | each of "start", "update", "end", "undo", "redo" selects its own drawing command, and any other or missing type selects none |
| Protocol.Decode | src/main/kotlin/com/dannndi/feature/drawing/DrawingGame.kt:159-192 | each of the six method names selects its own command and no other; a frame is ignored iff its method is missing or unknown; a drawing frame carries its type's kind and its offset, and answer and ticker frames keep their answer and duration |
| Players.IndexOfFirst | src/main/kotlin/com/dannndi/feature/drawing/DrawingGame.kt:245-246 | the result is the first position with that username, or -1 iff no player has it (always -1 for a null drawer) |
| Players.IsAllAnsweredExcept | src/main/kotlin/com/dannndi/feature/drawing/DrawingGame.kt:356-362 | true iff every player whose username differs from the drawer's has answered |
| Players.NextDrawerIndex | src/main/kotlin/com/dannndi/feature/drawing/DrawingGame.kt:256-260 | the next drawer is at (first index of the drawer + 1) mod n: the last wraps to the first, and a missing drawer gives 0 |
| Players.Credit | src/main/kotlin/com/dannndi/feature/drawing/DrawingGame.kt:247-249 | the drawer and the answerer each gain one point (two if they are the same player); the answerer is marked answered; every other player is unchanged |
| Players.ResetAnswers | src/main/kotlin/com/dannndi/feature/drawing/DrawingGame.kt:262-264 | same length, names and scores, and nobody has answered |
| Players.RemoveAll | src/main/kotlin/com/dannndi/feature/drawing/DrawingGame.kt:319 | no player with that username is left; every other player keeps its multiplicity; the result is an ordered subsequence of the input |
| Players.DrawerAfterRotates | src/main/kotlin/com/dannndi/feature/drawing/DrawingGame.kt:256-260 | with distinct usernames, k rounds after player j drew, player (j + k) mod n draws |
| Strokes.UndoKeepsPrefix | src/main/kotlin/com/dannndi/feature/drawing/DrawingGame.kt:219-223 | undo removes exactly one stroke when there is one and keeps the list a prefix of the untouched history |
| Strokes.RedoKeepsPrefix | src/main/kotlin/com/dannndi/feature/drawing/DrawingGame.kt:225-232 | redo extends the list by exactly the next history stroke, or is a no-op when the whole history is shown |
| Strokes.RedoAfterUndo | src/main/kotlin/com/dannndi/feature/drawing/DrawingGame.kt:219-232 | undo then redo restores the strokes iff there was a stroke to undo or the history is empty |
| Strokes.RedoRestoresHistory | src/main/kotlin/com/dannndi/feature/drawing/DrawingGame.kt:225-232 | enough redos from any prefix restore the whole history |
| Rules.OnJoinSpec | src/main/kotlin/com/dannndi/feature/drawing/DrawingGame.kt:160-188 | on a playing room, join changes nothing; otherwise isPlaying becomes (player count > 1), the turn goes to the first player only if unset, and the command throws iff there was no drawer and no player |
| Rules.TwoJoinsStartGame | src/main/kotlin/com/dannndi/feature/drawing/DrawingGame.kt:152-177 | after one connect-and-join the game is off; after the second it is on; the first player draws |
| Rules.StartAppendsStroke | src/main/kotlin/com/dannndi/feature/drawing/DrawingGame.kt:193-201 | start appends exactly one stroke holding only the offset, makes it the stroke in progress, and history becomes an equal copy; nothing else changes |
| Rules.UpdateExtendsStroke | src/main/kotlin/com/dannndi/feature/drawing/DrawingGame.kt:203-213 | update replaces the last stroke with the in-progress stroke extended by the point, keeping the length and the earlier strokes, and resyncs history |
| Rules.UpdateFailures | src/main/kotlin/com/dannndi/feature/drawing/DrawingGame.kt:203-213 | with no strokes, update throws and changes nothing in the room; with no stroke in progress, it throws after losing the last stroke, and history is kept |
| Rules.UndoThenRedo | src/main/kotlin/com/dannndi/feature/drawing/DrawingGame.kt:219-232 | undo never touches history; undo followed by redo restores the room whenever a stroke was shown |
| Rules.CorrectAnswerCredits | src/main/kotlin/com/dannndi/feature/drawing/DrawingGame.kt:242-250 | a correct answer with both players found raises the drawer's and the answerer's scores by one each (two if the same), marks the answerer, and changes nothing else |
| Rules.CorrectAnswerAddsPoints | src/main/kotlin/com/dannndi/feature/drawing/DrawingGame.kt:242-249 | when no score is near the Int maximum, a correct answer adds exactly 1 to the drawer's and the answerer's scores, or 2 when they are the same player |
| Rules.WrongAnswerKeepsScores | src/main/kotlin/com/dannndi/feature/drawing/DrawingGame.kt:242-267 | a wrong or missing answer changes no score and no name, even when it ends the round |
| Rules.CorrectAnswerWithoutDrawerFails | src/main/kotlin/com/dannndi/feature/drawing/DrawingGame.kt:245-247 | a correct answer whose drawer is not in the list throws before changing anything |
| Rules.AnswerEndsRoundIff | src/main/kotlin/com/dannndi/feature/drawing/DrawingGame.kt:251-267 | after successful scoring, if everyone but the drawer has answered, the strokes are cleared, the word is replaced, answers are reset with the scored names and scores kept, and the player after the drawer draws (an empty room throws); otherwise the scored room stays as it is |
| Rules.CompleteRoundSpec | src/main/kotlin/com/dannndi/feature/drawing/DrawingGame.kt:291-305 | both stroke lists become empty; names and scores are kept; all answers are reset; the turn advances cyclically (to the first player when the drawer is gone); the word is replaced; with no players it throws after clearing the strokes |
| Rules.OnDisconnectSpec | src/main/kotlin/com/dannndi/feature/drawing/DrawingGame.kt:319-329 | every player with that name and its session go and the others stay in order; the list is empty iff all players had that name; otherwise isPlaying = (count > 1) and the turn is filled only if it was null |
| Rules.DepartedDrawerStays | src/main/kotlin/com/dannndi/feature/drawing/DrawingGame.kt:319-329 | a departed drawer stays currentPlayer; a correct answer then throws without scoring; a timeout, or a wrong answer once every remaining player has answered, hands the turn to the first player |
| Rules.OnDrawingKeepsInv | src/main/kotlin/com/dannndi/feature/drawing/DrawingGame.kt:193-232 | every drawing command, including the failing ones, keeps the strokes a prefix of history |
| Rules.HandleKeepsInv | src/main/kotlin/com/dannndi/feature/drawing/DrawingGame.kt:159-343 | every command keeps the room invariant (strokes a prefix of history, word from the pool) |
| Rules.RunKeepsInv | src/main/kotlin/com/dannndi/feature/drawing/DrawingGame.kt:144-346 | any interleaving of socket openings and frames from any connections keeps the room invariant |
| Rules.LionRound | src/main/kotlin/com/dannndi/feature/drawing/DrawingGame.kt:152-267 | on "Lion", A and B join; A draws; B answers "lion"; both score 1, the strokes are cleared, B draws next and the new word is set |
| Server.GameRoom.constructor | src/main/kotlin/com/dannndi/feature/drawing/DrawingGame.kt:380-390 | a new room has every field at its default and an empty word |
| Server.GameRoom.AddConnection | src/main/kotlin/com/dannndi/feature/drawing/DrawingGame.kt:152-153 | records the session and appends a new player, as `Rules.OnConnect` |
| Server.GameRoom.Join | src/main/kotlin/com/dannndi/feature/drawing/DrawingGame.kt:160-188 | the in-place update equals `Rules.OnJoin` of the old state |
| Server.GameRoom.Draw | src/main/kotlin/com/dannndi/feature/drawing/DrawingGame.kt:193-232 | the in-place list surgery equals `Rules.OnDrawing`, including the new in-progress stroke and the failing cases |
| Server.GameRoom.CompleteRound | src/main/kotlin/com/dannndi/feature/drawing/DrawingGame.kt:252-266 | clearing, advancing and the answer-reset loop equal `Rules.CompleteRound` |
| Server.GameRoom.Answer | src/main/kotlin/com/dannndi/feature/drawing/DrawingGame.kt:241-267 | reports whether the answer is correct; the in-place update equals `Rules.OnAnswer` |
| Server.GameRoom.Ticker | src/main/kotlin/com/dannndi/feature/drawing/DrawingGame.kt:279 | currentDuration becomes the frame's duration, possibly null; nothing else changes |
| Server.GameRoom.Leave | src/main/kotlin/com/dannndi/feature/drawing/DrawingGame.kt:319-329 | the room's update equals `Rules.OnDisconnect` |
| Server.GameServer.constructor | src/main/kotlin/com/dannndi/feature/drawing/DrawingGame.kt:19-20 | the registry starts empty, with no stroke in progress |
| Server.GameServer.CreateRoom | src/main/kotlin/com/dannndi/feature/drawing/DrawingGame.kt:26-30 | a fresh empty room playing a pool word is stored under the id; other entries are kept |
| Server.GameServer.CheckJoin | src/main/kotlin/com/dannndi/feature/drawing/DrawingGame.kt:100-131 | checks in order: empty username, then unknown room id, then a username with a session in the room; otherwise the request may join that room; nothing changes |
| Server.GameServer.Connect | src/main/kotlin/com/dannndi/feature/drawing/DrawingGame.kt:146-153 | refuses iff the id or the name is empty or the room is unknown; otherwise the room grows as `Rules.OnConnect` and the registry is kept |
| Server.GameServer.Dispatch | src/main/kotlin/com/dannndi/feature/drawing/DrawingGame.kt:155-343 | a frame changes the room and the shared stroke as `Rules.Handle`; the registry drops the room's id iff the frame was a disconnect that left no players |

## Left out

- Routes `GET /game` and `GET /game/{id}`: they only read the registry and serialise it.
- The response envelope, the HTTP status codes and all outbound `send` loops and JSON frame building: these are I/O and serialisation.
- JSON decoding of frames, and the error frame sent on an exception: commands arrive already decoded, and an exception is the result `ok == false`.
- The receive loop `for (frame in incoming)`: each frame is one `Dispatch`. In the source an exception ends that connection's loop; `Rules.Run` does not model this and keeps applying later frames from a connection that failed, so it allows more traces than the server produces, and `Rules.RunKeepsInv` covers all of them.
- `uuid()` and the random word choice: the id and the word are parameters, and the word must come from `AnimalList`.
- Concurrency: there is no locking in the source, so commands are applied one at a time, in any interleaving.
- Object aliasing: `currentPlayer` is modelled as the drawer's username. Its score and `isAnswered` fields, which the source shares with the list element, are visible only in serialised frames.
- Object aliasing of strokes: the in-progress stroke's offset list is appended in place and shared with stroke objects already stored. The model uses values. The two agree on the usual start/update/end path. They differ for a stroke that was undone while still being drawn, and for an update sent from another room.
- Rules.UpdateFailures: its "update on an empty list changes nothing in the room" holds for values only. In the source, after an undo during a stroke, the in-place append to the shared offsets list still changes the stroke kept in history.
- Text.LowerChar, Text.EqualsIgnoreCase, Rules.IsCorrect: the case-insensitive comparison folds ASCII letters only. Kotlin's `equals(ignoreCase = true)` also uses Unicode case mapping, so the source accepts "Lıon" (dotless ı upper-cases to I) as "Lion" and the model rejects it.
- Socket sessions are modelled by their usernames only (the key set of `connectedClientsSession`).
- Ktor plumbing in `Application.kt`, `Routing.kt` and `Logging.kt`, and the plain record in `BaseResponse.kt`: they hold no game logic.
