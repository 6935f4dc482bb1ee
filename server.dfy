/** The server's mutable state: the room registry, the one in-progress stroke
    shared by all rooms, and the rooms themselves, updated in place by the
    socket handler's commands. */
module Server {
  import opened Basics
  import opened Text
  import opened Model
  import opened Protocol
  import opened Players
  import Strokes
  import Rules

  /** A game room. `connectedClientsSession` holds the usernames that have a
      live socket; `currentPlayer` the username of the drawer. */
  class GameRoom {
    const id: string
    var connectedClientsSession: set<string>
    var connectedClients: seq<GamePlayer>
    var isPlaying: bool
    var currentPlayer: Option<string>
    var currentDuration: Option<Int32>
    var currentAnswer: string
    var currentDrawingPoint: seq<DrawingPoint>
    var historyDrawingPoint: seq<DrawingPoint>

    function State(): RoomState
      reads this
    {
      RoomState(connectedClientsSession, connectedClients, isPlaying, currentPlayer,
                currentDuration, currentAnswer, currentDrawingPoint, historyDrawingPoint)
    }

    ghost predicate Valid()
      reads this
    {
      Rules.Inv(State())
    }

    /** `GameRoom(id = id)`: every field at its default, the word still empty. */
    constructor (id: string)
      ensures this.id == id
      ensures State() == RoomState({}, [], false, None, None, "", [], [])
    {
      this.id := id;
      connectedClientsSession := {};
      connectedClients := [];
      isPlaying := false;
      currentPlayer := None;
      currentDuration := None;
      currentAnswer := "";
      currentDrawingPoint := [];
      historyDrawingPoint := [];
    }

    /** A socket for `username` opens on this room. */
    method AddConnection(username: string)
      requires Valid()
      modifies this`connectedClientsSession, this`connectedClients
      ensures Valid()
      ensures State() == Rules.OnConnect(old(State()), username)
    {
      connectedClientsSession := connectedClientsSession + {username};
      connectedClients := connectedClients + [NewPlayer(username)];
    }

    /** The `join` command. */
    method Join() returns (ok: bool)
      requires Valid()
      modifies this`isPlaying, this`currentPlayer
      ensures Valid()
      ensures Rules.Step(State(), ok) == Rules.OnJoin(old(State()))
    {
      ok := true;
      if !isPlaying {
        isPlaying := |connectedClients| > 1;
        if currentPlayer == None {
          if |connectedClients| == 0 {
            return false;
          }
          currentPlayer := Some(connectedClients[0].username);
        }
      }
    }

    /** A `drawing` frame; `dp` is the server's in-progress stroke, `dp'` its new value. */
    method Draw(kind: DrawingKind, offset: Option<DrawingOffset>, dp: Option<DrawingPoint>)
      returns (dp': Option<DrawingPoint>, ok: bool)
      requires Valid()
      modifies this`currentDrawingPoint, this`historyDrawingPoint
      ensures Valid()
      ensures Rules.Outcome(State(), dp', ok) == Rules.OnDrawing(old(State()), dp, kind, offset)
    {
      Rules.OnDrawingKeepsInv(State(), dp, kind, offset);
      dp', ok := dp, true;
      match kind
      case StartStroke =>
        if offset.Some? {
          dp' := Some(DrawingPoint([offset.value]));
          currentDrawingPoint := currentDrawingPoint + [dp'.value];
          historyDrawingPoint := currentDrawingPoint;
        }
      case UpdateStroke =>
        if offset.Some? {
          dp' := if dp.Some? then Some(DrawingPoint(dp.value.offsets + [offset.value])) else None;
          if |currentDrawingPoint| == 0 {
            return dp', false;
          }
          currentDrawingPoint := currentDrawingPoint[..|currentDrawingPoint| - 1];
          if dp'.None? {
            return dp', false;
          }
          currentDrawingPoint := currentDrawingPoint + [dp'.value];
          historyDrawingPoint := currentDrawingPoint;
        }
      case EndStroke =>
        dp' := None;
      case UndoStroke =>
        if |currentDrawingPoint| > 0 && |historyDrawingPoint| > 0 {
          currentDrawingPoint := currentDrawingPoint[..|currentDrawingPoint| - 1];
        }
      case RedoStroke =>
        if |currentDrawingPoint| < |historyDrawingPoint| {
          currentDrawingPoint := currentDrawingPoint + [historyDrawingPoint[|currentDrawingPoint|]];
        }
      case UnknownStroke =>
    }

    /** The end of a round, run by `answer` and `timeout`. */
    method CompleteRound(nextWord: string) returns (ok: bool)
      requires Valid() && nextWord in AnimalList
      modifies this`historyDrawingPoint, this`currentDrawingPoint, this`currentPlayer,
               this`connectedClients, this`currentAnswer
      ensures Valid()
      ensures Rules.Step(State(), ok) == Rules.CompleteRound(old(State()), nextWord)
    {
      historyDrawingPoint := [];
      currentDrawingPoint := [];
      assert Strokes.IsPrefix(currentDrawingPoint, historyDrawingPoint);
      if |connectedClients| == 0 {
        return false;
      }
      var k := NextDrawerIndex(connectedClients, currentPlayer);
      currentPlayer := Some(connectedClients[k].username);
      var i := 0;
      while i < |connectedClients|
        invariant 0 <= i <= |connectedClients| == |old(connectedClients)|
        invariant currentDrawingPoint == [] && historyDrawingPoint == []
        invariant currentPlayer == Some(old(connectedClients)[k].username) && currentAnswer == old(currentAnswer)
        invariant forall j | 0 <= j < i :: connectedClients[j] == old(connectedClients)[j].(isAnswered := false)
        invariant forall j | i <= j < |connectedClients| :: connectedClients[j] == old(connectedClients)[j]
      {
        connectedClients := connectedClients[i := connectedClients[i].(isAnswered := false)];
        i := i + 1;
      }
      assert connectedClients == ResetAnswers(old(connectedClients));
      currentAnswer := nextWord;
      ok := true;
    }

    /** The `answer` command from `username`. */
    method Answer(username: string, answer: Option<string>, nextWord: string) returns (ok: bool, isCorrect: bool)
      requires Valid() && nextWord in AnimalList
      modifies this`historyDrawingPoint, this`currentDrawingPoint, this`currentPlayer,
               this`connectedClients, this`currentAnswer
      ensures Valid()
      ensures isCorrect == Rules.IsCorrect(old(State()), answer)
      ensures Rules.Step(State(), ok) == Rules.OnAnswer(old(State()), username, answer, nextWord)
    {
      isCorrect := answer.Some? && EqualsIgnoreCase(answer.value, currentAnswer);
      if isCorrect {
        var drawer := IndexOfFirst(connectedClients, currentPlayer);
        var answerer := IndexOfFirst(connectedClients, Some(username));
        if drawer < 0 {
          return false, isCorrect;
        }
        connectedClients := Bump(connectedClients, drawer);
        if answerer < 0 {
          return false, isCorrect;
        }
        connectedClients := Bump(connectedClients, answerer);
        connectedClients := connectedClients[answerer := connectedClients[answerer].(isAnswered := true)];
      }
      var allAnswered := IsAllAnsweredExcept(connectedClients, currentPlayer);
      if allAnswered {
        ok := CompleteRound(nextWord);
      } else {
        ok := true;
      }
    }

    /** The `ticker` command. */
    method Ticker(duration: Option<Int32>)
      modifies this`currentDuration
      ensures currentDuration == duration
    {
      currentDuration := duration;
    }

    /** The `disconnect` command's changes to the room. */
    method Leave(username: string)
      requires Valid()
      modifies this`connectedClients, this`connectedClientsSession, this`isPlaying, this`currentPlayer
      ensures Valid()
      ensures State() == Rules.OnDisconnect(old(State()), username)
    {
      connectedClients := RemoveAll(connectedClients, username);
      connectedClientsSession := connectedClientsSession - {username};
      if |connectedClients| > 0 {
        isPlaying := |connectedClients| > 1;
        if currentPlayer == None {
          currentPlayer := Some(connectedClients[0].username);
        }
      }
    }
  }

  /** The answer to the join pre-flight request. */
  datatype JoinCheck = UsernameEmpty | RoomNotAvailable | UsernameTaken | CanJoin(room: GameRoom)

  class GameServer {
    var gameRooms: map<string, GameRoom>
    var drawingPoint: Option<DrawingPoint>

    /** Every room is registered under its own id and keeps the room invariant. */
    ghost predicate Valid()
      reads this, gameRooms.Values
    {
      forall k | k in gameRooms :: gameRooms[k].id == k && gameRooms[k].Valid()
    }

    constructor ()
      ensures Valid() && gameRooms == map[] && drawingPoint == None
    {
      gameRooms := map[];
      drawingPoint := None;
    }

    /** `POST /game`: `id` stands for the generated id, `word` for the random pick. */
    method CreateRoom(id: string, word: string) returns (room: GameRoom)
      requires Valid() && word in AnimalList
      modifies this`gameRooms
      ensures Valid() && fresh(room)
      ensures gameRooms == old(gameRooms)[id := room]
      ensures room.id == id && room.State() == Rules.NewRoom(word)
    {
      room := new GameRoom(id);
      gameRooms := gameRooms[id := room];
      room.currentAnswer := word;
    }

    /** `POST /game/{id}/join`: three rejections checked in order, and no change. */
    method CheckJoin(id: string, username: string) returns (r: JoinCheck)
      ensures r.UsernameEmpty? <==> username == ""
      ensures r.RoomNotAvailable? <==> username != "" && id !in gameRooms
      ensures r.UsernameTaken? <==>
        username != "" && id in gameRooms && username in gameRooms[id].connectedClientsSession
      ensures r.CanJoin? <==>
        username != "" && id in gameRooms && username !in gameRooms[id].connectedClientsSession
      ensures r.CanJoin? ==> id in gameRooms && r.room == gameRooms[id]
    {
      if username == "" {
        r := UsernameEmpty;
      } else if id !in gameRooms {
        r := RoomNotAvailable;
      } else if username in gameRooms[id].connectedClientsSession {
        r := UsernameTaken;
      } else {
        r := CanJoin(gameRooms[id]);
      }
    }

    /** Opening `/game/{id}` as `username`: refused (null) for an empty id or
        name or an unknown room; otherwise the room's session and player list grow. */
    method Connect(id: string, username: string) returns (room: GameRoom?)
      requires Valid()
      modifies if id in gameRooms then {gameRooms[id]} else {}
      ensures Valid()
      ensures room == null <==> (id == "" || username == "" || id !in gameRooms)
      ensures room != null ==>
        room == gameRooms[id] && room.State() == Rules.OnConnect(old(room.State()), username)
    {
      if id == "" || username == "" || id !in gameRooms {
        return null;
      }
      room := gameRooms[id];
      room.AddConnection(username);
    }

    /** One frame received on `username`'s socket to `room` (the room the socket
        was opened on, registered under `room.id` or already dropped). `word` is
        the random pick used if the frame ends a round. */
    method Dispatch(room: GameRoom, username: string, message: IncomingMessage, word: string) returns (ok: bool)
      requires Valid() && room.Valid() && word in AnimalList
      modifies this, room
      ensures Valid() && room.Valid()
      ensures
        var out := Rules.Handle(old(room.State()), old(drawingPoint), username, Decode(message), word);
        room.State() == out.room && drawingPoint == out.drawingPoint && ok == out.ok
      ensures gameRooms ==
        if Decode(message).DisconnectMsg? && room.connectedClients == [] then old(gameRooms) - {room.id}
        else old(gameRooms)
    {
      match Decode(message)
      case JoinMsg =>
        ok := room.Join();
      case DrawingMsg(kind, offset) =>
        drawingPoint, ok := room.Draw(kind, offset, drawingPoint);
      case AnswerMsg(answer) =>
        var isCorrect;
        ok, isCorrect := room.Answer(username, answer, word);
      case TickerMsg(duration) =>
        room.Ticker(duration);
        ok := true;
      case TimeoutMsg =>
        ok := room.CompleteRound(word);
      case DisconnectMsg =>
        room.Leave(username);
        if room.connectedClients == [] {
          gameRooms := gameRooms - {room.id};
        }
        ok := true;
      case UnknownMsg =>
        ok := true;
    }
  }
}
