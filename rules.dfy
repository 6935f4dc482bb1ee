/** What each command on the game socket does to a room, as functions of the
    room's state; the classes in module Server carry these out in place. */
module Rules {
  import opened Basics
  import opened Text
  import opened Model
  import opened Protocol
  import opened Players
  import Strokes

  /** The room a command leaves behind, and whether its handler returned
      normally: `ok == false` means an exception escaped after the changes
      already made, which ends that connection's receive loop. */
  datatype Step = Step(room: RoomState, ok: bool)

  /** A step that may also replace the server-wide in-progress stroke. */
  datatype Outcome = Outcome(room: RoomState, drawingPoint: Option<DrawingPoint>, ok: bool)

  /** What every room keeps: its strokes are a prefix of the history snapshot,
      and its secret word comes from the word pool. */
  predicate Inv(s: RoomState)
  {
    Strokes.IsPrefix(s.currentDrawingPoint, s.historyDrawingPoint) && s.currentAnswer in AnimalList
  }

  /** `POST /game`: an empty room, playing `word`. */
  function NewRoom(word: string): RoomState
  {
    RoomState({}, [], false, None, None, word, [], [])
  }

  /** Opening the socket: the session is recorded and a new player appended,
      whether or not that username is already in the list. */
  function OnConnect(s: RoomState, username: string): RoomState
  {
    s.(sessions := s.sessions + {username},
       connectedClients := s.connectedClients + [NewPlayer(username)])
  }

  /** `join`. On a room that is not playing, `first()` on an empty player list throws. */
  function OnJoin(s: RoomState): Step
  {
    if s.isPlaying then Step(s, true)
    else
      var s1 := s.(isPlaying := |s.connectedClients| > 1);
      if s1.currentPlayer.Some? then Step(s1, true)
      else if |s1.connectedClients| == 0 then Step(s1, false)
      else Step(s1.(currentPlayer := Some(s1.connectedClients[0].username)), true)
  }

  /** `drawing`. `dp` is the server-wide `drawingPoint`. A frame without an
      offset leaves `start` and `update` with nothing to do. `update` extends the
      in-progress stroke first; `removeLast()` then throws on an empty list, and
      `drawingPoint!!` throws when there was no stroke in progress, after the
      last stroke has already been removed. */
  function OnDrawing(s: RoomState, dp: Option<DrawingPoint>, kind: DrawingKind, offset: Option<DrawingOffset>): Outcome
  {
    match kind
    case StartStroke =>
      if offset.None? then Outcome(s, dp, true)
      else
        var stroke := DrawingPoint([offset.value]);
        var current := s.currentDrawingPoint + [stroke];
        Outcome(s.(currentDrawingPoint := current, historyDrawingPoint := current), Some(stroke), true)
    case UpdateStroke =>
      if offset.None? then Outcome(s, dp, true)
      else
        var extended := if dp.Some? then Some(DrawingPoint(dp.value.offsets + [offset.value])) else None;
        var n := |s.currentDrawingPoint|;
        if n == 0 then Outcome(s, extended, false)
        else
          var shortened := s.currentDrawingPoint[..n - 1];
          if extended.None? then Outcome(s.(currentDrawingPoint := shortened), extended, false)
          else
            var current := shortened + [extended.value];
            Outcome(s.(currentDrawingPoint := current, historyDrawingPoint := current), extended, true)
    case EndStroke => Outcome(s, None, true)
    case UndoStroke =>
      Outcome(s.(currentDrawingPoint := Strokes.Undo(s.currentDrawingPoint, s.historyDrawingPoint)), dp, true)
    case RedoStroke =>
      Outcome(s.(currentDrawingPoint := Strokes.Redo(s.currentDrawingPoint, s.historyDrawingPoint)), dp, true)
    case UnknownStroke => Outcome(s, dp, true)
  }

  /** A guess is correct when present and equal to the secret word ignoring case. */
  predicate IsCorrect(s: RoomState, answer: Option<string>)
  {
    answer.Some? && EqualsIgnoreCase(answer.value, s.currentAnswer)
  }

  /** The scoring half of `answer`. Indexing with -1 throws: before any change
      when the drawer is not in the list, after the drawer's point when the
      answerer is not. */
  function Score(s: RoomState, username: string, answer: Option<string>): Step
  {
    if !IsCorrect(s, answer) then Step(s, true)
    else
      var d := IndexOfFirst(s.connectedClients, s.currentPlayer);
      var a := IndexOfFirst(s.connectedClients, Some(username));
      if d < 0 then Step(s, false)
      else if a < 0 then Step(s.(connectedClients := Bump(s.connectedClients, d)), false)
      else Step(s.(connectedClients := Credit(s.connectedClients, d, a)), true)
  }

  /** The end of a round, shared by `answer` and `timeout`: both stroke lists
      are emptied, the turn passes on, answers are reset and `word` is the new
      secret. With no players, `connectedClients[0]` throws after the strokes
      were cleared. */
  function CompleteRound(s: RoomState, word: string): Step
  {
    var cleared := s.(historyDrawingPoint := [], currentDrawingPoint := []);
    if |s.connectedClients| == 0 then Step(cleared, false)
    else
      var next := s.connectedClients[NextDrawerIndex(s.connectedClients, s.currentPlayer)];
      Step(cleared.(currentPlayer := Some(next.username),
                    connectedClients := ResetAnswers(s.connectedClients),
                    currentAnswer := word), true)
  }

  /** `answer`: score, then end the round if everyone but the drawer has answered. */
  function OnAnswer(s: RoomState, username: string, answer: Option<string>, word: string): Step
  {
    var scored := Score(s, username, answer);
    if !scored.ok then scored
    else if AllAnsweredExcept(scored.room.connectedClients, scored.room.currentPlayer) then
      CompleteRound(scored.room, word)
    else scored
  }

  /** `disconnect`, as far as the room itself is concerned; the registry drops
      the room when no player is left. `currentPlayer` is only filled in when
      it was null. */
  function OnDisconnect(s: RoomState, username: string): RoomState
  {
    var remaining := RemoveAll(s.connectedClients, username);
    var s1 := s.(connectedClients := remaining, sessions := s.sessions - {username});
    if |remaining| == 0 then s1
    else
      s1.(isPlaying := |remaining| > 1,
          currentPlayer := if s.currentPlayer.None? then Some(remaining[0].username) else s.currentPlayer)
  }

  /** One decoded frame from `username`'s connection; `word` is the word drawn
      at random should the frame end a round. */
  function Handle(s: RoomState, dp: Option<DrawingPoint>, username: string, c: Command, word: string): Outcome
  {
    match c
    case JoinMsg =>
      var st := OnJoin(s);
      Outcome(st.room, dp, st.ok)
    case DrawingMsg(kind, offset) => OnDrawing(s, dp, kind, offset)
    case AnswerMsg(answer) =>
      var st := OnAnswer(s, username, answer, word);
      Outcome(st.room, dp, st.ok)
    case TickerMsg(duration) => Outcome(s.(currentDuration := duration), dp, true)
    case TimeoutMsg =>
      var st := CompleteRound(s, word);
      Outcome(st.room, dp, st.ok)
    case DisconnectMsg => Outcome(OnDisconnect(s, username), dp, true)
    case UnknownMsg => Outcome(s, dp, true)
  }

  /** Something that happens to a room: a socket opens, or a frame arrives. */
  datatype Event = Open(username: string) | Receive(username: string, command: Command, word: string)

  predicate WordsFromPool(events: seq<Event>)
  {
    forall i | 0 <= i < |events| :: events[i].Receive? ==> events[i].word in AnimalList
  }

  /** Events applied one at a time, in any interleaving of the connections; a
      failed frame keeps the changes made before the exception. */
  function Run(s: RoomState, dp: Option<DrawingPoint>, events: seq<Event>): Outcome
    decreases |events|
  {
    if events == [] then Outcome(s, dp, true)
    else
      var next := match events[0]
        case Open(username) => Outcome(OnConnect(s, username), dp, true)
        case Receive(username, c, word) => Handle(s, dp, username, c, word);
      Run(next.room, next.drawingPoint, events[1..])
  }

  // ---------------------------------------------------------------------------
  // join

  /** `join` on a playing room changes nothing; otherwise the game is on exactly
      when more than one player is in the list, and the turn goes to the first
      player only if nobody had it. Nothing else changes. */
  lemma OnJoinSpec(s: RoomState)
    ensures s.isPlaying ==> OnJoin(s) == Step(s, true)
    ensures !s.isPlaying ==>
      var r := OnJoin(s).room;
      && r.isPlaying == (|s.connectedClients| > 1)
      && (s.currentPlayer.Some? ==> r.currentPlayer == s.currentPlayer)
      && (s.currentPlayer.None? && |s.connectedClients| > 0 ==>
            r.currentPlayer == Some(s.connectedClients[0].username))
      && r.(isPlaying := s.isPlaying, currentPlayer := s.currentPlayer) == s
      && OnJoin(s).ok == (s.currentPlayer.Some? || |s.connectedClients| > 0)
  {
  }

  /** Two players connect and join a new room in turn: the game is on only
      after the second, and the first one to connect draws. */
  lemma TwoJoinsStartGame(word: string, first: string, second: string)
    ensures
      var one := OnJoin(OnConnect(NewRoom(word), first));
      var two := OnJoin(OnConnect(one.room, second));
      && one.ok && !one.room.isPlaying && one.room.currentPlayer == Some(first)
      && two.ok && two.room.isPlaying && two.room.currentPlayer == Some(first)
  {
  }

  // ---------------------------------------------------------------------------
  // drawing

  /** `start` with an offset appends exactly one stroke holding only that point,
      makes it the stroke in progress, and copies the list into history. */
  lemma StartAppendsStroke(s: RoomState, dp: Option<DrawingPoint>, o: DrawingOffset)
    ensures
      var out := OnDrawing(s, dp, StartStroke, Some(o));
      var cur := out.room.currentDrawingPoint;
      && out.ok
      && |cur| == |s.currentDrawingPoint| + 1
      && cur[..|s.currentDrawingPoint|] == s.currentDrawingPoint
      && cur[|cur| - 1] == DrawingPoint([o])
      && out.drawingPoint == Some(DrawingPoint([o]))
      && out.room.historyDrawingPoint == cur
      && out.room.(currentDrawingPoint := s.currentDrawingPoint, historyDrawingPoint := s.historyDrawingPoint) == s
  {
  }

  /** `update` while a stroke is in progress replaces the last stroke with the
      in-progress one extended by the point, keeps the number of strokes, and
      copies the list into history. */
  lemma UpdateExtendsStroke(s: RoomState, stroke: DrawingPoint, o: DrawingOffset)
    requires |s.currentDrawingPoint| > 0
    ensures
      var out := OnDrawing(s, Some(stroke), UpdateStroke, Some(o));
      var cur := out.room.currentDrawingPoint;
      var n := |s.currentDrawingPoint|;
      && out.ok
      && |cur| == n
      && cur[..n - 1] == s.currentDrawingPoint[..n - 1]
      && cur[n - 1] == DrawingPoint(stroke.offsets + [o])
      && out.drawingPoint == Some(cur[n - 1])
      && out.room.historyDrawingPoint == cur
  {
  }

  /** The two ways `update` fails: with no strokes nothing but the stroke in
      progress changes; with strokes but no stroke in progress the last stroke
      is lost and history is left as it was. */
  lemma UpdateFailures(s: RoomState, dp: Option<DrawingPoint>, o: DrawingOffset)
    ensures |s.currentDrawingPoint| == 0 ==>
      var out := OnDrawing(s, dp, UpdateStroke, Some(o));
      !out.ok && out.room == s
    ensures dp.None? && |s.currentDrawingPoint| > 0 ==>
      var out := OnDrawing(s, dp, UpdateStroke, Some(o));
      && !out.ok && out.drawingPoint.None?
      && out.room.currentDrawingPoint == s.currentDrawingPoint[..|s.currentDrawingPoint| - 1]
      && out.room.historyDrawingPoint == s.historyDrawingPoint
  {
  }

  /** `undo` and `redo` never touch history or the stroke in progress, and
      undo followed by redo restores the strokes on screen whenever there was
      one to undo. */
  lemma UndoThenRedo(s: RoomState, dp: Option<DrawingPoint>)
    requires Inv(s)
    requires |s.currentDrawingPoint| > 0
    ensures
      var undone := OnDrawing(s, dp, UndoStroke, None);
      var redone := OnDrawing(undone.room, undone.drawingPoint, RedoStroke, None);
      && undone.room.historyDrawingPoint == s.historyDrawingPoint
      && |undone.room.currentDrawingPoint| == |s.currentDrawingPoint| - 1
      && redone.room == s && redone.drawingPoint == dp
  {
    Strokes.RedoAfterUndo(s.currentDrawingPoint, s.historyDrawingPoint);
  }

  // ---------------------------------------------------------------------------
  // answer, timeout and the end of a round

  /** A correct answer with both players found: the drawer and the answerer
      gain one point each (two if they are the same player), the answerer is
      marked, and nobody else and nothing else changes. */
  lemma CorrectAnswerCredits(s: RoomState, username: string, answer: Option<string>)
    requires IsCorrect(s, answer)
    requires IndexOfFirst(s.connectedClients, s.currentPlayer) >= 0
    requires IndexOfFirst(s.connectedClients, Some(username)) >= 0
    ensures
      var d := IndexOfFirst(s.connectedClients, s.currentPlayer);
      var a := IndexOfFirst(s.connectedClients, Some(username));
      var st := Score(s, username, answer);
      var ps := st.room.connectedClients;
      && st.ok
      && |ps| == |s.connectedClients|
      && ps[a].isAnswered
      && ps[d].score == (if d == a then Inc(Inc(s.connectedClients[d].score)) else Inc(s.connectedClients[d].score))
      && ps[a].score == (if d == a then Inc(Inc(s.connectedClients[a].score)) else Inc(s.connectedClients[a].score))
      && (forall i | 0 <= i < |ps| && i != d && i != a :: ps[i] == s.connectedClients[i])
      && st.room.(connectedClients := s.connectedClients) == s
  {
    var d := IndexOfFirst(s.connectedClients, s.currentPlayer);
    var a := IndexOfFirst(s.connectedClients, Some(username));
    var ps := Credit(s.connectedClients, d, a);
    forall i | 0 <= i < |ps| && i != d && i != a ensures ps[i] == s.connectedClients[i] {
      assert ps[i].username == s.connectedClients[i].username;
    }
  }

  /** Below the largest `Int`, "one point" is one more. */
  lemma IncAddsOne(x: Int32)
    requires x < MaxInt32 - 1
    ensures Inc(x) == x + 1 && Inc(Inc(x)) == x + 2
  {
  }

  /** Away from the `Int` maximum, a correct answer is worth one point to the
      drawer and one to the answerer, two when they are the same player. */
  lemma CorrectAnswerAddsPoints(s: RoomState, username: string, answer: Option<string>)
    requires IsCorrect(s, answer)
    requires IndexOfFirst(s.connectedClients, s.currentPlayer) >= 0
    requires IndexOfFirst(s.connectedClients, Some(username)) >= 0
    requires forall p | p in s.connectedClients :: p.score < MaxInt32 - 1
    ensures
      var d := IndexOfFirst(s.connectedClients, s.currentPlayer);
      var a := IndexOfFirst(s.connectedClients, Some(username));
      var ps := Score(s, username, answer).room.connectedClients;
      && (d == a ==> ps[d].score == s.connectedClients[d].score + 2)
      && (d != a ==> ps[d].score == s.connectedClients[d].score + 1 && ps[a].score == s.connectedClients[a].score + 1)
  {
    var d := IndexOfFirst(s.connectedClients, s.currentPlayer);
    var a := IndexOfFirst(s.connectedClients, Some(username));
    CorrectAnswerCredits(s, username, answer);
    assert s.connectedClients[d] in s.connectedClients && s.connectedClients[a] in s.connectedClients;
    IncAddsOne(s.connectedClients[d].score);
    IncAddsOne(s.connectedClients[a].score);
  }

  /** A wrong (or missing) answer changes no score and no name, even when it
      ends the round. */
  lemma WrongAnswerKeepsScores(s: RoomState, username: string, answer: Option<string>, word: string)
    requires !IsCorrect(s, answer)
    ensures
      var ps := OnAnswer(s, username, answer, word).room.connectedClients;
      && |ps| == |s.connectedClients|
      && forall i | 0 <= i < |ps| ::
           ps[i].username == s.connectedClients[i].username && ps[i].score == s.connectedClients[i].score
  {
  }

  /** A correct answer whose drawer is no longer in the list throws before
      changing anything. */
  lemma CorrectAnswerWithoutDrawerFails(s: RoomState, username: string, answer: Option<string>, word: string)
    requires IsCorrect(s, answer)
    requires IndexOfFirst(s.connectedClients, s.currentPlayer) == -1
    ensures OnAnswer(s, username, answer, word) == Step(s, false)
  {
  }

  /** Once scoring succeeds, the round ends exactly when every player but the
      drawer has answered. Then the strokes are cleared, `word` is the new
      secret, nobody has answered, names and scores are those after scoring,
      and the player after the drawer draws; in an empty room (reachable only
      by a wrong answer) `connectedClients[0]` throws instead. Otherwise the
      strokes, the turn and the word stay as scoring left them. */
  lemma AnswerEndsRoundIff(s: RoomState, username: string, answer: Option<string>, word: string)
    requires Score(s, username, answer).ok
    ensures
      var scored := Score(s, username, answer).room;
      var r := OnAnswer(s, username, answer, word);
      var ps := r.room.connectedClients;
      && r.ok == (|scored.connectedClients| > 0 || !AllAnsweredExcept(scored.connectedClients, scored.currentPlayer))
      && |ps| == |scored.connectedClients|
      && (AllAnsweredExcept(scored.connectedClients, scored.currentPlayer) && |ps| > 0 ==>
            var k := IndexOfFirst(scored.connectedClients, scored.currentPlayer);
            && r.room.currentDrawingPoint == [] && r.room.historyDrawingPoint == []
            && r.room.currentAnswer == word
            && r.room.currentPlayer == Some(scored.connectedClients[(k + 1) % |ps|].username)
            && forall i | 0 <= i < |ps| ::
                 && ps[i].username == scored.connectedClients[i].username
                 && ps[i].score == scored.connectedClients[i].score
                 && !ps[i].isAnswered)
      && (!AllAnsweredExcept(scored.connectedClients, scored.currentPlayer) ==> r.room == scored)
  {
    CompleteRoundSpec(Score(s, username, answer).room, word);
  }

  /** The end of a round: both stroke lists are empty, nobody has answered,
      names and scores are kept, the turn passes to the player after the
      drawer (the last wrapping to the first, the first when the drawer is
      gone) and `word` is the secret. Without players only the strokes go, and
      the handler throws. */
  lemma CompleteRoundSpec(s: RoomState, word: string)
    ensures
      var st := CompleteRound(s, word);
      var ps := st.room.connectedClients;
      && st.room.currentDrawingPoint == [] && st.room.historyDrawingPoint == []
      && st.ok == (|s.connectedClients| > 0)
      && |ps| == |s.connectedClients|
      && (forall i | 0 <= i < |ps| ::
            ps[i].username == s.connectedClients[i].username
            && ps[i].score == s.connectedClients[i].score
            && (st.ok ==> !ps[i].isAnswered))
      && (st.ok ==>
            var k := IndexOfFirst(s.connectedClients, s.currentPlayer);
            && st.room.currentPlayer == Some(s.connectedClients[(k + 1) % |ps|].username)
            && (k == -1 ==> st.room.currentPlayer == Some(s.connectedClients[0].username))
            && st.room.currentAnswer == word)
      && (!st.ok ==> st.room.currentPlayer == s.currentPlayer && st.room.currentAnswer == s.currentAnswer)
      && st.room.sessions == s.sessions && st.room.isPlaying == s.isPlaying
      && st.room.currentDuration == s.currentDuration
  {
  }

  // ---------------------------------------------------------------------------
  // disconnect

  /** `disconnect` removes every player with that username and the session;
      the others stay in order. When some remain, the game is on exactly when
      more than one does, and the turn is only filled in when nobody had it. */
  lemma OnDisconnectSpec(s: RoomState, username: string)
    ensures
      var r := OnDisconnect(s, username);
      && (forall p | p in r.connectedClients :: p.username != username)
      && IsSubsequence(r.connectedClients, s.connectedClients)
      && (forall p | p in s.connectedClients && p.username != username :: p in r.connectedClients)
      && r.sessions == s.sessions - {username}
      && (r.connectedClients == [] <==> forall p | p in s.connectedClients :: p.username == username)
      && (|r.connectedClients| > 0 ==>
            && r.isPlaying == (|r.connectedClients| > 1)
            && r.currentPlayer == if s.currentPlayer.None? then Some(r.connectedClients[0].username) else s.currentPlayer)
      && r.currentDrawingPoint == s.currentDrawingPoint && r.historyDrawingPoint == s.historyDrawingPoint
      && r.currentAnswer == s.currentAnswer
  {
    var r := OnDisconnect(s, username);
    forall p | p in s.connectedClients && p.username != username ensures p in r.connectedClients {
      assert multiset(s.connectedClients)[p] > 0;
    }
    if r.connectedClients != [] {
      var q := r.connectedClients[0];
      assert multiset(r.connectedClients)[q] > 0;
      assert q in s.connectedClients && q.username != username;
    }
  }

  /** When the drawer disconnects and others stay, the room still names the
      departed drawer as `currentPlayer`, and a correct answer then throws
      without scoring. Ending the round hands the turn to the first player:
      a `timeout` does, and so does a wrong answer once every remaining player
      has answered. */
  lemma DepartedDrawerStays(s: RoomState, username: string, answer: Option<string>, guesser: string, word: string)
    requires s.currentPlayer == Some(username)
    requires exists p :: p in s.connectedClients && p.username != username
    ensures
      var r := OnDisconnect(s, username);
      && r.currentPlayer == Some(username)
      && IndexOfFirst(r.connectedClients, r.currentPlayer) == -1
      && (IsCorrect(r, answer) ==> OnAnswer(r, guesser, answer, word) == Step(r, false))
      && CompleteRound(r, word).room.currentPlayer == Some(r.connectedClients[0].username)
      && (!IsCorrect(r, answer) && AllAnsweredExcept(r.connectedClients, r.currentPlayer) ==>
            OnAnswer(r, guesser, answer, word).room.currentPlayer == Some(r.connectedClients[0].username))
  {
    var r := OnDisconnect(s, username);
    OnDisconnectSpec(s, username);
    var p :| p in s.connectedClients && p.username != username;
    assert p in r.connectedClients;
  }

  // ---------------------------------------------------------------------------
  // the invariant

  lemma OnDrawingKeepsInv(s: RoomState, dp: Option<DrawingPoint>, kind: DrawingKind, offset: Option<DrawingOffset>)
    requires Inv(s)
    ensures Inv(OnDrawing(s, dp, kind, offset).room)
  {
    var cur, hist := s.currentDrawingPoint, s.historyDrawingPoint;
    match kind
    case UndoStroke => Strokes.UndoKeepsPrefix(cur, hist);
    case RedoStroke => Strokes.RedoKeepsPrefix(cur, hist);
    case UpdateStroke =>
      if offset.Some? && |cur| > 0 {
        assert cur[..|cur| - 1] == hist[..|cur| - 1];
      }
    case _ =>
  }

  /** Every frame keeps the room's invariant, whatever it does and whether or
      not it throws. */
  lemma HandleKeepsInv(s: RoomState, dp: Option<DrawingPoint>, username: string, c: Command, word: string)
    requires Inv(s) && word in AnimalList
    ensures Inv(Handle(s, dp, username, c, word).room)
  {
    match c
    case DrawingMsg(kind, offset) => OnDrawingKeepsInv(s, dp, kind, offset);
    case _ =>
  }

  /** So does any interleaving of connections and frames. */
  lemma {:induction false} RunKeepsInv(s: RoomState, dp: Option<DrawingPoint>, events: seq<Event>)
    requires Inv(s) && WordsFromPool(events)
    ensures Inv(Run(s, dp, events).room)
    decreases |events|
  {
    if events != [] {
      if events[0].Receive? {
        HandleKeepsInv(s, dp, events[0].username, events[0].command, events[0].word);
      }
      var next := match events[0]
        case Open(username) => Outcome(OnConnect(s, username), dp, true)
        case Receive(username, c, word) => Handle(s, dp, username, c, word);
      assert WordsFromPool(events[1..]) by {
        forall i | 0 <= i < |events[1..]| && events[1..][i].Receive? ensures events[1..][i].word in AnimalList {
          assert events[1..][i] == events[i + 1];
        }
      }
      RunKeepsInv(next.room, next.drawingPoint, events[1..]);
    }
  }

  // ---------------------------------------------------------------------------
  // a round played through

  /** A room on "Lion": A and B connect and join, A starts a stroke, B answers
      "lion". Both score one point, the strokes are gone, B draws next, and the
      new word is in place. */
  lemma LionRound(o: DrawingOffset, next: string)
    ensures
      var joined := OnJoin(OnConnect(OnJoin(OnConnect(NewRoom("Lion"), "A")).room, "B")).room;
      var drawn := OnDrawing(joined, None, StartStroke, Some(o));
      var answered := OnAnswer(drawn.room, "B", Some("lion"), next);
      && joined.isPlaying && joined.currentPlayer == Some("A")
      && drawn.room.currentDrawingPoint == [DrawingPoint([o])]
      && answered.ok
      && answered.room.connectedClients == [GamePlayer("A", 1, false), GamePlayer("B", 1, false)]
      && answered.room.currentPlayer == Some("B")
      && answered.room.currentAnswer == next
      && answered.room.currentDrawingPoint == [] && answered.room.historyDrawingPoint == []
  {
    var joined := OnJoin(OnConnect(OnJoin(OnConnect(NewRoom("Lion"), "A")).room, "B")).room;
    assert joined.connectedClients == [NewPlayer("A"), NewPlayer("B")];
    var drawn := OnDrawing(joined, None, StartStroke, Some(o));
    assert EqualsIgnoreCase("lion", "Lion") by {
      assert LowerChar('L') == 'l';
    }
    var ps := drawn.room.connectedClients;
    assert IndexOfFirst(ps, Some("A")) == 0;
    assert IndexOfFirst(ps, Some("B")) == 1 by {
      assert IndexOfFirst(ps[1..], Some("B")) == 0;
    }
    var scored := Score(drawn.room, "B", Some("lion"));
    assert scored.room.connectedClients == [GamePlayer("A", 1, false), GamePlayer("B", 1, true)];
    assert AllAnsweredExcept(scored.room.connectedClients, Some("A"));
    assert NextDrawerIndex(scored.room.connectedClients, Some("A")) == 1;
    var done := CompleteRound(scored.room, next);
    assert done.room.connectedClients == [GamePlayer("A", 1, false), GamePlayer("B", 1, false)];
  }
}
