/** The records of the drawing game and the fixed pool of secret words. */
module Model {
  import opened Basics

  /** One pen position. The coordinates are Kotlin `Double?` values that are only
      stored and forwarded, never computed on. */
  datatype DrawingOffset = DrawingOffset(dx: Option<real>, dy: Option<real>)

  /** One stroke: the pen positions from pen-down to pen-up. */
  datatype DrawingPoint = DrawingPoint(offsets: seq<DrawingOffset>)

  /** A player of one room. */
  datatype GamePlayer = GamePlayer(username: string, score: Int32, isAnswered: bool)

  /** A freshly connected player. */
  function NewPlayer(username: string): GamePlayer
  {
    GamePlayer(username, 0, false)
  }

  /** Everything a `GameRoom` holds besides its id, as one value.
      `sessions` is the key set of `connectedClientsSession` (username to live socket);
      `currentPlayer` is the username of the player the room's pointer refers to. */
  datatype RoomState = RoomState(
    sessions: set<string>,
    connectedClients: seq<GamePlayer>,
    isPlaying: bool,
    currentPlayer: Option<string>,
    currentDuration: Option<Int32>,
    currentAnswer: string,
    currentDrawingPoint: seq<DrawingPoint>,
    historyDrawingPoint: seq<DrawingPoint>)

  /** The words a round can be played on. */
  const AnimalList: seq<string> := [
    "Lion", "Tiger", "Elephant", "Giraffe", "Bear", "Wolf", "Gorilla", "Chimpanzee",
    "Zebra", "Hippopotamus", "Crocodile", "Snake", "Shark", "Whale", "Dolphin", "Seal",
    "Walrus", "Rhinoceros", "Kangaroo", "Platypus", "Echidna", "Tasmanian devil", "Koala",
    "Ostrich", "Emu", "Cassowary", "Alligator", "Lizard", "Iguana", "Gecko"
  ]
}
