/** The frames a client sends on the game socket, and the command each one selects. */
module Protocol {
  import opened Basics
  import opened Model

  /** A decoded inbound frame: every field may be absent. */
  datatype IncomingMessage = IncomingMessage(
    methodTag: Option<string>,
    drawingType: Option<string>,
    answer: Option<string>,
    offset: Option<DrawingOffset>,
    duration: Option<Int32>)

  /** The `type` of a drawing frame. */
  datatype DrawingKind = StartStroke | UpdateStroke | EndStroke | UndoStroke | RedoStroke | UnknownStroke

  /** The `method` of a frame, with the fields that method reads. */
  datatype Command =
    | JoinMsg
    | DrawingMsg(kind: DrawingKind, offset: Option<DrawingOffset>)
    | AnswerMsg(answer: Option<string>)
    | TickerMsg(duration: Option<Int32>)
    | TimeoutMsg
    | DisconnectMsg
    | UnknownMsg

  const KnownMethods: set<string> := {"join", "drawing", "answer", "ticker", "timeout", "disconnect"}

  /** The `when (decodedJson.type)` dispatch inside a drawing frame. */
  function KindOf(drawingType: Option<string>): (k: DrawingKind)
    ensures k == StartStroke <==> drawingType == Some("start")
    ensures k == UpdateStroke <==> drawingType == Some("update")
    ensures k == EndStroke <==> drawingType == Some("end")
    ensures k == UndoStroke <==> drawingType == Some("undo")
    ensures k == RedoStroke <==> drawingType == Some("redo")
    ensures k == UnknownStroke <==> drawingType !in {Some("start"), Some("update"), Some("end"), Some("undo"), Some("redo")}
  {
    match drawingType
    case Some("start") => StartStroke
    case Some("update") => UpdateStroke
    case Some("end") => EndStroke
    case Some("undo") => UndoStroke
    case Some("redo") => RedoStroke
    case _ => UnknownStroke
  }

  /** The `when (decodedJson.method)` dispatch: a frame whose method is missing or
      not one of the six known names does nothing; the others keep their payload. */
  function Decode(m: IncomingMessage): (c: Command)
    ensures c.UnknownMsg? <==> m.methodTag.None? || m.methodTag.value !in KnownMethods
    ensures c == JoinMsg <==> m.methodTag == Some("join")
    ensures c.DrawingMsg? <==> m.methodTag == Some("drawing")
    ensures c.DrawingMsg? ==> c == DrawingMsg(KindOf(m.drawingType), m.offset)
    ensures c.AnswerMsg? <==> m.methodTag == Some("answer")
    ensures c.AnswerMsg? ==> c.answer == m.answer
    ensures c.TickerMsg? <==> m.methodTag == Some("ticker")
    ensures c.TickerMsg? ==> c.duration == m.duration
    ensures c == TimeoutMsg <==> m.methodTag == Some("timeout")
    ensures c == DisconnectMsg <==> m.methodTag == Some("disconnect")
  {
    match m.methodTag
    case Some("join") => JoinMsg
    case Some("drawing") => DrawingMsg(KindOf(m.drawingType), m.offset)
    case Some("answer") => AnswerMsg(m.answer)
    case Some("ticker") => TickerMsg(m.duration)
    case Some("timeout") => TimeoutMsg
    case Some("disconnect") => DisconnectMsg
    case _ => UnknownMsg
  }
}
