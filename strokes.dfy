/** The room's stroke list and the history snapshot that redo reads from. */
module Strokes {
  import opened Model

  /** The shape both lists always keep: the strokes on screen are the first
      strokes of the history. */
  predicate IsPrefix(current: seq<DrawingPoint>, history: seq<DrawingPoint>)
  {
    |current| <= |history| && current == history[..|current|]
  }

  /** `undo`: drop the last stroke when both lists are non-empty. */
  function Undo(current: seq<DrawingPoint>, history: seq<DrawingPoint>): seq<DrawingPoint>
  {
    if |current| > 0 && |history| > 0 then current[..|current| - 1] else current
  }

  /** `redo`: put back the history stroke at the current length, if there is one. */
  function Redo(current: seq<DrawingPoint>, history: seq<DrawingPoint>): seq<DrawingPoint>
  {
    if |current| < |history| then current + [history[|current|]] else current
  }

  /** Undo shortens the list by exactly one stroke when there is one, and keeps it
      a prefix of the untouched history. */
  lemma UndoKeepsPrefix(current: seq<DrawingPoint>, history: seq<DrawingPoint>)
    requires IsPrefix(current, history)
    ensures IsPrefix(Undo(current, history), history)
    ensures |Undo(current, history)| == if |current| > 0 then |current| - 1 else 0
  {
  }

  /** Redo brings back exactly the next stroke of history, or changes nothing
      when the whole history is on screen. */
  lemma RedoKeepsPrefix(current: seq<DrawingPoint>, history: seq<DrawingPoint>)
    requires IsPrefix(current, history)
    ensures IsPrefix(Redo(current, history), history)
    ensures |current| < |history| ==> Redo(current, history) == history[..|current| + 1]
    ensures |current| == |history| ==> Redo(current, history) == current
  {
    if |current| < |history| {
      assert history[..|current| + 1] == history[..|current|] + [history[|current|]];
    }
  }

  /** Undo immediately followed by redo gives back the strokes on screen, unless
      the screen was empty while history was not (then redo brings the first
      history stroke). */
  lemma RedoAfterUndo(current: seq<DrawingPoint>, history: seq<DrawingPoint>)
    requires IsPrefix(current, history)
    ensures Redo(Undo(current, history), history) == current <==> (|current| > 0 || |history| == 0)
  {
    if |current| > 0 {
      assert current == current[..|current| - 1] + [history[|current| - 1]];
    }
  }

  /** Repeated redo from any prefix walks up to the whole history. */
  function RedoTimes(current: seq<DrawingPoint>, history: seq<DrawingPoint>, n: nat): seq<DrawingPoint>
    decreases n
  {
    if n == 0 then current else RedoTimes(Redo(current, history), history, n - 1)
  }

  lemma {:induction false} RedoRestoresHistory(current: seq<DrawingPoint>, history: seq<DrawingPoint>)
    requires IsPrefix(current, history)
    ensures RedoTimes(current, history, |history| - |current|) == history
    decreases |history| - |current|
  {
    if |current| < |history| {
      RedoKeepsPrefix(current, history);
      RedoRestoresHistory(Redo(current, history), history);
    }
  }
}
