/**
 * The undo and redo stacks of `QuoridorGame` (game/logic.py): `apply_move`
 * trims the history to its newest `MaxHistory` snapshots and, when it
 * records, pushes the board it is about to change and empties the redo
 * stack; `undo` and `redo` move the board between the two stacks.
 */
module History {
  import opened Board
  import opened Rules

  /** `GameConfig.MAX_HISTORY`. */
  const MaxHistory := 200

  /** The board with its two snapshot stacks; the top of each stack is its last element. */
  datatype Session = Session(board: State, history: seq<State>, redo: seq<State>)

  /** `del history[0 : len - MaxHistory]` when the history is longer than `MaxHistory`. */
  function Trim(h: seq<State>): (r: seq<State>)
    ensures |r| == (if |h| > MaxHistory then MaxHistory else |h|)
    ensures r == h[|h| - |r|..]
  {
    if |h| > MaxHistory then h[|h| - MaxHistory..] else h
  }

  /** The session after `apply_move(m, record)`. */
  function Commit(x: Session, m: Move, record: bool): Session {
    var h := Trim(x.history);
    if record then Session(Apply(x.board, m), h + [x.board], [])
    else Session(Apply(x.board, m), h, x.redo)
  }

  /** The session after `undo()`: unchanged on an empty history. */
  function Undone(x: Session): Session {
    if x.history == [] then x
    else Session(x.history[|x.history| - 1], x.history[..|x.history| - 1], x.redo + [x.board])
  }

  /** The session after `redo()`: unchanged on an empty redo stack. */
  function Redone(x: Session): Session {
    if x.redo == [] then x
    else Session(x.redo[|x.redo| - 1], x.history + [x.board], x.redo[..|x.redo| - 1])
  }

  /**
   * A recorded move leaves the previous board on top of the history, keeps
   * the newest snapshots before it, and empties the redo stack; an unrecorded
   * move only trims.
   */
  lemma CommitSpec(x: Session, m: Move, record: bool)
    ensures var y := Commit(x, m, record);
      y.board == Apply(x.board, m) &&
      (record ==> y.redo == [] && |y.history| > 0 && y.history[|y.history| - 1] == x.board &&
                  y.history[..|y.history| - 1] == Trim(x.history)) &&
      (!record ==> y.redo == x.redo && y.history == Trim(x.history))
  {
    if record {
      var h := Trim(x.history);
      assert (h + [x.board])[..|h|] == h;
    }
  }

  /** The stacks together never hold more than `MaxHistory + 1` snapshots. */
  ghost predicate Bounded(x: Session) {
    |x.history| + |x.redo| <= MaxHistory + 1
  }

  lemma BoundedKept(x: Session, m: Move, record: bool)
    requires Bounded(x)
    ensures Bounded(Commit(x, m, record)) && Bounded(Undone(x)) && Bounded(Redone(x))
    ensures |Commit(x, m, record).history| <= MaxHistory + 1
  {
  }

  /** `undo` on an empty history and `redo` on an empty redo stack change nothing. */
  lemma EmptyStacksNoop(x: Session)
    ensures x.history == [] ==> Undone(x) == x
    ensures x.redo == [] ==> Redone(x) == x
  {
  }

  /** `undo` then `redo` gives back the whole session, and so does `redo` then `undo`. */
  lemma UndoRedoInverse(x: Session)
    ensures x.history != [] ==> Redone(Undone(x)) == x
    ensures x.redo != [] ==> Undone(Redone(x)) == x
  {
    if x.history != [] {
      var h := x.history;
      assert h[..|h| - 1] + [h[|h| - 1]] == h;
      assert (x.redo + [x.board])[..|x.redo|] == x.redo;
    }
    if x.redo != [] {
      var r := x.redo;
      assert r[..|r| - 1] + [r[|r| - 1]] == r;
      assert (x.history + [x.board])[..|x.history|] == x.history;
    }
  }

  /** `n` undos in a row. */
  function UndoTimes(x: Session, n: nat): Session
    decreases n
  {
    if n == 0 then x else UndoTimes(Undone(x), n - 1)
  }

  /** `n` redos in a row. */
  function RedoTimes(x: Session, n: nat): Session
    decreases n
  {
    if n == 0 then x else RedoTimes(Redone(x), n - 1)
  }

  lemma {:induction false} UndoTimesStacks(x: Session, n: nat)
    requires n <= |x.history|
    ensures |UndoTimes(x, n).history| == |x.history| - n
    ensures |UndoTimes(x, n).redo| == |x.redo| + n
    decreases n
  {
    if n > 0 {
      UndoTimesStacks(Undone(x), n - 1);
    }
  }

  /** Undoing `n` moves that the history holds and redoing them gives back the session. */
  lemma {:induction false} UndoRedoTimes(x: Session, n: nat)
    requires n <= |x.history|
    ensures RedoTimes(UndoTimes(x, n), n) == x
    decreases n
  {
    if n > 0 {
      var y := Undone(x);
      UndoRedoTimes(y, n - 1);
      RedoTimesLast(UndoTimes(y, n - 1), n - 1);
      UndoRedoInverse(x);
    }
  }

  lemma {:induction false} RedoTimesLast(z: Session, n: nat)
    ensures RedoTimes(z, n + 1) == Redone(RedoTimes(z, n))
    decreases n
  {
    if n > 0 {
      RedoTimesLast(Redone(z), n - 1);
    }
  }
}
