/**
 * `QuoridorGame` (game/logic.py) as an object whose methods update its
 * fields in place. Each method is proved against the board functions of
 * `Rules`, `History` and `PathFinder`.
 */
module Game {
  import opened Wrappers
  import opened Board
  import opened PathFinder
  import opened Rules
  import opened History

  class QuoridorGame {
    var p1Pos: Pos
    var p2Pos: Pos
    var walls: seq<Wall>
    var turn: int
    var p1Walls: int
    var p2Walls: int
    var winner: int
    var history: seq<State>
    var redoHistory: seq<State>

    /** The board fields: what `save_state` keeps and `restore_state` puts back. */
    function Board(): State
      reads this
    {
      State(p1Pos, p2Pos, walls, turn, p1Walls, p2Walls, winner)
    }

    /** The board with both snapshot stacks. */
    function Session(): History.Session
      reads this
    {
      History.Session(Board(), history, redoHistory)
    }

    /** A new game: pawns at the middle of their home rows, ten walls each, player 1 to move. */
    constructor()
      ensures Board() == Initial() && history == [] && redoHistory == []
    {
      p1Pos, p2Pos := Pos(4, Size - 1), Pos(4, 0);
      walls := [];
      turn := 1;
      p1Walls, p2Walls := StartWalls, StartWalls;
      winner := NoWinner;
      history, redoHistory := [], [];
    }

    /** `restore_state`: the board fields take the snapshot's values; the stacks stay. */
    method RestoreState(snap: State)
      modifies this
      ensures Board() == snap
      ensures history == old(history) && redoHistory == old(redoHistory)
    {
      p1Pos, p2Pos, walls := snap.p1, snap.p2, snap.walls;
      turn, p1Walls, p2Walls, winner := snap.turn, snap.p1Walls, snap.p2Walls, snap.winner;
    }

    /** `get_valid_pawn_moves(player_id)`. */
    method GetValidPawnMoves(playerId: int) returns (moves: seq<Pos>)
      ensures moves == PawnMoves(Board(), playerId)
    {
      if winner != NoWinner {
        return [];
      }
      var cur := if playerId == 1 then p1Pos else p2Pos;
      var opp := if playerId == 1 then p2Pos else p1Pos;
      moves := [];
      var ns := Neighbors(cur, walls);
      var i := 0;
      while i < |ns|
        invariant 0 <= i <= |ns|
        invariant moves == Steps(ns[..i], cur, opp, walls)
      {
        var n := ns[i];
        if n == opp {
          moves := AppendOverOpponent(moves, cur, opp);
        } else {
          moves := moves + [n];
        }
        assert ns[..i + 1][..i] == ns[..i];
        i := i + 1;
      }
      assert ns[..i] == ns;
    }

    /** The branch of `get_valid_pawn_moves` for the neighbour holding the opponent. */
    method AppendOverOpponent(moves: seq<Pos>, cur: Pos, opp: Pos) returns (moves': seq<Pos>)
      ensures moves' == moves + OverOpponent(cur, opp, walls)
    {
      moves' := moves;
      var jump := Pos(opp.x + (opp.x - cur.x), opp.y + (opp.y - cur.y));
      var canJumpStraight := false;
      if 0 <= jump.x < Size && 0 <= jump.y < Size {
        if !IsWallBlocking(opp, jump, walls) {
          moves' := moves' + [jump];
          canJumpStraight := true;
        }
      }
      if !canJumpStraight {
        var ons := Neighbors(opp, walls);
        var j := 0;
        while j < |ons|
          invariant 0 <= j <= |ons|
          invariant moves' == moves + Without(ons[..j], cur)
        {
          if ons[j] != cur {
            moves' := moves' + [ons[j]];
          }
          assert ons[..j + 1][..j] == ons[..j];
          j := j + 1;
        }
        assert ons[..j] == ons;
      }
    }

    /**
     * `is_valid_wall(x, y, orient)`: the static tests, then the wall is
     * appended, both players' path lengths are taken, and it is popped again.
     */
    method IsValidWall(x: int, y: int, o: Orient) returns (ok: bool)
      modifies this
      ensures ok == WallLegal(old(Board()), x, y, o)
      ensures Board() == old(Board()) && history == old(history) && redoHistory == old(redoHistory)
    {
      if winner != NoWinner {
        return false;
      }
      if !(0 <= x < Slots && 0 <= y < Slots) {
        return false;
      }
      var i := 0;
      while i < |walls|
        invariant 0 <= i <= |walls|
        invariant forall j :: 0 <= j < i ==> !Clashes(walls[j], x, y, o)
      {
        var w := walls[i];
        if w.x == x && w.y == y {
          return false;
        }
        if o == H && w.o == H && w.y == y && Abs(w.x - x) <= 1 {
          return false;
        }
        if o == V && w.o == V && w.x == x && Abs(w.y - y) <= 1 {
          return false;
        }
        if w.x == x && w.y == y && w.o != o {
          return false;
        }
        i := i + 1;
      }
      if turn == 1 && p1Walls <= 0 {
        return false;
      }
      if turn == 2 && p2Walls <= 0 {
        return false;
      }
      walls := walls + [Wall(x, y, o)];
      var p1Len := ShortestPathLen(p1Pos, 0, walls);
      var p2Len := ShortestPathLen(p2Pos, Size - 1, walls);
      walls := walls[..|walls| - 1];
      assert walls == old(walls);
      ok := p1Len < Unreachable && p2Len < Unreachable;
    }

    /** `check_win`. */
    method CheckWin()
      modifies this
      ensures Board() == Rules.CheckWin(old(Board()))
      ensures history == old(history) && redoHistory == old(redoHistory)
    {
      if p1Pos.y == 0 {
        winner := 1;
      } else if p2Pos.y == Size - 1 {
        winner := 2;
      }
    }

    /** The move, `check_win` and the turn change shared by `apply_move` and `apply_move_fast`. */
    method Play(move: Move)
      modifies this
      ensures Board() == Apply(old(Board()), move)
      ensures history == old(history) && redoHistory == old(redoHistory)
    {
      match move {
        case MoveTo(dest) =>
          if turn == 1 {
            p1Pos := dest;
          } else {
            p2Pos := dest;
          }
        case PlaceWall(w) =>
          walls := walls + [w];
          if turn == 1 {
            p1Walls := p1Walls - 1;
          } else {
            p2Walls := p2Walls - 1;
          }
      }
      CheckWin();
      turn := if turn == 1 then 2 else 1;
    }

    /** `apply_move(move, record_history)`: trim the history, record the board, play. */
    method ApplyMove(move: Move, recordHistory: bool)
      modifies this
      ensures Session() == Commit(old(Session()), move, recordHistory)
    {
      if |history| > MaxHistory {
        history := history[|history| - MaxHistory..];
      }
      if recordHistory {
        history := history + [Board()];
        redoHistory := [];
      }
      Play(move);
    }

    /** `apply_move_fast(move)`: play without touching the stacks and return what undoes it. */
    method ApplyMoveFast(move: Move) returns (undo: Undo)
      modifies this
      ensures Board() == Apply(old(Board()), move) && undo == Token(old(Board()), move)
      ensures history == old(history) && redoHistory == old(redoHistory)
    {
      match move {
        case MoveTo(_) =>
          undo := UndoMove(turn, winner, if turn == 1 then p1Pos else p2Pos);
        case PlaceWall(_) =>
          undo := UndoWall(turn, winner);
      }
      Play(move);
    }

    /** `undo_move_fast(undo_data)`. */
    method UndoMoveFast(undo: Undo)
      requires undo.UndoWall? ==> |walls| > 0
      modifies this
      ensures Board() == Unapply(old(Board()), undo)
      ensures history == old(history) && redoHistory == old(redoHistory)
    {
      turn := undo.turn;
      winner := undo.winner;
      match undo
      case UndoMove(_, _, prev) =>
        if turn == 1 {
          p1Pos := prev;
        } else {
          p2Pos := prev;
        }
      case UndoWall(_, _) =>
        walls := walls[..|walls| - 1];
        if turn == 1 {
          p1Walls := p1Walls + 1;
        } else {
          p2Walls := p2Walls + 1;
        }
    }

    /** `undo()`: false, changing nothing, on an empty history. */
    method Undo() returns (ok: bool)
      modifies this
      ensures ok == (old(history) != [])
      ensures Session() == Undone(old(Session()))
    {
      if history != [] {
        redoHistory := redoHistory + [Board()];
        var snap := history[|history| - 1];
        history := history[..|history| - 1];
        RestoreState(snap);
        return true;
      }
      return false;
    }

    /** `redo()`: false, changing nothing, on an empty redo stack. */
    method Redo() returns (ok: bool)
      modifies this
      ensures ok == (old(redoHistory) != [])
      ensures Session() == Redone(old(Session()))
    {
      if redoHistory != [] {
        history := history + [Board()];
        var snap := redoHistory[|redoHistory| - 1];
        redoHistory := redoHistory[..|redoHistory| - 1];
        RestoreState(snap);
        return true;
      }
      return false;
    }
  }
}
