/**
 * The rules of `QuoridorGame` (game/logic.py) on board values: the fields
 * `save_state` keeps, the move transition of `apply_move` and
 * `apply_move_fast` with `check_win`, the undo token of `undo_move_fast`,
 * pawn-move generation and wall legality, and the invariant that legal
 * play keeps.
 */
module Rules {
  import opened Wrappers
  import opened Board
  import opened PathFinder

  /** Walls each player holds at the start. */
  const StartWalls := 10
  /** `winner` while nobody has won (Python `None`). */
  const NoWinner := 0

  /** A move dictionary: `{'type': 'MOVE', 'dest': d}` or `{'type': 'WALL', 'pos': .., 'orient': ..}`. */
  datatype Move = MoveTo(dest: Pos) | PlaceWall(wall: Wall)

  /** The board fields of `QuoridorGame`: everything `save_state` keeps. */
  datatype State = State(p1: Pos, p2: Pos, walls: seq<Wall>, turn: int, p1Walls: int, p2Walls: int, winner: int)

  /** The board of a new game. */
  function Initial(): State {
    State(Pos(4, Size - 1), Pos(4, 0), [], 1, StartWalls, StartWalls, NoWinner)
  }

  /** The player who moves next: 1 when `turn` is 1, otherwise 2. */
  function Other(turn: int): int {
    if turn == 1 then 2 else 1
  }

  /** `check_win`: player 1 wins on row 0, else player 2 on the last row; otherwise nothing changes. */
  function CheckWin(s: State): State {
    if s.p1.y == 0 then s.(winner := 1)
    else if s.p2.y == Size - 1 then s.(winner := 2)
    else s
  }

  /** The move itself, before `check_win` and the turn change. */
  function Place(s: State, m: Move): State {
    match m
    case MoveTo(d) =>
      if s.turn == 1 then s.(p1 := d) else s.(p2 := d)
    case PlaceWall(w) =>
      if s.turn == 1 then s.(walls := s.walls + [w], p1Walls := s.p1Walls - 1)
      else s.(walls := s.walls + [w], p2Walls := s.p2Walls - 1)
  }

  /** The board after `apply_move(m)` or `apply_move_fast(m)`. */
  function Apply(s: State, m: Move): State {
    CheckWin(Place(s, m)).(turn := Other(s.turn))
  }

  /**
   * The transition in outcome terms: a pawn move puts the mover on `dest`,
   * a wall goes on the end of the list and costs the mover one wall, nothing
   * else of the board moves, the turn passes, and the winner is set from
   * the new pawn rows and never cleared.
   */
  lemma ApplySpec(s: State, m: Move)
    ensures var r := Apply(s, m);
      r.turn == Other(s.turn) &&
      (m.MoveTo? ==>
        (if s.turn == 1 then r.p1 == m.dest && r.p2 == s.p2 else r.p2 == m.dest && r.p1 == s.p1) &&
        r.walls == s.walls && r.p1Walls == s.p1Walls && r.p2Walls == s.p2Walls) &&
      (m.PlaceWall? ==>
        r.p1 == s.p1 && r.p2 == s.p2 && r.walls == s.walls + [m.wall] &&
        (if s.turn == 1 then r.p1Walls == s.p1Walls - 1 && r.p2Walls == s.p2Walls
         else r.p2Walls == s.p2Walls - 1 && r.p1Walls == s.p1Walls)) &&
      (r.p1.y == 0 ==> r.winner == 1) &&
      (r.p1.y != 0 && r.p2.y == Size - 1 ==> r.winner == 2) &&
      (r.p1.y != 0 && r.p2.y != Size - 1 ==> r.winner == s.winner) &&
      (s.winner != NoWinner ==> r.winner != NoWinner)
  {
  }

  /** The `undo_data` of `apply_move_fast`: the turn, the winner and, for a pawn move, where the mover stood. */
  datatype Undo = UndoMove(turn: int, winner: int, prevPos: Pos) | UndoWall(turn: int, winner: int)

  /** The `undo_data` that `apply_move_fast(m)` returns on board `s`. */
  function Token(s: State, m: Move): Undo {
    match m
    case MoveTo(_) => UndoMove(s.turn, s.winner, if s.turn == 1 then s.p1 else s.p2)
    case PlaceWall(_) => UndoWall(s.turn, s.winner)
  }

  /** The board after `undo_move_fast(u)`; popping a wall needs one to pop. */
  function Unapply(s: State, u: Undo): State
    requires u.UndoWall? ==> |s.walls| > 0
  {
    var t := s.(turn := u.turn, winner := u.winner);
    match u
    case UndoMove(_, _, prev) =>
      if t.turn == 1 then t.(p1 := prev) else t.(p2 := prev)
    case UndoWall(_, _) =>
      var t' := t.(walls := t.walls[..|t.walls| - 1]);
      if t'.turn == 1 then t'.(p1Walls := t'.p1Walls + 1) else t'.(p2Walls := t'.p2Walls + 1)
  }

  /** `undo_move_fast(apply_move_fast(m))` gives back every board field, on any board and for any move. */
  lemma UndoAfterApply(s: State, m: Move)
    ensures m.PlaceWall? ==> |Apply(s, m).walls| > 0
    ensures Unapply(Apply(s, m), Token(s, m)) == s
  {
    if m.PlaceWall? {
      assert (s.walls + [m.wall])[..|s.walls|] == s.walls;
    }
  }

  /** A straight jump over the opponent on `opp`, seen from `cur`. */
  function Jump(cur: Pos, opp: Pos): Pos {
    Pos(opp.x + (opp.x - cur.x), opp.y + (opp.y - cur.y))
  }

  predicate JumpOpen(cur: Pos, opp: Pos, walls: seq<Wall>) {
    InBounds(Jump(cur, opp)) && !IsWallBlocking(opp, Jump(cur, opp), walls)
  }

  /** `xs` without the occurrences of `c`, in order. */
  function Without(xs: seq<Pos>, c: Pos): (r: seq<Pos>)
    ensures forall d :: d in r <==> d in xs && d != c
  {
    if xs == [] then []
    else Without(xs[..|xs| - 1], c) + (if xs[|xs| - 1] != c then [xs[|xs| - 1]] else [])
  }

  /** The destinations that meeting the opponent on `opp` gives: the straight jump, or else the side steps. */
  function OverOpponent(cur: Pos, opp: Pos, walls: seq<Wall>): seq<Pos> {
    if JumpOpen(cur, opp, walls) then [Jump(cur, opp)]
    else Without(Neighbors(opp, walls), cur)
  }

  /** What one neighbour `n` of the mover contributes. */
  function StepTo(n: Pos, cur: Pos, opp: Pos, walls: seq<Wall>): seq<Pos> {
    if n == opp then OverOpponent(cur, opp, walls) else [n]
  }

  /** The destinations that the neighbours `ns` contribute, in order. */
  function Steps(ns: seq<Pos>, cur: Pos, opp: Pos, walls: seq<Wall>): seq<Pos> {
    if ns == [] then []
    else Steps(ns[..|ns| - 1], cur, opp, walls) + StepTo(ns[|ns| - 1], cur, opp, walls)
  }

  function PawnOf(s: State, player: int): Pos {
    if player == 1 then s.p1 else s.p2
  }

  function OpponentOf(s: State, player: int): Pos {
    if player == 1 then s.p2 else s.p1
  }

  /** `get_valid_pawn_moves(player)`. */
  function PawnMoves(s: State, player: int): seq<Pos> {
    if s.winner != NoWinner then []
    else Steps(Neighbors(PawnOf(s, player), s.walls), PawnOf(s, player), OpponentOf(s, player), s.walls)
  }

  lemma {:induction false} StepsMembers(ns: seq<Pos>, cur: Pos, opp: Pos, walls: seq<Wall>)
    ensures forall c :: c in Steps(ns, cur, opp, walls) <==>
      (c in ns && c != opp) || (opp in ns && c in OverOpponent(cur, opp, walls))
  {
    if ns != [] {
      var init := ns[..|ns| - 1];
      StepsMembers(init, cur, opp, walls);
      assert ns == init + [ns[|ns| - 1]];
    }
  }

  /**
   * The pawn moves, as a set: none once there is a winner; otherwise every
   * neighbour other than the opponent's cell and, when the opponent is a
   * neighbour, the straight jump if it is open, else the opponent's other
   * neighbours.
   */
  lemma PawnMovesSpec(s: State, player: int, c: Pos)
    ensures var cur, opp := PawnOf(s, player), OpponentOf(s, player);
      c in PawnMoves(s, player) <==>
        s.winner == NoWinner &&
        ((c in Neighbors(cur, s.walls) && c != opp) ||
         (opp in Neighbors(cur, s.walls) &&
          (if JumpOpen(cur, opp, s.walls) then c == Jump(cur, opp)
           else c in Neighbors(opp, s.walls) && c != cur)))
  {
    if s.winner == NoWinner {
      StepsMembers(Neighbors(PawnOf(s, player), s.walls), PawnOf(s, player), OpponentOf(s, player), s.walls);
    }
  }

  /** `is_valid_wall`'s test against one placed wall `w`: true when `w` rules out the slot. */
  predicate Clashes(w: Wall, x: int, y: int, o: Orient) {
    (w.x == x && w.y == y) ||
    (o == H && w.o == H && w.y == y && Abs(w.x - x) <= 1) ||
    (o == V && w.o == V && w.x == x && Abs(w.y - y) <= 1) ||
    (w.x == x && w.y == y && w.o != o)
  }

  /** The mover has a wall to place: player 1 on turn 1, player 2 on turn 2. */
  predicate HasWallLeft(s: State) {
    !(s.turn == 1 && s.p1Walls <= 0) && !(s.turn == 2 && s.p2Walls <= 0)
  }

  /** `is_valid_wall(x, y, o)`: the static tests, then both players still reach their goal rows. */
  ghost predicate WallLegal(s: State, x: int, y: int, o: Orient) {
    s.winner == NoWinner && 0 <= x < Slots && 0 <= y < Slots &&
    (forall i :: 0 <= i < |s.walls| ==> !Clashes(s.walls[i], x, y, o)) &&
    HasWallLeft(s) &&
    PathLen(s.p1, 0, s.walls + [Wall(x, y, o)]) < Unreachable &&
    PathLen(s.p2, Size - 1, s.walls + [Wall(x, y, o)]) < Unreachable
  }

  /** A move the mover may make: a pawn move of theirs, or a legal wall. */
  ghost predicate Legal(s: State, m: Move) {
    match m
    case MoveTo(d) => d in PawnMoves(s, s.turn)
    case PlaceWall(w) => WallLegal(s, w.x, w.y, w.o)
  }

  /**
   * What legal play keeps: the turn is 1 or 2, wall counts stay within
   * 0..10 and with the placed walls add up to 20, pawns stay on the board on
   * distinct cells, every placed wall sits on a slot and clashes with none
   * placed before it, neither player is cut off from the goal row, and the
   * winner agrees with the pawn rows.
   */
  ghost predicate Valid(s: State) {
    (s.turn == 1 || s.turn == 2) &&
    0 <= s.p1Walls <= StartWalls && 0 <= s.p2Walls <= StartWalls &&
    |s.walls| + s.p1Walls + s.p2Walls == 2 * StartWalls &&
    (forall i :: 0 <= i < |s.walls| ==> 0 <= s.walls[i].x < Slots && 0 <= s.walls[i].y < Slots) &&
    (forall i, j :: 0 <= i < j < |s.walls| ==> !Clashes(s.walls[i], s.walls[j].x, s.walls[j].y, s.walls[j].o)) &&
    InBounds(s.p1) && InBounds(s.p2) && s.p1 != s.p2 &&
    Reachable(s.p1, 0, s.walls) && Reachable(s.p2, Size - 1, s.walls) &&
    (s.winner == NoWinner || s.winner == 1 || s.winner == 2) &&
    (s.winner == NoWinner ==> s.p1.y != 0 && s.p2.y != Size - 1) &&
    (s.winner == 1 ==> s.p1.y == 0) &&
    (s.winner == 2 ==> s.p2.y == Size - 1)
  }

  /** The straight walk down column `x` from row `y` to row 0. */
  function ColumnUp(x: int, y: nat): (w: seq<Pos>)
    ensures |w| == y + 1 && w[0] == Pos(x, y) && Last(w) == Pos(x, 0)
    ensures forall i :: 0 <= i < |w| ==> w[i] == Pos(x, y - i)
  {
    if y == 0 then [Pos(x, 0)] else [Pos(x, y)] + ColumnUp(x, y - 1)
  }

  /** With no walls, a pawn in column `x` walks straight to row 0 and to the last row. */
  lemma OpenColumns(x: int, y: nat)
    requires 0 <= x < Size && y < Size
    ensures Reachable(Pos(x, y), 0, [])
    ensures Reachable(Pos(x, y), Size - 1, [])
  {
    var up := ColumnUp(x, y);
    forall i | 0 <= i < |up| - 1
      ensures up[i + 1] in Neighbors(up[i], [])
    {
      NeighborsSpec(up[i], []);
    }
    assert IsPathToRow(up, Pos(x, y), 0, []);
    var down := seq(Size - y, i => Pos(x, y + i));
    forall i | 0 <= i < |down| - 1
      ensures down[i + 1] in Neighbors(down[i], [])
    {
      NeighborsSpec(down[i], []);
    }
    assert IsPathToRow(down, Pos(x, y), Size - 1, []);
  }

  /** A new game satisfies the invariant. */
  lemma InitialValid()
    ensures Valid(Initial())
  {
    OpenColumns(4, Size - 1);
    OpenColumns(4, 0);
  }

  /** A cell next to one that reaches a row reaches it too. */
  lemma ReachableFromNeighbor(a: Pos, b: Pos, row: int, walls: seq<Wall>)
    requires InBounds(a) && InBounds(b) && a in Neighbors(b, walls) && Reachable(b, row, walls)
    ensures Reachable(a, row, walls)
  {
    var p :| IsPathToRow(p, b, row, walls);
    NeighborsSymmetric(b, a, walls);
    WalkPrepend(a, p, walls);
    assert IsPathToRow([a] + p, a, row, walls);
  }

  /** Every neighbour is on the board and one step away. */
  lemma NeighborOnBoard(p: Pos, c: Pos, walls: seq<Wall>)
    requires c in Neighbors(p, walls)
    ensures InBounds(c) && Adjacent(p, c) && c != p
  {
    NeighborsSpec(p, walls);
  }

  /**
   * A pawn move lands on the board, off both pawns' cells, on a cell from
   * which the goal row is still reachable when it was from the mover's cell.
   */
  lemma PawnMoveSound(s: State, player: int, d: Pos, row: int)
    requires InBounds(PawnOf(s, player)) && InBounds(OpponentOf(s, player))
    requires PawnOf(s, player) != OpponentOf(s, player)
    requires d in PawnMoves(s, player)
    requires Reachable(PawnOf(s, player), row, s.walls)
    ensures InBounds(d) && d != PawnOf(s, player) && d != OpponentOf(s, player)
    ensures Reachable(d, row, s.walls)
  {
    var cur, opp := PawnOf(s, player), OpponentOf(s, player);
    PawnMovesSpec(s, player, d);
    if d in Neighbors(cur, s.walls) && d != opp {
      NeighborOnBoard(cur, d, s.walls);
      NeighborsSymmetric(cur, d, s.walls);
      ReachableFromNeighbor(d, cur, row, s.walls);
    } else {
      NeighborOnBoard(cur, opp, s.walls);
      ReachableFromNeighbor(opp, cur, row, s.walls);
      if JumpOpen(cur, opp, s.walls) {
        JumpIsNeighbor(cur, opp, s.walls);
      }
      NeighborOnBoard(opp, d, s.walls);
      NeighborsSymmetric(opp, d, s.walls);
      ReachableFromNeighbor(d, opp, row, s.walls);
    }
  }

  /** An open straight jump is a step from the opponent's cell. */
  lemma JumpIsNeighbor(cur: Pos, opp: Pos, walls: seq<Wall>)
    requires Adjacent(cur, opp) && JumpOpen(cur, opp, walls)
    ensures Jump(cur, opp) in Neighbors(opp, walls)
  {
    NeighborsSpec(opp, walls);
  }

  /** Legal play keeps the invariant: in particular no wall ever strands a player and no wall count goes below 0. */
  lemma LegalKeepsValid(s: State, m: Move)
    requires Valid(s) && Legal(s, m)
    ensures Valid(Apply(s, m))
  {
    var r := Apply(s, m);
    ApplySpec(s, m);
    match m
    case MoveTo(d) =>
      PawnMoveSound(s, s.turn, d, if s.turn == 1 then 0 else Size - 1);
    case PlaceWall(w) =>
      PathLenIsShortest(s.p1, 0, s.walls + [w]);
      PathLenIsShortest(s.p2, Size - 1, s.walls + [w]);
  }

  /** Once somebody has won, no move is legal. */
  lemma NoMoveAfterWin(s: State, m: Move)
    requires s.winner != NoWinner
    ensures !Legal(s, m)
  {
  }
}
