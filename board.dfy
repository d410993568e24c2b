/**
 * The 9×9 board: cells, wall slots, and the wall-aware adjacency of
 * `QuoridorGame.is_wall_blocking` and `QuoridorGame.get_neighbors`
 * (game/logic.py).
 */
module Board {
  /** Cells per row and per column. */
  const Size := 9
  /** Wall slots per row and per column. */
  const Slots := 8

  /** A cell `(x, y)`: column `x`, row `y`. */
  datatype Pos = Pos(x: int, y: int)

  datatype Orient = H | V

  /** A placed wall `((x, y), orient)`. */
  datatype Wall = Wall(x: int, y: int, o: Orient)

  predicate InBounds(c: Pos) {
    0 <= c.x < Size && 0 <= c.y < Size
  }

  /** `c` and `d` are one orthogonal step apart. */
  predicate Adjacent(c: Pos, d: Pos) {
    (c.x == d.x && (c.y - d.y == 1 || d.y - c.y == 1)) ||
    (c.y == d.y && (c.x - d.x == 1 || d.x - c.x == 1))
  }

  function Min(a: int, b: int): int {
    if a <= b then a else b
  }

  function Abs(a: int): nat {
    if a < 0 then -a else a
  }

  /**
   * Whether a wall separates `c1` from `c2`: for cells in one column the
   * horizontal walls in the gap row, at the same slot or one slot to the
   * left; for cells in one row the vertical walls in the gap column, at the
   * same slot or one slot up.
   */
  predicate IsWallBlocking(c1: Pos, c2: Pos, walls: seq<Wall>): (b: bool)
    ensures b ==> c1.x == c2.x || c1.y == c2.y
    ensures b ==> exists w :: w in walls && w.o == (if c1.x == c2.x then H else V)
  {
    if c1.x == c2.x then
      var yGap := Min(c1.y, c2.y);
      Wall(c1.x, yGap, H) in walls || Wall(c1.x - 1, yGap, H) in walls
    else if c1.y == c2.y then
      var xGap := Min(c1.x, c2.x);
      Wall(xGap, c1.y, V) in walls || Wall(xGap, c1.y - 1, V) in walls
    else
      false
  }

  /**
   * The geometric reading of a wall: a horizontal wall at slot `(x, y)` lies
   * under the cells `(x, y)` and `(x + 1, y)`, so it cuts the two vertical
   * steps between rows `y` and `y + 1` in columns `x` and `x + 1`; a vertical
   * wall at `(x, y)` cuts the two horizontal steps between columns `x` and
   * `x + 1` in rows `y` and `y + 1`.
   */
  predicate Covers(w: Wall, c1: Pos, c2: Pos) {
    match w.o
    case H =>
      c1.x == c2.x && (c1.x == w.x || c1.x == w.x + 1) &&
      ((c1.y == w.y && c2.y == w.y + 1) || (c2.y == w.y && c1.y == w.y + 1))
    case V =>
      c1.y == c2.y && (c1.y == w.y || c1.y == w.y + 1) &&
      ((c1.x == w.x && c2.x == w.x + 1) || (c2.x == w.x && c1.x == w.x + 1))
  }

  /** For one step, the slot test of `IsWallBlocking` is exactly "some wall covers the step". */
  lemma BlockingIsCovering(c1: Pos, c2: Pos, walls: seq<Wall>)
    requires Adjacent(c1, c2)
    ensures IsWallBlocking(c1, c2, walls) <==> exists w :: w in walls && Covers(w, c1, c2)
  {
    if IsWallBlocking(c1, c2, walls) {
      if c1.x == c2.x {
        var yGap := Min(c1.y, c2.y);
        if Wall(c1.x, yGap, H) in walls {
          assert Covers(Wall(c1.x, yGap, H), c1, c2);
        } else {
          assert Covers(Wall(c1.x - 1, yGap, H), c1, c2);
        }
      } else {
        var xGap := Min(c1.x, c2.x);
        if Wall(xGap, c1.y, V) in walls {
          assert Covers(Wall(xGap, c1.y, V), c1, c2);
        } else {
          assert Covers(Wall(xGap, c1.y - 1, V), c1, c2);
        }
      }
    }
  }

  /** A candidate step is taken when it stays on the board and no wall cuts it. */
  predicate Open(p: Pos, c: Pos, walls: seq<Wall>) {
    InBounds(c) && !IsWallBlocking(p, c, walls)
  }

  /** The four orthogonal candidates of `get_neighbors`, in its order: up, down, left, right. */
  function Candidates(p: Pos): seq<Pos> {
    [Pos(p.x, p.y - 1), Pos(p.x, p.y + 1), Pos(p.x - 1, p.y), Pos(p.x + 1, p.y)]
  }

  /** The candidates `cs` whose step from `p` is open, in their order. */
  function OpenAmong(p: Pos, cs: seq<Pos>, walls: seq<Wall>): (r: seq<Pos>)
    ensures |r| <= |cs|
  {
    if cs == [] then []
    else (if Open(p, cs[0], walls) then [cs[0]] else []) + OpenAmong(p, cs[1..], walls)
  }

  lemma {:induction false} OpenAmongMembers(p: Pos, cs: seq<Pos>, walls: seq<Wall>)
    ensures forall c :: c in OpenAmong(p, cs, walls) <==> c in cs && Open(p, c, walls)
  {
    if cs != [] {
      OpenAmongMembers(p, cs[1..], walls);
    }
  }

  /** `get_neighbors`: the cells one open step from `p`, in candidate order. */
  function Neighbors(p: Pos, walls: seq<Wall>): (r: seq<Pos>)
    ensures |r| <= 4
  {
    OpenAmong(p, Candidates(p), walls)
  }

  /**
   * The neighbours of `p` are exactly the cells on the board one orthogonal
   * step from `p` whose step no wall cuts.
   */
  lemma NeighborsSpec(p: Pos, walls: seq<Wall>)
    ensures forall c :: c in Neighbors(p, walls) <==> InBounds(c) && Adjacent(p, c) && !IsWallBlocking(p, c, walls)
  {
    OpenAmongMembers(p, Candidates(p), walls);
  }

  /** Blocking does not depend on the direction of the step. */
  lemma BlockingSymmetric(c1: Pos, c2: Pos, walls: seq<Wall>)
    ensures IsWallBlocking(c1, c2, walls) == IsWallBlocking(c2, c1, walls)
  {
  }

  /** Adjacency is symmetric between cells on the board. */
  lemma NeighborsSymmetric(p: Pos, c: Pos, walls: seq<Wall>)
    requires InBounds(p) && InBounds(c)
    ensures c in Neighbors(p, walls) <==> p in Neighbors(c, walls)
  {
    NeighborsSpec(p, walls);
    NeighborsSpec(c, walls);
    BlockingSymmetric(p, c, walls);
  }

  /** Only membership matters: two wall lists with the same elements give the same neighbours. */
  lemma NeighborsDependOnMembers(p: Pos, w1: seq<Wall>, w2: seq<Wall>)
    requires forall w :: w in w1 <==> w in w2
    ensures Neighbors(p, w1) == Neighbors(p, w2)
  {
    OpenAmongSameMembers(p, Candidates(p), w1, w2);
  }

  lemma {:induction false} OpenAmongSameMembers(p: Pos, cs: seq<Pos>, w1: seq<Wall>, w2: seq<Wall>)
    requires forall w :: w in w1 <==> w in w2
    ensures OpenAmong(p, cs, w1) == OpenAmong(p, cs, w2)
  {
    if cs != [] {
      OpenAmongSameMembers(p, cs[1..], w1, w2);
    }
  }

  /** A walk: every cell is a neighbour of the one before it. */
  predicate IsWalk(w: seq<Pos>, walls: seq<Wall>) {
    forall i :: 0 <= i < |w| - 1 ==> w[i + 1] in Neighbors(w[i], walls)
  }

  function Last(w: seq<Pos>): Pos
    requires |w| > 0
  {
    w[|w| - 1]
  }

  /** Extending a walk by a neighbour of its last cell gives a walk. */
  lemma WalkExtend(w: seq<Pos>, c: Pos, walls: seq<Wall>)
    requires |w| > 0 && IsWalk(w, walls) && c in Neighbors(Last(w), walls)
    ensures IsWalk(w + [c], walls)
  {
    var w' := w + [c];
    forall i | 0 <= i < |w'| - 1
      ensures w'[i + 1] in Neighbors(w'[i], walls)
    {
      if i < |w| - 1 {
        assert w'[i] == w[i] && w'[i + 1] == w[i + 1];
      }
    }
  }

  /** Putting a neighbour of its first cell in front of a walk gives a walk. */
  lemma WalkPrepend(c: Pos, w: seq<Pos>, walls: seq<Wall>)
    requires |w| > 0 && IsWalk(w, walls) && w[0] in Neighbors(c, walls)
    ensures IsWalk([c] + w, walls)
  {
    var w' := [c] + w;
    forall i | 0 <= i < |w'| - 1
      ensures w'[i + 1] in Neighbors(w'[i], walls)
    {
      if i > 0 {
        assert w'[i] == w[i - 1] && w'[i + 1] == w[i];
      }
    }
  }
}
