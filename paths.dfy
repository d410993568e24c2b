/**
 * `QuoridorGame.shortest_path` and `shortest_path_len` (game/logic.py): a
 * search from a start cell to any cell of a goal row over the wall-aware
 * adjacency of the board.
 *
 * The specification is layered reachability: `Reach(k)` is the set of cells
 * at most `k` steps from the start, and `Dist` is the first layer that meets
 * the goal row, or `None` once the layers stop growing.
 */
module PathFinder {
  import opened Wrappers
  import opened Board

  /** The distance reported for an unreachable goal row. */
  const Unreachable := 999

  /** `p` is a walk from `start` that ends on `goalRow`. */
  ghost predicate IsPathToRow(p: seq<Pos>, start: Pos, goalRow: int, walls: seq<Wall>) {
    |p| > 0 && p[0] == start && Last(p).y == goalRow && IsWalk(p, walls)
  }

  ghost predicate Reachable(start: Pos, goalRow: int, walls: seq<Wall>) {
    exists p :: IsPathToRow(p, start, goalRow, walls)
  }

  /** The cells one step away from some cell of `s` (see `ExpandMembers`). */
  ghost function Expand(s: set<Pos>, walls: seq<Wall>): set<Pos>
    decreases |s|
  {
    if s == {} then {}
    else
      var p :| p in s;
      (set j | 0 <= j < |Neighbors(p, walls)| :: Neighbors(p, walls)[j]) + Expand(s - {p}, walls)
  }

  lemma {:induction false} ExpandMembers(s: set<Pos>, walls: seq<Wall>)
    ensures forall c :: c in Expand(s, walls) <==> exists p :: p in s && c in Neighbors(p, walls)
    decreases |s|
  {
    if s != {} {
      var p :| p in s && Expand(s, walls) ==
        (set j | 0 <= j < |Neighbors(p, walls)| :: Neighbors(p, walls)[j]) + Expand(s - {p}, walls);
      ExpandMembers(s - {p}, walls);
      forall c
        ensures c in Expand(s, walls) <==> exists q :: q in s && c in Neighbors(q, walls)
      {
        if c in Neighbors(p, walls) {
          var j :| 0 <= j < |Neighbors(p, walls)| && Neighbors(p, walls)[j] == c;
        }
      }
    }
  }

  /** The cells at most `k` steps from `start`. */
  ghost function Reach(start: Pos, walls: seq<Wall>, k: nat): set<Pos>
    decreases k
  {
    if k == 0 then {start}
    else Reach(start, walls, k - 1) + Expand(Reach(start, walls, k - 1), walls)
  }

  ghost predicate HitsRow(s: set<Pos>, row: int) {
    exists c :: c in s && c.y == row
  }

  /** Layer `i + 1` adds a cell to layer `i`. */
  ghost predicate Grows(start: Pos, walls: seq<Wall>, i: nat) {
    Reach(start, walls, i + 1) != Reach(start, walls, i)
  }

  /** Layer `i` has no cell on `goalRow`. */
  ghost predicate Misses(start: Pos, goalRow: int, walls: seq<Wall>, i: nat) {
    !HitsRow(Reach(start, walls, i), goalRow)
  }

  /** The first `n` cells in row-major order. */
  ghost function CellsBelow(n: nat): set<Pos> {
    set i | 0 <= i < n :: Pos(i % Size, i / Size)
  }

  /** Every cell any search from `start` can visit. */
  ghost function Universe(start: Pos): set<Pos> {
    CellsBelow(Size * Size) + {start}
  }

  lemma InCells(c: Pos)
    requires InBounds(c)
    ensures c in CellsBelow(Size * Size)
  {
    var i := c.y * Size + c.x;
    assert i % Size == c.x && i / Size == c.y;
  }

  lemma {:induction false} CellsBelowCard(n: nat)
    ensures |CellsBelow(n)| <= n
  {
    if n > 0 {
      assert CellsBelow(n) == CellsBelow(n - 1) + {Pos((n - 1) % Size, (n - 1) / Size)};
      CellsBelowCard(n - 1);
    }
  }

  lemma {:induction false} ReachInUniverse(start: Pos, walls: seq<Wall>, k: nat)
    ensures Reach(start, walls, k) <= Universe(start)
  {
    if k > 0 {
      ReachInUniverse(start, walls, k - 1);
      ExpandMembers(Reach(start, walls, k - 1), walls);
      forall c | c in Expand(Reach(start, walls, k - 1), walls)
        ensures c in Universe(start)
      {
        var p :| p in Reach(start, walls, k - 1) && c in Neighbors(p, walls);
        NeighborsSpec(p, walls);
        InCells(c);
      }
    }
  }

  /**
   * The first layer that meets `goalRow`, searching from layer `k` on;
   * `None` when the layers stop growing first.
   */
  ghost function DistFrom(start: Pos, goalRow: int, walls: seq<Wall>, k: nat): Option<nat>
    decreases Universe(start) - Reach(start, walls, k)
  {
    if HitsRow(Reach(start, walls, k), goalRow) then Some(k)
    else if Reach(start, walls, k + 1) == Reach(start, walls, k) then None
    else
      UniverseShrinks(start, walls, k);
      DistFrom(start, goalRow, walls, k + 1)
  }

  /** A layer that grows leaves fewer cells of the universe unreached. */
  lemma UniverseShrinks(start: Pos, walls: seq<Wall>, k: nat)
    requires Reach(start, walls, k + 1) != Reach(start, walls, k)
    ensures Universe(start) - Reach(start, walls, k + 1) < Universe(start) - Reach(start, walls, k)
  {
    ReachInUniverse(start, walls, k + 1);
    var c :| c in Reach(start, walls, k + 1) && c !in Reach(start, walls, k);
    assert c in Universe(start) - Reach(start, walls, k);
  }

  /** The number of steps of a shortest path to `goalRow`, if there is one. */
  ghost function Dist(start: Pos, goalRow: int, walls: seq<Wall>): Option<nat> {
    DistFrom(start, goalRow, walls, 0)
  }

  /** What `shortest_path_len` reports: the distance, or `Unreachable`. */
  ghost function PathLen(start: Pos, goalRow: int, walls: seq<Wall>): int {
    match Dist(start, goalRow, walls)
    case Some(k) => k
    case None => Unreachable
  }

  lemma {:induction false} ReachMono(start: Pos, walls: seq<Wall>, j: nat, k: nat)
    requires j <= k
    ensures Reach(start, walls, j) <= Reach(start, walls, k)
  {
    if j < k {
      ReachMono(start, walls, j, k - 1);
    }
  }

  lemma ExpandUnion(a: set<Pos>, b: set<Pos>, walls: seq<Wall>)
    ensures Expand(a + b, walls) == Expand(a, walls) + Expand(b, walls)
  {
    ExpandMembers(a + b, walls);
    ExpandMembers(a, walls);
    ExpandMembers(b, walls);
  }

  lemma ExpandAddOne(a: set<Pos>, c: Pos, walls: seq<Wall>)
    ensures Expand(a + {c}, walls) == Expand(a, walls) + (set j | 0 <= j < |Neighbors(c, walls)| :: Neighbors(c, walls)[j])
  {
    var ns := Neighbors(c, walls);
    var tail := set j | 0 <= j < |ns| :: ns[j];
    ExpandMembers(a + {c}, walls);
    ExpandMembers(a, walls);
    forall n | n in Expand(a + {c}, walls)
      ensures n in Expand(a, walls) + tail
    {
      var p :| p in a + {c} && n in Neighbors(p, walls);
      if p == c {
        var j :| 0 <= j < |ns| && ns[j] == n;
        assert n in tail;
      } else {
        assert n in Expand(a, walls);
      }
    }
    forall n | n in Expand(a, walls) + tail
      ensures n in Expand(a + {c}, walls)
    {
      if n in tail {
        var j :| 0 <= j < |ns| && ns[j] == n;
        assert c in a + {c} && n in Neighbors(c, walls);
      } else {
        var p :| p in a && n in Neighbors(p, walls);
        assert p in a + {c};
      }
    }
  }

  /** The last cell of a walk of `n` steps from `start` is in layer `n`. */
  lemma {:induction false} WalkInReach(w: seq<Pos>, start: Pos, walls: seq<Wall>)
    requires |w| > 0 && w[0] == start && IsWalk(w, walls)
    ensures Last(w) in Reach(start, walls, |w| - 1)
  {
    if |w| > 1 {
      var w' := w[..|w| - 1];
      assert IsWalk(w', walls) by {
        forall i | 0 <= i < |w'| - 1
          ensures w'[i + 1] in Neighbors(w'[i], walls)
        {
          assert w'[i] == w[i] && w'[i + 1] == w[i + 1];
        }
      }
      WalkInReach(w', start, walls);
      assert Last(w) in Neighbors(Last(w'), walls) by {
        assert w[|w| - 2] == Last(w');
      }
      ExpandMembers(Reach(start, walls, |w| - 2), walls);
      assert Last(w) in Expand(Reach(start, walls, |w| - 2), walls);
    }
  }

  /** Every cell of layer `k` ends some walk `w` of at most `k` steps from `start`. */
  lemma {:induction false} ReachHasWalk(start: Pos, walls: seq<Wall>, k: nat, c: Pos) returns (w: seq<Pos>)
    requires c in Reach(start, walls, k)
    ensures |w| > 0 && w[0] == start && Last(w) == c && IsWalk(w, walls) && |w| <= k + 1
  {
    if k == 0 {
      w := [start];
    } else if c in Reach(start, walls, k - 1) {
      w := ReachHasWalk(start, walls, k - 1, c);
    } else {
      ExpandMembers(Reach(start, walls, k - 1), walls);
      var p :| p in Reach(start, walls, k - 1) && c in Neighbors(p, walls);
      var v := ReachHasWalk(start, walls, k - 1, p);
      WalkExtend(v, c, walls);
      w := v + [c];
    }
  }

  /** Once a layer adds nothing, no later layer does. */
  lemma {:induction false} StableAt(start: Pos, walls: seq<Wall>, k: nat, n: nat)
    requires k <= n
    requires Reach(start, walls, k + 1) == Reach(start, walls, k)
    ensures Reach(start, walls, n) == Reach(start, walls, k)
  {
    if k < n {
      StableAt(start, walls, k, n - 1);
    }
  }

  lemma {:induction false} DistFromSome(start: Pos, goalRow: int, walls: seq<Wall>, j: nat, d: nat)
    requires DistFrom(start, goalRow, walls, j) == Some(d)
    ensures j <= d && HitsRow(Reach(start, walls, d), goalRow)
    ensures forall i :: j <= i < d ==> Misses(start, goalRow, walls, i) && Grows(start, walls, i)
    decreases Universe(start) - Reach(start, walls, j)
  {
    if !HitsRow(Reach(start, walls, j), goalRow) {
      UniverseShrinks(start, walls, j);
      DistFromSome(start, goalRow, walls, j + 1, d);
    }
  }

  /** With no distance from layer `j` on, layer `n` misses `goalRow` for every `n >= j`. */
  lemma {:induction false} DistFromNone(start: Pos, goalRow: int, walls: seq<Wall>, j: nat, n: nat)
    requires DistFrom(start, goalRow, walls, j) == None && j <= n
    ensures Misses(start, goalRow, walls, n)
    decreases n - j
  {
    if n > j {
      if Reach(start, walls, j + 1) == Reach(start, walls, j) {
        StableAt(start, walls, j, n);
      } else {
        DistFromNone(start, goalRow, walls, j + 1, n);
      }
    }
  }

  lemma {:induction false} GrowingCard(start: Pos, walls: seq<Wall>, d: nat)
    requires forall i :: 0 <= i < d ==> Grows(start, walls, i)
    ensures |Reach(start, walls, d)| >= d + 1
  {
    if d > 0 {
      GrowingCard(start, walls, d - 1);
      var a, b := Reach(start, walls, d - 1), Reach(start, walls, d);
      assert Grows(start, walls, d - 1);
      assert a <= b && a != b;
      assert b == a + (b - a);
      assert |b - a| >= 1;
    }
  }

  /** No path is shorter than `Dist`, and a path rules out `None`. */
  lemma NoShorterPath(start: Pos, goalRow: int, walls: seq<Wall>, p: seq<Pos>)
    requires IsPathToRow(p, start, goalRow, walls)
    ensures Dist(start, goalRow, walls).Some? && Dist(start, goalRow, walls).value <= |p| - 1
  {
    WalkInReach(p, start, walls);
    assert !Misses(start, goalRow, walls, |p| - 1);
    if Dist(start, goalRow, walls).None? {
      DistFromNone(start, goalRow, walls, 0, |p| - 1);
    } else {
      DistFromSome(start, goalRow, walls, 0, Dist(start, goalRow, walls).value);
    }
  }

  /** A distance is below the number of cells: every layer before it grows. */
  lemma DistBound(start: Pos, goalRow: int, walls: seq<Wall>, d: nat)
    requires Dist(start, goalRow, walls) == Some(d)
    ensures d <= Size * Size
  {
    DistFromSome(start, goalRow, walls, 0, d);
    GrowingCard(start, walls, d);
    ReachInUniverse(start, walls, d);
    CellsBelowCard(Size * Size);
    SubsetCard(Reach(start, walls, d), CellsBelow(Size * Size), start);
  }

  /** No layer holds more cells than the board plus the start. */
  lemma ReachCard(start: Pos, walls: seq<Wall>, k: nat)
    ensures |Reach(start, walls, k)| <= Size * Size + 1
  {
    ReachInUniverse(start, walls, k);
    CellsBelowCard(Size * Size);
    SubsetCard(Reach(start, walls, k), CellsBelow(Size * Size), start);
  }

  lemma SubsetCard(a: set<Pos>, b: set<Pos>, x: Pos)
    requires a <= b + {x}
    ensures |a| <= |b| + 1
  {
    var u := b + {x};
    assert u == a + (u - a);
    assert |u| <= |b| + 1;
  }

  /** A distance is realised by some path. */
  lemma DistHasPath(start: Pos, goalRow: int, walls: seq<Wall>, d: nat) returns (p: seq<Pos>)
    requires Dist(start, goalRow, walls) == Some(d)
    ensures IsPathToRow(p, start, goalRow, walls) && |p| == d + 1
  {
    DistFromSome(start, goalRow, walls, 0, d);
    var c :| c in Reach(start, walls, d) && c.y == goalRow;
    p := ReachHasWalk(start, walls, d, c);
    NoShorterPath(start, goalRow, walls, p);
  }

  /**
   * `Dist` is the length of a shortest path: `None` exactly when no path
   * reaches the goal row, and otherwise a path of `Dist` steps exists, no
   * path is shorter, and the distance is at most the number of cells.
   */
  lemma DistIsShortest(start: Pos, goalRow: int, walls: seq<Wall>)
    ensures Dist(start, goalRow, walls) == None <==> !Reachable(start, goalRow, walls)
    ensures forall p :: IsPathToRow(p, start, goalRow, walls) ==>
              Dist(start, goalRow, walls).Some? && Dist(start, goalRow, walls).value <= |p| - 1
    ensures Dist(start, goalRow, walls).Some? ==>
              Dist(start, goalRow, walls).value <= Size * Size &&
              exists p :: IsPathToRow(p, start, goalRow, walls) && |p| - 1 == Dist(start, goalRow, walls).value
  {
    forall p | IsPathToRow(p, start, goalRow, walls)
      ensures Dist(start, goalRow, walls).Some? && Dist(start, goalRow, walls).value <= |p| - 1
    {
      NoShorterPath(start, goalRow, walls, p);
    }
    if Dist(start, goalRow, walls).Some? {
      DistBound(start, goalRow, walls, Dist(start, goalRow, walls).value);
      var p := DistHasPath(start, goalRow, walls, Dist(start, goalRow, walls).value);
    }
  }

  /** What callers rely on about `shortest_path_len`. */
  lemma PathLenIsShortest(start: Pos, goalRow: int, walls: seq<Wall>)
    ensures 0 <= PathLen(start, goalRow, walls) <= Unreachable
    ensures PathLen(start, goalRow, walls) < Unreachable <==> Reachable(start, goalRow, walls)
    ensures forall p :: IsPathToRow(p, start, goalRow, walls) ==> PathLen(start, goalRow, walls) <= |p| - 1
    ensures PathLen(start, goalRow, walls) < Unreachable ==>
              PathLen(start, goalRow, walls) <= Size * Size &&
              exists p :: IsPathToRow(p, start, goalRow, walls) && |p| - 1 == PathLen(start, goalRow, walls)
  {
    DistIsShortest(start, goalRow, walls);
  }

  /**
   * The search tree of `shortest_path` over the discovered cells `dom`:
   * `cameFrom` links each cell to the neighbour it was discovered from
   * (`None` for the start), and the ghost `depth` counts the links from a
   * cell back to the start.
   */
  ghost predicate Tree(start: Pos, walls: seq<Wall>, dom: set<Pos>,
                       cameFrom: map<Pos, Option<Pos>>, depth: map<Pos, nat>)
  {
    cameFrom.Keys == dom && depth.Keys == dom && start in dom &&
    cameFrom[start] == None && depth[start] == 0 &&
    forall v {:trigger Linked(walls, dom, cameFrom, depth, v)} ::
      v in dom && v != start ==> Linked(walls, dom, cameFrom, depth, v)
  }

  /** `v` was discovered from a neighbour in `dom` one link closer to the start. */
  ghost predicate Linked(walls: seq<Wall>, dom: set<Pos>, cameFrom: map<Pos, Option<Pos>>, depth: map<Pos, nat>, v: Pos)
    requires v in cameFrom && v in depth
  {
    cameFrom[v].Some? && cameFrom[v].value in dom && cameFrom[v].value in depth &&
    v in Neighbors(cameFrom[v].value, walls) && depth[v] == depth[cameFrom[v].value] + 1
  }

  /** `w` is a walk from `start` to `v`. */
  ghost predicate WalkFrom(w: seq<Pos>, start: Pos, v: Pos, walls: seq<Wall>) {
    |w| > 0 && w[0] == start && Last(w) == v && IsWalk(w, walls)
  }

  /** Discovering `n` from `c` keeps the tree well formed. */
  lemma TreeAdd(start: Pos, walls: seq<Wall>, dom: set<Pos>,
                cameFrom: map<Pos, Option<Pos>>, depth: map<Pos, nat>, c: Pos, n: Pos)
    requires Tree(start, walls, dom, cameFrom, depth)
    requires c in dom && n !in dom && n in Neighbors(c, walls)
    ensures Tree(start, walls, dom + {n}, cameFrom[n := Some(c)], depth[n := depth[c] + 1])
  {
    var dom', cameFrom', depth' := dom + {n}, cameFrom[n := Some(c)], depth[n := depth[c] + 1];
    forall v | v in dom' && v != start
      ensures Linked(walls, dom', cameFrom', depth', v)
    {
      if v != n {
        assert Linked(walls, dom, cameFrom, depth, v);
      }
    }
  }

  /**
   * Follows the `cameFrom` links back from `c`, collecting the cells in
   * front of the path: the walk from the start to `c` the tree records.
   */
  method Reconstruct(start: Pos, ghost walls: seq<Wall>, ghost dom: set<Pos>,
                     cameFrom: map<Pos, Option<Pos>>, ghost depth: map<Pos, nat>, c: Pos)
    returns (path: seq<Pos>)
    requires Tree(start, walls, dom, cameFrom, depth) && c in dom
    ensures WalkFrom(path, start, c, walls) && |path| == depth[c] + 1
  {
    path := [];
    var cur: Option<Pos> := Some(c);
    while cur.Some?
      invariant path != [] ==> Last(path) == c && IsWalk(path, walls)
      invariant cur.Some? ==> cur.value in dom && |path| + depth[cur.value] == depth[c]
      invariant cur.Some? && path == [] ==> cur.value == c
      invariant cur.Some? && path != [] ==> path[0] in Neighbors(cur.value, walls)
      invariant cur.None? ==> path != [] && path[0] == start && |path| == depth[c] + 1
      decreases if cur.Some? then depth[cur.value] + 1 else 0
    {
      var v := cur.value;
      if path != [] {
        WalkPrepend(v, path, walls);
      }
      path := [v] + path;
      if v != start {
        assert Linked(walls, dom, cameFrom, depth, v);
      }
      cur := cameFrom[v];
    }
  }

  /** Finishing layer `k`: the newly discovered cells are exactly layer `k + 1` minus layer `k`. */
  lemma LayerDone(start: Pos, walls: seq<Wall>, k: nat, prev: set<Pos>, frontier: set<Pos>, next: set<Pos>)
    requires prev + frontier == Reach(start, walls, k)
    requires prev == (if k == 0 then {} else Reach(start, walls, k - 1))
    requires next == Expand(frontier, walls) - (prev + frontier)
    ensures prev + frontier + next == Reach(start, walls, k + 1)
  {
    var seen := prev + frontier;
    ExpandUnion(prev, frontier, walls);
    if k == 0 {
      ExpandMembers({}, walls);
      assert Expand(prev, walls) == {};
    }
    assert Expand(prev, walls) <= seen;
  }

  /** The cells `Neighbors(c, walls)` lists, as a set. */
  ghost function NeighborSet(c: Pos, walls: seq<Wall>): set<Pos> {
    set j | 0 <= j < |Neighbors(c, walls)| :: Neighbors(c, walls)[j]
  }

  /**
   * One step of the expansion: every neighbour of `c` not seen before is
   * recorded as discovered from `c` and added to `next`.
   */
  method Discover(start: Pos, walls: seq<Wall>, c: Pos, ghost seen: set<Pos>,
                  cameFrom: map<Pos, Option<Pos>>, next: set<Pos>, ghost depth: map<Pos, nat>, ghost k: nat)
    returns (cameFrom': map<Pos, Option<Pos>>, next': set<Pos>, ghost depth': map<Pos, nat>)
    requires Tree(start, walls, seen + next, cameFrom, depth) && seen !! next
    requires c in seen && depth[c] == k
    requires forall v :: v in next ==> depth[v] == k + 1
    ensures next' == (next + NeighborSet(c, walls)) - seen
    ensures Tree(start, walls, seen + next', cameFrom', depth')
    ensures forall v :: v in next' ==> depth'[v] == k + 1
    ensures forall v :: v in seen ==> depth'[v] == depth[v]
  {
    var ns := Neighbors(c, walls);
    cameFrom', next', depth' := cameFrom, next, depth;
    var i := 0;
    while i < |ns|
      invariant 0 <= i <= |ns|
      invariant next' == (next + (set j | 0 <= j < i :: ns[j])) - seen
      invariant Tree(start, walls, seen + next', cameFrom', depth')
      invariant forall v :: v in next' ==> depth'[v] == k + 1
      invariant forall v :: v in seen ==> depth'[v] == depth[v]
    {
      var n := ns[i];
      assert (set j | 0 <= j < i + 1 :: ns[j]) == (set j | 0 <= j < i :: ns[j]) + {n};
      if n !in cameFrom' {
        TreeAdd(start, walls, seen + next', cameFrom', depth', c, n);
        next' := next' + {n};
        cameFrom' := cameFrom'[n := Some(c)];
        depth' := depth'[n := k + 1];
      }
      i := i + 1;
    }
  }

  /**
   * Expands the layer `frontier` (the cells at distance `k`): either finds a
   * goal cell in it and returns the path to it, or returns the next layer.
   */
  method ExpandLayer(start: Pos, goalRow: int, walls: seq<Wall>, frontier: set<Pos>, ghost prev: set<Pos>,
                     cameFrom: map<Pos, Option<Pos>>, ghost depth: map<Pos, nat>, ghost k: nat)
    returns (found: seq<Pos>, cameFrom': map<Pos, Option<Pos>>, next: set<Pos>, ghost depth': map<Pos, nat>)
    requires Tree(start, walls, prev + frontier, cameFrom, depth) && prev !! frontier
    requires forall v :: v in frontier ==> depth[v] == k
    ensures found != [] ==> WalkFrom(found, start, Last(found), walls)
    ensures found != [] ==> Last(found) in frontier && Last(found).y == goalRow && |found| == k + 1
    ensures found == [] ==> forall v :: v in frontier ==> v.y != goalRow
    ensures found == [] ==> next == Expand(frontier, walls) - (prev + frontier)
    ensures found == [] ==> Tree(start, walls, prev + frontier + next, cameFrom', depth')
    ensures found == [] ==> forall v :: v in next ==> depth'[v] == k + 1
  {
    ghost var seen := prev + frontier;
    var todo := frontier;
    next, cameFrom', depth' := {}, cameFrom, depth;
    ghost var done: set<Pos> := {};
    ExpandMembers({}, walls);
    while todo != {}
      invariant todo <= frontier && done == frontier - todo
      invariant forall v :: v in done ==> v.y != goalRow
      invariant next == Expand(done, walls) - seen
      invariant Tree(start, walls, seen + next, cameFrom', depth')
      invariant forall v :: v in next ==> depth'[v] == k + 1
      invariant forall v :: v in frontier ==> depth'[v] == k
      decreases todo
    {
      var c :| c in todo;
      todo := todo - {c};
      if c.y == goalRow {
        found := Reconstruct(start, walls, seen + next, cameFrom', depth', c);
        return;
      }
      ghost var before := next;
      cameFrom', next, depth' := Discover(start, walls, c, seen, cameFrom', next, depth', k);
      ExpandAddOne(done, c, walls);
      UnseenGrows(Expand(done, walls), NeighborSet(c, walls), seen, before, next);
      done := done + {c};
    }
    assert done == frontier;
    found := [];
  }

  /** Set algebra of one discovery step: the unseen part of `e + n`. */
  lemma UnseenGrows(e: set<Pos>, n: set<Pos>, seen: set<Pos>, before: set<Pos>, after: set<Pos>)
    requires before == e - seen && after == (before + n) - seen
    ensures after == (e + n) - seen
  {
  }

  /** The state of the search before layer `k`, the cells `frontier`, is expanded. */
  ghost predicate Searching(start: Pos, goalRow: int, walls: seq<Wall>, k: nat, prev: set<Pos>, frontier: set<Pos>,
                            cameFrom: map<Pos, Option<Pos>>, depth: map<Pos, nat>)
  {
    prev + frontier == Reach(start, walls, k) &&
    prev == (if k == 0 then {} else Reach(start, walls, k - 1)) &&
    prev !! frontier && !HitsRow(prev, goalRow) &&
    Tree(start, walls, prev + frontier, cameFrom, depth) &&
    (forall v :: v in frontier ==> depth[v] == k) &&
    Dist(start, goalRow, walls) == (if frontier == {} then None else DistFrom(start, goalRow, walls, k))
  }

  /** `found` is a walk from `start` to `goalRow` whose length is the distance. */
  ghost predicate Found(start: Pos, goalRow: int, walls: seq<Wall>, found: seq<Pos>) {
    |found| > 0 && WalkFrom(found, start, Last(found), walls) && Last(found).y == goalRow &&
    Dist(start, goalRow, walls) == Some(|found| - 1)
  }

  /** Layer `k` holds the goal cell at the end of `found`: the distance is `k`. */
  lemma LayerFound(start: Pos, goalRow: int, walls: seq<Wall>, k: nat, prev: set<Pos>, frontier: set<Pos>,
                   cameFrom: map<Pos, Option<Pos>>, depth: map<Pos, nat>, found: seq<Pos>)
    requires Searching(start, goalRow, walls, k, prev, frontier, cameFrom, depth) && frontier != {}
    requires |found| > 0 && WalkFrom(found, start, Last(found), walls)
    requires Last(found) in frontier && Last(found).y == goalRow && |found| == k + 1
    ensures Found(start, goalRow, walls, found)
  {
    assert HitsRow(Reach(start, walls, k), goalRow);
  }

  /** Layer `k` holds no goal cell: the search moves on to layer `k' == k + 1`, the cells `next`. */
  lemma LayerAdvance(start: Pos, goalRow: int, walls: seq<Wall>, k: nat, prev: set<Pos>, frontier: set<Pos>,
                     cameFrom: map<Pos, Option<Pos>>, depth: map<Pos, nat>,
                     next: set<Pos>, cameFrom': map<Pos, Option<Pos>>, depth': map<Pos, nat>, prev': set<Pos>, k': nat)
    requires Searching(start, goalRow, walls, k, prev, frontier, cameFrom, depth) && frontier != {}
    requires forall v :: v in frontier ==> v.y != goalRow
    requires next == Expand(frontier, walls) - (prev + frontier)
    requires Tree(start, walls, prev + frontier + next, cameFrom', depth')
    requires forall v :: v in next ==> depth'[v] == k + 1
    requires prev' == prev + frontier && k' == k + 1
    ensures Searching(start, goalRow, walls, k', prev', next, cameFrom', depth')
    ensures |prev| < |prev'| <= Size * Size + 1
  {
    LayerDone(start, walls, k, prev, frontier, next);
    ReachCard(start, walls, k);
    NoGoalYet(prev, frontier, goalRow);
    DistStep(start, goalRow, walls, k, next);
    DisjointCard(prev, frontier);
  }

  lemma DisjointCard(a: set<Pos>, b: set<Pos>)
    requires a !! b && b != {}
    ensures |a| < |a + b|
  {
    var c :| c in b;
    assert a < a + b by {
      assert c in a + b && c !in a;
    }
  }

  lemma NoGoalYet(prev: set<Pos>, frontier: set<Pos>, goalRow: int)
    requires !HitsRow(prev, goalRow) && forall v :: v in frontier ==> v.y != goalRow
    ensures !HitsRow(prev + frontier, goalRow)
  {
  }

  /** Past a layer without a goal cell, the distance is the one from the next layer, if that layer grows. */
  lemma DistStep(start: Pos, goalRow: int, walls: seq<Wall>, k: nat, next: set<Pos>)
    requires !HitsRow(Reach(start, walls, k), goalRow)
    requires Reach(start, walls, k + 1) == Reach(start, walls, k) + next && Reach(start, walls, k) !! next
    ensures DistFrom(start, goalRow, walls, k) == (if next == {} then None else DistFrom(start, goalRow, walls, k + 1))
  {
    if next == {} {
      assert Reach(start, walls, k + 1) == Reach(start, walls, k);
    } else {
      var c :| c in next;
      assert c in Reach(start, walls, k + 1) && c !in Reach(start, walls, k);
    }
  }

  /** The search starts from `start` alone, discovered from nowhere. */
  method SearchInit(start: Pos, goalRow: int, walls: seq<Wall>)
    returns (cameFrom: map<Pos, Option<Pos>>, frontier: set<Pos>, ghost depth: map<Pos, nat>,
             ghost prev: set<Pos>, ghost k: nat)
    ensures Searching(start, goalRow, walls, k, prev, frontier, cameFrom, depth)
    ensures cameFrom == map[start := None] && frontier == {start}
  {
    cameFrom, frontier, depth, prev, k := map[start := None], {start}, map[start := 0], {}, 0;
  }

  /** One iteration of the search loop: expand layer `k`, the cells `frontier`, into layer `k'`. */
  method SearchStep(start: Pos, goalRow: int, walls: seq<Wall>, ghost k: nat, ghost prev: set<Pos>, frontier: set<Pos>,
                    cameFrom: map<Pos, Option<Pos>>, ghost depth: map<Pos, nat>)
    returns (found: seq<Pos>, cameFrom': map<Pos, Option<Pos>>, next: set<Pos>, ghost depth': map<Pos, nat>,
             ghost prev': set<Pos>, ghost k': nat)
    requires Searching(start, goalRow, walls, k, prev, frontier, cameFrom, depth) && frontier != {}
    ensures found != [] ==> Found(start, goalRow, walls, found)
    ensures found == [] ==> Searching(start, goalRow, walls, k', prev', next, cameFrom', depth')
    ensures found == [] ==> |prev| < |prev'| <= Size * Size + 1
  {
    found, cameFrom', next, depth' := ExpandLayer(start, goalRow, walls, frontier, prev, cameFrom, depth, k);
    prev', k' := prev + frontier, k + 1;
    if found != [] {
      LayerFound(start, goalRow, walls, k, prev, frontier, cameFrom, depth, found);
    } else {
      LayerAdvance(start, goalRow, walls, k, prev, frontier, cameFrom, depth, next, cameFrom', depth', prev', k');
    }
  }

  /** A walk as long as the distance is a shortest path. */
  lemma FoundIsShortest(start: Pos, goalRow: int, walls: seq<Wall>, found: seq<Pos>)
    requires found != [] && Found(start, goalRow, walls, found)
    ensures IsPathToRow(found, start, goalRow, walls) && |found| - 1 == PathLen(start, goalRow, walls)
    ensures forall p :: IsPathToRow(p, start, goalRow, walls) ==> |found| <= |p|
  {
    forall p | IsPathToRow(p, start, goalRow, walls)
      ensures |found| <= |p|
    {
      NoShorterPath(start, goalRow, walls, p);
    }
  }

  /** With no distance there is no path. */
  lemma NoneIsUnreachable(start: Pos, goalRow: int, walls: seq<Wall>)
    requires Dist(start, goalRow, walls) == None
    ensures forall p :: !IsPathToRow(p, start, goalRow, walls)
  {
    forall p | IsPathToRow(p, start, goalRow, walls)
      ensures false
    {
      NoShorterPath(start, goalRow, walls, p);
    }
  }

  /**
   * `shortest_path`: a shortest walk from `start` to a cell of `goalRow`,
   * or `[]` when there is none. The frontier is expanded one layer at a
   * time (breadth first), each cell remembering the cell it was discovered
   * from, and the path is read back through those links.
   */
  method ShortestPath(start: Pos, goalRow: int, walls: seq<Wall>) returns (path: seq<Pos>)
    ensures path == [] <==> Dist(start, goalRow, walls) == None
    ensures path != [] ==> IsPathToRow(path, start, goalRow, walls) && |path| - 1 == PathLen(start, goalRow, walls)
    ensures forall p :: IsPathToRow(p, start, goalRow, walls) ==> path != [] && |path| <= |p|
  {
    var cameFrom, frontier;
    ghost var depth, prev, k;
    cameFrom, frontier, depth, prev, k := SearchInit(start, goalRow, walls);
    while frontier != {}
      invariant Searching(start, goalRow, walls, k, prev, frontier, cameFrom, depth)
      decreases Size * Size + 1 - |prev|
    {
      var found;
      found, cameFrom, frontier, depth, prev, k := SearchStep(start, goalRow, walls, k, prev, frontier, cameFrom, depth);
      if found != [] {
        path := found;
        FoundIsShortest(start, goalRow, walls, path);
        return;
      }
    }
    path := [];
    NoneIsUnreachable(start, goalRow, walls);
  }

  /** `shortest_path_len`: the number of steps of a shortest path, or `Unreachable`. */
  method ShortestPathLen(start: Pos, goalRow: int, walls: seq<Wall>) returns (len: int)
    ensures len == PathLen(start, goalRow, walls)
    ensures len < Unreachable <==> Reachable(start, goalRow, walls)
  {
    var path := ShortestPath(start, goalRow, walls);
    len := if |path| > 0 then |path| - 1 else Unreachable;
    PathLenIsShortest(start, goalRow, walls);
  }
}
