/**
 * `QuoridorGame.get_hashable_state` (game/logic.py): the key of the
 * transposition table, with the walls sorted so that the order in which
 * they were placed does not matter.
 */
module StateKey {
  import opened Board
  import opened Rules

  /** Python's order on `((x, y), orient)` tuples: by `x`, then `y`, then `'H'` before `'V'`. */
  predicate WallBefore(a: Wall, b: Wall) {
    a.x < b.x || (a.x == b.x && (a.y < b.y || (a.y == b.y && a.o == H && b.o == V)))
  }

  predicate WallAtMost(a: Wall, b: Wall) {
    a == b || WallBefore(a, b)
  }

  lemma WallOrderTotal(a: Wall, b: Wall)
    ensures WallAtMost(a, b) || WallAtMost(b, a)
    ensures WallAtMost(a, b) && WallAtMost(b, a) ==> a == b
  {
  }

  predicate Sorted(ws: seq<Wall>) {
    forall i, j :: 0 <= i < j < |ws| ==> WallAtMost(ws[i], ws[j])
  }

  /** `w` put into the sorted `ws` before the first wall it does not follow. */
  function Insert(w: Wall, ws: seq<Wall>): seq<Wall> {
    if ws == [] then [w]
    else if WallAtMost(w, ws[0]) then [w] + ws
    else [ws[0]] + Insert(w, ws[1..])
  }

  /** `sorted(walls)`. */
  function SortWalls(ws: seq<Wall>): seq<Wall> {
    if ws == [] then [] else Insert(ws[0], SortWalls(ws[1..]))
  }

  lemma PrependSorted(x: Wall, r: seq<Wall>)
    requires Sorted(r) && forall k :: 0 <= k < |r| ==> WallAtMost(x, r[k])
    ensures Sorted([x] + r)
  {
    var r' := [x] + r;
    forall i, j | 0 <= i < j < |r'|
      ensures WallAtMost(r'[i], r'[j])
    {
      if i == 0 {
        assert r'[j] == r[j - 1];
      } else {
        assert r'[i] == r[i - 1] && r'[j] == r[j - 1];
      }
    }
  }

  lemma {:induction false} InsertSorted(w: Wall, ws: seq<Wall>)
    requires Sorted(ws)
    ensures Sorted(Insert(w, ws)) && multiset(Insert(w, ws)) == multiset(ws) + multiset{w}
  {
    if ws == [] {
    } else if WallAtMost(w, ws[0]) {
      forall k | 0 <= k < |ws|
        ensures WallAtMost(w, ws[k])
      {
        if k > 0 {
          WallOrderTransitive(w, ws[0], ws[k]);
        }
      }
      PrependSorted(w, ws);
      assert Insert(w, ws) == [w] + ws;
    } else {
      var tail := ws[1..];
      SortedTail(ws);
      InsertSorted(w, tail);
      var r := Insert(w, tail);
      WallOrderTotal(w, ws[0]);
      forall k | 0 <= k < |r|
        ensures WallAtMost(ws[0], r[k])
      {
        assert r[k] in multiset(r);
        if r[k] != w {
          assert r[k] in multiset(tail);
          var m :| 0 <= m < |tail| && tail[m] == r[k];
          assert ws[m + 1] == r[k];
        }
      }
      PrependSorted(ws[0], r);
      assert Insert(w, ws) == [ws[0]] + r;
      assert ws == [ws[0]] + tail;
    }
  }

  lemma WallOrderTransitive(a: Wall, b: Wall, c: Wall)
    requires WallAtMost(a, b) && WallAtMost(b, c)
    ensures WallAtMost(a, c)
  {
  }

  /** The key's wall list is sorted and holds exactly the placed walls, each as often as it was placed. */
  lemma {:induction false} SortWallsSpec(ws: seq<Wall>)
    ensures Sorted(SortWalls(ws)) && multiset(SortWalls(ws)) == multiset(ws)
  {
    if ws != [] {
      SortWallsSpec(ws[1..]);
      InsertSorted(ws[0], SortWalls(ws[1..]));
      assert ws == [ws[0]] + ws[1..];
    }
  }

  /** Two sorted lists of the same walls are the same list. */
  lemma {:induction false} SortedUnique(a: seq<Wall>, b: seq<Wall>)
    requires Sorted(a) && Sorted(b) && multiset(a) == multiset(b)
    ensures a == b
  {
    if a == [] {
      assert |b| == |multiset(b)| == 0;
    } else {
      SameHead(a, b);
      var a', b' := a[1..], b[1..];
      assert a == [a[0]] + a' && b == [b[0]] + b';
      assert multiset(a') == multiset(b') by {
        assert multiset(a) == multiset{a[0]} + multiset(a');
        assert multiset(b) == multiset{b[0]} + multiset(b');
        assert multiset(a') == multiset(a) - multiset{a[0]};
        assert multiset(b') == multiset(b) - multiset{b[0]};
      }
      SortedTail(a);
      SortedTail(b);
      SortedUnique(a', b');
    }
  }

  /** Sorted lists of the same walls start with the same, least, wall. */
  lemma SameHead(a: seq<Wall>, b: seq<Wall>)
    requires Sorted(a) && Sorted(b) && multiset(a) == multiset(b) && a != []
    ensures b != [] && a[0] == b[0]
  {
    assert a[0] in multiset(b);
    var i :| 0 <= i < |b| && b[i] == a[0];
    assert b[0] in multiset(a);
    var j :| 0 <= j < |a| && a[j] == b[0];
    assert WallAtMost(a[0], a[j]) && WallAtMost(b[0], b[i]);
    WallOrderTotal(a[0], b[0]);
  }

  lemma SortedTail(a: seq<Wall>)
    requires Sorted(a) && a != []
    ensures Sorted(a[1..])
  {
    var a' := a[1..];
    forall i, j | 0 <= i < j < |a'|
      ensures WallAtMost(a'[i], a'[j])
    {
      assert a'[i] == a[i + 1] && a'[j] == a[j + 1];
    }
  }

  /** The tuple `get_hashable_state` returns. */
  datatype Key = Key(p1: Pos, p2: Pos, p1Walls: int, p2Walls: int, walls: seq<Wall>, turn: int)

  /** `get_hashable_state()`. */
  function HashableState(s: State): Key {
    Key(s.p1, s.p2, s.p1Walls, s.p2Walls, SortWalls(s.walls), s.turn)
  }

  /**
   * The key keeps the pawns, the wall counts and the turn as they are and
   * lists the placed walls in sorted order, each as often as it was placed.
   */
  lemma HashableStateSpec(s: State)
    ensures HashableState(s).p1 == s.p1 && HashableState(s).p2 == s.p2
    ensures HashableState(s).p1Walls == s.p1Walls && HashableState(s).p2Walls == s.p2Walls
    ensures HashableState(s).turn == s.turn
    ensures Sorted(HashableState(s).walls) && multiset(HashableState(s).walls) == multiset(s.walls)
  {
    SortWallsSpec(s.walls);
  }

  /**
   * Two boards get the same key exactly when they agree on the pawns, the
   * wall counts and the turn and hold the same walls, in whatever order.
   * The winner is not part of the key.
   */
  lemma KeyIgnoresWallOrder(s: State, t: State)
    ensures HashableState(s) == HashableState(t) <==>
      s.p1 == t.p1 && s.p2 == t.p2 && s.p1Walls == t.p1Walls && s.p2Walls == t.p2Walls &&
      s.turn == t.turn && multiset(s.walls) == multiset(t.walls)
  {
    SortWallsSpec(s.walls);
    SortWallsSpec(t.walls);
    if multiset(s.walls) == multiset(t.walls) {
      SortedUnique(SortWalls(s.walls), SortWalls(t.walls));
    }
  }
}
