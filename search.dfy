/**
 * The search engine `AI` (game/ai.py): the evaluation, the candidate moves
 * (every pawn move, and the legal walls near the opponent's shortest path,
 * in shuffled order), and depth-bounded minimax with alpha-beta cutoffs and
 * a transposition table, exploring by apply/undo on one game object.
 */
module Search {
  import opened Wrappers
  import opened Board
  import opened PathFinder
  import opened Rules
  import opened StateKey
  import opened Game

  /** `GameConfig.AI_DEPTH_EASY` and `GameConfig.AI_DEPTH_HARD`. */
  const AiDepthEasy := 1
  const AiDepthHard := 3
  /** `GameConfig.WIN_SCORE`. */
  const WinScore := 10000
  /** `GameConfig.WALL_SEARCH_RADIUS`. */
  const WallSearchRadius := 1
  /** Stands for `float('inf')`: beyond every evaluation (see `ScoreBounds`). */
  const Infinity := 1_000_000

  /** `evaluate(game)` on board `s`. */
  ghost function Score(s: State): int {
    if s.winner == 2 then WinScore
    else if s.winner == 1 then -WinScore
    else
      (20 - PathLen(s.p2, Size - 1, s.walls)) * 10 - (20 - PathLen(s.p1, 0, s.walls)) * 10 +
      (s.p2Walls - s.p1Walls) * 5
  }

  /** With wall counts in 0..10 every evaluation lies strictly between the two sentinels. */
  lemma ScoreBounds(s: State)
    requires 0 <= s.p1Walls <= StartWalls && 0 <= s.p2Walls <= StartWalls
    ensures -Infinity < Score(s) < Infinity
  {
    PathLenIsShortest(s.p1, 0, s.walls);
    PathLenIsShortest(s.p2, Size - 1, s.walls);
  }

  /** On a board that legal play reaches, an undecided position scores strictly between the two wins. */
  lemma ScoreUndecided(s: State)
    requires Valid(s) && s.winner == NoWinner
    ensures -WinScore < Score(s) < WinScore
  {
    PathLenIsShortest(s.p1, 0, s.walls);
    PathLenIsShortest(s.p2, Size - 1, s.walls);
  }

  /** Wall slot `w` is within `WallSearchRadius` of cell `c` in both coordinates. */
  predicate NearCell(w: Wall, c: Pos) {
    Abs(w.x - c.x) <= WallSearchRadius && Abs(w.y - c.y) <= WallSearchRadius
  }

  /** A wall that the scan around cell `c` keeps: on the board, near `c`, and legal. */
  ghost predicate SlotCandidate(s: State, c: Pos, w: Wall) {
    0 <= w.x < Slots && 0 <= w.y < Slots && NearCell(w, c) && WallLegal(s, w.x, w.y, w.o)
  }

  /** A wall that the scan along `path` keeps. */
  ghost predicate WallCandidate(s: State, path: seq<Pos>, w: Wall) {
    exists k :: 0 <= k < |path| && SlotCandidate(s, path[k], w)
  }

  predicate HasWalls(s: State, player: int) {
    (player == 2 && s.p2Walls > 0) || (player == 1 && s.p1Walls > 0)
  }

  /** The pawn whose path the walls are placed against, and its goal row. */
  function Target(s: State, player: int): Pos {
    if player == 2 then s.p1 else s.p2
  }

  function TargetRow(player: int): int {
    if player == 2 then 0 else Size - 1
  }

  /**
   * `get_all_moves(game, player)` in some order: one pawn move per valid pawn
   * move; and, only when the player has walls, each wall kept by the scan
   * around `path` exactly once, where `path` is a shortest path of the
   * opponent to its goal row, or `[]` when it has none.
   */
  ghost predicate MoveList(s: State, player: int, path: seq<Pos>, ms: seq<Move>) {
    (forall d :: multiset(ms)[MoveTo(d)] == multiset(PawnMoves(s, player))[d]) &&
    (forall w :: multiset(ms)[PlaceWall(w)] == (if HasWalls(s, player) && WallCandidate(s, path, w) then 1 else 0)) &&
    (HasWalls(s, player) ==>
      (path != [] ==> IsPathToRow(path, Target(s, player), TargetRow(player), s.walls)) &&
      (forall p :: IsPathToRow(p, Target(s, player), TargetRow(player), s.walls) ==> path != [] && |path| <= |p|))
  }

  /** One `MOVE` per destination, in order. */
  function MoveTos(ds: seq<Pos>): (r: seq<Move>)
    ensures |r| == |ds| && forall i :: 0 <= i < |ds| ==> r[i] == MoveTo(ds[i])
  {
    if ds == [] then [] else MoveTos(ds[..|ds| - 1]) + [MoveTo(ds[|ds| - 1])]
  }

  lemma {:induction false} MoveTosCount(ds: seq<Pos>, m: Move)
    ensures multiset(MoveTos(ds))[m] == (if m.MoveTo? then multiset(ds)[m.dest] else 0)
  {
    if ds != [] {
      var init := ds[..|ds| - 1];
      MoveTosCount(init, m);
      assert ds == init + [ds[|ds| - 1]];
      assert MoveTos(ds) == MoveTos(init) + [MoveTo(ds[|ds| - 1])];
    }
  }

  /** The moves of `ms` of one kind (pawn moves when `pawn`, walls otherwise), in order. */
  function Filter(ms: seq<Move>, pawn: bool): (r: seq<Move>)
    ensures |r| <= |ms| && forall i :: 0 <= i < |r| ==> r[i].MoveTo? == pawn
  {
    if ms == [] then []
    else Filter(ms[..|ms| - 1], pawn) + (if ms[|ms| - 1].MoveTo? == pawn then [ms[|ms| - 1]] else [])
  }

  /** `moves.sort(key=lambda m: 0 if m['type'] == 'MOVE' else 1)`: a stable sort on the move type. */
  function PawnsFirst(ms: seq<Move>): seq<Move> {
    Filter(ms, true) + Filter(ms, false)
  }

  /** Every move is of exactly one kind, so the two filters split `ms`. */
  lemma {:induction false} FilterSplit(ms: seq<Move>)
    ensures multiset(Filter(ms, true)) + multiset(Filter(ms, false)) == multiset(ms)
  {
    if ms != [] {
      var init, last := ms[..|ms| - 1], ms[|ms| - 1];
      FilterSplit(init);
      assert ms == init + [last];
      assert multiset(ms) == multiset(init) + multiset{last};
    }
  }

  /**
   * The sort only reorders: every pawn move comes before every wall move,
   * and within each kind the order is kept.
   */
  lemma PawnsFirstSpec(ms: seq<Move>)
    ensures multiset(PawnsFirst(ms)) == multiset(ms)
    ensures forall i, j :: 0 <= i < j < |PawnsFirst(ms)| && PawnsFirst(ms)[i].PlaceWall? ==> PawnsFirst(ms)[j].PlaceWall?
    ensures Filter(PawnsFirst(ms), true) == Filter(ms, true) && Filter(PawnsFirst(ms), false) == Filter(ms, false)
  {
    var p, w := Filter(ms, true), Filter(ms, false);
    FilterSplit(ms);
    var r := p + w;
    forall i, j | 0 <= i < j < |r| && r[i].PlaceWall?
      ensures r[j].PlaceWall?
    {
      assert i >= |p|;
      assert r[j] == w[j - |p|];
    }
    FilterAll(p, true);
    FilterNone(w, false);
    FilterAll(w, false);
    FilterNone(p, true);
    FilterAppend(p, w, true);
    FilterAppend(p, w, false);
  }

  lemma {:induction false} FilterAll(ms: seq<Move>, pawn: bool)
    requires forall i :: 0 <= i < |ms| ==> ms[i].MoveTo? == pawn
    ensures Filter(ms, pawn) == ms
  {
    if ms != [] {
      FilterAll(ms[..|ms| - 1], pawn);
      assert ms == ms[..|ms| - 1] + [ms[|ms| - 1]];
    }
  }

  lemma {:induction false} FilterNone(ms: seq<Move>, pawn: bool)
    requires forall i :: 0 <= i < |ms| ==> ms[i].MoveTo? == pawn
    ensures Filter(ms, !pawn) == []
  {
    if ms != [] {
      FilterNone(ms[..|ms| - 1], pawn);
    }
  }

  lemma {:induction false} FilterAppend(a: seq<Move>, b: seq<Move>, pawn: bool)
    ensures Filter(a + b, pawn) == Filter(a, pawn) + Filter(b, pawn)
    decreases |b|
  {
    if b == [] {
      assert a + b == a;
    } else {
      var b', last := b[..|b| - 1], b[|b| - 1];
      assert (a + b)[..|a + b| - 1] == a + b';
      assert (a + b)[|a + b| - 1] == last;
      FilterAppend(a, b', pawn);
      var extra := if last.MoveTo? == pawn then [last] else [];
      calc {
        Filter(a + b, pawn);
        Filter(a + b', pawn) + extra;
        Filter(a, pawn) + Filter(b', pawn) + extra;
        Filter(a, pawn) + (Filter(b', pawn) + extra);
      }
    }
  }

  /** `player_id = 2 if maximizing_player else 1`. */
  function Mover(maximizing: bool): int {
    if maximizing then 2 else 1
  }

  /** The key of the transposition table: `(state_key, depth, maximizing_player)`. */
  datatype TKey = TKey(state: Key, depth: int, maximizing: bool)

  /** An entry: `(value, best_move)`. */
  datatype Entry = Entry(value: int, best: Option<Move>)

  function Start(maximizing: bool): int {
    if maximizing then -Infinity else Infinity
  }

  /** `a` beats `b` for the side to move: larger for the maximiser, smaller for the minimiser. */
  predicate Better(a: int, b: int, maximizing: bool) {
    if maximizing then a > b else a < b
  }

  /** The best of `start` and `vals` for the side to move. */
  function Run(start: int, vals: seq<int>, maximizing: bool): (r: int)
    ensures r == start || exists i :: 0 <= i < |vals| && r == vals[i]
    ensures !Better(start, r, maximizing) && forall i :: 0 <= i < |vals| ==> !Better(vals[i], r, maximizing)
  {
    if vals == [] then start
    else
      var r := Run(start, vals[..|vals| - 1], maximizing);
      var v := vals[|vals| - 1];
      if Better(v, r, maximizing) then v else r
  }

  /** The window is closed after the values `vals`: `beta <= alpha` with the bound of the side to move updated. */
  ghost predicate Cut(alpha: int, beta: int, vals: seq<int>, maximizing: bool) {
    if maximizing then beta <= Run(alpha, vals, true) else Run(beta, vals, false) <= alpha
  }

  /**
   * The children `moves[..|vals|]` were scanned with values `vals`: the first
   * child always, each further one only while the window stayed open, and
   * the scan stops early only on a closed window.
   */
  ghost predicate Scanned(moves: seq<Move>, vals: seq<int>, alpha: int, beta: int, maximizing: bool) {
    |vals| <= |moves| &&
    (moves != [] ==> vals != []) &&
    (forall i :: 0 < i < |vals| ==> !Cut(alpha, beta, vals[..i], maximizing)) &&
    (|vals| < |moves| ==> Cut(alpha, beta, vals, maximizing))
  }

  /**
   * `value` is the best scanned child value (the sentinel when none beats it)
   * and `best` is the first scanned child that reaches it, or `None` when no
   * child beats the sentinel.
   */
  ghost predicate Chosen(moves: seq<Move>, vals: seq<int>, value: int, best: Option<Move>, maximizing: bool) {
    value == Run(Start(maximizing), vals, maximizing) &&
    (best.None? <==> forall i :: 0 <= i < |vals| ==> !Better(vals[i], Start(maximizing), maximizing)) &&
    (best.Some? ==> exists i :: 0 <= i < |vals| && i < |moves| && best.value == moves[i] && vals[i] == value &&
                      forall j :: 0 <= j < i ==> Better(value, vals[j], maximizing))
  }

  /** The table key under which the child reached by `move` is searched: one level down, the other side to move. */
  function ChildKey(s: State, move: Move, depth: int, maximizing: bool): TKey {
    TKey(HashableState(Apply(s, move)), depth - 1, !maximizing)
  }

  /**
   * Each scanned value `vals[i]` is the value that table `t` holds for the
   * child reached by `moves[i]` from board `s`: the value its own search
   * returned and stored.
   */
  ghost predicate Recorded(t: map<TKey, Entry>, s: State, moves: seq<Move>, vals: seq<int>, depth: int, maximizing: bool) {
    |vals| <= |moves| &&
    forall i :: 0 <= i < |vals| ==>
      ChildKey(s, moves[i], depth, maximizing) in t && t[ChildKey(s, moves[i], depth, maximizing)].value == vals[i]
  }

  /** The value of one more child, stored in a table that keeps every older entry, extends the record. */
  lemma RecordedExtend(t: map<TKey, Entry>, t': map<TKey, Entry>, s: State, moves: seq<Move>, vals: seq<int>,
                       v: int, depth: int, maximizing: bool)
    requires Recorded(t, s, moves, vals, depth, maximizing) && |vals| < |moves|
    requires forall k :: k in t ==> k in t' && t'[k] == t[k]
    requires ChildKey(s, moves[|vals|], depth, maximizing) in t' && t'[ChildKey(s, moves[|vals|], depth, maximizing)].value == v
    ensures Recorded(t', s, moves, vals + [v], depth, maximizing)
  {
    forall i | 0 <= i < |vals| + 1
      ensures ChildKey(s, moves[i], depth, maximizing) in t' &&
              t'[ChildKey(s, moves[i], depth, maximizing)].value == (vals + [v])[i]
    {
      if i < |vals| {
        assert ChildKey(s, moves[i], depth, maximizing) in t;
      }
    }
  }

  /** The child reached by `move` is scored at once: it is at depth 0, or the move decided the game. */
  ghost predicate Leaf(s: State, move: Move, depth: int) {
    depth == 1 || Apply(s, move).winner != NoWinner
  }

  /**
   * Each scanned child whose key was not in table `t0` when the scan began
   * and that is a leaf got the evaluation of its board as its value.
   */
  ghost predicate LeafScored(t0: map<TKey, Entry>, s: State, moves: seq<Move>, vals: seq<int>, depth: int, maximizing: bool) {
    |vals| <= |moves| &&
    forall i :: 0 <= i < |vals| && ChildKey(s, moves[i], depth, maximizing) !in t0 && Leaf(s, moves[i], depth) ==>
      vals[i] == Score(Apply(s, moves[i]))
  }

  /** Table `t` has, beyond `t0`, only keys below `depth` and the key `key`. */
  ghost predicate GrownBelow(t0: map<TKey, Entry>, t: map<TKey, Entry>, depth: int, key: TKey) {
    forall k :: k in t && k !in t0 ==> k.depth < depth || k == key
  }

  /**
   * Table `t` has, beyond `t0`, only keys more than one level below `depth`
   * and the keys of the first `n` children.
   */
  ghost predicate NewKeys(t0: map<TKey, Entry>, t: map<TKey, Entry>, s: State, moves: seq<Move>, n: int, depth: int, maximizing: bool) {
    forall k :: k in t && k !in t0 ==>
      k.depth < depth - 1 || exists j :: 0 <= j < n && j < |moves| && k == ChildKey(s, moves[j], depth, maximizing)
  }

  /**
   * A child value found by searching the child `c` one level down: `v` is
   * the best of the values of the sorted move list of `c`, scanned as
   * `Scanned` says and each recorded in `t` as that grandchild's value, with
   * fresh leaf grandchildren scored by the evaluation.
   */
  ghost predicate Searched(t0: map<TKey, Entry>, t: map<TKey, Entry>, c: State, v: int, depth: int,
                           alpha: int, beta: int, maximizing: bool) {
    exists ms, path, cvals, cbest ::
      MoveList(c, Mover(maximizing), path, ms) &&
      Chosen(PawnsFirst(ms), cvals, v, cbest, maximizing) &&
      Scanned(PawnsFirst(ms), cvals, alpha, beta, maximizing) &&
      Recorded(t, c, PawnsFirst(ms), cvals, depth, maximizing) &&
      LeafScored(t0, c, PawnsFirst(ms), cvals, depth, maximizing)
  }

  /**
   * What the table says about a scan from board `s` that began with table
   * `t0` and has scanned `vals`: the values are recorded, fresh leaves are
   * scored, and the table grew only by the children's keys and deeper ones.
   */
  ghost predicate Tabled(t0: map<TKey, Entry>, t: map<TKey, Entry>, s: State, moves: seq<Move>, vals: seq<int>,
                         depth: int, maximizing: bool) {
    Recorded(t, s, moves, vals, depth, maximizing) && LeafScored(t0, s, moves, vals, depth, maximizing) &&
    NewKeys(t0, t, s, moves, |vals|, depth, maximizing)
  }

  /** Different moves from one board lead to different table keys. */
  lemma ChildKeyInjective(s: State, m1: Move, m2: Move, depth: int, maximizing: bool)
    requires ChildKey(s, m1, depth, maximizing) == ChildKey(s, m2, depth, maximizing)
    ensures m1 == m2
  {
    var r1, r2 := Apply(s, m1), Apply(s, m2);
    ApplySpec(s, m1);
    ApplySpec(s, m2);
    HashableStateSpec(r1);
    HashableStateSpec(r2);
    assert HashableState(r1) == HashableState(r2);
    assert r1.p1 == r2.p1 && r1.p2 == r2.p2 && r1.p1Walls == r2.p1Walls && r1.p2Walls == r2.p2Walls;
    assert multiset(r1.walls) == multiset(r2.walls);
    if m1.PlaceWall? && m2.PlaceWall? {
      assert multiset(s.walls + [m1.wall]) == multiset(s.walls) + multiset{m1.wall};
      assert multiset(s.walls + [m2.wall]) == multiset(s.walls) + multiset{m2.wall};
      var w1, w2 := m1.wall, m2.wall;
      assert (multiset(s.walls) + multiset{w1})[w1] == multiset(s.walls)[w1] + 1;
      assert (multiset(s.walls) + multiset{w2})[w1] == multiset(s.walls)[w1] + (if w1 == w2 then 1 else 0);
    } else if m1.MoveTo? && m2.MoveTo? {
      assert m1.dest == m2.dest;
    }
  }

  /**
   * One more child keeps `Tabled`: for `LeafScored`, its key is fresh, or it
   * was added by an earlier child of this scan, which is then the same move.
   */
  lemma LeafExtend(t0: map<TKey, Entry>, t: map<TKey, Entry>, t': map<TKey, Entry>, s: State, moves: seq<Move>,
                   vals: seq<int>, v: int, depth: int, maximizing: bool)
    requires |vals| < |moves|
    requires Tabled(t0, t, s, moves, vals, depth, maximizing)
    requires forall k :: k in t ==> k in t' && t'[k] == t[k]
    requires ChildKey(s, moves[|vals|], depth, maximizing) in t'
    requires t'[ChildKey(s, moves[|vals|], depth, maximizing)].value == v
    requires ChildKey(s, moves[|vals|], depth, maximizing) !in t && Leaf(s, moves[|vals|], depth) ==>
      v == Score(Apply(s, moves[|vals|]))
    requires GrownBelow(t, t', depth - 1, ChildKey(s, moves[|vals|], depth, maximizing))
    ensures Tabled(t0, t', s, moves, vals + [v], depth, maximizing)
  {
    RecordedExtend(t, t', s, moves, vals, v, depth, maximizing);
    var n := |vals|;
    var key := ChildKey(s, moves[n], depth, maximizing);
    if key !in t0 && key in t && Leaf(s, moves[n], depth) {
      var j :| 0 <= j < n && j < |moves| && key == ChildKey(s, moves[j], depth, maximizing);
      ChildKeyInjective(s, moves[j], moves[n], depth, maximizing);
      assert vals[j] == t[key].value;
    }
    forall i | 0 <= i < n + 1 && ChildKey(s, moves[i], depth, maximizing) !in t0 && Leaf(s, moves[i], depth)
      ensures (vals + [v])[i] == Score(Apply(s, moves[i]))
    {
      if i < n {
        assert (vals + [v])[i] == vals[i];
      }
    }
    forall k | k in t' && k !in t0
      ensures k.depth < depth - 1 || exists j :: 0 <= j < n + 1 && j < |moves| && k == ChildKey(s, moves[j], depth, maximizing)
    {
      if k !in t {
        assert k.depth < depth - 1 || k == ChildKey(s, moves[n], depth, maximizing);
      }
    }
  }

  /** The keys a whole scan adds all lie below `depth`. */
  lemma NewKeysBelow(t0: map<TKey, Entry>, t: map<TKey, Entry>, s: State, moves: seq<Move>, n: int, depth: int, maximizing: bool)
    requires NewKeys(t0, t, s, moves, n, depth, maximizing)
    ensures forall k :: k in t && k !in t0 ==> k.depth < depth
  {
    forall k | k in t && k !in t0
      ensures k.depth < depth
    {
      if k.depth >= depth - 1 {
        var j :| 0 <= j < n && j < |moves| && k == ChildKey(s, moves[j], depth, maximizing);
      }
    }
  }

  /** `random.shuffle`: some permutation; which one is the random source's choice. */
  method Shuffle(xs: seq<Move>) returns (ys: seq<Move>)
    ensures multiset(ys) == multiset(xs)
  {
    ys := xs;
    var i := |ys|;
    while i > 1
      invariant 0 <= i <= |ys| && multiset(ys) == multiset(xs)
    {
      i := i - 1;
      var j :| 0 <= j <= i;
      SwapPermutes(ys, i, j);
      ys := ys[i := ys[j]][j := ys[i]];
    }
  }

  lemma SwapPermutes(s: seq<Move>, i: int, j: int)
    requires 0 <= i < |s| && 0 <= j < |s|
    ensures multiset(s[i := s[j]][j := s[i]]) == multiset(s)
  {
    var t := s[i := s[j]];
    assert multiset(t) == multiset(s) - multiset{s[i]} + multiset{s[j]};
    assert t[j] == s[j];
    assert multiset(t[j := s[i]]) == multiset(t) - multiset{s[j]} + multiset{s[i]};
  }

  /** The `MOVE` entries of `get_all_moves`, appended in the order of `dests`. */
  method AppendPawnMoves(moves: seq<Move>, dests: seq<Pos>) returns (moves': seq<Move>)
    ensures moves' == moves + MoveTos(dests)
  {
    moves' := moves;
    var i := 0;
    while i < |dests|
      invariant 0 <= i <= |dests| && moves' == moves + MoveTos(dests[..i])
    {
      moves' := moves' + [MoveTo(dests[i])];
      assert dests[..i + 1][..i] == dests[..i];
      i := i + 1;
    }
    assert dests[..i] == dests;
  }

  /** The `WALL` entries of `get_all_moves`: each candidate once, in the set's iteration order. */
  method AppendWalls(moves: seq<Move>, candidates: set<Wall>) returns (moves': seq<Move>)
    ensures |moves| <= |moves'| && moves'[..|moves|] == moves
    ensures forall m :: multiset(moves'[|moves|..])[m] == (if m.PlaceWall? && m.wall in candidates then 1 else 0)
  {
    moves' := moves;
    var rest := candidates;
    while rest != {}
      invariant rest <= candidates && |moves| <= |moves'| && moves'[..|moves|] == moves
      invariant forall m :: multiset(moves'[|moves|..])[m] == (if m.PlaceWall? && m.wall in candidates - rest then 1 else 0)
      decreases rest
    {
      var w :| w in rest;
      ghost var before := moves';
      moves' := moves' + [PlaceWall(w)];
      assert moves'[|moves|..] == before[|moves|..] + [PlaceWall(w)];
      rest := rest - {w};
    }
  }

  /**
   * The pawn moves followed by walls that each occur once exactly when the
   * player has walls and the scan along a shortest opponent path keeps them
   * form a move list.
   */
  lemma AssembleMoveList(s: State, player: int, path: seq<Pos>, dests: seq<Pos>, candidates: set<Wall>, all: seq<Move>)
    requires dests == PawnMoves(s, player)
    requires |MoveTos(dests)| <= |all| && all[..|dests|] == MoveTos(dests)
    requires forall m :: multiset(all[|dests|..])[m] == (if m.PlaceWall? && m.wall in candidates then 1 else 0)
    requires forall w :: w in candidates <==> HasWalls(s, player) && WallCandidate(s, path, w)
    requires HasWalls(s, player) ==>
      (path != [] ==> IsPathToRow(path, Target(s, player), TargetRow(player), s.walls)) &&
      (forall p :: IsPathToRow(p, Target(s, player), TargetRow(player), s.walls) ==> path != [] && |path| <= |p|)
    ensures MoveList(s, player, path, all)
  {
    var added := all[|dests|..];
    SplitAt(all, MoveTos(dests));
    CandidateBag(s, player, path, candidates, added);
    PawnPart(dests, added, all);
    WallPart(s, player, path, dests, added, all);
  }

  lemma SplitAt(all: seq<Move>, front: seq<Move>)
    requires |front| <= |all| && all[..|front|] == front
    ensures all == front + all[|front|..]
  {
  }

  lemma PawnPart(dests: seq<Pos>, added: seq<Move>, all: seq<Move>)
    requires all == MoveTos(dests) + added && forall d :: multiset(added)[MoveTo(d)] == 0
    ensures forall d :: multiset(all)[MoveTo(d)] == multiset(dests)[d]
  {
    forall d
      ensures multiset(all)[MoveTo(d)] == multiset(dests)[d]
    {
      BagOfMoves(dests, added, all, MoveTo(d));
    }
  }

  lemma WallPart(s: State, player: int, path: seq<Pos>, dests: seq<Pos>, added: seq<Move>, all: seq<Move>)
    requires all == MoveTos(dests) + added
    requires forall w :: multiset(added)[PlaceWall(w)] == (if HasWalls(s, player) && WallCandidate(s, path, w) then 1 else 0)
    ensures forall w :: multiset(all)[PlaceWall(w)] == (if HasWalls(s, player) && WallCandidate(s, path, w) then 1 else 0)
  {
    forall w
      ensures multiset(all)[PlaceWall(w)] == (if HasWalls(s, player) && WallCandidate(s, path, w) then 1 else 0)
    {
      BagOfMoves(dests, added, all, PlaceWall(w));
    }
  }

  /** The walls appended are exactly the scan's candidates, once each. */
  lemma CandidateBag(s: State, player: int, path: seq<Pos>, candidates: set<Wall>, added: seq<Move>)
    requires forall m :: multiset(added)[m] == (if m.PlaceWall? && m.wall in candidates then 1 else 0)
    requires forall w :: w in candidates <==> HasWalls(s, player) && WallCandidate(s, path, w)
    ensures forall w :: multiset(added)[PlaceWall(w)] == (if HasWalls(s, player) && WallCandidate(s, path, w) then 1 else 0)
    ensures forall d :: multiset(added)[MoveTo(d)] == 0
  {
    forall w
      ensures multiset(added)[PlaceWall(w)] == (if HasWalls(s, player) && WallCandidate(s, path, w) then 1 else 0)
    {
      assert multiset(added)[PlaceWall(w)] == (if w in candidates then 1 else 0);
    }
    forall d
      ensures multiset(added)[MoveTo(d)] == 0
    {
      assert multiset(added)[MoveTo(d)] == (if MoveTo(d).PlaceWall? then 1 else 0);
    }
  }

  /** How often `m` occurs in the pawn moves to `dests` followed by `added`. */
  lemma BagOfMoves(dests: seq<Pos>, added: seq<Move>, all: seq<Move>, m: Move)
    requires all == MoveTos(dests) + added
    ensures multiset(all)[m] == (if m.MoveTo? then multiset(dests)[m.dest] else 0) + multiset(added)[m]
  {
    MoveTosCount(dests, m);
  }

  /** The bookkeeping of one child in the scan of `minimax`. */
  lemma ScanStep(moves: seq<Move>, vals: seq<int>, v: int, value: int, best: Option<Move>,
                 alpha: int, beta: int, maximizing: bool)
    requires |vals| < |moves| && Chosen(moves, vals, value, best, maximizing)
    ensures Better(v, value, maximizing) ==> Chosen(moves, vals + [v], v, Some(moves[|vals|]), maximizing)
    ensures !Better(v, value, maximizing) ==> Chosen(moves, vals + [v], value, best, maximizing)
    ensures Run(alpha, vals + [v], true) == (if Run(alpha, vals, true) >= v then Run(alpha, vals, true) else v)
    ensures Run(beta, vals + [v], false) == (if Run(beta, vals, false) <= v then Run(beta, vals, false) else v)
    ensures forall j :: 0 < j <= |vals| ==> (vals + [v])[..j] == vals[..j]
    ensures (vals + [v])[..|vals| + 1] == vals + [v]
  {
    var vals' := vals + [v];
    assert vals'[..|vals|] == vals;
    if Better(v, value, maximizing) {
      assert vals'[|vals|] == v;
      forall j | 0 <= j < |vals|
        ensures Better(v, vals'[j], maximizing)
      {
        assert vals'[j] == vals[j];
      }
    } else if best.Some? {
      var i :| 0 <= i < |vals| && i < |moves| && best.value == moves[i] && vals[i] == value &&
               forall j :: 0 <= j < i ==> Better(value, vals[j], maximizing);
      assert vals'[i] == vals[i];
      assert forall j :: 0 <= j < i ==> vals'[j] == vals[j];
    }
  }

  lemma NoCutStep(alpha: int, beta: int, vals: seq<int>, v: int, maximizing: bool)
    requires forall j :: 0 < j <= |vals| ==> !Cut(alpha, beta, vals[..j], maximizing)
    requires !Cut(alpha, beta, vals + [v], maximizing)
    ensures forall j :: 0 < j <= |vals| + 1 ==> !Cut(alpha, beta, (vals + [v])[..j], maximizing)
  {
    forall j | 0 < j <= |vals| + 1
      ensures !Cut(alpha, beta, (vals + [v])[..j], maximizing)
    {
      if j <= |vals| {
        assert (vals + [v])[..j] == vals[..j];
      } else {
        assert (vals + [v])[..j] == vals + [v];
      }
    }
  }

  /**
   * The scan after the values `vals`, with the window still open: `a` and
   * `b` are the window narrowed by them, `value` and `best` the choice so
   * far, and no prefix of `vals` closed the window.
   */
  ghost predicate Scanning(moves: seq<Move>, vals: seq<int>, alpha: int, beta: int, a: int, b: int,
                           value: int, best: Option<Move>, maximizing: bool) {
    |vals| <= |moves| &&
    a == (if maximizing then Run(alpha, vals, true) else alpha) &&
    b == (if maximizing then beta else Run(beta, vals, false)) &&
    Chosen(moves, vals, value, best, maximizing) &&
    forall j :: 0 < j <= |vals| ==> !Cut(alpha, beta, vals[..j], maximizing)
  }

  /**
   * One child's value `v` updates the choice (a strictly better value wins,
   * so the first best child is kept) and the bound of the side to move; the
   * scan then either goes on or has stopped on a closed window.
   */
  lemma ScanAdvance(moves: seq<Move>, vals: seq<int>, v: int, alpha: int, beta: int, a: int, b: int,
                    value: int, best: Option<Move>, a': int, b': int, value': int, best': Option<Move>,
                    maximizing: bool)
    requires Scanning(moves, vals, alpha, beta, a, b, value, best, maximizing) && |vals| < |moves|
    requires value' == (if Better(v, value, maximizing) then v else value)
    requires best' == (if Better(v, value, maximizing) then Some(moves[|vals|]) else best)
    requires a' == (if maximizing && a < v then v else a) && b' == (if !maximizing && v < b then v else b)
    ensures b' <= a' ==> Scanned(moves, vals + [v], alpha, beta, maximizing) && Chosen(moves, vals + [v], value', best', maximizing)
    ensures !(b' <= a') ==> Scanning(moves, vals + [v], alpha, beta, a', b', value', best', maximizing)
  {
    ScanStep(moves, vals, v, value, best, alpha, beta, maximizing);
    if b' <= a' {
      forall j | 0 < j < |vals| + 1
        ensures !Cut(alpha, beta, (vals + [v])[..j], maximizing)
      {
        assert (vals + [v])[..j] == vals[..j];
      }
    } else {
      NoCutStep(alpha, beta, vals, v, maximizing);
    }
  }

  /** A scan that went through every child has scanned what `Scanned` asks. */
  lemma ScanDone(moves: seq<Move>, vals: seq<int>, alpha: int, beta: int, a: int, b: int,
                 value: int, best: Option<Move>, maximizing: bool)
    requires Scanning(moves, vals, alpha, beta, a, b, value, best, maximizing) && |vals| == |moves|
    ensures Scanned(moves, vals, alpha, beta, maximizing) && Chosen(moves, vals, value, best, maximizing)
  {
    if moves != [] {
      assert vals != [];
    }
  }

  class AI {
    var difficulty: int
    var maxDepth: nat
    var transposition: map<TKey, Entry>

    /** Depth 1 for difficulty 1, depth 3 otherwise, and an empty table. */
    constructor(difficulty: int)
      ensures this.difficulty == difficulty
      ensures maxDepth == (if difficulty == 1 then AiDepthEasy else AiDepthHard)
      ensures transposition == map[]
    {
      this.difficulty := difficulty;
      maxDepth := if difficulty == 1 then AiDepthEasy else AiDepthHard;
      transposition := map[];
    }

    /** `evaluate(game)`. */
    method Evaluate(game: QuoridorGame) returns (score: int)
      ensures score == Score(game.Board())
    {
      if game.winner == 2 {
        return WinScore;
      }
      if game.winner == 1 {
        return -WinScore;
      }
      var p2Dist := ShortestPathLen(game.p2Pos, Size - 1, game.walls);
      var p1Dist := ShortestPathLen(game.p1Pos, 0, game.walls);
      score := (20 - p2Dist) * 10 - (20 - p1Dist) * 10;
      score := score + (game.p2Walls - game.p1Walls) * 5;
    }

    /** The two orientations tried at slot `(wx, wy)`, in the order `'H'`, `'V'`. */
    method ScanSlot(game: QuoridorGame, wx: int, wy: int, candidates: set<Wall>) returns (candidates': set<Wall>)
      requires 0 <= wx < Slots && 0 <= wy < Slots
      modifies game
      ensures game.Session() == old(game.Session())
      ensures forall w :: w in candidates' <==>
        w in candidates || (w.x == wx && w.y == wy && WallLegal(old(game.Board()), wx, wy, w.o))
    {
      candidates' := candidates;
      var orients := [H, V];
      var k := 0;
      while k < |orients|
        invariant 0 <= k <= |orients|
        invariant game.Session() == old(game.Session())
        invariant forall w :: w in candidates' <==>
          w in candidates || (w.x == wx && w.y == wy && w.o in orients[..k] && WallLegal(old(game.Board()), wx, wy, w.o))
      {
        var ok := game.IsValidWall(wx, wy, orients[k]);
        if ok {
          candidates' := candidates' + {Wall(wx, wy, orients[k])};
        }
        assert orients[..k + 1] == orients[..k] + [orients[k]];
        k := k + 1;
      }
      assert orients[..k] == orients;
      forall o: Orient
        ensures o in orients
      {
        if o == H {
          assert orients[0] == o;
        } else {
          assert orients[1] == o;
        }
      }
    }

    /** The `dx`, `dy` loops of `get_all_moves` around one path cell `c`. */
    method ScanCell(game: QuoridorGame, c: Pos, candidates: set<Wall>) returns (candidates': set<Wall>)
      modifies game
      ensures game.Session() == old(game.Session())
      ensures forall w :: w in candidates' <==> w in candidates || SlotCandidate(old(game.Board()), c, w)
    {
      ghost var s := game.Board();
      candidates' := candidates;
      var radius := WallSearchRadius;
      var dx := -radius;
      while dx < radius + 1
        invariant -radius <= dx <= radius + 1
        invariant game.Session() == old(game.Session())
        invariant forall w :: w in candidates' <==> w in candidates || (SlotCandidate(s, c, w) && w.x - c.x < dx)
      {
        var dy := -radius;
        while dy < radius + 1
          invariant -radius <= dy <= radius + 1
          invariant game.Session() == old(game.Session())
          invariant forall w :: w in candidates' <==>
            w in candidates || (SlotCandidate(s, c, w) && (w.x - c.x < dx || (w.x - c.x == dx && w.y - c.y < dy)))
        {
          var wx, wy := c.x + dx, c.y + dy;
          if 0 <= wx < Slots && 0 <= wy < Slots {
            candidates' := ScanSlot(game, wx, wy, candidates');
          }
          dy := dy + 1;
        }
        dx := dx + 1;
      }
    }

    /** The walls kept along `path`. */
    method CollectWalls(game: QuoridorGame, path: seq<Pos>) returns (candidates: set<Wall>)
      modifies game
      ensures game.Session() == old(game.Session())
      ensures forall w :: w in candidates <==> WallCandidate(old(game.Board()), path, w)
    {
      ghost var s := game.Board();
      candidates := {};
      var i := 0;
      while i < |path|
        invariant 0 <= i <= |path|
        invariant game.Session() == old(game.Session())
        invariant forall w :: w in candidates <==> exists k :: 0 <= k < i && SlotCandidate(s, path[k], w)
      {
        candidates := ScanCell(game, path[i], candidates);
        i := i + 1;
      }
    }

    /** `get_all_moves(game, player_id)`; `path` is the opponent path the walls were chosen along. */
    method GetAllMoves(game: QuoridorGame, playerId: int) returns (moves: seq<Move>, ghost path: seq<Pos>)
      modifies game
      ensures game.Session() == old(game.Session())
      ensures MoveList(old(game.Board()), playerId, path, moves)
    {
      ghost var s := game.Board();
      var dests := game.GetValidPawnMoves(playerId);
      var pawnMoves := AppendPawnMoves([], dests);
      var all := pawnMoves;
      var candidates: set<Wall> := {};
      path := [];
      var hasWalls := (playerId == 2 && game.p2Walls > 0) || (playerId == 1 && game.p1Walls > 0);
      assert hasWalls == HasWalls(s, playerId) && dests == PawnMoves(s, playerId);
      if hasWalls {
        var targetPos := if playerId == 2 then game.p1Pos else game.p2Pos;
        var goalRow := if playerId == 2 then 0 else Size - 1;
        assert targetPos == Target(s, playerId) && goalRow == TargetRow(playerId) && game.walls == s.walls;
        var opponentPath := ShortestPath(targetPos, goalRow, game.walls);
        path := opponentPath;
        candidates := CollectWalls(game, opponentPath);
        all := AppendWalls(pawnMoves, candidates);
        assert forall w :: w in candidates <==> HasWalls(s, playerId) && WallCandidate(s, path, w);
        AssembleMoveList(s, playerId, path, dests, candidates, all);
      } else {
        assert all[|dests|..] == [];
        AssembleMoveList(s, playerId, path, dests, candidates, all);
      }
      moves := Shuffle(all);
    }

    /**
     * The loop over the sorted children of both branches of `minimax`: apply,
     * search one level down with the current window, undo, keep the first
     * best value, narrow the window, stop once it closes.
     */
    method ScanChildren(game: QuoridorGame, moves: seq<Move>, depth: nat, alpha: int, beta: int, maximizing: bool)
      returns (value: int, best: Option<Move>, ghost vals: seq<int>)
      requires depth > 0
      modifies this, game
      ensures game.Session() == old(game.Session())
      ensures maxDepth == old(maxDepth) && difficulty == old(difficulty)
      ensures forall k :: k in old(transposition) ==> k in transposition && transposition[k] == old(transposition)[k]
      ensures Scanned(moves, vals, alpha, beta, maximizing) && Chosen(moves, vals, value, best, maximizing)
      ensures Recorded(transposition, old(game.Board()), moves, vals, depth, maximizing)
      ensures LeafScored(old(transposition), old(game.Board()), moves, vals, depth, maximizing)
      ensures forall k :: k in transposition && k !in old(transposition) ==> k.depth < depth
      decreases depth, 1
    {
      ghost var s := game.Board();
      value, best, vals := Start(maximizing), None, [];
      var a, b := alpha, beta;
      var i := 0;
      ghost var closed := false;
      while i < |moves|
        invariant 0 <= i <= |moves| && |vals| == i && !closed
        invariant game.Session() == old(game.Session())
        invariant maxDepth == old(maxDepth) && difficulty == old(difficulty)
        invariant forall k :: k in old(transposition) ==> k in transposition && transposition[k] == old(transposition)[k]
        invariant Scanning(moves, vals, alpha, beta, a, b, value, best, maximizing)
        invariant Tabled(old(transposition), transposition, s, moves, vals, depth, maximizing)
      {
        var move := moves[i];
        var v := Child(game, move, depth, a, b, maximizing, old(transposition), moves, vals);
        var better := Better(v, value, maximizing);
        var value', best' := if better then v else value, if better then Some(move) else best;
        var a' := if maximizing && a < v then v else a;
        var b' := if !maximizing && v < b then v else b;
        ScanAdvance(moves, vals, v, alpha, beta, a, b, value, best, a', b', value', best', maximizing);
        vals := vals + [v];
        value, best, a, b := value', best', a', b';
        i := i + 1;
        if b <= a {
          closed := true;
          break;
        }
      }
      if !closed {
        ScanDone(moves, vals, alpha, beta, a, b, value, best, maximizing);
      }
      NewKeysBelow(old(transposition), transposition, s, moves, |vals|, depth, maximizing);
    }

    /**
     * One child of the scan: apply `move`, search one level down for the
     * other side, undo. A child not yet in the table is searched: a leaf gets
     * its evaluation, any other child the best of its own recorded children.
     */
    method Child(game: QuoridorGame, move: Move, depth: nat, alpha: int, beta: int, maximizing: bool,
                 ghost t0: map<TKey, Entry>, ghost moves: seq<Move>, ghost vals: seq<int>) returns (v: int)
      requires depth > 0
      requires |vals| < |moves| && moves[|vals|] == move
      requires Tabled(t0, transposition, game.Board(), moves, vals, depth, maximizing)
      modifies this, game
      ensures game.Session() == old(game.Session())
      ensures maxDepth == old(maxDepth) && difficulty == old(difficulty)
      ensures forall k :: k in old(transposition) ==> k in transposition && transposition[k] == old(transposition)[k]
      ensures var key := ChildKey(old(game.Board()), move, depth, maximizing);
        key in transposition && transposition[key].value == v &&
        GrownBelow(old(transposition), transposition, depth - 1, key) &&
        (key !in old(transposition) && Leaf(old(game.Board()), move, depth) ==>
          v == Score(Apply(old(game.Board()), move))) &&
        (key !in old(transposition) && !Leaf(old(game.Board()), move, depth) ==>
          Searched(old(transposition), transposition, Apply(old(game.Board()), move), v, depth - 1, alpha, beta, !maximizing))
      ensures Tabled(t0, transposition, old(game.Board()), moves, vals + [v], depth, maximizing)
      decreases depth, 0
    {
      ghost var s, t := game.Board(), transposition;
      UndoAfterApply(s, move);
      var undo := game.ApplyMoveFast(move);
      ghost var c := game.Board();
      ghost var cmoves: seq<Move>, cvals: seq<int>;
      var value, cbest;
      value, cbest, cmoves, cvals := Minimax(game, depth - 1, alpha, beta, !maximizing);
      v := value;
      game.UndoMoveFast(undo);
      var key := ChildKey(s, move, depth, maximizing);
      if key !in t && !Leaf(s, move, depth) {
        var ms, path :| MoveList(c, Mover(!maximizing), path, ms) && cmoves == PawnsFirst(ms);
        assert Chosen(PawnsFirst(ms), cvals, v, cbest, !maximizing);
      }
      LeafExtend(t0, t, transposition, s, moves, vals, v, depth, maximizing);
    }

    /**
     * `minimax(game, depth, alpha, beta, maximizing_player)`; `moves` are the
     * sorted children and `vals` the values of those scanned.
     */
    method Minimax(game: QuoridorGame, depth: nat, alpha: int, beta: int, maximizing: bool)
      returns (value: int, best: Option<Move>, ghost moves: seq<Move>, ghost vals: seq<int>)
      modifies this, game
      ensures game.Session() == old(game.Session())
      ensures maxDepth == old(maxDepth) && difficulty == old(difficulty)
      ensures forall k :: k in old(transposition) ==> k in transposition && transposition[k] == old(transposition)[k]
      ensures var key := TKey(HashableState(old(game.Board())), depth, maximizing);
        key in transposition && transposition[key] == Entry(value, best) &&
        (key in old(transposition) ==> transposition == old(transposition)) &&
        (key !in old(transposition) && (depth == 0 || old(game.winner) != NoWinner) ==>
          value == Score(old(game.Board())) && best == None &&
          transposition == old(transposition)[key := Entry(value, None)]) &&
        (key !in old(transposition) && depth > 0 && old(game.winner) == NoWinner ==>
          (exists ms, path :: MoveList(old(game.Board()), Mover(maximizing), path, ms) &&
                              moves == PawnsFirst(ms)) &&
          Scanned(moves, vals, alpha, beta, maximizing) && Chosen(moves, vals, value, best, maximizing) &&
          Recorded(transposition, old(game.Board()), moves, vals, depth, maximizing) &&
          LeafScored(old(transposition), old(game.Board()), moves, vals, depth, maximizing))
      ensures GrownBelow(old(transposition), transposition, depth, TKey(HashableState(old(game.Board())), depth, maximizing))
      decreases depth, 2
    {
      var stateKey := HashableState(game.Board());
      var key := TKey(stateKey, depth, maximizing);
      if key in transposition {
        var entry := transposition[key];
        return entry.value, entry.best, [], [];
      }
      if depth == 0 || game.winner != NoWinner {
        var val := Evaluate(game);
        transposition := transposition[key := Entry(val, None)];
        return val, None, [], [];
      }
      ghost var s := game.Board();
      var playerId := Mover(maximizing);
      var all, path := GetAllMoves(game, playerId);
      var sorted := PawnsFirst(all);
      moves := sorted;
      assert MoveList(s, playerId, path, all) && moves == PawnsFirst(all);
      value, best, vals := ScanChildren(game, sorted, depth, alpha, beta, maximizing);
      transposition := transposition[key := Entry(value, best)];
    }

    /**
     * `get_move(game)`: search as the maximiser (player 2) from `maxDepth`
     * with the whole window and return the chosen move.
     */
    method GetMove(game: QuoridorGame) returns (move: Option<Move>)
      modifies this, game
      ensures game.Session() == old(game.Session())
      ensures var key := TKey(HashableState(old(game.Board())), old(maxDepth), true);
        key !in old(transposition) ==>
          (old(game.winner) != NoWinner ==> move == None) &&
          (move.Some? ==> exists ms, path :: MoveList(old(game.Board()), 2, path, ms) && move.value in ms) &&
          (old(game.winner) == NoWinner && old(maxDepth) > 0 ==>
            exists ms, path :: MoveList(old(game.Board()), 2, path, ms) &&
              (ms == [] ==> move == None) && (move.Some? ==> move.value in ms))
    {
      ghost var s := game.Board();
      ghost var depth := maxDepth;
      var _, m, moves, vals := Minimax(game, maxDepth, -Infinity, Infinity, true);
      move := m;
      if TKey(HashableState(s), depth, true) !in old(transposition) && s.winner == NoWinner && depth > 0 {
        var ms, path :| MoveList(s, 2, path, ms) && moves == PawnsFirst(ms);
        PawnsFirstSpec(ms);
        if move.Some? {
          assert move.value in multiset(ms);
        }
        if ms == [] {
          assert moves == [] && vals == [];
        }
      }
    }
  }
}
