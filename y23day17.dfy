/**
 * Clumsy crucible (2023, day 17): a grid of heat-loss digits is turned into a
 * graph whose states are a cell plus the axis along which the crucible must
 * move next, and Dijkstra's algorithm finds the least total heat loss from
 * the top-left corner to the bottom-right one.
 */
module Y23Day17 {

  const Z_HORIZONTAL: int := 0
  const Z_VERTICAL: int := 1
  /** What `get` answers for a cell outside the grid: the character '?'. */
  const OUTSIDE: int := '?' as int

  /** A state of the crucible: a cell and the axis of its next straight run. */
  datatype Pos = Pos(x: int, y: int, z: int)
  /** A straight run to `targetPos`, losing `heatloss` on the cells it enters. */
  datatype Move = Move(targetPos: Pos, heatloss: int)
  /** An entry of the search queue. */
  datatype State = State(sumHeatLoss: int, pos: Pos, fromPos: Pos)

  /**
   * How the search ends. `QueueEmpty` and `NoMoves` stand for the
   * NullPointerException the source raises when `poll` answers null or when
   * the graph has no entry for the polled state.
   */
  datatype SearchResult = Found(heatLoss: int) | QueueEmpty | NoMoves(pos: Pos)

  type Graph = map<Pos, seq<Move>>

  const START_H: Pos := Pos(0, 0, Z_HORIZONTAL)
  const START_V: Pos := Pos(0, 0, Z_VERTICAL)

  predicate IsStart(p: Pos) {
    p == START_H || p == START_V
  }

  predicate IsTargetCell(p: Pos, maxX: int, maxY: int) {
    p.x == maxX - 1 && p.y == maxY - 1
  }

  // ---------------------------------------------------------------------
  // Walks through a graph

  function WalkEnd(start: Pos, moves: seq<Move>): Pos {
    if moves == [] then start else moves[|moves| - 1].targetPos
  }

  function WalkCost(moves: seq<Move>): int {
    if moves == [] then 0 else WalkCost(moves[..|moves| - 1]) + moves[|moves| - 1].heatloss
  }

  /** The state a walk is in before its `k`-th move. */
  function StateBefore(start: Pos, moves: seq<Move>, k: nat): Pos
    requires k <= |moves|
  {
    if k == 0 then start else moves[k - 1].targetPos
  }

  /** `moves` can be taken one after the other in `g`, starting in `start`. */
  ghost predicate IsWalk(g: Graph, start: Pos, moves: seq<Move>) {
    forall k :: 0 <= k < |moves| ==> StateBefore(start, moves, k) in g && moves[k] in g[StateBefore(start, moves, k)]
  }

  ghost predicate NonNegative(g: Graph) {
    forall p, m :: p in g && m in g[p] ==> m.heatloss >= 0
  }

  lemma {:induction false} WalkCostNonNegative(g: Graph, start: Pos, moves: seq<Move>)
    requires NonNegative(g) && IsWalk(g, start, moves)
    ensures WalkCost(moves) >= 0
  {
    if moves != [] {
      WalkPrefix(g, start, moves, |moves| - 1);
      WalkPrefix(g, start, moves, |moves|);
      assert moves[..|moves|] == moves;
      WalkCostNonNegative(g, start, moves[..|moves| - 1]);
    }
  }

  /** Extending a walk by a move available at its end gives a walk. */
  lemma ExtendWalk(g: Graph, start: Pos, moves: seq<Move>, m: Move)
    requires IsWalk(g, start, moves)
    requires WalkEnd(start, moves) in g && m in g[WalkEnd(start, moves)]
    ensures IsWalk(g, start, moves + [m])
    ensures WalkEnd(start, moves + [m]) == m.targetPos
    ensures WalkCost(moves + [m]) == WalkCost(moves) + m.heatloss
  {
    var ext := moves + [m];
    assert ext[..|moves|] == moves;
    forall k | 0 <= k < |ext|
      ensures StateBefore(start, ext, k) in g && ext[k] in g[StateBefore(start, ext, k)]
    {
      if k < |moves| {
        assert ext[k] == moves[k];
        assert StateBefore(start, ext, k) == StateBefore(start, moves, k);
      } else {
        assert StateBefore(start, ext, k) == WalkEnd(start, moves);
      }
    }
  }

  /** Every prefix of a walk is a walk. */
  lemma WalkPrefix(g: Graph, start: Pos, moves: seq<Move>, n: nat)
    requires IsWalk(g, start, moves) && n <= |moves|
    ensures IsWalk(g, start, moves[..n])
    ensures n > 0 ==> WalkEnd(start, moves[..n - 1]) in g && moves[n - 1] in g[WalkEnd(start, moves[..n - 1])]
  {
    var pre := moves[..n];
    forall k | 0 <= k < |pre|
      ensures StateBefore(start, pre, k) in g && pre[k] in g[StateBefore(start, pre, k)]
    {
      assert StateBefore(start, pre, k) == StateBefore(start, moves, k);
    }
    if n > 0 {
      assert StateBefore(start, moves, n - 1) == WalkEnd(start, moves[..n - 1]);
    }
  }

  // ---------------------------------------------------------------------
  // Sum of the values of a map, the termination measure of the search

  ghost function MapSum(m: map<Pos, int>): int
    decreases |m.Keys|
  {
    if m == map[] then 0
    else
      var k :| k in m;
      m[k] + MapSum(m - {k})
  }

  lemma {:induction false} MapSumRemove(m: map<Pos, int>, k: Pos)
    requires k in m
    ensures MapSum(m) == m[k] + MapSum(m - {k})
    decreases |m.Keys|
  {
    var j :| j in m && MapSum(m) == m[j] + MapSum(m - {j});
    if j != k {
      var m1 := m - {j};
      var m2 := m - {k};
      assert |m1.Keys| < |m.Keys| by { assert m1.Keys + {j} == m.Keys; }
      MapSumRemove(m1, k);
      assert |m2.Keys| < |m.Keys| by { assert m2.Keys + {k} == m.Keys; }
      MapSumRemove(m2, j);
      assert m1 - {k} == m2 - {j};
    }
  }

  lemma {:induction false} MapSumNonNegative(m: map<Pos, int>)
    requires forall p :: p in m ==> m[p] >= 0
    ensures MapSum(m) >= 0
    decreases |m.Keys|
  {
    if m != map[] {
      var k :| k in m && MapSum(m) == m[k] + MapSum(m - {k});
      assert |(m - {k}).Keys| < |m.Keys| by { assert (m - {k}).Keys + {k} == m.Keys; }
      MapSumNonNegative(m - {k});
    }
  }

  /** Lowering the value of a key lowers the sum by the same amount. */
  lemma MapSumUpdate(m: map<Pos, int>, k: Pos, v: int)
    requires k in m
    ensures MapSum(m[k := v]) == MapSum(m) - m[k] + v
  {
    MapSumRemove(m, k);
    MapSumRemove(m[k := v], k);
    assert m[k := v] - {k} == m - {k};
  }

  // ---------------------------------------------------------------------
  // The invariant of the search

  /** Ghost evidence that a queue entry stands for a walk from a start. */
  datatype Witness = Witness(start: Pos, moves: seq<Move>)

  /** Every state the search can ever record: a start or a move's target. */
  ghost function Universe(g: Graph): set<Pos> {
    {START_H, START_V} + set p, m | p in g && m in g[p] :: m.targetPos
  }

  /** `universe` holds both starts and every move's target. */
  ghost predicate Closed(g: Graph, universe: set<Pos>) {
    START_H in universe && START_V in universe
    && forall p, m :: p in g && m in g[p] ==> m.targetPos in universe
  }

  lemma UniverseClosed(g: Graph)
    ensures Closed(g, Universe(g))
  {
    forall p, m | p in g && m in g[p]
      ensures m.targetPos in Universe(g)
    {
    }
  }

  /** Facts about the graph and the record that no step of the search disturbs. */
  ghost predicate Basics(g: Graph, universe: set<Pos>, dist: map<Pos, int>) {
    NonNegative(g) && Closed(g, universe) && dist.Keys <= universe
    && START_H in dist && dist[START_H] <= 0 && START_V in dist && dist[START_V] <= 0
    && (forall p :: p in dist ==> dist[p] >= 0)
  }

  ghost predicate WitnessFor(g: Graph, w: Witness, s: State) {
    IsStart(w.start) && IsWalk(g, w.start, w.moves)
    && WalkEnd(w.start, w.moves) == s.pos && WalkCost(w.moves) == s.sumHeatLoss
  }

  /** Every queue entry is backed by a walk and is no better than its record. */
  ghost predicate QueueSound(g: Graph, dist: map<Pos, int>, queue: seq<State>, walks: seq<Witness>) {
    |walks| == |queue|
    && forall i :: 0 <= i < |queue| ==>
      queue[i].pos in dist && dist[queue[i].pos] <= queue[i].sumHeatLoss
      && WitnessFor(g, walks[i], queue[i])
  }

  /** A recorded state that was never expanded still has its entry queued. */
  ghost predicate Synced(dist: map<Pos, int>, queue: seq<State>, done: set<Pos>) {
    forall p :: p in dist && p !in done ==>
      exists i :: 0 <= i < |queue| && queue[i].pos == p && queue[i].sumHeatLoss == dist[p]
  }

  /** Every move out of `u`, taken at cost `v`, is matched by the record. */
  ghost predicate RelaxedAt(g: Graph, dist: map<Pos, int>, u: Pos, v: int) {
    u in g && forall m :: m in g[u] ==> m.targetPos in dist && dist[m.targetPos] <= v + m.heatloss
  }

  /** Expanded states have had every move tried from their recorded cost. */
  ghost predicate Settled(g: Graph, dist: map<Pos, int>, done: set<Pos>) {
    forall u :: u in done ==> u in dist && RelaxedAt(g, dist, u, dist[u])
  }

  /** No expanded state was recorded above `low` ... */
  ghost predicate DoneBelow(dist: map<Pos, int>, done: set<Pos>, low: int) {
    forall u :: u in done ==> u in dist && dist[u] <= low
  }

  /** ... and no queued entry costs less than `low`. */
  ghost predicate QueueAbove(queue: seq<State>, low: int) {
    forall i :: 0 <= i < |queue| ==> low <= queue[i].sumHeatLoss
  }

  ghost predicate NoTargetDone(done: set<Pos>, maxX: int, maxY: int) {
    forall u :: u in done ==> !IsTargetCell(u, maxX, maxY)
  }

  /** A queue entry backed by a walk is reached, at its cost, by some walk from a start. */
  lemma WitnessReaches(g: Graph, w: Witness, s: State)
    requires WitnessFor(g, w, s)
    ensures exists st, ms :: IsStart(st) && IsWalk(g, st, ms) && WalkEnd(st, ms) == s.pos && WalkCost(ms) == s.sumHeatLoss
  {
    assert IsStart(w.start) && IsWalk(g, w.start, w.moves);
  }

  /**
   * Any walk from a start either ends in an expanded state recorded no higher
   * than the walk's cost, or is matched by a queued entry costing at most that.
   */
  lemma {:induction false} Frontier(g: Graph, universe: set<Pos>, dist: map<Pos, int>, queue: seq<State>,
                                    done: set<Pos>, start: Pos, moves: seq<Move>)
    requires Basics(g, universe, dist) && Synced(dist, queue, done) && Settled(g, dist, done)
    requires IsStart(start) && IsWalk(g, start, moves)
    ensures (exists i :: 0 <= i < |queue| && queue[i].sumHeatLoss <= WalkCost(moves))
         || (WalkEnd(start, moves) in done && dist[WalkEnd(start, moves)] <= WalkCost(moves))
  {
    if moves == [] {
      if start !in done {
        var i :| 0 <= i < |queue| && queue[i].pos == start && queue[i].sumHeatLoss == dist[start];
      }
    } else {
      var pre := moves[..|moves| - 1];
      var m := moves[|moves| - 1];
      WalkPrefix(g, start, moves, |moves| - 1);
      WalkPrefix(g, start, moves, |moves|);
      assert moves[..|moves|] == moves;
      Frontier(g, universe, dist, queue, done, start, pre);
      var u := WalkEnd(start, pre);
      assert m.heatloss >= 0;
      if u in done && dist[u] <= WalkCost(pre) {
        var t := m.targetPos;
        assert RelaxedAt(g, dist, u, dist[u]);
        assert dist[t] <= WalkCost(moves);
        if t !in done {
          var i :| 0 <= i < |queue| && queue[i].pos == t && queue[i].sumHeatLoss == dist[t];
        }
      } else {
        var i :| 0 <= i < |queue| && queue[i].sumHeatLoss <= WalkCost(pre);
        assert queue[i].sumHeatLoss <= WalkCost(moves);
      }
    }
  }

  /** When no queued entry costs less than `v`, no walk to a target is cheaper than `v`. */
  lemma CheapestIsOptimal(g: Graph, universe: set<Pos>, maxX: int, maxY: int, dist: map<Pos, int>,
                          queue: seq<State>, done: set<Pos>, v: int)
    requires Basics(g, universe, dist) && Synced(dist, queue, done) && Settled(g, dist, done)
    requires NoTargetDone(done, maxX, maxY)
    requires QueueAbove(queue, v)
    ensures forall s, w :: IsStart(s) && IsWalk(g, s, w) && IsTargetCell(WalkEnd(s, w), maxX, maxY) ==> v <= WalkCost(w)
  {
    forall s, w | IsStart(s) && IsWalk(g, s, w) && IsTargetCell(WalkEnd(s, w), maxX, maxY)
      ensures v <= WalkCost(w)
    {
      Frontier(g, universe, dist, queue, done, s, w);
    }
  }

  /** With the queue empty, no walk from a start reaches the target cell. */
  lemma EmptyQueueUnreachable(g: Graph, universe: set<Pos>, maxX: int, maxY: int, dist: map<Pos, int>,
                              done: set<Pos>)
    requires Basics(g, universe, dist) && Synced(dist, [], done) && Settled(g, dist, done)
    requires NoTargetDone(done, maxX, maxY)
    ensures forall s, w :: (IsStart(s) && IsWalk(g, s, w)) ==> !IsTargetCell(WalkEnd(s, w), maxX, maxY)
  {
    forall s, w | IsStart(s) && IsWalk(g, s, w)
      ensures !IsTargetCell(WalkEnd(s, w), maxX, maxY)
    {
      Frontier(g, universe, dist, [], done, s, w);
    }
  }

  /** The two start states, each queued and recorded at cost 0. */
  lemma InitialSearch(g: Graph)
    requires NonNegative(g)
    ensures Basics(g, Universe(g), map[START_H := 0, START_V := 0])
    ensures QueueSound(g, map[START_H := 0, START_V := 0],
                       [State(0, START_H, START_H), State(0, START_V, START_V)],
                       [Witness(START_H, []), Witness(START_V, [])])
    ensures Synced(map[START_H := 0, START_V := 0], [State(0, START_H, START_H), State(0, START_V, START_V)], {})
  {
    var queue := [State(0, START_H, START_H), State(0, START_V, START_V)];
    UniverseClosed(g);
    assert queue[0].pos == START_H && queue[1].pos == START_V;
  }

  // ---------------------------------------------------------------------
  // Polling the cheapest entry

  /** The first minimal entry, which is what `PriorityQueue.poll` returns here. */
  function MinIndex(queue: seq<State>): (i: nat)
    requires |queue| > 0
    ensures i < |queue|
    ensures forall j :: 0 <= j < |queue| ==> queue[i].sumHeatLoss <= queue[j].sumHeatLoss
  {
    if |queue| == 1 then 0
    else
      var k := 1 + MinIndex(queue[1..]);
      if queue[0].sumHeatLoss <= queue[k].sumHeatLoss then 0 else k
  }

  function RemoveAt<T>(s: seq<T>, k: nat): (r: seq<T>)
    requires k < |s|
    ensures |r| == |s| - 1
    ensures forall i :: 0 <= i < k ==> r[i] == s[i]
    ensures forall i :: k <= i < |r| ==> r[i] == s[i + 1]
  {
    s[..k] + s[k + 1..]
  }

  /** Polling an entry and marking its state expanded keeps the queue in sync. */
  lemma PollKeepsSynced(dist: map<Pos, int>, queue: seq<State>, done: set<Pos>, k: nat)
    requires k < |queue| && Synced(dist, queue, done)
    ensures Synced(dist, RemoveAt(queue, k), done + {queue[k].pos})
  {
    var q' := RemoveAt(queue, k);
    forall p | p in dist && p !in done + {queue[k].pos}
      ensures exists i :: 0 <= i < |q'| && q'[i].pos == p && q'[i].sumHeatLoss == dist[p]
    {
      var i :| 0 <= i < |queue| && queue[i].pos == p && queue[i].sumHeatLoss == dist[p];
      if i < k {
        assert q'[i] == queue[i];
      } else {
        assert i != k;
        assert q'[i - 1] == queue[i];
      }
    }
  }

  /** The entries left after polling the cheapest one stay sound and cost at least as much. */
  lemma PollKeepsQueue(g: Graph, dist: map<Pos, int>, queue: seq<State>, walks: seq<Witness>, k: nat)
    requires QueueSound(g, dist, queue, walks) && k < |queue|
    requires forall i :: 0 <= i < |queue| ==> queue[k].sumHeatLoss <= queue[i].sumHeatLoss
    ensures QueueSound(g, dist, RemoveAt(queue, k), RemoveAt(walks, k))
    ensures QueueAbove(RemoveAt(queue, k), queue[k].sumHeatLoss)
  {
    var q' := RemoveAt(queue, k);
    var w' := RemoveAt(walks, k);
    forall i | 0 <= i < |q'|
      ensures q'[i].pos in dist && dist[q'[i].pos] <= q'[i].sumHeatLoss && WitnessFor(g, w'[i], q'[i])
      ensures queue[k].sumHeatLoss <= q'[i].sumHeatLoss
    {
      if i < k {
        assert q'[i] == queue[i] && w'[i] == walks[i];
      } else {
        assert q'[i] == queue[i + 1] && w'[i] == walks[i + 1];
      }
    }
  }

  /**
   * The polled state's record is final: an unexpanded state is polled at its
   * recorded cost, and every expanded state was recorded no higher.
   */
  lemma PollBounds(g: Graph, dist: map<Pos, int>, queue: seq<State>, walks: seq<Witness>,
                   done: set<Pos>, low: int, k: nat)
    requires QueueSound(g, dist, queue, walks) && Synced(dist, queue, done)
    requires DoneBelow(dist, done, low) && QueueAbove(queue, low)
    requires k < |queue| && forall i :: 0 <= i < |queue| ==> queue[k].sumHeatLoss <= queue[i].sumHeatLoss
    ensures DoneBelow(dist, done + {queue[k].pos}, queue[k].sumHeatLoss)
    ensures queue[k].pos in dist && (queue[k].pos in done || dist[queue[k].pos] == queue[k].sumHeatLoss)
  {
    var c := queue[k];
    assert low <= c.sumHeatLoss;
    if c.pos !in done {
      var i :| 0 <= i < |queue| && queue[i].pos == c.pos && queue[i].sumHeatLoss == dist[c.pos];
    }
  }
  // ---------------------------------------------------------------------
  // The grid and the search

  predicate IsDigit(c: char) {
    '0' <= c <= '9'
  }

  /** The solver's input format: every row is a string of decimal digits. */
  predicate DigitRows(rows: seq<string>) {
    forall y, i :: 0 <= y < |rows| && 0 <= i < |rows[y]| ==> IsDigit(rows[y][i])
  }

  function TargetZ(horizontal: bool): int {
    if horizontal then Z_VERTICAL else Z_HORIZONTAL
  }

  /** Column of the cell `d` steps away along the run's axis. */
  function StepX(x: int, horizontal: bool, forward: bool, d: int): int {
    if !horizontal then x else if forward then x + d else x - d
  }

  /** Row of the cell `d` steps away along the run's axis. */
  function StepY(y: int, horizontal: bool, forward: bool, d: int): int {
    if horizontal then y else if forward then y + d else y - d
  }

  function Abs(a: int): nat {
    if a < 0 then -a else a
  }

  class World {
    var rows: seq<string>
    var field: array2<int>
    var maxX: int
    var maxY: int
    var ticks: int
    var heatlossDirections: Graph
    var minimalHeatLoss: map<Pos, int>
    var searchPaths: seq<State>

    /** `field` has the grid's dimensions, as `init` allocates it. */
    predicate Valid()
      reads this`field, this`maxX, this`maxY
    {
      field.Length0 == maxY && field.Length1 == maxX
    }

    constructor ()
      ensures rows == [] && Valid()
    {
      rows := [];
      field := new int[0, 0];
      maxX := 0;
      maxY := 0;
      ticks := 0;
      heatlossDirections := map[];
      minimalHeatLoss := map[];
      searchPaths := [];
    }

    method AddRow(row: string)
      modifies this
      ensures rows == old(rows) + [row]
      ensures field == old(field) && maxX == old(maxX) && maxY == old(maxY)
    {
      rows := rows + [row];
    }

    /**
     * Copies the digits into `field`. `ok` is false where the source throws:
     * there is no row, or a row is shorter than the first.
     */
    method Init() returns (ok: bool)
      modifies this
      ensures rows == old(rows) && ticks == 0 && maxY == |rows|
      ensures ok <==> |rows| > 0 && forall y :: 0 <= y < |rows| ==> |rows[y]| >= |rows[0]|
      ensures ok ==> fresh(field) && Valid() && maxX == |rows[0]|
      ensures ok ==> forall y, x :: 0 <= y < maxY && 0 <= x < maxX ==> field[y, x] == rows[y][x] as int - '0' as int
    {
      ticks := 0;
      maxY := |rows|;
      if |rows| == 0 {
        return false;
      }
      maxX := |rows[0]|;
      field := new int[maxY, maxX];
      var y := 0;
      while y < maxY
        invariant |rows| > 0 && 0 <= y <= maxY && maxY == |rows| && maxX == |rows[0]|
        invariant fresh(field) && Valid() && rows == old(rows) && ticks == 0
        invariant forall yy :: 0 <= yy < y ==> |rows[yy]| >= maxX
        invariant forall yy, x :: 0 <= yy < y && 0 <= x < maxX ==> field[yy, x] == rows[yy][x] as int - '0' as int
      {
        var x := 0;
        while x < maxX
          invariant 0 <= x <= maxX && 0 <= y < maxY && maxY == |rows| && maxX == |rows[0]| && x <= |rows[y]|
          invariant fresh(field) && Valid() && rows == old(rows) && ticks == 0
          invariant forall yy :: 0 <= yy < y ==> |rows[yy]| >= maxX
          invariant forall yy, xx :: 0 <= yy < y && 0 <= xx < maxX ==> field[yy, xx] == rows[yy][xx] as int - '0' as int
          invariant forall xx :: 0 <= xx < x ==> xx < |rows[y]| && field[y, xx] == rows[y][xx] as int - '0' as int
        {
          if x >= |rows[y]| {
            return false;
          }
          field[y, x] := rows[y][x] as int - '0' as int;
          x := x + 1;
        }
        y := y + 1;
      }
      return true;
    }

    predicate IsValidPos(x: int, y: int)
      reads this`maxX, this`maxY
    {
      0 <= x < maxX && 0 <= y < maxY
    }

    function Get(x: int, y: int): int
      reads this`field, this`maxX, this`maxY, field
      requires Valid()
    {
      if !IsValidPos(x, y) then OUTSIDE else field[y, x]
    }

    /** Every cell holds a digit value, as `init` leaves it for digit rows. */
    ghost predicate DigitField()
      reads this`field, this`maxX, this`maxY, field
      requires Valid()
    {
      forall y, x :: 0 <= y < maxY && 0 <= x < maxX ==> 0 <= field[y, x] <= 9
    }

    /** For a digit grid the out-of-grid sentinel tells exactly the cells outside. */
    lemma OutsideSentinel(x: int, y: int)
      requires Valid() && DigitField()
      ensures Get(x, y) == OUTSIDE <==> !IsValidPos(x, y)
      ensures IsValidPos(x, y) ==> 0 <= Get(x, y) <= 9
    {
    }

    /** Digit rows give a digit grid. */
    lemma DigitRowsGiveDigitField()
      requires Valid() && maxY == |rows| && DigitRows(rows)
      requires forall y, x :: 0 <= y < maxY && 0 <= x < maxX ==> x < |rows[y]| && field[y, x] == rows[y][x] as int - '0' as int
      ensures DigitField()
    {
      forall y, x | 0 <= y < maxY && 0 <= x < maxX
        ensures 0 <= field[y, x] <= 9
      {
        assert IsDigit(rows[y][x]);
      }
    }

    /** Heat accumulated along the run: the in-grid cells 1..d steps away. */
    ghost function RayHeat(x: int, y: int, horizontal: bool, forward: bool, d: nat): int
      reads this`field, this`maxX, this`maxY, field
      requires Valid()
    {
      if d == 0 then 0
      else
        var cx := StepX(x, horizontal, forward, d);
        var cy := StepY(y, horizontal, forward, d);
        RayHeat(x, y, horizontal, forward, d - 1) + (if IsValidPos(cx, cy) then Get(cx, cy) else 0)
    }

    /** Heat of the cells 1..d steps away, with no regard to the grid's border. */
    ghost function CellSum(x: int, y: int, horizontal: bool, forward: bool, d: nat): int
      reads this`field, this`maxX, this`maxY, field
      requires Valid()
    {
      if d == 0 then 0
      else CellSum(x, y, horizontal, forward, d - 1) + Get(StepX(x, horizontal, forward, d), StepY(y, horizontal, forward, d))
    }

    ghost function MoveAt(x: int, y: int, horizontal: bool, forward: bool, d: nat): seq<Move>
      reads this`field, this`maxX, this`maxY, field
      requires Valid()
    {
      var cx := StepX(x, horizontal, forward, d);
      var cy := StepY(y, horizontal, forward, d);
      if IsValidPos(cx, cy) then [Move(Pos(cx, cy, TargetZ(horizontal)), RayHeat(x, y, horizontal, forward, d))]
      else []
    }

    /** The moves listed after the first `d` steps of the run, forward before backward. */
    ghost function MovesUpTo(x: int, y: int, horizontal: bool, minRun: nat, d: nat): seq<Move>
      reads this`field, this`maxX, this`maxY, field
      requires Valid()
    {
      if d == 0 then []
      else
        MovesUpTo(x, y, horizontal, minRun, d - 1)
        + (if d >= minRun then MoveAt(x, y, horizontal, true, d) + MoveAt(x, y, horizontal, false, d) else [])
    }

    ghost function Moves(x: int, y: int, horizontal: bool, minRun: nat, maxRun: nat): seq<Move>
      reads this`field, this`maxX, this`maxY, field
      requires Valid()
    {
      MovesUpTo(x, y, horizontal, minRun, maxRun)
    }

    /**
     * The moves from cell (x, y) along one axis: straight runs of `minRun` to
     * `maxRun` cells in both directions that stay inside the grid.
     */
    method CreateMoves(x: int, y: int, horizontal: bool, minRun: nat, maxRun: nat) returns (result: seq<Move>)
      requires Valid()
      ensures result == Moves(x, y, horizontal, minRun, maxRun)
    {
      result := [];
      var heatLossForward := 0;
      var heatLossBackward := 0;
      var d := 1;
      while d <= maxRun
        invariant 1 <= d <= maxRun + 1
        invariant heatLossForward == RayHeat(x, y, horizontal, true, d - 1)
        invariant heatLossBackward == RayHeat(x, y, horizontal, false, d - 1)
        invariant result == MovesUpTo(x, y, horizontal, minRun, d - 1)
      {
        var fx := StepX(x, horizontal, true, d);
        var fy := StepY(y, horizontal, true, d);
        var forward: seq<Move> := [];
        if IsValidPos(fx, fy) {
          heatLossForward := heatLossForward + Get(fx, fy);
          forward := [Move(Pos(fx, fy, TargetZ(horizontal)), heatLossForward)];
        }
        var backX := StepX(x, horizontal, false, d);
        var backY := StepY(y, horizontal, false, d);
        var backward: seq<Move> := [];
        if IsValidPos(backX, backY) {
          heatLossBackward := heatLossBackward + Get(backX, backY);
          backward := [Move(Pos(backX, backY, TargetZ(horizontal)), heatLossBackward)];
        }
        if d >= minRun {
          result := result + forward + backward;
        }
        d := d + 1;
      }
    }

    /** A cell inside the grid lies inside on every step between it and a cell inside. */
    lemma InsideBetween(x: int, y: int, horizontal: bool, forward: bool, d: nat, k: nat)
      requires IsValidPos(x, y) && IsValidPos(StepX(x, horizontal, forward, d), StepY(y, horizontal, forward, d))
      requires k <= d
      ensures IsValidPos(StepX(x, horizontal, forward, k), StepY(y, horizontal, forward, k))
    {
    }

    /** From a cell inside the grid, a run to a cell inside enters only cells inside. */
    lemma {:induction false} RayHeatIsCellSum(x: int, y: int, horizontal: bool, forward: bool, d: nat)
      requires Valid() && IsValidPos(x, y)
      requires IsValidPos(StepX(x, horizontal, forward, d), StepY(y, horizontal, forward, d))
      ensures RayHeat(x, y, horizontal, forward, d) == CellSum(x, y, horizontal, forward, d)
    {
      if d > 0 {
        InsideBetween(x, y, horizontal, forward, d, d - 1);
        RayHeatIsCellSum(x, y, horizontal, forward, d - 1);
      }
    }

    lemma {:induction false} RayHeatNonNegative(x: int, y: int, horizontal: bool, forward: bool, d: nat)
      requires Valid() && DigitField()
      ensures RayHeat(x, y, horizontal, forward, d) >= 0
    {
      if d > 0 {
        RayHeatNonNegative(x, y, horizontal, forward, d - 1);
      }
    }

    ghost predicate IsRunMove(x: int, y: int, horizontal: bool, minRun: nat, maxRun: nat, m: Move)
      reads this`field, this`maxX, this`maxY, field
      requires Valid()
    {
      exists forward: bool, d: nat :: 1 <= d && minRun <= d <= maxRun && MoveAt(x, y, horizontal, forward, d) == [m]
    }

    lemma {:induction false} MovesUpToAreRuns(x: int, y: int, horizontal: bool, minRun: nat, d: nat, m: Move)
      requires Valid() && m in MovesUpTo(x, y, horizontal, minRun, d)
      ensures IsRunMove(x, y, horizontal, minRun, d, m)
    {
      if d > 0 {
        var pre := MovesUpTo(x, y, horizontal, minRun, d - 1);
        if m in pre {
          MovesUpToAreRuns(x, y, horizontal, minRun, d - 1, m);
          var f: bool, e: nat :| 1 <= e && minRun <= e <= d - 1 && MoveAt(x, y, horizontal, f, e) == [m];
        } else if m in MoveAt(x, y, horizontal, true, d) {
          assert MoveAt(x, y, horizontal, true, d) == [m];
        } else {
          assert MoveAt(x, y, horizontal, false, d) == [m];
        }
      }
    }

    /**
     * Every move ends on a cell inside the grid, on the same row (horizontal
     * run) or column (vertical run), `minRun` to `maxRun` cells away, on the
     * other axis, and loses exactly the heat of the cells it enters.
     */
    lemma MovesSound(x: int, y: int, horizontal: bool, minRun: nat, maxRun: nat, m: Move)
      requires Valid() && IsValidPos(x, y) && m in Moves(x, y, horizontal, minRun, maxRun)
      ensures IsValidPos(m.targetPos.x, m.targetPos.y)
      ensures m.targetPos.z == TargetZ(horizontal)
      ensures horizontal ==> m.targetPos.y == y && 1 <= Abs(m.targetPos.x - x) && minRun <= Abs(m.targetPos.x - x) <= maxRun
      ensures !horizontal ==> m.targetPos.x == x && 1 <= Abs(m.targetPos.y - y) && minRun <= Abs(m.targetPos.y - y) <= maxRun
      ensures exists forward: bool, d: nat :: StepX(x, horizontal, forward, d) == m.targetPos.x
                && StepY(y, horizontal, forward, d) == m.targetPos.y
                && m.heatloss == CellSum(x, y, horizontal, forward, d)
    {
      MovesUpToAreRuns(x, y, horizontal, minRun, maxRun, m);
      var f: bool, d: nat :| 1 <= d && minRun <= d <= maxRun && MoveAt(x, y, horizontal, f, d) == [m];
      RayHeatIsCellSum(x, y, horizontal, f, d);
    }

    lemma {:induction false} MovesUpToGrow(x: int, y: int, horizontal: bool, minRun: nat, e: nat, d: nat)
      requires Valid() && e <= d
      ensures forall m :: m in MovesUpTo(x, y, horizontal, minRun, e) ==> m in MovesUpTo(x, y, horizontal, minRun, d)
      decreases d
    {
      if e < d {
        MovesUpToGrow(x, y, horizontal, minRun, e, d - 1);
      }
    }

    /** Every run of admissible length that stays inside the grid is a move. */
    lemma MovesComplete(x: int, y: int, horizontal: bool, minRun: nat, maxRun: nat, forward: bool, d: nat)
      requires Valid() && IsValidPos(x, y)
      requires 1 <= d && minRun <= d <= maxRun
      requires IsValidPos(StepX(x, horizontal, forward, d), StepY(y, horizontal, forward, d))
      ensures Move(Pos(StepX(x, horizontal, forward, d), StepY(y, horizontal, forward, d), TargetZ(horizontal)),
                   CellSum(x, y, horizontal, forward, d)) in Moves(x, y, horizontal, minRun, maxRun)
    {
      RayHeatIsCellSum(x, y, horizontal, forward, d);
      var m := MoveAt(x, y, horizontal, forward, d)[0];
      var added := MoveAt(x, y, horizontal, true, d) + MoveAt(x, y, horizontal, false, d);
      assert m in added;
      assert MovesUpTo(x, y, horizontal, minRun, d) == MovesUpTo(x, y, horizontal, minRun, d - 1) + added;
      MovesUpToGrow(x, y, horizontal, minRun, d, maxRun);
    }

    lemma {:induction false} MovesUpToNonNegative(x: int, y: int, horizontal: bool, minRun: nat, d: nat)
      requires Valid() && DigitField()
      ensures forall m :: m in MovesUpTo(x, y, horizontal, minRun, d) ==> m.heatloss >= 0
    {
      if d > 0 {
        MovesUpToNonNegative(x, y, horizontal, minRun, d - 1);
        RayHeatNonNegative(x, y, horizontal, true, d);
        RayHeatNonNegative(x, y, horizontal, false, d);
      }
    }

    /** The graph of all states of the grid, each with its moves. */
    ghost predicate IsGraphFor(g: Graph, minRun: nat, maxRun: nat)
      reads this`field, this`maxX, this`maxY, field
      requires Valid()
    {
      (forall p :: p in g <==> IsValidPos(p.x, p.y) && (p.z == Z_HORIZONTAL || p.z == Z_VERTICAL))
      && forall p :: p in g ==> g[p] == Moves(p.x, p.y, p.z == Z_HORIZONTAL, minRun, maxRun)
    }

    /** Builds the graph row by row; a state on the horizontal axis gets the horizontal runs. */
    method CreateDirectionGraph(minRun: nat, maxRun: nat)
      requires Valid()
      modifies this
      ensures Valid() && IsGraphFor(heatlossDirections, minRun, maxRun)
      ensures rows == old(rows) && field == old(field) && maxX == old(maxX) && maxY == old(maxY)
    {
      var g: Graph := map[];
      var y := 0;
      while y < maxY
        invariant 0 <= y <= maxY && Valid()
        invariant rows == old(rows) && field == old(field) && maxX == old(maxX) && maxY == old(maxY)
        invariant forall p :: p in g <==> 0 <= p.y < y && 0 <= p.x < maxX && (p.z == Z_HORIZONTAL || p.z == Z_VERTICAL)
        invariant forall p :: p in g ==> g[p] == Moves(p.x, p.y, p.z == Z_HORIZONTAL, minRun, maxRun)
      {
        var x := 0;
        while x < maxX
          invariant 0 <= x <= maxX && 0 <= y < maxY && Valid()
          invariant rows == old(rows) && field == old(field) && maxX == old(maxX) && maxY == old(maxY)
          invariant forall p :: p in g <==> ((0 <= p.y < y && 0 <= p.x < maxX) || (p.y == y && 0 <= p.x < x))
                                            && (p.z == Z_HORIZONTAL || p.z == Z_VERTICAL)
          invariant forall p :: p in g ==> g[p] == Moves(p.x, p.y, p.z == Z_HORIZONTAL, minRun, maxRun)
        {
          var h := CreateMoves(x, y, true, minRun, maxRun);
          g := g[Pos(x, y, Z_HORIZONTAL) := h];
          var v := CreateMoves(x, y, false, minRun, maxRun);
          g := g[Pos(x, y, Z_VERTICAL) := v];
          x := x + 1;
        }
        y := y + 1;
      }
      heatlossDirections := g;
    }

    /** The crucible's graph: runs of one to three cells. */
    method CreateHeatlossDirectionGraph()
      requires Valid()
      modifies this
      ensures Valid() && IsGraphFor(heatlossDirections, 1, 3)
      ensures rows == old(rows) && field == old(field) && maxX == old(maxX) && maxY == old(maxY)
    {
      CreateDirectionGraph(1, 3);
    }

    /** The ultra crucible's graph: runs of four to ten cells. */
    method CreateUltraHeatlossDirectionGraph()
      requires Valid()
      modifies this
      ensures Valid() && IsGraphFor(heatlossDirections, 4, 10)
      ensures rows == old(rows) && field == old(field) && maxX == old(maxX) && maxY == old(maxY)
    {
      CreateDirectionGraph(4, 10);
    }

    /** A graph of the grid has a state for every move's target, and no negative weight. */
    lemma GraphClosed(g: Graph, minRun: nat, maxRun: nat)
      requires Valid() && IsGraphFor(g, minRun, maxRun)
      ensures forall p, m :: p in g && m in g[p] ==> m.targetPos in g
      ensures DigitField() ==> NonNegative(g)
    {
      forall p, m | p in g && m in g[p]
        ensures m.targetPos in g
      {
        MovesSound(p.x, p.y, p.z == Z_HORIZONTAL, minRun, maxRun, m);
      }
      if DigitField() {
        forall p, m | p in g && m in g[p]
          ensures m.heatloss >= 0
        {
          MovesUpToNonNegative(p.x, p.y, p.z == Z_HORIZONTAL, minRun, maxRun);
        }
      }
    }

    /**
     * Dijkstra's search from both start states of the top-left cell over the
     * graph built before; the record and the queue are kept in the fields.
     */
    method FindMinimalHeatLoss() returns (r: SearchResult)
      requires NonNegative(heatlossDirections)
      modifies this`minimalHeatLoss, this`searchPaths
      ensures r.Found? ==>
        exists s, w :: IsStart(s) && IsWalk(heatlossDirections, s, w) &&
          IsTargetCell(WalkEnd(s, w), maxX, maxY) && WalkCost(w) == r.heatLoss
      ensures r.Found? ==>
        forall s, w :: (IsStart(s) && IsWalk(heatlossDirections, s, w) &&
          IsTargetCell(WalkEnd(s, w), maxX, maxY)) ==> r.heatLoss <= WalkCost(w)
      ensures r.QueueEmpty? ==>
        forall s, w :: (IsStart(s) && IsWalk(heatlossDirections, s, w)) ==>
          !IsTargetCell(WalkEnd(s, w), maxX, maxY)
      ensures r.NoMoves? ==>
        r.pos !in heatlossDirections &&
        exists s, w :: IsStart(s) && IsWalk(heatlossDirections, s, w) && WalkEnd(s, w) == r.pos
    {
      r, minimalHeatLoss, searchPaths := Dijkstra(heatlossDirections, maxX, maxY);
    }
  }

  // ---------------------------------------------------------------------
  // The search

  /**
   * Dijkstra's search from both start states of the top-left cell. The
   * answer is the least cost of any walk that reaches the bottom-right
   * cell; the search fails only where the source throws. `dist` and
   * `queue` are the record and the queue as the search leaves them.
   */
  method Dijkstra(g: Graph, maxX: int, maxY: int) returns (r: SearchResult, dist: map<Pos, int>, queue: seq<State>)
    requires NonNegative(g)
    ensures r.Found? ==>
      exists s, w :: IsStart(s) && IsWalk(g, s, w) &&
        IsTargetCell(WalkEnd(s, w), maxX, maxY) && WalkCost(w) == r.heatLoss
    ensures r.Found? ==>
      forall s, w :: (IsStart(s) && IsWalk(g, s, w) &&
        IsTargetCell(WalkEnd(s, w), maxX, maxY)) ==> r.heatLoss <= WalkCost(w)
    ensures r.QueueEmpty? ==>
      forall s, w :: (IsStart(s) && IsWalk(g, s, w)) ==>
        !IsTargetCell(WalkEnd(s, w), maxX, maxY)
    ensures r.NoMoves? ==>
      r.pos !in g &&
      exists s, w :: IsStart(s) && IsWalk(g, s, w) && WalkEnd(s, w) == r.pos
  {
    dist := map[START_H := 0, START_V := 0];
    queue := [State(0, START_H, START_H), State(0, START_V, START_V)];
    ghost var walks: seq<Witness> := [Witness(START_H, []), Witness(START_V, [])];
    ghost var done: set<Pos> := {};
    ghost var low := 0;
    ghost var universe := Universe(g);
    InitialSearch(g);
    while true
      invariant Basics(g, universe, dist)
      invariant QueueSound(g, dist, queue, walks)
      invariant Synced(dist, queue, done)
      invariant Settled(g, dist, done)
      invariant DoneBelow(dist, done, low)
      invariant QueueAbove(queue, low)
      invariant NoTargetDone(done, maxX, maxY)
      decreases |universe - dist.Keys|, MapSum(dist), |queue|
    {
      if queue == [] {
        EmptyQueueUnreachable(g, universe, maxX, maxY, dist, done);
        r := QueueEmpty;
        return;
      }
      var k := MinIndex(queue);
      var current := queue[k];
      ghost var w := walks[k];
      assert WitnessFor(g, w, current);
      if IsTargetCell(current.pos, maxX, maxY) {
        CheapestIsOptimal(g, universe, maxX, maxY, dist, queue, done, current.sumHeatLoss);
        queue := RemoveAt(queue, k);
        WitnessReaches(g, w, current);
        r := Found(current.sumHeatLoss);
        return;
      }
      if current.pos !in g {
        queue := RemoveAt(queue, k);
        WitnessReaches(g, w, current);
        r := NoMoves(current.pos);
        return;
      }
      PollKeepsSynced(dist, queue, done, k);
      PollKeepsQueue(g, dist, queue, walks, k);
      PollBounds(g, dist, queue, walks, done, low, k);
      ghost var done0 := done;
      queue := RemoveAt(queue, k);
      walks := RemoveAt(walks, k);
      done := done + {current.pos};
      low := current.sumHeatLoss;
      ExpansionKeepsInvariant(g, universe, current, w, Search(dist, queue, walks), done0);
      MapSumNonNegative(dist);
      dist, queue, walks := RelaxMoves(current, g[current.pos], dist, queue, walks, w);
      MapSumNonNegative(dist);
    }
  }

  // ---------------------------------------------------------------------
  // Expanding the polled state

  /** The search data the expansion of one state changes; `walks` is ghost evidence. */
  datatype Search = Search(dist: map<Pos, int>, queue: seq<State>, walks: seq<Witness>)

  /**
   * One move of the polled state `current`: its target gets the new record
   * `current.sumHeatLoss + heatloss` and a queue entry when it had no record
   * or a higher one; `w` is the walk behind `current`.
   */
  ghost function RelaxOne(current: State, w: Witness, m: Move, s: Search): Search {
    var sum := current.sumHeatLoss + m.heatloss;
    if m.targetPos !in s.dist || s.dist[m.targetPos] > sum then
      Search(s.dist[m.targetPos := sum], s.queue + [State(sum, m.targetPos, current.pos)],
             s.walks + [Witness(w.start, w.moves + [m])])
    else s
  }

  /** The moves tried one after the other, in order. */
  ghost function RelaxAll(current: State, w: Witness, moves: seq<Move>, s: Search): Search {
    if moves == [] then s
    else RelaxOne(current, w, moves[|moves| - 1], RelaxAll(current, w, moves[..|moves| - 1], s))
  }

  /** The loop over the moves of the polled state. */
  method RelaxMoves(current: State, moves: seq<Move>, dist0: map<Pos, int>, queue0: seq<State>,
                    ghost walks0: seq<Witness>, ghost w: Witness)
    returns (dist: map<Pos, int>, queue: seq<State>, ghost walks: seq<Witness>)
    ensures Search(dist, queue, walks) == RelaxAll(current, w, moves, Search(dist0, queue0, walks0))
  {
    dist, queue, walks := dist0, queue0, walks0;
    var j := 0;
    while j < |moves|
      invariant 0 <= j <= |moves|
      invariant Search(dist, queue, walks) == RelaxAll(current, w, moves[..j], Search(dist0, queue0, walks0))
    {
      var move := moves[j];
      var sum := current.sumHeatLoss + move.heatloss;
      if move.targetPos !in dist || dist[move.targetPos] > sum {
        dist := dist[move.targetPos := sum];
        queue := queue + [State(sum, move.targetPos, current.pos)];
        walks := walks + [Witness(w.start, w.moves + [move])];
      }
      assert moves[..j + 1][..j] == moves[..j];
      j := j + 1;
    }
    assert moves[..|moves|] == moves;
  }

  /** Moves that all leave `u` in `g`. */
  ghost predicate MovesOf(g: Graph, u: Pos, moves: seq<Move>) {
    u in g && forall m :: m in moves ==> m in g[u]
  }

  lemma MovesOfPrefix(g: Graph, u: Pos, moves: seq<Move>)
    requires MovesOf(g, u, moves) && moves != []
    ensures MovesOf(g, u, moves[..|moves| - 1]) && moves[|moves| - 1] in g[u]
  {
    forall m | m in moves[..|moves| - 1]
      ensures m in g[u]
    {
      var i :| 0 <= i < |moves| - 1 && moves[..|moves| - 1][i] == m;
      assert moves[i] == m;
    }
  }

  /** Records are only ever added or lowered, and entries only ever appended. */
  lemma {:induction false} RelaxAllMonotone(current: State, w: Witness, moves: seq<Move>, s: Search)
    ensures
      var r := RelaxAll(current, w, moves, s);
      s.dist.Keys <= r.dist.Keys && (forall p :: p in s.dist ==> r.dist[p] <= s.dist[p])
      && s.queue <= r.queue && |r.queue| - |s.queue| == |r.walks| - |s.walks|
  {
    if moves != [] {
      RelaxAllMonotone(current, w, moves[..|moves| - 1], s);
    }
  }

  /** Afterwards every tried move is matched by the record. */
  lemma {:induction false} RelaxAllTried(current: State, w: Witness, moves: seq<Move>, s: Search)
    ensures
      var r := RelaxAll(current, w, moves, s);
      forall m :: m in moves ==> m.targetPos in r.dist && r.dist[m.targetPos] <= current.sumHeatLoss + m.heatloss
  {
    if moves != [] {
      var pre := moves[..|moves| - 1];
      var last := moves[|moves| - 1];
      var p := RelaxAll(current, w, pre, s);
      var r := RelaxOne(current, w, last, p);
      RelaxAllTried(current, w, pre, s);
      RelaxAllMonotone(current, w, [last], p);
      assert [last][..0] == [];
      forall m | m in moves
        ensures m.targetPos in r.dist && r.dist[m.targetPos] <= current.sumHeatLoss + m.heatloss
      {
        if m != last {
          var i :| 0 <= i < |moves| && moves[i] == m;
          assert m in pre by { assert pre[i] == m; }
        }
      }
    }
  }

  /** A new record for a move's target, at a cost that is not negative, keeps the basic facts. */
  lemma {:induction false} RelaxAllBasics(g: Graph, universe: set<Pos>, current: State, w: Witness,
                                          moves: seq<Move>, s: Search)
    requires Basics(g, universe, s.dist) && MovesOf(g, current.pos, moves) && current.sumHeatLoss >= 0
    ensures Basics(g, universe, RelaxAll(current, w, moves, s).dist)
  {
    if moves != [] {
      MovesOfPrefix(g, current.pos, moves);
      RelaxAllBasics(g, universe, current, w, moves[..|moves| - 1], s);
      assert moves[|moves| - 1].heatloss >= 0;
    }
  }

  /** Pushing the entry of a relaxed target keeps every entry backed by a walk. */
  lemma RelaxQueueSound(g: Graph, current: State, w: Witness, m: Move, s: Search)
    requires QueueSound(g, s.dist, s.queue, s.walks)
    requires current.pos in g && m in g[current.pos] && WitnessFor(g, w, current)
    ensures
      var r := RelaxOne(current, w, m, s);
      QueueSound(g, r.dist, r.queue, r.walks)
  {
    var t := m.targetPos;
    var sum := current.sumHeatLoss + m.heatloss;
    if t !in s.dist || s.dist[t] > sum {
      var r := RelaxOne(current, w, m, s);
      ExtendWalk(g, w.start, w.moves, m);
      forall i | 0 <= i < |r.queue|
        ensures r.queue[i].pos in r.dist && r.dist[r.queue[i].pos] <= r.queue[i].sumHeatLoss
        ensures WitnessFor(g, r.walks[i], r.queue[i])
      {
        if i < |s.queue| {
          assert r.queue[i] == s.queue[i] && r.walks[i] == s.walks[i];
        }
      }
    }
  }

  lemma {:induction false} RelaxAllQueueSound(g: Graph, current: State, w: Witness, moves: seq<Move>, s: Search)
    requires QueueSound(g, s.dist, s.queue, s.walks)
    requires MovesOf(g, current.pos, moves) && WitnessFor(g, w, current)
    ensures
      var r := RelaxAll(current, w, moves, s);
      QueueSound(g, r.dist, r.queue, r.walks)
  {
    if moves != [] {
      MovesOfPrefix(g, current.pos, moves);
      RelaxAllQueueSound(g, current, w, moves[..|moves| - 1], s);
      RelaxQueueSound(g, current, w, moves[|moves| - 1], RelaxAll(current, w, moves[..|moves| - 1], s));
    }
  }

  /** Recording a new cost together with a matching entry keeps the queue in sync. */
  lemma RelaxSynced(current: State, w: Witness, m: Move, s: Search, done: set<Pos>)
    requires Synced(s.dist, s.queue, done)
    ensures
      var r := RelaxOne(current, w, m, s);
      Synced(r.dist, r.queue, done)
  {
    var r := RelaxOne(current, w, m, s);
    if r != s {
      var e := r.queue[|s.queue|];
      forall p | p in r.dist && p !in done
        ensures exists i :: 0 <= i < |r.queue| && r.queue[i].pos == p && r.queue[i].sumHeatLoss == r.dist[p]
      {
        if p == m.targetPos {
          assert r.queue[|s.queue|].pos == p;
        } else {
          var i :| 0 <= i < |s.queue| && s.queue[i].pos == p && s.queue[i].sumHeatLoss == s.dist[p];
          assert r.queue[i] == s.queue[i];
        }
      }
    }
  }

  lemma {:induction false} RelaxAllSynced(current: State, w: Witness, moves: seq<Move>, s: Search, done: set<Pos>)
    requires Synced(s.dist, s.queue, done)
    ensures
      var r := RelaxAll(current, w, moves, s);
      Synced(r.dist, r.queue, done)
  {
    if moves != [] {
      RelaxAllSynced(current, w, moves[..|moves| - 1], s, done);
      RelaxSynced(current, w, moves[|moves| - 1], RelaxAll(current, w, moves[..|moves| - 1], s), done);
    }
  }

  /**
   * A new record costs at least the polled entry, hence at least every
   * expanded state's record: those records stay as they were.
   */
  lemma {:induction false} RelaxAllKeepsDone(g: Graph, current: State, w: Witness, moves: seq<Move>, s: Search,
                                             done: set<Pos>)
    requires NonNegative(g) && MovesOf(g, current.pos, moves)
    requires DoneBelow(s.dist, done, current.sumHeatLoss)
    ensures
      var r := RelaxAll(current, w, moves, s);
      forall u :: u in done ==> u in r.dist && r.dist[u] == s.dist[u]
  {
    if moves != [] {
      MovesOfPrefix(g, current.pos, moves);
      RelaxAllKeepsDone(g, current, w, moves[..|moves| - 1], s, done);
      assert moves[|moves| - 1].heatloss >= 0;
    }
  }

  /** Lowering records other than those of the settled states keeps them settled. */
  lemma SettledLowered(g: Graph, d: map<Pos, int>, d': map<Pos, int>, settled: set<Pos>)
    requires Settled(g, d, settled)
    requires d.Keys <= d'.Keys && forall p :: p in d ==> d'[p] <= d[p]
    requires forall u :: u in settled ==> d'[u] == d[u]
    ensures Settled(g, d', settled)
  {
    forall u | u in settled
      ensures u in d' && RelaxedAt(g, d', u, d'[u])
    {
      assert RelaxedAt(g, d, u, d[u]);
    }
  }

  /** New entries cost at least the polled one. */
  lemma {:induction false} RelaxAllQueueAbove(g: Graph, current: State, w: Witness, moves: seq<Move>, s: Search)
    requires NonNegative(g) && MovesOf(g, current.pos, moves)
    requires QueueAbove(s.queue, current.sumHeatLoss)
    ensures QueueAbove(RelaxAll(current, w, moves, s).queue, current.sumHeatLoss)
  {
    if moves != [] {
      MovesOfPrefix(g, current.pos, moves);
      RelaxAllQueueAbove(g, current, w, moves[..|moves| - 1], s);
      assert moves[|moves| - 1].heatloss >= 0;
    }
  }

  /** The measure `(|universe - keys|, sum of values)` went down, or nothing changed. */
  ghost predicate Progress(universe: set<Pos>, dist0: map<Pos, int>, dist: map<Pos, int>,
                           queue0: seq<State>, queue: seq<State>) {
    (dist == dist0 && queue == queue0)
    || |universe - dist.Keys| < |universe - dist0.Keys|
    || (dist.Keys == dist0.Keys && MapSum(dist) < MapSum(dist0))
  }

  lemma RemoveOne(a: set<Pos>, t: Pos)
    requires t in a
    ensures |a - {t}| < |a|
  {
    assert (a - {t}) + {t} == a;
  }

  /** One relaxation adds a key of the universe, or lowers the sum of the records, or changes nothing. */
  lemma RelaxOneProgress(g: Graph, universe: set<Pos>, current: State, w: Witness, m: Move, p: Search)
    requires Closed(g, universe) && current.pos in g && m in g[current.pos] && p.dist.Keys <= universe
    ensures
      var r := RelaxOne(current, w, m, p);
      p.dist.Keys <= r.dist.Keys <= universe && Progress(universe, p.dist, r.dist, p.queue, r.queue)
  {
    var r := RelaxOne(current, w, m, p);
    var t := m.targetPos;
    if r != p {
      if t !in p.dist {
        assert universe - r.dist.Keys == (universe - p.dist.Keys) - {t};
        RemoveOne(universe - p.dist.Keys, t);
      } else {
        MapSumUpdate(p.dist, t, current.sumHeatLoss + m.heatloss);
        assert r.dist.Keys == p.dist.Keys;
      }
    }
  }

  /** Two steps that each make progress, with the keys only growing, make progress together. */
  lemma ProgressTransitive(universe: set<Pos>, d1: map<Pos, int>, d2: map<Pos, int>, d3: map<Pos, int>,
                           q1: seq<State>, q2: seq<State>, q3: seq<State>)
    requires d1.Keys <= d2.Keys <= d3.Keys <= universe
    requires Progress(universe, d1, d2, q1, q2) && Progress(universe, d2, d3, q2, q3)
    ensures Progress(universe, d1, d3, q1, q3)
  {
    assert universe - d3.Keys <= universe - d2.Keys <= universe - d1.Keys;
    if d2.Keys != d1.Keys {
      assert |universe - d2.Keys| < |universe - d1.Keys|;
    }
  }

  /** Every relaxation adds a key of the universe or lowers the sum of the records. */
  lemma {:induction false} RelaxAllProgress(g: Graph, universe: set<Pos>, current: State, w: Witness,
                                            moves: seq<Move>, s: Search)
    requires Closed(g, universe) && MovesOf(g, current.pos, moves) && s.dist.Keys <= universe
    ensures
      var r := RelaxAll(current, w, moves, s);
      s.dist.Keys <= r.dist.Keys <= universe && Progress(universe, s.dist, r.dist, s.queue, r.queue)
  {
    if moves != [] {
      var pre := moves[..|moves| - 1];
      var m := moves[|moves| - 1];
      MovesOfPrefix(g, current.pos, moves);
      RelaxAllProgress(g, universe, current, w, pre, s);
      var p := RelaxAll(current, w, pre, s);
      var r := RelaxOne(current, w, m, p);
      RelaxOneProgress(g, universe, current, w, m, p);
      ProgressTransitive(universe, s.dist, p.dist, r.dist, s.queue, p.queue, r.queue);
    }
  }

  /**
   * Expanding the polled state keeps the invariant of the search, with the
   * polled state counted as expanded and its cost as the new lower bound.
   */
  lemma ExpansionKeepsInvariant(g: Graph, universe: set<Pos>, current: State, w: Witness, s: Search, done0: set<Pos>)
    requires current.pos in g && WitnessFor(g, w, current)
    requires Basics(g, universe, s.dist) && QueueSound(g, s.dist, s.queue, s.walks)
    requires Synced(s.dist, s.queue, done0 + {current.pos}) && Settled(g, s.dist, done0)
    requires DoneBelow(s.dist, done0 + {current.pos}, current.sumHeatLoss)
    requires QueueAbove(s.queue, current.sumHeatLoss)
    requires current.pos in done0 || s.dist[current.pos] == current.sumHeatLoss
    ensures
      var r := RelaxAll(current, w, g[current.pos], s);
      Basics(g, universe, r.dist) && QueueSound(g, r.dist, r.queue, r.walks)
      && Synced(r.dist, r.queue, done0 + {current.pos}) && Settled(g, r.dist, done0 + {current.pos})
      && DoneBelow(r.dist, done0 + {current.pos}, current.sumHeatLoss)
      && QueueAbove(r.queue, current.sumHeatLoss)
      && Progress(universe, s.dist, r.dist, s.queue, r.queue)
  {
    var moves := g[current.pos];
    var c := current.pos;
    var done := done0 + {c};
    var r := RelaxAll(current, w, moves, s);
    WalkCostNonNegative(g, w.start, w.moves);
    RelaxAllMonotone(current, w, moves, s);
    RelaxAllTried(current, w, moves, s);
    RelaxAllBasics(g, universe, current, w, moves, s);
    RelaxAllQueueSound(g, current, w, moves, s);
    RelaxAllSynced(current, w, moves, s, done);
    RelaxAllKeepsDone(g, current, w, moves, s, done);
    RelaxAllProgress(g, universe, current, w, moves, s);
    RelaxAllQueueAbove(g, current, w, moves, s);
    SettledLowered(g, s.dist, r.dist, done0);
    if c !in done0 {
      assert r.dist[c] == current.sumHeatLoss;
      assert RelaxedAt(g, r.dist, c, current.sumHeatLoss);
    }
  }
}
