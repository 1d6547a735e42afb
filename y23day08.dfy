/**
 * The haunted-wasteland walk: a movement string of 'L'/'R' characters is
 * read cyclically, each walker follows the left or right child of its
 * current node, a circle detector records when each (node, movement index)
 * pair was first visited, and the number of ticks after which every walker
 * stands on its circle again is the least common multiple of the circle
 * lengths, computed with Euclid's algorithm.
 */
module Y23Day08 {
  import opened Wrappers
  import opened JavaInt

  // ---------------------------------------------------------------------------
  // ggT and kgV
  // ---------------------------------------------------------------------------

  ghost predicate Divides(d: int, n: int) {
    exists k :: n == d * k
  }

  /** Euclid's algorithm on Java's remainder; zero exactly when both arguments are. */
  function GgT(a: int, b: int): (r: int)
    ensures r == 0 <==> a == 0 && b == 0
    decreases Abs(a)
  {
    if a == 0 then b else GgT(Rem(b, a), a)
  }

  lemma MulAssoc(a: int, b: int, c: int)
    ensures a * (b * c) == (a * b) * c
  {
  }

  /** A common divisor of `x` and `y` divides `q * x + y`. */
  lemma DividesLinear(g: int, x: int, y: int, q: int)
    requires Divides(g, x) && Divides(g, y)
    ensures Divides(g, q * x + y)
  {
    var k1 :| x == g * k1;
    var k2 :| y == g * k2;
    MulAssoc(q, g, k1);
    assert q * x + y == g * (q * k1 + k2);
  }

  /** For non-negative arguments the result is a non-negative common divisor. */
  lemma {:induction false} GgTDivides(a: int, b: int)
    requires a >= 0 && b >= 0
    ensures GgT(a, b) >= 0
    ensures Divides(GgT(a, b), a) && Divides(GgT(a, b), b)
    decreases a
  {
    if a == 0 {
      assert b == b * 1;
      assert 0 == b * 0;
    } else {
      var m := b % a;
      GgTDivides(m, a);
      assert b == (b / a) * a + m;
      DividesLinear(GgT(m, a), a, m, b / a);
    }
  }

  /** ... and the greatest: every common divisor divides it. */
  lemma {:induction false} GgTGreatest(a: int, b: int, d: int)
    requires a >= 0 && b >= 0
    requires Divides(d, a) && Divides(d, b)
    ensures Divides(d, GgT(a, b))
    decreases a
  {
    if a != 0 {
      var m := b % a;
      assert m == (-(b / a)) * a + b;
      DividesLinear(d, a, b, -(b / a));
      GgTGreatest(m, a, d);
    }
  }

  /** Dividing a multiple of `g` by `g` is exact. */
  lemma DivExact(g: int, x: int)
    requires g > 0
    ensures (g * x) / g == x
  {
    var q := (g * x) / g;
    var r := (g * x) % g;
    assert g * x == g * q + r;
    assert g * (x - q) == r;
    MulBound(g, x - q);
  }

  /** A non-zero multiple of a positive `g` is at least `g` away from zero. */
  lemma MulBound(g: int, d: int)
    requires g > 0
    ensures d >= 1 ==> g * d >= g
    ensures d <= -1 ==> g * d <= -g
  {
  }

  lemma PositiveFactor(g: int, j: int)
    requires g > 0 && g * j > 0
    ensures j > 0
  {
  }

  /**
   * `kgV` of `Y23Day08.java`: `a * b / ggT(a, b)` with no guard, so that
   * `kgV(0, 0)` divides by zero (`None`).
   */
  function KgVUnguarded(a: int, b: int): (r: Option<int>)
    ensures r.None? <==> a == 0 && b == 0
  {
    var g := GgT(a, b);
    if g == 0 then None else Some(Div(a * b, g))
  }

  /** `kgV` of `Y23Day08Animation3D.java`: 0 when either argument is 0. */
  function KgV(a: int, b: int): (r: int)
    ensures a == 0 || b == 0 ==> r == 0
  {
    if a == 0 || b == 0 then 0 else Div(a * b, GgT(a, b))
  }

  /** The two versions agree except where the guard fires. */
  lemma KgVGuardOnlyForZero(a: int, b: int)
    ensures a != 0 && b != 0 ==> KgVUnguarded(a, b) == Some(KgV(a, b))
    ensures KgVUnguarded(0, 0).None? && KgV(0, 0) == 0
    ensures KgVUnguarded(a, 0) == if a == 0 then None else Some(0)
  {
    if a != 0 {
      assert GgT(a, 0) != 0;
      assert Div(a * 0, GgT(a, 0)) == 0;
    }
  }

  /** `a * b / g` for a divisor `g` of `a` is `(a / g) * b`. */
  lemma QuotientTimes(g: int, j: int, b: int)
    requires g > 0
    ensures ((g * j) * b) / g == j * b
  {
    MulAssoc(g, j, b);
    DivExact(g, j * b);
  }

  /** For positive arguments `kgV` is a positive common multiple, and `kgV * ggT == a * b`. */
  lemma KgVIsCommonMultiple(a: int, b: int)
    requires a > 0 && b > 0
    ensures KgV(a, b) > 0
    ensures Divides(a, KgV(a, b)) && Divides(b, KgV(a, b))
    ensures KgV(a, b) * GgT(a, b) == a * b
  {
    GgTDivides(a, b);
    var g := GgT(a, b);
    var j :| a == g * j;
    var k :| b == g * k;
    PositiveFactor(g, j);
    QuotientTimes(g, j, b);
    var r := j * b;
    assert KgV(a, b) == r;
    assert r > 0;
    assert Divides(b, r) by {
      assert r == b * j;
    }
    assert Divides(a, r) by {
      MulAssoc(j, g, k);
      assert r == a * k;
    }
    MulAssoc(j, b, g);
    MulAssoc(g, j, b);
  }

  lemma DividesTransitive(a: int, b: int, c: int)
    requires Divides(a, b) && Divides(b, c)
    ensures Divides(a, c)
  {
    var k1 :| b == a * k1;
    var k2 :| c == b * k2;
    MulAssoc(a, k1, k2);
    assert c == a * (k1 * k2);
  }

  /** The fold of `kgv(list)`: `result := kgV(result, value)` for each value in turn. */
  function FoldKgV(acc: int, values: seq<int>): int {
    if values == [] then acc else KgV(FoldKgV(acc, values[..|values| - 1]), values[|values| - 1])
  }

  /** The same fold with the unguarded `kgV`, failing at the first division by zero. */
  function FoldKgVUnguarded(acc: int, values: seq<int>): Option<int> {
    if values == [] then Some(acc)
    else
      match FoldKgVUnguarded(acc, values[..|values| - 1])
      case None => None
      case Some(r) => KgVUnguarded(r, values[|values| - 1])
  }

  /**
   * Folding positive values from a positive start gives a positive common
   * multiple of the start and of every value, and the unguarded fold
   * computes the same.
   */
  lemma {:induction false} FoldIsCommonMultiple(acc: int, values: seq<int>)
    requires acc > 0 && forall i :: 0 <= i < |values| ==> values[i] > 0
    ensures FoldKgV(acc, values) > 0
    ensures Divides(acc, FoldKgV(acc, values))
    ensures forall i :: 0 <= i < |values| ==> Divides(values[i], FoldKgV(acc, values))
    ensures FoldKgVUnguarded(acc, values) == Some(FoldKgV(acc, values))
  {
    if values == [] {
      assert acc == acc * 1;
    } else {
      var init := values[..|values| - 1];
      var last := values[|values| - 1];
      FoldIsCommonMultiple(acc, init);
      var r := FoldKgV(acc, init);
      KgVIsCommonMultiple(r, last);
      KgVGuardOnlyForZero(r, last);
      DividesTransitive(acc, r, KgV(r, last));
      forall i | 0 <= i < |values|
        ensures Divides(values[i], FoldKgV(acc, values))
      {
        if i < |init| {
          assert init[i] == values[i];
          DividesTransitive(values[i], r, KgV(r, last));
        }
      }
    }
  }

  /** A zero start makes the unguarded fold divide by zero at once. */
  lemma {:induction false} FoldUnguardedZeroStart(values: seq<int>)
    requires |values| > 0 && values[0] == 0
    ensures FoldKgVUnguarded(values[0], values).None?
  {
    if |values| > 1 {
      var init := values[..|values| - 1];
      assert init[0] == 0;
      FoldUnguardedZeroStart(init);
    }
  }

  // ---------------------------------------------------------------------------
  // kgv over a list
  // ---------------------------------------------------------------------------

  /**
   * `kgv(values)` of `Y23Day08Animation3D.java`: starts from the first value
   * and folds `kgV` over every value, the first included; an empty list
   * has no first value (`None`).
   */
  method Kgv(values: seq<int>) returns (r: Option<int>)
    ensures r == if values == [] then None else Some(FoldKgV(values[0], values))
  {
    if values == [] {
      return None;
    }
    var result := values[0];
    for i := 0 to |values|
      invariant result == FoldKgV(values[0], values[..i])
    {
      assert values[..i + 1][..i] == values[..i];
      result := KgV(result, values[i]);
    }
    assert values[..|values|] == values;
    r := Some(result);
  }

  /** `kgv(values)` of `Y23Day08.java`, where `kgV` may divide by zero. */
  method KgvUnguarded(values: seq<int>) returns (r: Option<int>)
    ensures r == if values == [] then None else FoldKgVUnguarded(values[0], values)
  {
    if values == [] {
      return None;
    }
    var result := values[0];
    for i := 0 to |values|
      invariant FoldKgVUnguarded(values[0], values[..i]) == Some(result)
    {
      assert values[..i + 1][..i] == values[..i];
      var next := KgVUnguarded(result, values[i]);
      if next.None? {
        assert FoldKgVUnguarded(values[0], values[..i + 1]).None?;
        FoldUnguardedStaysFailed(values[0], values, i + 1);
        return None;
      }
      result := next.value;
    }
    assert values[..|values|] == values;
    r := Some(result);
  }

  /** Once the unguarded fold has divided by zero, it stays failed. */
  lemma {:induction false} FoldUnguardedStaysFailed(acc: int, values: seq<int>, n: int)
    requires 0 <= n <= |values| && FoldKgVUnguarded(acc, values[..n]).None?
    ensures FoldKgVUnguarded(acc, values).None?
    decreases |values| - n
  {
    if n < |values| {
      assert values[..n + 1][..n] == values[..n];
      FoldUnguardedStaysFailed(acc, values, n + 1);
    } else {
      assert values[..n] == values;
    }
  }

  // ---------------------------------------------------------------------------
  // Nodes and the movement string
  // ---------------------------------------------------------------------------

  datatype Node = Node(nodeName: string, childLeft: string, childRight: string)

  datatype NodeAtMovementIndex = NodeAtMovementIndex(nodeName: string, movementIndex: int)

  /** The child a walker follows: the left one on 'L', the right one on anything else. */
  function Child(node: Node, dir: char): string {
    if dir == 'L' then node.childLeft else node.childRight
  }

  /** `nodes.get(name)`: `None` where Java returns `null`. */
  function Lookup(nodes: map<string, Node>, name: string): (r: Option<Node>)
    ensures r.Some? <==> name in nodes
    ensures r.Some? ==> r.value == nodes[name]
  {
    if name in nodes then Some(nodes[name]) else None
  }

  /** The index into the movement string stays in range, or is 0 while the string is empty. */
  predicate IndexInRange(movements: string, idx: int) {
    0 <= idx && (idx < |movements| || idx == 0)
  }

  /** The character `charAt(idx)` reads; `None` where it throws. */
  function CharAt(movements: string, idx: int): (r: Option<char>)
    requires IndexInRange(movements, idx)
    ensures r.Some? <==> |movements| > 0
  {
    if |movements| == 0 then None else Some(movements[idx])
  }

  /** The index after `nextMove`: one further, wrapping to 0 at the end; unchanged when it throws. */
  function NextIndex(movements: string, idx: int): (r: int)
    requires IndexInRange(movements, idx)
    ensures IndexInRange(movements, r)
    ensures |movements| > 0 ==> r == (idx + 1) % |movements|
  {
    if |movements| == 0 then idx else (idx + 1) % |movements|
  }

  // ---------------------------------------------------------------------------
  // Part one: one walker from "AAA"
  // ---------------------------------------------------------------------------

  class World {
    var movements: string
    var nodes: map<string, Node>
    var currentNode: Option<Node>
    var nextMovementIdx: int
    var ticks: int

    ghost predicate Valid()
      reads this
    {
      IndexInRange(movements, nextMovementIdx)
    }

    /** A world without nodes; the movement string, `null` in the source, is empty. */
    constructor ()
      ensures Valid()
      ensures movements == "" && nodes == map[] && currentNode == None && nextMovementIdx == 0 && ticks == 0
    {
      movements := "";
      nodes := map[];
      currentNode := None;
      nextMovementIdx := 0;
      ticks := 0;
    }

    method SetMovements(movements: string)
      modifies this`movements, this`nextMovementIdx
      ensures Valid() && this.movements == movements && nextMovementIdx == 0
    {
      this.movements := movements;
      nextMovementIdx := 0;
    }

    /** Stores the node under its name; the node named "AAA" becomes the current one. */
    method AddNode(node: Node)
      modifies this`nodes, this`currentNode
      ensures nodes == old(nodes)[node.nodeName := node]
      ensures currentNode == if node.nodeName == "AAA" then Some(node) else old(currentNode)
    {
      nodes := nodes[node.nodeName := node];
      if node.nodeName == "AAA" {
        currentNode := Some(node);
      }
    }

    /** The character the next `nextMove` returns (`peekNextDir`). */
    function PeekNextDir(): Option<char>
      reads this
      requires Valid()
    {
      CharAt(movements, nextMovementIdx)
    }

    /** Returns the character `peekNextDir` shows and moves the index on, cyclically. */
    method NextMove() returns (r: Option<char>)
      requires Valid()
      modifies this`nextMovementIdx
      ensures Valid()
      ensures r == old(PeekNextDir())
      ensures nextMovementIdx == NextIndex(movements, old(nextMovementIdx))
    {
      if |movements| == 0 {
        return None;
      }
      r := Some(movements[nextMovementIdx]);
      nextMovementIdx := (nextMovementIdx + 1) % |movements|;
    }

    /**
     * Counts the tick, reads the next direction and follows the left or
     * right child. Without a movement string or a current node the source
     * throws (`ok == false`) after counting the tick.
     */
    method Tick() returns (ok: bool)
      requires Valid()
      modifies this`ticks, this`nextMovementIdx, this`currentNode
      ensures Valid()
      ensures ticks == old(ticks) + 1
      ensures nextMovementIdx == NextIndex(movements, old(nextMovementIdx))
      ensures ok <==> |movements| > 0 && old(currentNode).Some?
      ensures currentNode == if ok then Lookup(nodes, Child(old(currentNode).value, movements[old(nextMovementIdx)])) else old(currentNode)
    {
      ticks := ticks + 1;
      var dir := NextMove();
      if dir.None? || currentNode.None? {
        return false;
      }
      var nextNodeName := Child(currentNode.value, dir.value);
      currentNode := Lookup(nodes, nextNodeName);
      ok := true;
    }
  }

  // ---------------------------------------------------------------------------
  // Circle detection
  // ---------------------------------------------------------------------------

  datatype DetectorState = DetectorState(previousNodesAtTick: map<NodeAtMovementIndex, int>, circleLength: int, lastTick: int)

  /**
   * `detectCircle` on a detector's state: a detected circle is kept; a
   * repeated (node, movement index) pair sets the circle length to the ticks
   * since its first visit; a new pair records its tick.
   */
  function Detect(s: DetectorState, key: NodeAtMovementIndex, tick: int): (r: (DetectorState, bool))
    ensures s.circleLength != 0 ==> r == (s, true)
    ensures s.circleLength == 0 ==> (r.1 <==> key in s.previousNodesAtTick)
  {
    if s.circleLength != 0 then (s, true)
    else if key in s.previousNodesAtTick then
      (s.(lastTick := tick, circleLength := tick - s.previousNodesAtTick[key]), true)
    else
      (s.(previousNodesAtTick := s.previousNodesAtTick[key := tick]), false)
  }

  /** Every recorded first visit lies in ticks `0..t`, and the circle length is not negative. */
  ghost predicate Recorded(s: DetectorState, t: int) {
    s.circleLength >= 0 && forall k :: k in s.previousNodesAtTick ==> 0 <= s.previousNodesAtTick[k] <= t
  }

  /**
   * With ticks strictly increasing, `detectCircle` returns true exactly when
   * the detector ends up with a circle, and every circle found has a
   * positive length; the recorded visits stay in the past.
   */
  lemma DetectStep(s: DetectorState, key: NodeAtMovementIndex, tick: int)
    requires tick >= 0 && Recorded(s, tick - 1)
    ensures Recorded(Detect(s, key, tick).0, tick)
    ensures Detect(s, key, tick).1 <==> Detect(s, key, tick).0.circleLength > 0
    ensures s.circleLength == 0 ==> Detect(s, key, tick).0.previousNodesAtTick.Keys == s.previousNodesAtTick.Keys + {key}
  {
    if s.circleLength == 0 && key !in s.previousNodesAtTick {
      var m := s.previousNodesAtTick[key := tick];
      forall k | k in m
        ensures 0 <= m[k] <= tick
      {
        if k != key {
          assert m[k] == s.previousNodesAtTick[k];
        }
      }
    }
  }

  lemma RecordedLater(s: DetectorState, t: int, u: int)
    requires Recorded(s, t) && t <= u
    ensures Recorded(s, u)
  {
  }

  class CircleDetector {
    var id: int
    var previousNodesAtTick: map<NodeAtMovementIndex, int>
    var circleLength: int
    var lastTick: int

    function State(): DetectorState
      reads this
    {
      DetectorState(previousNodesAtTick, circleLength, lastTick)
    }

    /** A detector records the start node at movement index 0 and tick 0. */
    constructor (id: int, node: Node)
      ensures this.id == id
      ensures State() == DetectorState(map[NodeAtMovementIndex(node.nodeName, 0) := 0], 0, 0)
    {
      this.id := id;
      previousNodesAtTick := map[];
      circleLength := 0;
      lastTick := 0;
      new;
      var found := DetectCircle(node.nodeName, 0, 0);
    }

    predicate CircleDetected()
      reads this
    {
      circleLength != 0
    }

    method DetectCircle(nodeName: string, moveIndex: int, tick: int) returns (r: bool)
      modifies this`previousNodesAtTick, this`circleLength, this`lastTick
      ensures (State(), r) == Detect(old(State()), NodeAtMovementIndex(nodeName, moveIndex), tick)
    {
      if CircleDetected() {
        return true;
      }
      var nodeAtIdx := NodeAtMovementIndex(nodeName, moveIndex);
      if nodeAtIdx in previousNodesAtTick {
        lastTick := tick;
        var oldTick := previousNodesAtTick[nodeAtIdx];
        circleLength := lastTick - oldTick;
        return true;
      }
      previousNodesAtTick := previousNodesAtTick[nodeAtIdx := tick];
      r := false;
    }
  }

  // ---------------------------------------------------------------------------
  // Part two: one walker per node ending in 'A'
  // ---------------------------------------------------------------------------

  predicate EndsWithA(name: string) {
    |name| > 0 && name[|name| - 1] == 'A'
  }

  /**
   * One walker during `World2.tick`: a walker whose circle is detected
   * stays put; any other follows the child for `dir` and reports the node
   * reached, with the new movement index, to its detector.
   */
  function WalkerStep(nodes: map<string, Node>, node: Option<Node>, s: DetectorState, dir: char, idx: int, tick: int): (Option<Node>, DetectorState)
    requires s.circleLength != 0 || node.Some?
  {
    if s.circleLength != 0 then (node, s)
    else
      var name := Child(node.value, dir);
      (Lookup(nodes, name), Detect(s, NodeAtMovementIndex(name, idx), tick).0)
  }

  class World2 {
    var movements: string
    var nodes: map<string, Node>
    var currentNodes: seq<Option<Node>>
    var circleDetectors: seq<CircleDetector>
    var nextMovementIdx: int
    var ticks: int

    /**
     * One current node per detector, every detector a separate object, and
     * every recorded first visit at or before the current tick.
     */
    ghost predicate Valid()
      reads this, circleDetectors
    {
      IndexInRange(movements, nextMovementIdx) && ticks >= 0 &&
      |currentNodes| == |circleDetectors| &&
      (forall i, j :: 0 <= i < j < |circleDetectors| ==> circleDetectors[i] != circleDetectors[j]) &&
      (forall i :: 0 <= i < |circleDetectors| ==> Recorded(circleDetectors[i].State(), ticks))
    }

    constructor ()
      ensures Valid()
      ensures movements == "" && nodes == map[] && currentNodes == [] && circleDetectors == []
      ensures nextMovementIdx == 0 && ticks == 0
    {
      movements := "";
      nodes := map[];
      currentNodes := [];
      circleDetectors := [];
      nextMovementIdx := 0;
      ticks := 0;
    }

    method SetMovements(movements: string)
      requires Valid()
      modifies this`movements, this`nextMovementIdx
      ensures Valid() && this.movements == movements && nextMovementIdx == 0
    {
      this.movements := movements;
      nextMovementIdx := 0;
    }

    /** Stores the node; a node whose name ends in 'A' gets a walker and a new detector. */
    method AddNode(node: Node)
      requires Valid()
      modifies this`nodes, this`currentNodes, this`circleDetectors
      ensures Valid()
      ensures nodes == old(nodes)[node.nodeName := node]
      ensures !EndsWithA(node.nodeName) ==> currentNodes == old(currentNodes) && circleDetectors == old(circleDetectors)
      ensures EndsWithA(node.nodeName) ==>
        currentNodes == old(currentNodes) + [Some(node)] &&
        |circleDetectors| == |old(circleDetectors)| + 1 &&
        circleDetectors[..|old(circleDetectors)|] == old(circleDetectors) &&
        fresh(circleDetectors[|old(circleDetectors)|]) &&
        circleDetectors[|old(circleDetectors)|].id == |currentNodes| &&
        circleDetectors[|old(circleDetectors)|].State() == DetectorState(map[NodeAtMovementIndex(node.nodeName, 0) := 0], 0, 0)
    {
      nodes := nodes[node.nodeName := node];
      if EndsWithA(node.nodeName) {
        currentNodes := currentNodes + [Some(node)];
        var detector := new CircleDetector(|currentNodes|, node);
        circleDetectors := circleDetectors + [detector];
      }
    }

    function PeekNextDir(): Option<char>
      reads this
      requires IndexInRange(movements, nextMovementIdx)
    {
      CharAt(movements, nextMovementIdx)
    }

    method NextMove() returns (r: Option<char>)
      requires IndexInRange(movements, nextMovementIdx)
      modifies this`nextMovementIdx
      ensures r == old(PeekNextDir())
      ensures nextMovementIdx == NextIndex(movements, old(nextMovementIdx))
    {
      if |movements| == 0 {
        return None;
      }
      r := Some(movements[nextMovementIdx]);
      nextMovementIdx := (nextMovementIdx + 1) % |movements|;
    }

    /**
     * Counts the tick, reads one direction and moves every walker whose
     * circle is not yet detected, reporting its new node to its detector.
     * Without a movement string, or at a walker whose node was missing
     * (`null` in the source), it stops with `ok == false`.
     */
    method Tick() returns (ok: bool)
      requires Valid()
      modifies this`ticks, this`nextMovementIdx, this`currentNodes, circleDetectors
      ensures Valid()
      ensures ticks == old(ticks) + 1
      ensures nextMovementIdx == NextIndex(movements, old(nextMovementIdx))
      ensures circleDetectors == old(circleDetectors)
      ensures ok <==> |movements| > 0 && forall i :: 0 <= i < |circleDetectors| ==>
        old(circleDetectors[i].circleLength) != 0 || old(currentNodes[i]).Some?
      ensures ok ==> forall i :: 0 <= i < |circleDetectors| ==>
        (currentNodes[i], circleDetectors[i].State()) ==
        WalkerStep(nodes, old(currentNodes[i]), old(circleDetectors[i].State()), movements[old(nextMovementIdx)], nextMovementIdx, ticks)
    {
      ticks := ticks + 1;
      var dir := NextMove();
      if dir.None? {
        return false;
      }
      ok := StepAll(dir.value);
    }

    /** The detectors' states, in order. */
    ghost function States(): (r: seq<DetectorState>)
      reads this, circleDetectors
      ensures |r| == |circleDetectors| && forall i :: 0 <= i < |r| ==> r[i] == circleDetectors[i].State()
    {
      seq(|circleDetectors|, i reads this, circleDetectors requires 0 <= i < |circleDetectors| => circleDetectors[i].State())
    }

    /** The loop of `tick` over all walkers, for one direction. */
    method StepAll(dir: char) returns (ok: bool)
      requires |currentNodes| == |circleDetectors| && ticks >= 1
      requires forall i, j :: 0 <= i < j < |circleDetectors| ==> circleDetectors[i] != circleDetectors[j]
      requires forall i :: 0 <= i < |circleDetectors| ==> Recorded(circleDetectors[i].State(), ticks - 1)
      modifies this`currentNodes, circleDetectors
      ensures |currentNodes| == |circleDetectors|
      ensures forall i :: 0 <= i < |circleDetectors| ==> Recorded(circleDetectors[i].State(), ticks)
      ensures ok <==> forall i :: 0 <= i < |circleDetectors| ==>
        old(circleDetectors[i].circleLength) != 0 || old(currentNodes[i]).Some?
      ensures ok ==> forall i :: 0 <= i < |circleDetectors| ==>
        (currentNodes[i], circleDetectors[i].State()) ==
        WalkerStep(nodes, old(currentNodes[i]), old(circleDetectors[i].State()), dir, nextMovementIdx, ticks)
    {
      ghost var nodes0 := currentNodes;
      ghost var states0 := States();
      var i := 0;
      while i < |circleDetectors|
        invariant 0 <= i <= |circleDetectors| && |currentNodes| == |circleDetectors|
        invariant forall k :: 0 <= k < i ==> Recorded(circleDetectors[k].State(), ticks)
        invariant forall k :: i <= k < |circleDetectors| ==>
          currentNodes[k] == nodes0[k] && circleDetectors[k].State() == states0[k]
        invariant forall k :: 0 <= k < i ==> states0[k].circleLength != 0 || nodes0[k].Some?
        invariant forall k :: 0 <= k < i ==>
          (currentNodes[k], circleDetectors[k].State()) ==
          WalkerStep(nodes, nodes0[k], states0[k], dir, nextMovementIdx, ticks)
      {
        var stepped := StepWalker(i, dir);
        if !stepped {
          forall k | i < k < |circleDetectors|
            ensures Recorded(circleDetectors[k].State(), ticks)
          {
            RecordedLater(states0[k], ticks - 1, ticks);
          }
          assert states0[i].circleLength == 0 && nodes0[i].None?;
          return false;
        }
        i := i + 1;
      }
      ok := true;
    }

    /** Moves walker `i` one step, unless its circle is detected; `false` at a missing node. */
    method StepWalker(i: int, dir: char) returns (ok: bool)
      requires 0 <= i < |circleDetectors| == |currentNodes|
      requires ticks >= 1 && Recorded(circleDetectors[i].State(), ticks - 1)
      modifies this`currentNodes, circleDetectors[i]
      ensures |currentNodes| == |old(currentNodes)|
      ensures forall k :: 0 <= k < |currentNodes| && k != i ==> currentNodes[k] == old(currentNodes[k])
      ensures Recorded(circleDetectors[i].State(), ticks)
      ensures ok <==> old(circleDetectors[i].circleLength) != 0 || old(currentNodes[i]).Some?
      ensures ok ==> ((currentNodes[i], circleDetectors[i].State()) ==
        WalkerStep(nodes, old(currentNodes[i]), old(circleDetectors[i].State()), dir, nextMovementIdx, ticks))
    {
      var circleDetector := circleDetectors[i];
      if circleDetector.CircleDetected() {
        return true;
      }
      var currentNode := currentNodes[i];
      if currentNode.None? {
        return false;
      }
      var nextNodeName := Child(currentNode.value, dir);
      currentNodes := currentNodes[i := Lookup(nodes, nextNodeName)];
      DetectStep(circleDetector.State(), NodeAtMovementIndex(nextNodeName, nextMovementIdx), ticks);
      var found := circleDetector.DetectCircle(nextNodeName, nextMovementIdx, ticks);
      ok := true;
    }

    /** Whether every detector has found its circle. */
    method AllCirclesDetected() returns (r: bool)
      ensures r <==> forall i :: 0 <= i < |circleDetectors| ==> circleDetectors[i].circleLength != 0
    {
      for i := 0 to |circleDetectors|
        invariant forall k :: 0 <= k < i ==> circleDetectors[k].circleLength != 0
      {
        if !circleDetectors[i].CircleDetected() {
          return false;
        }
      }
      return true;
    }

    /** The circle lengths of the detectors, in order. */
    ghost function CircleLengths(): (r: seq<int>)
      reads this, circleDetectors
      ensures |r| == |circleDetectors| && forall i :: 0 <= i < |r| ==> r[i] == circleDetectors[i].circleLength
    {
      seq(|circleDetectors|, i reads this, circleDetectors requires 0 <= i < |circleDetectors| => circleDetectors[i].circleLength)
    }

    /**
     * `calcTicksForAllZ`: the `kgv` of all circle lengths. Once every
     * circle is detected, it is a positive common multiple of all of them.
     */
    method CalcTicksForAllZ() returns (r: Option<int>)
      requires Valid()
      ensures r == if circleDetectors == [] then None else Some(FoldKgV(CircleLengths()[0], CircleLengths()))
      ensures circleDetectors != [] && (forall i :: 0 <= i < |circleDetectors| ==> circleDetectors[i].circleLength != 0) ==>
        r.Some? && r.value > 0 && forall i :: 0 <= i < |circleDetectors| ==> Divides(circleDetectors[i].circleLength, r.value)
    {
      var circleLengths := [];
      for i := 0 to |circleDetectors|
        invariant circleLengths == CircleLengths()[..i]
      {
        circleLengths := circleLengths + [circleDetectors[i].circleLength];
      }
      assert circleLengths == CircleLengths();
      r := Kgv(circleLengths);
      if circleDetectors != [] && forall i :: 0 <= i < |circleDetectors| ==> circleDetectors[i].circleLength != 0 {
        FoldIsCommonMultiple(circleLengths[0], circleLengths);
      }
    }
  }
}
