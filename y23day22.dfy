/**
 * Falling sand bricks: axis-parallel integer segments that drop one cell per
 * pass when the cell below them is free, and the "disintegration" questions
 * asked by re-running one pass on a copy of the world with one brick removed.
 */
module Y23Day22 {
  import opened Sorting

  datatype Pos = Pos(x: int, y: int, z: int) {
    function Add(dx: int, dy: int, dz: int): Pos {
      Pos(x + dx, y + dy, z + dz)
    }
  }

  /** A brick occupies every cell between `from` and `to`, both included. */
  datatype Brick = Brick(id: string, from: Pos, to: Pos)

  // ---------------------------------------------------------------------------
  // The checking constructor
  // ---------------------------------------------------------------------------

  /** Outcome of the checking constructor: a brick, or the exception it throws. */
  datatype Checked = Created(brick: Brick) | FromAfterTo | SeveralAxes

  function AxesDiffering(from: Pos, to: Pos): nat {
    (if from.x != to.x then 1 else 0) +
    (if from.y != to.y then 1 else 0) +
    (if from.z != to.z then 1 else 0)
  }

  /** `from` is not beyond `to` on any axis. */
  predicate Ordered(b: Brick) {
    b.from.x <= b.to.x && b.from.y <= b.to.y && b.from.z <= b.to.z
  }

  /** A proper brick: ordered, and a line along at most one axis. */
  predicate WellFormed(b: Brick) {
    Ordered(b) && AxesDiffering(b.from, b.to) <= 1
  }

  /**
   * The constructor's checks as the source writes them: `&&` binds tighter
   * than `||`, so a backwards y is rejected only together with a backwards z.
   */
  function NewBrickAsWritten(id: string, from: Pos, to: Pos): (r: Checked)
    ensures r == FromAfterTo <==> from.x > to.x || (from.y > to.y && from.z > to.z)
    ensures r.Created? ==> r.brick == Brick(id, from, to) && AxesDiffering(from, to) <= 1
  {
    if from.x > to.x || (from.y > to.y && from.z > to.z) then FromAfterTo
    else if AxesDiffering(from, to) > 1 then SeveralAxes
    else Created(Brick(id, from, to))
  }

  /** The constructor's checks as the error message intends: any axis backwards is rejected. */
  function NewBrick(id: string, from: Pos, to: Pos): (r: Checked)
    ensures r.Created? <==> WellFormed(Brick(id, from, to))
    ensures r.Created? ==> r.brick == Brick(id, from, to)
    ensures r == FromAfterTo <==> !Ordered(Brick(id, from, to))
  {
    if from.x > to.x || from.y > to.y || from.z > to.z then FromAfterTo
    else if AxesDiffering(from, to) > 1 then SeveralAxes
    else Created(Brick(id, from, to))
  }

  /** The checks as written let through a brick whose y runs backwards; it does not even overlap itself. */
  lemma AsWrittenAcceptsBackwardsBrick()
    ensures var r := NewBrickAsWritten("B1", Pos(0, 1, 0), Pos(0, 0, 0));
      r.Created? && !Ordered(r.brick) && !Overlaps(r.brick, r.brick)
    ensures NewBrick("B1", Pos(0, 1, 0), Pos(0, 0, 0)) == FromAfterTo
  {
  }

  /** Every brick the corrected checks accept is accepted as written too. */
  lemma CorrectedIsStricter(id: string, from: Pos, to: Pos)
    ensures NewBrick(id, from, to).Created? ==> NewBrickAsWritten(id, from, to) == NewBrick(id, from, to)
  {
  }

  // ---------------------------------------------------------------------------
  // Overlap and lowering
  // ---------------------------------------------------------------------------

  /** Inclusive box intersection test. */
  predicate Overlaps(a: Brick, b: Brick) {
    a.from.x <= b.to.x && a.from.y <= b.to.y && a.from.z <= b.to.z &&
    a.to.x >= b.from.x && a.to.y >= b.from.y && a.to.z >= b.from.z
  }

  /** The cells a brick occupies, as `show3D` enumerates them. */
  ghost predicate InBox(p: Pos, b: Brick) {
    b.from.x <= p.x <= b.to.x && b.from.y <= p.y <= b.to.y && b.from.z <= p.z <= b.to.z
  }

  /**
   * For ordered bricks the overlap test is exactly "some cell is shared",
   * the condition `show3D` rejects; so it is symmetric and reflexive.
   */
  lemma OverlapsIffSharedCell(a: Brick, b: Brick)
    requires Ordered(a) && Ordered(b)
    ensures Overlaps(a, b) <==> exists p :: InBox(p, a) && InBox(p, b)
    ensures Overlaps(a, b) <==> Overlaps(b, a)
    ensures Overlaps(a, a)
  {
    if Overlaps(a, b) {
      var p := Pos(Max(a.from.x, b.from.x), Max(a.from.y, b.from.y), Max(a.from.z, b.from.z));
      assert InBox(p, a) && InBox(p, b);
    }
  }

  function Max(a: int, b: int): int {
    if a < b then b else a
  }

  /** `down`: the same brick one cell lower, built without the constructor's checks. */
  function Down(b: Brick): (r: Brick)
    ensures r.id == b.id && r != b
  {
    Brick(b.id, b.from.Add(0, 0, -1), b.to.Add(0, 0, -1))
  }

  /** Lowering moves every cell one down and keeps the brick's shape. */
  lemma DownShiftsCells(b: Brick, p: Pos)
    ensures InBox(p, Down(b)) <==> InBox(p.Add(0, 0, 1), b)
    ensures WellFormed(b) ==> WellFormed(Down(b))
  {
  }

  /** `checkNoOverlap`: the brick overlaps none of `others`. */
  method CheckNoOverlap(brick: Brick, others: seq<Brick>) returns (free: bool)
    ensures free <==> NoOverlap(brick, others)
  {
    for k := 0 to |others|
      invariant NoOverlap(brick, others[..k])
    {
      if Overlaps(brick, others[k]) {
        return false;
      }
    }
    return true;
  }

  ghost predicate NoOverlap(b: Brick, placed: seq<Brick>) {
    forall k :: 0 <= k < |placed| ==> !Overlaps(b, placed[k])
  }

  // ---------------------------------------------------------------------------
  // One falling pass
  // ---------------------------------------------------------------------------

  function FromZ(b: Brick): int {
    b.from.z
  }

  /**
   * The stable sort by lowest z that starts each pass: bricks of equal
   * lowest z keep the order in which they were added.
   */
  function Sorted(bs: seq<Brick>): (r: seq<Brick>)
    ensures SortedBy(r, FromZ) && multiset(r) == multiset(bs) && |r| == |bs|
    ensures forall z :: WithKey(r, FromZ, z) == WithKey(bs, FromZ, z)
  {
    assert forall z :: WithKey(SortBy(bs, FromZ), FromZ, z) == WithKey(bs, FromZ, z) by {
      forall z
        ensures WithKey(SortBy(bs, FromZ), FromZ, z) == WithKey(bs, FromZ, z)
      {
        SortByIsStable(bs, FromZ, z);
      }
    }
    SortBy(bs, FromZ)
  }

  /** Where one brick ends up, given the bricks already placed in this pass. */
  ghost function Landed(b: Brick, placed: seq<Brick>): Brick {
    var d := Down(b);
    if d.from.z > 0 && NoOverlap(d, placed) then d else b
  }

  /** The bricks placed by one pass over `s`, taken in order. */
  ghost function Pass(s: seq<Brick>): (r: seq<Brick>)
    ensures |r| == |s|
    ensures forall i :: 0 <= i < |s| ==> r[i] == s[i] || r[i] == Down(s[i])
    ensures forall i :: 0 <= i < |s| ==> r[i].id == s[i].id
  {
    if s == [] then []
    else
      var p := Pass(s[..|s| - 1]);
      p + [Landed(s[|s| - 1], p)]
  }

  /** Number of positions where `s` and `t` differ. */
  function Changed(s: seq<Brick>, t: seq<Brick>): nat
    requires |s| == |t|
  {
    if s == [] then 0
    else Changed(s[..|s| - 1], t[..|t| - 1]) + (if s[|s| - 1] != t[|t| - 1] then 1 else 0)
  }

  /** The number `bricksFall` returns for a world holding `bs`. */
  ghost function PassMoves(bs: seq<Brick>): nat {
    Changed(Sorted(bs), Pass(Sorted(bs)))
  }

  lemma {:induction false} ChangedZero(s: seq<Brick>, t: seq<Brick>)
    requires |s| == |t|
    ensures Changed(s, t) == 0 <==> s == t
    ensures Changed(s, t) <= |s|
  {
    if s != [] {
      ChangedZero(s[..|s| - 1], t[..|t| - 1]);
      assert s == s[..|s| - 1] + [s[|s| - 1]];
      assert t == t[..|t| - 1] + [t[|t| - 1]];
    }
  }

  /** One more brick: the pass over a longer prefix places it after the others. */
  lemma PassStep(s: seq<Brick>, i: nat)
    requires i < |s|
    ensures Pass(s[..i + 1]) == Pass(s[..i]) + [Landed(s[i], Pass(s[..i]))]
  {
    assert s[..i + 1][..i] == s[..i];
  }

  lemma ChangedStep(s: seq<Brick>, t: seq<Brick>, x: Brick, y: Brick)
    requires |s| == |t|
    ensures Changed(s + [x], t + [y]) == Changed(s, t) + (if x != y then 1 else 0)
  {
    assert (s + [x])[..|s|] == s && (t + [y])[..|t|] == t;
  }

  /** A prefix of a pass is the pass over the prefix. */
  lemma {:induction false} PassPrefix(s: seq<Brick>, n: nat)
    requires n <= |s|
    ensures Pass(s)[..n] == Pass(s[..n])
    decreases |s|
  {
    if n < |s| {
      assert s[..|s| - 1][..n] == s[..n];
      PassPrefix(s[..|s| - 1], n);
    } else {
      assert s[..n] == s;
    }
  }

  /**
   * Which bricks a pass lowers: exactly those whose lowered copy stays at
   * z >= 1 and overlaps none of the bricks placed before it in this pass.
   */
  lemma PassLowersExactly(s: seq<Brick>, i: nat)
    requires i < |s|
    ensures Pass(s)[i] == Down(s[i]) <==> s[i].from.z > 1 && NoOverlap(Down(s[i]), Pass(s)[..i])
    ensures Pass(s)[i] != Down(s[i]) ==> Pass(s)[i] == s[i]
  {
    PassPrefix(s, i + 1);
    PassPrefix(s, i);
    assert s[..i + 1][..i] == s[..i];
    assert Pass(s)[i] == Pass(s[..i + 1])[i];
  }

  /** Any sequence placed by the rule of `PassLowersExactly` is the pass. */
  lemma {:induction false} PassUnique(s: seq<Brick>, r: seq<Brick>)
    requires |r| == |s|
    requires forall i :: 0 <= i < |s| ==>
      r[i] == (if s[i].from.z > 1 && NoOverlap(Down(s[i]), r[..i]) then Down(s[i]) else s[i])
    ensures r == Pass(s)
  {
    if s != [] {
      var n := |s| - 1;
      forall i | 0 <= i < n
        ensures r[..n][i] == (if s[..n][i].from.z > 1 && NoOverlap(Down(s[..n][i]), r[..n][..i]) then Down(s[..n][i]) else s[..n][i])
      {
        assert r[..n][..i] == r[..i];
      }
      PassUnique(s[..n], r[..n]);
      assert r[..n] + [r[n]] == r;
    }
  }

  /** A pass that lowers nothing leaves the bricks as they were, so the next pass lowers nothing either. */
  lemma ZeroPassIsFixedPoint(bs: seq<Brick>)
    requires PassMoves(bs) == 0
    ensures Pass(Sorted(bs)) == Sorted(bs)
    ensures PassMoves(Pass(Sorted(bs))) == 0
    ensures Pass(Sorted(Pass(Sorted(bs)))) == Pass(Sorted(bs))
  {
    var s := Sorted(bs);
    ChangedZero(s, Pass(s));
    SortSortedIsIdentity(s, FromZ);
    ChangedZero(s, s);
  }

  // ---------------------------------------------------------------------------
  // A pass keeps bricks apart
  // ---------------------------------------------------------------------------

  /** No two bricks of the sequence overlap (the condition `show3D` checks). */
  ghost predicate Disjoint(s: seq<Brick>) {
    forall i, j :: 0 <= i < j < |s| ==> !Overlaps(s[i], s[j])
  }

  ghost predicate AllOrdered(s: seq<Brick>) {
    forall i :: 0 <= i < |s| ==> Ordered(s[i])
  }

  /** A brick lying no lower than `c` and clear of it is clear of `c` lowered. */
  lemma DownStaysClear(c: Brick, b: Brick)
    requires !Overlaps(c, b) && c.from.z <= b.from.z <= b.to.z
    ensures !Overlaps(Down(c), b) && !Overlaps(b, Down(c))
  {
  }

  lemma {:induction false} PassKeepsDisjoint(s: seq<Brick>)
    requires SortedBy(s, FromZ) && Disjoint(s) && AllOrdered(s)
    ensures Disjoint(Pass(s))
  {
    if s != [] {
      var n := |s| - 1;
      var init := s[..n];
      var b := s[n];
      PassKeepsDisjoint(init);
      var p := Pass(init);
      var l := Landed(b, p);
      assert Pass(s) == p + [l];
      forall k | 0 <= k < n
        ensures !Overlaps(p[k], l)
      {
        if l == Down(b) {
          assert !Overlaps(l, p[k]);
        } else if p[k] == init[k] {
          assert !Overlaps(s[k], s[n]);
        } else {
          assert !Overlaps(s[k], s[n]) && FromZ(s[k]) <= FromZ(s[n]);
          DownStaysClear(s[k], b);
        }
      }
    }
  }

  /** In a sequence of ordered bricks no two of which overlap, no brick occurs twice. */
  lemma {:induction false} DisjointOnce(s: seq<Brick>, x: Brick)
    requires Disjoint(s) && AllOrdered(s)
    ensures multiset(s)[x] <= 1
  {
    if s != [] {
      var n := |s| - 1;
      var init := s[..n];
      assert s == init + [s[n]];
      DisjointOnce(init, x);
      if s[n] == x {
        forall k | 0 <= k < n
          ensures init[k] != x
        {
          assert !Overlaps(s[k], s[n]);
        }
      }
    }
  }

  lemma CountOneMeansDistinct(t: seq<Brick>, i: int, j: int)
    requires 0 <= i < j < |t| && multiset(t)[t[i]] <= 1
    ensures t[i] != t[j]
  {
    assert t == t[..j] + t[j..];
    assert t[..j][i] == t[i];
    assert t[j..][0] == t[j];
  }

  /** Disjointness of ordered bricks does not depend on their order. */
  lemma DisjointPermutation(s: seq<Brick>, t: seq<Brick>)
    requires multiset(s) == multiset(t) && Disjoint(s) && AllOrdered(s)
    ensures Disjoint(t) && AllOrdered(t)
  {
    forall i | 0 <= i < |t|
      ensures Ordered(t[i])
    {
      assert t[i] in multiset(s);
    }
    forall i, j | 0 <= i < j < |t|
      ensures !Overlaps(t[i], t[j])
    {
      DisjointOnce(s, t[i]);
      CountOneMeansDistinct(t, i, j);
      assert t[i] in multiset(s) && t[j] in multiset(s);
      var p :| 0 <= p < |s| && s[p] == t[i];
      var q :| 0 <= q < |s| && s[q] == t[j];
      if p < q {
        assert !Overlaps(s[p], s[q]);
      } else {
        assert !Overlaps(s[q], s[p]);
        OverlapsIffSharedCell(s[q], s[p]);
      }
    }
  }

  /** `bricksFall` keeps a world of ordered, pairwise apart bricks apart. */
  lemma BricksFallKeepsDisjoint(bs: seq<Brick>)
    requires Disjoint(bs) && AllOrdered(bs)
    ensures Disjoint(Pass(Sorted(bs)))
  {
    DisjointPermutation(bs, Sorted(bs));
    PassKeepsDisjoint(Sorted(bs));
  }

  ghost function IdSet(s: seq<Brick>): set<string> {
    set b | b in s :: b.id
  }

  /** `bricksFall` keeps the number of bricks and the set of their ids. */
  lemma BricksFallKeepsIds(bs: seq<Brick>)
    ensures |Pass(Sorted(bs))| == |bs|
    ensures IdSet(Pass(Sorted(bs))) == IdSet(bs)
  {
    var sorted := Sorted(bs);
    var p := Pass(sorted);
    forall id | id in IdSet(p)
      ensures id in IdSet(bs)
    {
      var i :| 0 <= i < |p| && p[i].id == id;
      assert sorted[i] in multiset(bs);
    }
    forall id | id in IdSet(bs)
      ensures id in IdSet(p)
    {
      var b :| b in bs && b.id == id;
      assert b in multiset(sorted);
      var i :| 0 <= i < |sorted| && sorted[i] == b;
      assert p[i] in p;
    }
  }

  // ---------------------------------------------------------------------------
  // Removing a brick
  // ---------------------------------------------------------------------------

  /** `List.remove(Object)`: drops the first equal element, if there is one. */
  function RemoveFirst(s: seq<Brick>, x: Brick): seq<Brick> {
    if s == [] then []
    else if s[0] == x then s[1..]
    else [s[0]] + RemoveFirst(s[1..], x)
  }

  /** `remove` takes out exactly one copy of a present brick and nothing else. */
  lemma {:induction false} RemoveFirstRemoves(s: seq<Brick>, x: Brick)
    ensures x in s ==> multiset(RemoveFirst(s, x)) == multiset(s) - multiset{x}
    ensures x !in s ==> RemoveFirst(s, x) == s
  {
    if s != [] {
      assert s == [s[0]] + s[1..];
      RemoveFirstRemoves(s[1..], x);
    }
  }

  /** How many bricks one pass drops once `b` is taken out of `all`. */
  ghost function MovesWithout(all: seq<Brick>, b: Brick): nat {
    PassMoves(RemoveFirst(all, b))
  }

  /** What `calcSumFalling` adds up over the bricks in `visit`. */
  ghost function SumFalling(all: seq<Brick>, visit: seq<Brick>): nat {
    if visit == [] then 0
    else SumFalling(all, visit[..|visit| - 1]) + MovesWithout(all, visit[|visit| - 1])
  }

  lemma SumFallingStep(all: seq<Brick>, visit: seq<Brick>, i: nat)
    requires i < |visit|
    ensures SumFalling(all, visit[..i + 1]) == SumFalling(all, visit[..i]) + MovesWithout(all, visit[i])
  {
    assert visit[..i + 1][..i] == visit[..i];
  }

  /** The sum is zero exactly when every brick is a disintegration candidate. */
  lemma {:induction false} SumZeroIffAllCandidates(all: seq<Brick>, visit: seq<Brick>)
    ensures SumFalling(all, visit) == 0 <==> forall b :: b in visit ==> MovesWithout(all, b) == 0
  {
    if visit != [] {
      var n := |visit| - 1;
      SumZeroIffAllCandidates(all, visit[..n]);
      assert visit == visit[..n] + [visit[n]];
    }
  }

  predicate NoDuplicates(s: seq<Brick>) {
    forall i, j :: 0 <= i < j < |s| ==> s[i] != s[j]
  }

  /** Where `bricksFall` puts one brick, and whether it dropped. */
  method Place(brickToFall: Brick, newBricks: seq<Brick>) returns (fallenBrick: Brick, dropped: bool)
    ensures fallenBrick == Landed(brickToFall, newBricks)
    ensures dropped <==> fallenBrick != brickToFall
  {
    fallenBrick := brickToFall;
    dropped := false;
    var brickDown := Down(brickToFall);
    if brickDown.from.z > 0 {
      var free := CheckNoOverlap(brickDown, newBricks);
      if free {
        var stillFree := CheckNoOverlap(brickDown, newBricks);
        if stillFree {
          dropped := true;
          fallenBrick := brickDown;
        }
      }
    }
  }

  /**
   * The loop of `bricksFall`: takes bricks from the head of the sorted list,
   * each drops by one when the lowered copy stays above the ground and is
   * clear of the bricks already placed, and counts the drops.
   */
  method FallInOrder(sorted: seq<Brick>) returns (newBricks: seq<Brick>, numChanged: int)
    ensures newBricks == Pass(sorted)
    ensures numChanged == Changed(sorted, newBricks)
  {
    numChanged := 0;
    var bricksToFall := sorted;
    ghost var i := 0;
    newBricks := [];
    while bricksToFall != []
      invariant 0 <= i <= |sorted| && bricksToFall == sorted[i..]
      invariant newBricks == Pass(sorted[..i])
      invariant numChanged == Changed(sorted[..i], newBricks)
      decreases |bricksToFall|
    {
      var brickToFall := bricksToFall[0];
      bricksToFall := bricksToFall[1..];
      var fallenBrick, dropped := Place(brickToFall, newBricks);
      if dropped {
        numChanged := numChanged + 1;
      }
      PassStep(sorted, i);
      ChangedStep(sorted[..i], newBricks, brickToFall, fallenBrick);
      assert sorted[..i + 1] == sorted[..i] + [brickToFall];
      newBricks := newBricks + [fallenBrick];
      i := i + 1;
    }
    assert sorted[..i] == sorted;
  }

  // ---------------------------------------------------------------------------
  // The world
  // ---------------------------------------------------------------------------

  class World {
    var bricks: seq<Brick>
    /** An insertion-ordered set (`LinkedHashSet`). */
    var disintegrationCandidates: seq<Brick>

    constructor ()
      ensures bricks == [] && disintegrationCandidates == []
    {
      bricks := [];
      disintegrationCandidates := [];
    }

    constructor FromBricks(bs: seq<Brick>)
      ensures bricks == bs && disintegrationCandidates == []
    {
      bricks := bs;
      disintegrationCandidates := [];
    }

    method Copy() returns (w: World)
      ensures fresh(w) && w.bricks == bricks && w.disintegrationCandidates == []
    {
      w := new World.FromBricks(bricks);
    }

    method AddBrick(brick: Brick)
      modifies this`bricks
      ensures bricks == old(bricks) + [brick]
    {
      bricks := bricks + [brick];
    }

    /**
     * `bricksFall`: one pass over the bricks in ascending lowest z (stable);
     * returns how many dropped.
     */
    method BricksFall() returns (numChanged: int)
      modifies this`bricks
      ensures bricks == Pass(Sorted(old(bricks)))
      ensures numChanged == PassMoves(old(bricks))
    {
      var bricksToFall := Sorted(bricks);
      var newBricks;
      newBricks, numChanged := FallInOrder(bricksToFall);
      bricks := newBricks;
    }

    /** The body of the candidate and sum loops: one pass on a copy of the world without `brick`. */
    method FallWithout(brick: Brick) returns (moved: int)
      ensures moved == MovesWithout(bricks, brick)
    {
      var testWorld := Copy();
      testWorld.bricks := RemoveFirst(testWorld.bricks, brick);
      moved := testWorld.BricksFall();
    }

    /**
     * The bricks whose removal lets no brick drop in one pass; only copies
     * of the world are changed.
     */
    method CalcDisintegrationCandidates() returns (r: seq<Brick>)
      modifies this`disintegrationCandidates
      ensures r == disintegrationCandidates
      ensures NoDuplicates(r)
      ensures forall b :: b in r <==> b in bricks && MovesWithout(bricks, b) == 0
    {
      var bs := bricks;
      var candidates: seq<Brick> := [];
      for i := 0 to |bs|
        invariant bricks == bs
        invariant NoDuplicates(candidates)
        invariant forall b :: b in candidates <==> b in bs[..i] && MovesWithout(bs, b) == 0
      {
        assert bs[..i + 1] == bs[..i] + [bs[i]];
        var brickToDisintegrate := bs[i];
        var moved := FallWithout(brickToDisintegrate);
        if moved == 0 && brickToDisintegrate !in candidates {
          candidates := candidates + [brickToDisintegrate];
        }
      }
      assert bs[..|bs|] == bs;
      disintegrationCandidates := candidates;
      r := candidates;
    }

    /** The sum, over the bricks, of how many bricks drop in one pass once that brick is removed. */
    method CalcSumFalling() returns (result: int)
      ensures result == SumFalling(bricks, bricks)
    {
      var bs := bricks;
      result := 0;
      for i := 0 to |bs|
        invariant bricks == bs
        invariant result == SumFalling(bs, bs[..i])
      {
        SumFallingStep(bs, bs, i);
        var brickToDisintegrate := bs[i];
        var moved := FallWithout(brickToDisintegrate);
        result := result + moved;
      }
      assert bs[..|bs|] == bs;
    }
  }
}
