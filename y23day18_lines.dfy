/**
 * Part two of the trench: the dig plan kept as horizontal and vertical
 * segments, the lagoon counted as rectangles between neighbouring vertical
 * x positions, and the inner vertical borders split so that no cell of a
 * border is counted twice.
 */
module Y23Day18Lines {
  import opened Wrappers
  import opened Sorting
  import opened JavaInt
  import opened Y23Day18

  datatype HLine = HLine(fromX: int, toX: int, y: int) {
    function Size(): int {
      toX - fromX + 1
    }
  }

  datatype VLine = VLine(x: int, fromY: int, toY: int) {
    predicate Overlaps(other: VLine) {
      x == other.x && fromY <= other.toY && toY >= other.fromY
    }

    function Size(): int {
      toY - fromY + 1
    }

    predicate Ordered() {
      fromY <= toY
    }
  }

  datatype Area = Area(fromX: int, toX: int, fromY: int, toY: int) {
    function Width(): int {
      toX - fromX + 1
    }

    function Height(): int {
      toY - fromY + 1
    }

    function CalcSize(): int {
      Width() * Height()
    }

    predicate NonEmpty() {
      fromX <= toX && fromY <= toY
    }
  }

  // ---------------------------------------------------------------------------
  // Cells, sizes and overlap
  // ---------------------------------------------------------------------------

  ghost predicate OnVLine(p: Pos, l: VLine) {
    p.x == l.x && l.fromY <= p.y <= l.toY
  }

  /** The cells of the vertical segment from `(x, a)` to `(x, b)`. */
  ghost function Cells(x: int, a: int, b: int): (r: set<Pos>)
    ensures forall p :: p in r <==> p.x == x && a <= p.y <= b
    decreases b - a
  {
    if b < a then {} else Cells(x, a, b - 1) + {Pos(x, b)}
  }

  /** A segment holds `b - a + 1` cells (none when it is empty). */
  lemma {:induction false} CellsSize(x: int, a: int, b: int)
    ensures |Cells(x, a, b)| == IntMax(b - a + 1, 0)
    decreases b - a
  {
    if b >= a {
      CellsSize(x, a, b - 1);
      assert Pos(x, b) !in Cells(x, a, b - 1);
    }
  }

  /** For ordered segments, `overlaps` holds exactly when they share a cell; it is symmetric. */
  lemma OverlapsIffSharedCell(a: VLine, b: VLine)
    requires a.Ordered() && b.Ordered()
    ensures a.Overlaps(b) <==> exists p :: OnVLine(p, a) && OnVLine(p, b)
    ensures a.Overlaps(b) <==> b.Overlaps(a)
  {
    if a.Overlaps(b) {
      var p := Pos(a.x, IntMax(a.fromY, b.fromY));
      assert OnVLine(p, a) && OnVLine(p, b);
    }
  }

  /** `calcSize` is additive: cutting an area between two columns splits its size. */
  lemma AreaSizeSplits(a: Area, k: int)
    requires a.fromX <= k < a.toX
    ensures Area(a.fromX, k, a.fromY, a.toY).CalcSize() + Area(k + 1, a.toX, a.fromY, a.toY).CalcSize() == a.CalcSize()
  {
    var h := a.Height();
    assert (k - a.fromX + 1) * h + (a.toX - k) * h == (a.toX - a.fromX + 1) * h;
  }

  lemma NonEmptyAreaSize(a: Area)
    requires a.NonEmpty()
    ensures a.CalcSize() >= 1
  {
    assert a.Width() >= 1 && a.Height() >= 1;
  }

  // ---------------------------------------------------------------------------
  // Cutting a vertical segment
  // ---------------------------------------------------------------------------

  /** The parts of `l` strictly below and strictly above `c`, as `removeOverlaps` adds them. */
  function Pieces(l: VLine, c: VLine): seq<VLine> {
    var minY := IntMin(l.fromY, c.fromY);
    var maxY := IntMax(l.toY, c.toY);
    (if minY < c.fromY then [VLine(l.x, minY, c.fromY - 1)] else []) +
    (if maxY > c.toY then [VLine(l.x, c.toY + 1, maxY)] else [])
  }

  ghost predicate AllOrdered(s: seq<VLine>) {
    forall i :: 0 <= i < |s| ==> s[i].Ordered()
  }

  ghost predicate Covers(s: seq<VLine>, p: Pos) {
    exists i :: 0 <= i < |s| && OnVLine(p, s[i])
  }

  /** Number of cells of a list of segments, counted with repetition. */
  function TotalSize(s: seq<VLine>): nat {
    if s == [] then 0 else TotalSize(s[..|s| - 1]) + IntMax(s[|s| - 1].Size(), 0)
  }

  lemma {:induction false} TotalSizeAppend(a: seq<VLine>, b: seq<VLine>)
    ensures TotalSize(a + b) == TotalSize(a) + TotalSize(b)
    decreases |b|
  {
    if b != [] {
      TotalSizeAppend(a, b[..|b| - 1]);
      assert (a + b)[..|a + b| - 1] == a + b[..|b| - 1];
    } else {
      assert a + b == a;
    }
  }

  /** The pieces are ordered, and strictly smaller than `l` when `l` overlaps `c`. */
  lemma PiecesAreSmaller(l: VLine, c: VLine)
    requires l.Ordered() && c.Ordered() && l.Overlaps(c)
    ensures AllOrdered(Pieces(l, c))
    ensures TotalSize(Pieces(l, c)) < IntMax(l.Size(), 0)
  {
    var lower := if l.fromY < c.fromY then [VLine(l.x, l.fromY, c.fromY - 1)] else [];
    var upper := if l.toY > c.toY then [VLine(l.x, c.toY + 1, l.toY)] else [];
    assert Pieces(l, c) == lower + upper;
    TotalSizeAppend(lower, upper);
  }

  /** The pieces avoid `c` and hold exactly the cells of `l` that `c` does not. */
  lemma PiecesAreDifference(l: VLine, c: VLine)
    requires l.Ordered() && c.Ordered() && l.Overlaps(c)
    ensures forall i :: 0 <= i < |Pieces(l, c)| ==> !Pieces(l, c)[i].Overlaps(c)
    ensures forall p :: Covers(Pieces(l, c), p) <==> OnVLine(p, l) && !OnVLine(p, c)
  {
    var ps := Pieces(l, c);
    forall p | OnVLine(p, l) && !OnVLine(p, c)
      ensures Covers(ps, p)
    {
      if p.y < c.fromY {
        assert OnVLine(p, ps[0]);
      } else {
        assert OnVLine(p, ps[|ps| - 1]);
      }
    }
  }

  /** Taking one segment out of a list takes its cells out of the count. */
  lemma TotalSizeMiddle(a: seq<VLine>, x: VLine, b: seq<VLine>)
    ensures TotalSize(a + ([x] + b)) == TotalSize(a + b) + IntMax(x.Size(), 0)
  {
    TotalSizeAppend(a, [x] + b);
    TotalSizeAppend([x], b);
    assert [x][..0] == [];
    TotalSizeAppend(a, b);
  }

  lemma SplitAt(s: seq<VLine>, k: int)
    requires 0 <= k < |s|
    ensures s == s[..k] + ([s[k]] + s[k + 1..])
  {
  }

  lemma TotalSizeRemove(s: seq<VLine>, k: int)
    requires 0 <= k < |s|
    ensures TotalSize(s[..k] + s[k + 1..]) + IntMax(s[k].Size(), 0) == TotalSize(s)
  {
    SplitAt(s, k);
    TotalSizeMiddle(s[..k], s[k], s[k + 1..]);
  }

  /** The first segment of `s` that overlaps `c`, if any. */
  ghost predicate FirstOverlap(s: seq<VLine>, c: VLine, k: int) {
    0 <= k < |s| && s[k].Overlaps(c) && forall i :: 0 <= i < k ==> !s[i].Overlaps(c)
  }

  /**
   * `removeOverlaps`: replaces the first segment that overlaps `check` by its
   * parts below and above `check`, and reports whether it found one.
   */
  method RemoveOverlaps(newVLines: seq<VLine>, check: VLine) returns (result: seq<VLine>, changed: bool, ghost k: int)
    ensures !changed <==> forall i :: 0 <= i < |newVLines| ==> !newVLines[i].Overlaps(check)
    ensures !changed ==> result == newVLines
    ensures changed ==> (FirstOverlap(newVLines, check, k) &&
      result == newVLines[..k] + newVLines[k + 1..] + Pieces(newVLines[k], check))
  {
    k := 0;
    for j := 0 to |newVLines|
      invariant forall i :: 0 <= i < j ==> !newVLines[i].Overlaps(check)
    {
      var newVLine := newVLines[j];
      if newVLine.Overlaps(check) {
        k := j;
        result := RemoveFirstEqual(newVLines, newVLine, j);
        var minY := IntMin(newVLine.fromY, check.fromY);
        var maxY := IntMax(newVLine.toY, check.toY);
        if minY < check.fromY {
          result := result + [VLine(newVLine.x, minY, check.fromY - 1)];
        }
        if maxY > check.toY {
          result := result + [VLine(newVLine.x, check.toY + 1, maxY)];
        }
        return result, true, k;
      }
    }
    return newVLines, false, k;
  }

  /**
   * `List.remove(Object)` on the element found at `j`: every earlier equal
   * element would have been found first, so the one removed is at `j`.
   */
  function RemoveFirstEqual(s: seq<VLine>, x: VLine, j: int): (r: seq<VLine>)
    requires 0 <= j < |s| && s[j] == x && forall i :: 0 <= i < j ==> s[i] != x
    ensures r == s[..j] + s[j + 1..]
  {
    if s[0] == x then s[1..] else [s[0]] + RemoveFirstEqual(s[1..], x, j - 1)
  }

  /** One successful cut keeps the segments ordered and lowers the number of cells. */
  lemma CutShrinks(s: seq<VLine>, c: VLine, k: int)
    requires AllOrdered(s) && c.Ordered() && FirstOverlap(s, c, k)
    ensures var r := s[..k] + s[k + 1..] + Pieces(s[k], c);
      AllOrdered(r) && TotalSize(r) < TotalSize(s)
  {
    var rest := s[..k] + s[k + 1..];
    PiecesAreSmaller(s[k], c);
    TotalSizeAppend(rest, Pieces(s[k], c));
    TotalSizeRemove(s, k);
    assert AllOrdered(rest) by {
      forall i | 0 <= i < |rest|
        ensures rest[i].Ordered()
      {
        assert rest[i] == if i < k then s[i] else s[i + 1];
      }
    }
  }

  /** One successful cut loses exactly cells of the segment cut against. */
  lemma CutKeepsCells(s: seq<VLine>, c: VLine, k: int)
    requires AllOrdered(s) && c.Ordered() && FirstOverlap(s, c, k)
    ensures var r := s[..k] + s[k + 1..] + Pieces(s[k], c);
      (forall p :: Covers(r, p) ==> Covers(s, p)) &&
      (forall p :: Covers(s, p) && !OnVLine(p, c) ==> Covers(r, p))
  {
    var ps := Pieces(s[k], c);
    var rest := s[..k] + s[k + 1..];
    var r := rest + ps;
    PiecesAreDifference(s[k], c);
    forall p | Covers(r, p)
      ensures Covers(s, p)
    {
      var i :| 0 <= i < |r| && OnVLine(p, r[i]);
      if i < k {
        assert s[i] == r[i];
      } else if i < |rest| {
        assert s[i + 1] == r[i];
      } else {
        assert Covers(ps, p) by {
          assert ps[i - |rest|] == r[i];
        }
      }
    }
    forall p | Covers(s, p) && !OnVLine(p, c)
      ensures Covers(r, p)
    {
      var i :| 0 <= i < |s| && OnVLine(p, s[i]);
      if i < k {
        assert r[i] == s[i];
      } else if i > k {
        assert r[i - 1] == s[i];
      } else {
        var m :| 0 <= m < |ps| && OnVLine(p, ps[m]);
        assert r[|rest| + m] == ps[m];
      }
    }
  }

  /** The cells of a list of segments. */
  ghost function CellSet(s: seq<VLine>): (r: set<Pos>)
    ensures forall p :: p in r <==> Covers(s, p)
  {
    if s == [] then {}
    else
      var last := s[|s| - 1];
      var r := CellSet(s[..|s| - 1]) + Cells(last.x, last.fromY, last.toY);
      assert forall p :: Covers(s, p) ==> p in r by {
        forall p | Covers(s, p)
          ensures p in r
        {
          var i :| 0 <= i < |s| && OnVLine(p, s[i]);
          if i < |s| - 1 {
            assert s[..|s| - 1][i] == s[i];
          }
        }
      }
      assert forall p :: p in CellSet(s[..|s| - 1]) ==> Covers(s, p) by {
        forall p | p in CellSet(s[..|s| - 1])
          ensures Covers(s, p)
        {
          var i :| 0 <= i < |s| - 1 && OnVLine(p, s[..|s| - 1][i]);
          assert OnVLine(p, s[i]);
        }
      }
      r
  }

  /** No two segments of the list share a cell. */
  ghost predicate PairwiseApart(s: seq<VLine>) {
    forall i, j :: 0 <= i < j < |s| ==> !s[i].Overlaps(s[j])
  }

  /** No segment of `s` overlaps a segment of `lines`. */
  ghost predicate Apart(s: seq<VLine>, lines: seq<VLine>) {
    forall i, j :: 0 <= i < |s| && 0 <= j < |lines| ==> !s[i].Overlaps(lines[j])
  }

  /** Sum of `size()` over a list, as the inner-border loop adds it up. */
  function SizeSum(s: seq<VLine>): int {
    if s == [] then 0 else SizeSum(s[..|s| - 1]) + s[|s| - 1].Size()
  }

  /**
   * For ordered segments that share no cell, the sum of their sizes is the
   * number of distinct cells they cover: no cell is counted twice.
   */
  lemma {:induction false} SizeSumCountsCells(s: seq<VLine>)
    requires AllOrdered(s) && PairwiseApart(s)
    ensures SizeSum(s) == TotalSize(s) == |CellSet(s)|
  {
    if s != [] {
      var init := s[..|s| - 1];
      var last := s[|s| - 1];
      SizeSumCountsCells(init);
      CellsSize(last.x, last.fromY, last.toY);
      forall p | p in CellSet(init)
        ensures p !in Cells(last.x, last.fromY, last.toY)
      {
        var i :| 0 <= i < |init| && OnVLine(p, init[i]);
        assert !s[i].Overlaps(last);
      }
      assert CellSet(init) * Cells(last.x, last.fromY, last.toY) == {};
    }
  }

  // ---------------------------------------------------------------------------
  // addInnerVLine
  // ---------------------------------------------------------------------------

  /** The cells of `r` lie in those of `s`, and only the cells of `lines` went missing. */
  ghost predicate CutFrom(r: seq<VLine>, s: seq<VLine>, lines: seq<VLine>) {
    (forall p :: Covers(r, p) ==> Covers(s, p)) &&
    (forall p :: Covers(s, p) && !Covers(lines, p) ==> Covers(r, p))
  }

  /** One successful cut keeps the pieces apart from each other. */
  lemma CutKeepsApart(s: seq<VLine>, c: VLine, k: int)
    requires AllOrdered(s) && c.Ordered() && FirstOverlap(s, c, k) && PairwiseApart(s)
    ensures PairwiseApart(s[..k] + s[k + 1..] + Pieces(s[k], c))
  {
    var ps := Pieces(s[k], c);
    var rest := s[..k] + s[k + 1..];
    var r := rest + ps;
    PiecesAreSmaller(s[k], c);
    PiecesAreDifference(s[k], c);
    forall i, j | 0 <= i < j < |r|
      ensures !r[i].Overlaps(r[j])
    {
      var ii := if i < k then i else i + 1;
      if j < |rest| {
        var jj := if j < k then j else j + 1;
        assert r[i] == s[ii] && r[j] == s[jj];
      } else if i < |rest| {
        assert r[i] == s[ii] && !s[ii].Overlaps(s[k]);
        if r[i].Overlaps(r[j]) {
          OverlapsIffSharedCell(r[i], r[j]);
          var p :| OnVLine(p, r[i]) && OnVLine(p, r[j]);
          assert Covers(ps, p) by {
            assert ps[j - |rest|] == r[j];
          }
          OverlapsIffSharedCell(s[ii], s[k]);
        }
      } else {
        assert |ps| == 2 && r[i] == ps[0] && r[j] == ps[1];
      }
    }
  }

  /**
   * One pass of the inner loops of `addInnerVLine`: cut `split` against the
   * first segment of `lines` that overlaps one of its pieces.
   */
  method CutAgainst(split: seq<VLine>, lines: seq<VLine>) returns (r: seq<VLine>, changed: bool)
    requires AllOrdered(split) && AllOrdered(lines) && PairwiseApart(split)
    ensures AllOrdered(r) && PairwiseApart(r)
    ensures !changed ==> r == split && Apart(split, lines)
    ensures changed ==> TotalSize(r) < TotalSize(split) && CutFrom(r, split, lines)
  {
    r, changed := split, false;
    for j := 0 to |lines|
      invariant r == split && !changed
      invariant forall i, jj :: 0 <= i < |split| && 0 <= jj < j ==> !split[i].Overlaps(lines[jj])
    {
      ghost var k;
      r, changed, k := RemoveOverlaps(split, lines[j]);
      if changed {
        CutShrinks(split, lines[j], k);
        CutKeepsCells(split, lines[j], k);
        CutKeepsApart(split, lines[j], k);
        assert forall p :: OnVLine(p, lines[j]) ==> Covers(lines, p);
        return;
      }
    }
  }

  /**
   * The loop of `addInnerVLine`: split the new inner border until no piece
   * overlaps an outer or an earlier inner border. The pieces cover exactly
   * the cells of the new border that no other border covers.
   */
  method SplitInnerVLine(innerVL: VLine, vLines: seq<VLine>, innerVLines: seq<VLine>) returns (split: seq<VLine>)
    requires innerVL.Ordered() && AllOrdered(vLines) && AllOrdered(innerVLines)
    ensures AllOrdered(split) && PairwiseApart(split)
    ensures Apart(split, vLines) && Apart(split, innerVLines)
    ensures forall p :: Covers(split, p) <==> OnVLine(p, innerVL) && !Covers(vLines, p) && !Covers(innerVLines, p)
  {
    split := [innerVL];
    var changed := true;
    while changed
      invariant AllOrdered(split) && PairwiseApart(split)
      invariant forall p :: Covers(split, p) ==> OnVLine(p, innerVL)
      invariant forall p :: OnVLine(p, innerVL) && !Covers(vLines, p) && !Covers(innerVLines, p) ==> Covers(split, p)
      invariant !changed ==> Apart(split, vLines) && Apart(split, innerVLines)
      decreases TotalSize(split), changed
    {
      split, changed := CutAgainst(split, vLines);
      if !changed {
        split, changed := CutAgainst(split, innerVLines);
      }
    }
    forall p | Covers(split, p)
      ensures !Covers(vLines, p) && !Covers(innerVLines, p)
    {
      var i :| 0 <= i < |split| && OnVLine(p, split[i]);
      if Covers(vLines, p) {
        var j :| 0 <= j < |vLines| && OnVLine(p, vLines[j]);
        assert split[i].Overlaps(vLines[j]);
      }
      if Covers(innerVLines, p) {
        var j :| 0 <= j < |innerVLines| && OnVLine(p, innerVLines[j]);
        assert split[i].Overlaps(innerVLines[j]);
      }
    }
  }

  lemma CoversAppend(a: seq<VLine>, b: seq<VLine>)
    ensures forall p :: Covers(a + b, p) <==> Covers(a, p) || Covers(b, p)
  {
    forall p | Covers(a, p) || Covers(b, p)
      ensures Covers(a + b, p)
    {
      if Covers(a, p) {
        var i :| 0 <= i < |a| && OnVLine(p, a[i]);
        assert (a + b)[i] == a[i];
      } else {
        var i :| 0 <= i < |b| && OnVLine(p, b[i]);
        assert (a + b)[|a| + i] == b[i];
      }
    }
  }

  lemma PairwiseApartAppend(a: seq<VLine>, b: seq<VLine>, lines: seq<VLine>)
    requires PairwiseApart(a) && PairwiseApart(b) && Apart(b, a)
    requires Apart(a, lines) && Apart(b, lines)
    requires AllOrdered(a) && AllOrdered(b)
    ensures PairwiseApart(a + b) && Apart(a + b, lines) && AllOrdered(a + b)
  {
    forall i, j | 0 <= i < j < |a + b|
      ensures !(a + b)[i].Overlaps((a + b)[j])
    {
      if j >= |a| && i < |a| {
        assert !b[j - |a|].Overlaps(a[i]);
      }
    }
  }

  // ---------------------------------------------------------------------------
  // countCubicmeters
  // ---------------------------------------------------------------------------

  function Xs(vLines: seq<VLine>): (r: seq<int>)
    ensures |r| == |vLines| && forall i :: 0 <= i < |vLines| ==> r[i] == vLines[i].x
  {
    seq(|vLines|, i requires 0 <= i < |vLines| => vLines[i].x)
  }

  /** The distinct x positions of the vertical borders, ascending. */
  function Segments(vLines: seq<VLine>): seq<int> {
    SortedDistinct(Xs(vLines))
  }

  function HY(h: HLine): int {
    h.y
  }

  /** The horizontal borders that span the whole column `fromX..toX`, in their original order. */
  function Crossing(hs: seq<HLine>, fromX: int, toX: int): (r: seq<HLine>)
    ensures forall h :: h in r <==> h in hs && h.fromX <= fromX && h.toX >= toX
  {
    if hs == [] then []
    else
      var h := hs[|hs| - 1];
      var rest := Crossing(hs[..|hs| - 1], fromX, toX);
      assert hs == hs[..|hs| - 1] + [h];
      if h.fromX <= fromX && h.toX >= toX then rest + [h] else rest
  }

  /** The crossing borders of a column ordered by `y`, as the source sorts them. */
  function CrossingByY(hs: seq<HLine>, fromX: int, toX: int): (r: seq<HLine>)
    ensures SortedBy(r, HY) && |r| == |Crossing(hs, fromX, toX)|
    ensures forall h :: h in r <==> h in hs && h.fromX <= fromX && h.toX >= toX
  {
    var c := Crossing(hs, fromX, toX);
    var r := SortBy(c, HY);
    assert forall h :: h in r <==> h in multiset(r);
    assert forall h :: h in c <==> h in multiset(c);
    r
  }

  /** `x0 < x1` are neighbouring values of `xs`: nothing of `xs` lies strictly between them. */
  ghost predicate Consecutive(x0: int, x1: int, xs: seq<int>) {
    x0 < x1 && x0 in xs && x1 in xs && forall x :: x in xs ==> x <= x0 || x >= x1
  }

  /** Neighbours in a strictly increasing list of the values of `xs` are neighbouring values of `xs`. */
  lemma NeighboursAreConsecutive(s: seq<int>, xs: seq<int>, i: int)
    requires StrictlyIncreasing(s) && (forall v :: v in s <==> v in xs)
    requires 0 <= i < |s| - 1
    ensures Consecutive(s[i], s[i + 1], xs)
  {
    forall x | x in xs
      ensures x <= s[i] || x >= s[i + 1]
    {
      var m :| 0 <= m < |s| && s[m] == x;
      if m < i {
        assert s[m] < s[i];
      } else if m > i + 1 {
        assert s[i + 1] < s[m];
      }
    }
  }

  /**
   * An area lies strictly inside a column between two neighbouring vertical
   * x positions, and directly between two horizontal borders spanning it.
   */
  ghost predicate Encloses(a: Area, vLines: seq<VLine>, hLines: seq<HLine>) {
    Consecutive(a.fromX - 1, a.toX + 1, Xs(vLines)) &&
    exists h1, h2 :: h1 in hLines && h2 in hLines &&
      h1.y == a.fromY - 1 && h2.y == a.toY + 1 &&
      h1.fromX <= a.fromX - 1 && h1.toX >= a.toX + 1 &&
      h2.fromX <= a.fromX - 1 && h2.toX >= a.toX + 1
  }

  function AreaSum(areas: seq<Area>): int {
    if areas == [] then 0 else AreaSum(areas[..|areas| - 1]) + areas[|areas| - 1].CalcSize()
  }

  lemma {:induction false} AreaSumAppend(a: seq<Area>, b: seq<Area>)
    ensures AreaSum(a + b) == AreaSum(a) + AreaSum(b)
    decreases |b|
  {
    if b != [] {
      AreaSumAppend(a, b[..|b| - 1]);
      assert (a + b)[..|a + b| - 1] == a + b[..|b| - 1];
    } else {
      assert a + b == a;
    }
  }

  /**
   * The area the pair `crossing[2k]`, `crossing[2k + 1]` encloses between
   * the columns `fromX` and `toX`: the cells strictly between them both ways.
   */
  function PairArea(fromX: int, toX: int, crossing: seq<HLine>, k: nat): Area
    requires 2 * k + 1 < |crossing|
  {
    Area(fromX + 1, toX - 1, crossing[2 * k].y + 1, crossing[2 * k + 1].y - 1)
  }

  /** The non-empty areas of the first `n` pairs of crossing borders, in order. */
  ghost function PairedAreas(fromX: int, toX: int, crossing: seq<HLine>, n: nat): seq<Area>
    requires 2 * n <= |crossing|
  {
    if n == 0 then []
    else
      var a := PairArea(fromX, toX, crossing, n - 1);
      PairedAreas(fromX, toX, crossing, n - 1) + (if a.NonEmpty() then [a] else [])
  }

  /**
   * The inner borders the first `n` pairs add: for every pair with rows
   * between its borders, those rows at `fromX` and at `toX`.
   */
  ghost function PairedInner(fromX: int, toX: int, crossing: seq<HLine>, n: nat): seq<VLine>
    requires 2 * n <= |crossing|
  {
    if n == 0 then []
    else
      var a := PairArea(fromX, toX, crossing, n - 1);
      PairedInner(fromX, toX, crossing, n - 1) +
      (if a.fromY <= a.toY then [VLine(fromX, a.fromY, a.toY), VLine(toX, a.fromY, a.toY)] else [])
  }

  /** The areas of one column: one per pair of crossing borders that encloses a cell. */
  ghost function ColumnAreas(fromX: int, toX: int, crossing: seq<HLine>): seq<Area> {
    PairedAreas(fromX, toX, crossing, |crossing| / 2)
  }

  /** The inner borders of one column, before they are split against the others. */
  ghost function ColumnInner(fromX: int, toX: int, crossing: seq<HLine>): seq<VLine> {
    PairedInner(fromX, toX, crossing, |crossing| / 2)
  }

  /** The number of columns between neighbouring vertical x positions. */
  function NumColumns(vLines: seq<VLine>): nat {
    if |Segments(vLines)| == 0 then 0 else |Segments(vLines)| - 1
  }

  /** The crossing borders of column `i`, sorted by `y`. */
  function ColumnCrossing(vLines: seq<VLine>, hLines: seq<HLine>, i: nat): seq<HLine>
    requires i < NumColumns(vLines)
  {
    CrossingByY(hLines, Segments(vLines)[i], Segments(vLines)[i + 1])
  }

  /** The areas of the first `n` columns, left to right. */
  ghost function AllColumnAreas(vLines: seq<VLine>, hLines: seq<HLine>, n: nat): seq<Area>
    requires n <= NumColumns(vLines)
  {
    if n == 0 then []
    else
      AllColumnAreas(vLines, hLines, n - 1) +
      ColumnAreas(Segments(vLines)[n - 1], Segments(vLines)[n], ColumnCrossing(vLines, hLines, n - 1))
  }

  /** The inner borders of the first `n` columns, left to right. */
  ghost function AllColumnInner(vLines: seq<VLine>, hLines: seq<HLine>, n: nat): seq<VLine>
    requires n <= NumColumns(vLines)
  {
    if n == 0 then []
    else
      AllColumnInner(vLines, hLines, n - 1) +
      ColumnInner(Segments(vLines)[n - 1], Segments(vLines)[n], ColumnCrossing(vLines, hLines, n - 1))
  }

  /** The first `i + 1` columns are the first `i` columns and column `i`. */
  lemma AllColumnsStep(vLines: seq<VLine>, hLines: seq<HLine>, i: nat)
    requires i < NumColumns(vLines)
    ensures var fromX, toX, crossing := Segments(vLines)[i], Segments(vLines)[i + 1], ColumnCrossing(vLines, hLines, i);
      AllColumnAreas(vLines, hLines, i + 1) == AllColumnAreas(vLines, hLines, i) + ColumnAreas(fromX, toX, crossing) &&
      AllColumnInner(vLines, hLines, i + 1) == AllColumnInner(vLines, hLines, i) + ColumnInner(fromX, toX, crossing)
  {
  }

  /** Adding the cells of `more` outside `lines` to those of `before` adds the cells of `before + more`. */
  lemma CoversGrow(inner: seq<VLine>, r0: seq<VLine>, r: seq<VLine>, lines: seq<VLine>, before: seq<VLine>, more: seq<VLine>)
    requires forall p :: Covers(r0, p) <==> Covers(inner, p) || (Covers(before, p) && !Covers(lines, p))
    requires forall p :: Covers(r, p) <==> Covers(r0, p) || (Covers(more, p) && !Covers(lines, p))
    ensures forall p :: Covers(r, p) <==> Covers(inner, p) || (Covers(before + more, p) && !Covers(lines, p))
  {
    CoversAppend(before, more);
  }

  lemma CoversPair(l1: VLine, l2: VLine)
    ensures forall p :: Covers([l1, l2], p) <==> OnVLine(p, l1) || OnVLine(p, l2)
  {
    forall p | OnVLine(p, l1) || OnVLine(p, l2)
      ensures Covers([l1, l2], p)
    {
      if OnVLine(p, l1) {
        assert [l1, l2][0] == l1;
      } else {
        assert [l1, l2][1] == l2;
      }
    }
  }

  /** Every area of the first `n` pairs of a column's crossing borders is non-empty and enclosed. */
  lemma {:induction false} PairedAreasEnclosed(vLines: seq<VLine>, hLines: seq<HLine>, fromX: int, toX: int, crossing: seq<HLine>, n: nat)
    requires 2 * n <= |crossing| && Consecutive(fromX, toX, Xs(vLines))
    requires forall h :: h in crossing ==> h in hLines && h.fromX <= fromX && h.toX >= toX
    ensures forall a :: a in PairedAreas(fromX, toX, crossing, n) ==> a.NonEmpty() && Encloses(a, vLines, hLines)
  {
    if n > 0 {
      PairedAreasEnclosed(vLines, hLines, fromX, toX, crossing, n - 1);
      var a := PairArea(fromX, toX, crossing, n - 1);
      if a.NonEmpty() {
        assert Encloses(a, vLines, hLines) by {
          assert crossing[2 * n - 2] in crossing && crossing[2 * n - 1] in crossing;
        }
      }
    }
  }

  /** Every area of `areas` is non-empty and enclosed. */
  ghost predicate AllEnclosed(areas: seq<Area>, vLines: seq<VLine>, hLines: seq<HLine>) {
    forall a :: a in areas ==> a.NonEmpty() && Encloses(a, vLines, hLines)
  }

  lemma AllEnclosedAppend(x: seq<Area>, y: seq<Area>, vLines: seq<VLine>, hLines: seq<HLine>)
    requires AllEnclosed(x, vLines, hLines) && AllEnclosed(y, vLines, hLines)
    ensures AllEnclosed(x + y, vLines, hLines)
  {
  }

  /** Every area of column `i` is non-empty and enclosed. */
  lemma ColumnAreasEnclosed(vLines: seq<VLine>, hLines: seq<HLine>, i: nat)
    requires i < NumColumns(vLines)
    ensures var segments := Segments(vLines);
      AllEnclosed(ColumnAreas(segments[i], segments[i + 1], ColumnCrossing(vLines, hLines, i)), vLines, hLines)
  {
    var segments := Segments(vLines);
    var crossing := ColumnCrossing(vLines, hLines, i);
    NeighboursAreConsecutive(segments, Xs(vLines), i);
    PairedAreasEnclosed(vLines, hLines, segments[i], segments[i + 1], crossing, |crossing| / 2);
  }

  /** Every area of the first `n` columns is non-empty and enclosed. */
  lemma {:induction false} AllColumnAreasEnclosed(vLines: seq<VLine>, hLines: seq<HLine>, n: nat)
    requires n <= NumColumns(vLines)
    ensures AllEnclosed(AllColumnAreas(vLines, hLines, n), vLines, hLines)
  {
    if n > 0 {
      var segments := Segments(vLines);
      AllColumnAreasEnclosed(vLines, hLines, n - 1);
      AllColumnsStep(vLines, hLines, n - 1);
      ColumnAreasEnclosed(vLines, hLines, n - 1);
      AllEnclosedAppend(AllColumnAreas(vLines, hLines, n - 1),
        ColumnAreas(segments[n - 1], segments[n], ColumnCrossing(vLines, hLines, n - 1)), vLines, hLines);
    }
  }

  /** One more pair adds its area when it is non-empty, and its size to the sum. */
  lemma PairedAreasStep(fromX: int, toX: int, crossing: seq<HLine>, k: nat)
    requires 2 * k + 2 <= |crossing|
    ensures var a := PairArea(fromX, toX, crossing, k);
      PairedAreas(fromX, toX, crossing, k + 1) ==
        PairedAreas(fromX, toX, crossing, k) + (if a.NonEmpty() then [a] else []) &&
      AreaSum(PairedAreas(fromX, toX, crossing, k + 1)) ==
        AreaSum(PairedAreas(fromX, toX, crossing, k)) + (if a.NonEmpty() then a.CalcSize() else 0)
  {
    var a := PairArea(fromX, toX, crossing, k);
    var before := PairedAreas(fromX, toX, crossing, k);
    if a.NonEmpty() {
      assert (before + [a])[..|before|] == before;
    } else {
      assert before + [] == before;
    }
  }

  /** One more pair adds the inner borders of its rows, if it has rows between its borders. */
  lemma PairedInnerStep(fromX: int, toX: int, crossing: seq<HLine>, k: nat)
    requires 2 * k + 2 <= |crossing|
    ensures var a := PairArea(fromX, toX, crossing, k);
      if a.fromY <= a.toY then
        PairedInner(fromX, toX, crossing, k + 1) ==
          PairedInner(fromX, toX, crossing, k) + [VLine(fromX, a.fromY, a.toY), VLine(toX, a.fromY, a.toY)]
      else PairedInner(fromX, toX, crossing, k + 1) == PairedInner(fromX, toX, crossing, k)
  {
    assert PairedInner(fromX, toX, crossing, k) + [] == PairedInner(fromX, toX, crossing, k);
  }

  /** Column `i` is crossed by an odd number of horizontal borders, so its pairs do not match up. */
  ghost predicate OddColumn(vLines: seq<VLine>, hLines: seq<HLine>, i: int) {
    0 <= i < |Segments(vLines)| - 1 &&
    |Crossing(hLines, Segments(vLines)[i], Segments(vLines)[i + 1])| % 2 == 1
  }

  /** Every non-empty area adds at least one cell. */
  lemma {:induction false} AreaSumCountsAreas(areas: seq<Area>)
    requires forall a :: a in areas ==> a.NonEmpty()
    ensures AreaSum(areas) >= |areas|
  {
    if areas != [] {
      AreaSumCountsAreas(areas[..|areas| - 1]);
      NonEmptyAreaSize(areas[|areas| - 1]);
    }
  }

  /** Sum of `size() - 1` over the vertical borders. */
  function VEdgeSum(s: seq<VLine>): int {
    if s == [] then 0 else VEdgeSum(s[..|s| - 1]) + (s[|s| - 1].Size() - 1)
  }

  /** Sum of `size() - 1` over the horizontal borders. */
  function HEdgeSum(s: seq<HLine>): int {
    if s == [] then 0 else HEdgeSum(s[..|s| - 1]) + (s[|s| - 1].Size() - 1)
  }

  /** Each border contributes its cells but one: the corner it shares with the next border. */
  lemma {:induction false} VEdgeSumDropsCorners(s: seq<VLine>)
    ensures VEdgeSum(s) == SizeSum(s) - |s|
  {
    if s != [] {
      VEdgeSumDropsCorners(s[..|s| - 1]);
    }
  }

  method SumSizes(lines: seq<VLine>) returns (sum: int)
    ensures sum == SizeSum(lines)
  {
    sum := 0;
    for i := 0 to |lines|
      invariant sum == SizeSum(lines[..i])
    {
      assert lines[..i + 1][..i] == lines[..i];
      sum := sum + lines[i].Size();
    }
    assert lines[..|lines|] == lines;
  }

  method SumVEdges(lines: seq<VLine>) returns (sum: int)
    ensures sum == VEdgeSum(lines)
  {
    sum := 0;
    for i := 0 to |lines|
      invariant sum == VEdgeSum(lines[..i])
    {
      assert lines[..i + 1][..i] == lines[..i];
      sum := sum + (lines[i].Size() - 1);
    }
    assert lines[..|lines|] == lines;
  }

  method SumHEdges(lines: seq<HLine>) returns (sum: int)
    ensures sum == HEdgeSum(lines)
  {
    sum := 0;
    for i := 0 to |lines|
      invariant sum == HEdgeSum(lines[..i])
    {
      assert lines[..i + 1][..i] == lines[..i];
      sum := sum + (lines[i].Size() - 1);
    }
    assert lines[..|lines|] == lines;
  }

  // ---------------------------------------------------------------------------
  // World2
  // ---------------------------------------------------------------------------

  /** `h` is an ordered horizontal border through `a` and `b`, `steps` cells apart. */
  ghost predicate HJoins(h: HLine, a: Pos, b: Pos, steps: int) {
    h.fromX <= h.toX && h.Size() == Abs(steps) + 1 &&
    a.y == h.y && b.y == h.y && h.fromX <= a.x <= h.toX && h.fromX <= b.x <= h.toX
  }

  /** `v` is an ordered vertical border through `a` and `b`, `steps` cells apart. */
  ghost predicate VJoins(v: VLine, a: Pos, b: Pos, steps: int) {
    v.Ordered() && v.Size() == Abs(steps) + 1 && OnVLine(a, v) && OnVLine(b, v)
  }

  /** The horizontal border `move` records between `a` and `b`. */
  function HLineFrom(a: Pos, b: Pos): HLine {
    HLine(b.Min(a).x, b.Max(a).x, b.y)
  }

  /** The vertical border `move` records between `a` and `b`. */
  function VLineFrom(a: Pos, b: Pos): VLine {
    VLine(b.x, b.Min(a).y, b.Max(a).y)
  }

  /** The recorded border is ordered, runs through both ends and is `steps` cells long. */
  lemma BorderJoinsEnds(p: Pos, dir: int, steps: int)
    requires 0 <= dir < 4
    ensures dir == DIR_EAST || dir == DIR_WEST ==> HJoins(HLineFrom(p, p.MoveBy(dir, steps)), p, p.MoveBy(dir, steps), steps)
    ensures dir == DIR_SOUTH || dir == DIR_NORTH ==> VJoins(VLineFrom(p, p.MoveBy(dir, steps)), p, p.MoveBy(dir, steps), steps)
  {
    var q := p.MoveBy(dir, steps);
    if dir == DIR_EAST {
      assert q == Pos(p.x + steps, p.y);
    } else if dir == DIR_WEST {
      assert q == Pos(p.x - steps, p.y);
    } else if dir == DIR_SOUTH {
      assert q == Pos(p.x, p.y + steps);
    } else {
      assert q == Pos(p.x, p.y - steps);
    }
  }

  /**
   * Two `put`s of the same border at both ends; the first that replaces an
   * existing entry stops the move, leaving what was put so far.
   */
  method PutEndpoints<L>(endpoints: map<Pos, L>, a: Pos, b: Pos, line: L) returns (r: map<Pos, L>, ok: bool)
    ensures ok <==> a !in endpoints && b !in endpoints && b != a
    ensures r == if a in endpoints then endpoints[a := line] else endpoints[a := line][b := line]
  {
    var previous := a in endpoints;
    r := endpoints[a := line];
    if previous {
      return r, false;
    }
    previous := b in r;
    r := r[b := line];
    ok := !previous;
  }

  class World2 {
    var hLines: seq<HLine>
    var vLines: seq<VLine>
    var innerVLines: seq<VLine>
    var fillAreas: seq<Area>
    var hLineEndpoints: map<Pos, HLine>
    var vLineEndpoints: map<Pos, VLine>
    var startPos: Pos
    var currentPos: Pos
    var maxPos: Pos
    var minPos: Pos

    /** Every border is stored ordered, and the inner borders share no cell. */
    ghost predicate Valid()
      reads this
    {
      (forall i :: 0 <= i < |hLines| ==> hLines[i].fromX <= hLines[i].toX) &&
      AllOrdered(vLines) && InnerValid(innerVLines)
    }

    /** No inner border shares a cell with an outer one. */
    ghost predicate Separated()
      reads this
    {
      Apart(innerVLines, vLines)
    }

    constructor ()
      ensures Valid() && Separated()
      ensures hLines == [] && vLines == [] && innerVLines == [] && fillAreas == []
      ensures hLineEndpoints == map[] && vLineEndpoints == map[]
      ensures startPos == Pos(0, 0) && currentPos == startPos && minPos == startPos && maxPos == startPos
    {
      hLines := [];
      vLines := [];
      hLineEndpoints := map[];
      vLineEndpoints := map[];
      startPos := Pos(0, 0);
      currentPos := startPos;
      minPos := currentPos;
      maxPos := currentPos;
      fillAreas := [];
      innerVLines := [];
    }

    /**
     * Records the border from the current position `steps` cells towards
     * `cDir`. An endpoint met twice on borders of the same orientation
     * stops the move with `ok == false`, after the border and the first
     * endpoint have been recorded, as the exception leaves them.
     */
    method Move(cDir: char, steps: int) returns (ok: bool)
      requires cDir in DIR_LETTERS && Valid()
      modifies this`hLines, this`vLines, this`hLineEndpoints, this`vLineEndpoints, this`currentPos, this`minPos, this`maxPos
      ensures Valid()
      ensures var dir := DirIndex(cDir);
        var next := old(currentPos).MoveBy(dir, steps);
        if dir == DIR_EAST || dir == DIR_WEST then
          vLines == old(vLines) && vLineEndpoints == old(vLineEndpoints) &&
          |hLines| == |old(hLines)| + 1 && hLines[..|old(hLines)|] == old(hLines) &&
          HJoins(hLines[|old(hLines)|], old(currentPos), next, steps) &&
          (ok <==> old(currentPos) !in old(hLineEndpoints) && next !in old(hLineEndpoints) && next != old(currentPos)) &&
          (ok ==> hLineEndpoints == old(hLineEndpoints)[old(currentPos) := hLines[|old(hLines)|]][next := hLines[|old(hLines)|]]) &&
          (!ok ==> hLineEndpoints == if old(currentPos) in old(hLineEndpoints) then old(hLineEndpoints)[old(currentPos) := hLines[|old(hLines)|]]
            else old(hLineEndpoints)[old(currentPos) := hLines[|old(hLines)|]][next := hLines[|old(hLines)|]])
        else
          hLines == old(hLines) && hLineEndpoints == old(hLineEndpoints) &&
          |vLines| == |old(vLines)| + 1 && vLines[..|old(vLines)|] == old(vLines) &&
          VJoins(vLines[|old(vLines)|], old(currentPos), next, steps) &&
          (ok <==> old(currentPos) !in old(vLineEndpoints) && next !in old(vLineEndpoints) && next != old(currentPos)) &&
          (ok ==> vLineEndpoints == old(vLineEndpoints)[old(currentPos) := vLines[|old(vLines)|]][next := vLines[|old(vLines)|]]) &&
          (!ok ==> vLineEndpoints == if old(currentPos) in old(vLineEndpoints) then old(vLineEndpoints)[old(currentPos) := vLines[|old(vLines)|]]
            else old(vLineEndpoints)[old(currentPos) := vLines[|old(vLines)|]][next := vLines[|old(vLines)|]])
      ensures var next := old(currentPos).MoveBy(DirIndex(cDir), steps);
        if ok then currentPos == next && minPos == old(minPos).Min(next) && maxPos == old(maxPos).Max(next)
        else currentPos == old(currentPos) && minPos == old(minPos) && maxPos == old(maxPos)
    {
      var dir := DirIndex(cDir);
      var nextPos := currentPos.MoveBy(dir, steps);
      BorderJoinsEnds(currentPos, dir, steps);
      if dir == DIR_EAST || dir == DIR_WEST {
        var hLine := HLineFrom(currentPos, nextPos);
        hLines := hLines + [hLine];
        hLineEndpoints, ok := PutEndpoints(hLineEndpoints, currentPos, nextPos, hLine);
      } else {
        var vLine := VLineFrom(currentPos, nextPos);
        vLines := vLines + [vLine];
        vLineEndpoints, ok := PutEndpoints(vLineEndpoints, currentPos, nextPos, vLine);
      }
      if !ok {
        return;
      }
      currentPos := nextPos;
      minPos := minPos.Min(currentPos);
      maxPos := maxPos.Max(currentPos);
    }

    /**
     * Adds the border `x, fromY..toY` between two fill areas, split so that
     * only its cells on no other border are added.
     */
    method AddInnerVLine(x: int, fromY: int, toY: int)
      requires Valid() && fromY <= toY
      modifies this`innerVLines
      ensures Valid() && (old(Separated()) ==> Separated())
      ensures forall p :: Covers(innerVLines, p) <==>
        old(Covers(innerVLines, p)) || (OnVLine(p, VLine(x, fromY, toY)) && !Covers(vLines, p))
    {
      innerVLines := AddInner(innerVLines, vLines, x, fromY, toY);
    }

    /**
     * The lagoon size: the areas between neighbouring vertical borders,
     * plus the inner borders between areas, plus every border but its last
     * cell. The columns are filled left to right, each with one area per
     * pair of crossing borders (`ColumnAreas`) and the rows of those pairs
     * as inner borders (`ColumnInner`), until the first column crossed by
     * an odd number of horizontal borders, where the result is missing.
     * The result is the number of fill-area cells added, plus the number of
     * distinct inner-border cells, plus the border sums.
     */
    method CountCubicmeters() returns (result: Option<int>, ghost added: seq<Area>, ghost columns: nat)
      requires Valid()
      modifies this`fillAreas, this`innerVLines
      ensures Valid() && (old(Separated()) ==> Separated())
      ensures fillAreas == old(fillAreas) + added
      ensures forall a :: a in added ==> a.NonEmpty() && Encloses(a, vLines, hLines)
      ensures result.None? <==> exists i :: OddColumn(vLines, hLines, i)
      ensures columns <= NumColumns(vLines) && (result.Some? ==> columns == NumColumns(vLines))
      ensures result.None? ==> (0 < columns && OddColumn(vLines, hLines, columns - 1) &&
        forall m :: 0 <= m < columns - 1 ==> !OddColumn(vLines, hLines, m))
      ensures added == AllColumnAreas(vLines, hLines, columns)
      ensures forall p :: p in CellSet(innerVLines) <==> (p in old(CellSet(innerVLines)) ||
        (p in CellSet(AllColumnInner(vLines, hLines, columns)) && p !in CellSet(vLines)))
      ensures result.Some? ==> result.value == AreaSum(added) + |CellSet(innerVLines)| + VEdgeSum(vLines) + HEdgeSum(hLines)
    {
      var ok, total, areas, inner;
      ok, total, areas, inner, columns := FillColumns(vLines, hLines, innerVLines);
      FilledCells(vLines, hLines, innerVLines, columns, total, areas, inner);
      added := areas;
      fillAreas := fillAreas + areas;
      innerVLines := inner;
      if !ok {
        assert OddColumn(vLines, hLines, columns - 1);
        return None, added, columns;
      }
      var borders := SumBorders(innerVLines, vLines, hLines);
      total := total + borders;
      result := Some(total);
    }
  }

  /**
   * The tail of `countCubicmeters`: the sizes of the inner borders, which
   * count their distinct cells, plus `size() - 1` over the outer borders.
   */
  method SumBorders(inner: seq<VLine>, vLines: seq<VLine>, hLines: seq<HLine>) returns (total: int)
    requires InnerValid(inner)
    ensures total == |CellSet(inner)| + VEdgeSum(vLines) + HEdgeSum(hLines)
  {
    total := SumSizes(inner);
    var subResult := SumVEdges(vLines);
    total := total + subResult;
    subResult := SumHEdges(hLines);
    total := total + subResult;
    SizeSumCountsCells(inner);
  }

  /** The inner borders are stored ordered and share no cell. */
  ghost predicate InnerValid(inner: seq<VLine>) {
    AllOrdered(inner) && PairwiseApart(inner)
  }

  /** `addInnerVLine` on the list of inner borders. */
  method AddInner(inner: seq<VLine>, vLines: seq<VLine>, x: int, fromY: int, toY: int) returns (r: seq<VLine>)
    requires InnerValid(inner) && AllOrdered(vLines) && fromY <= toY
    ensures InnerValid(r) && (Apart(inner, vLines) ==> Apart(r, vLines))
    ensures forall p :: Covers(r, p) <==> Covers(inner, p) || (OnVLine(p, VLine(x, fromY, toY)) && !Covers(vLines, p))
  {
    var split := SplitInnerVLine(VLine(x, fromY, toY), vLines, inner);
    PairwiseApartAppend(inner, split, []);
    CoversAppend(inner, split);
    if Apart(inner, vLines) {
      PairwiseApartAppend(inner, split, vLines);
    }
    r := inner + split;
  }

  /**
   * The inner loop of `countCubicmeters` for one column: the crossing
   * borders are taken in pairs; the rows strictly between a pair form an
   * area, and the borders of the column beside it become inner borders.
   * An odd number of crossing borders ends with `ok == false`, where the
   * source reads past the end of the list.
   */
  method FillColumn(vLines: seq<VLine>, hLines: seq<HLine>, inner: seq<VLine>, fromX: int, toX: int, crossing: seq<HLine>)
    returns (ok: bool, sub: int, added: seq<Area>, r: seq<VLine>)
    requires InnerValid(inner) && AllOrdered(vLines)
    requires Consecutive(fromX, toX, Xs(vLines))
    requires forall h :: h in crossing ==> h in hLines && h.fromX <= fromX && h.toX >= toX
    ensures InnerValid(r) && (Apart(inner, vLines) ==> Apart(r, vLines))
    ensures forall a :: a in added ==> a.NonEmpty() && Encloses(a, vLines, hLines)
    ensures added == ColumnAreas(fromX, toX, crossing)
    ensures forall p :: Covers(r, p) <==>
      Covers(inner, p) || (Covers(ColumnInner(fromX, toX, crossing), p) && !Covers(vLines, p))
    ensures sub == AreaSum(added)
    ensures ok <==> |crossing| % 2 == 0
  {
    PairedAreasEnclosed(vLines, hLines, fromX, toX, crossing, |crossing| / 2);
    ok, sub, added, r := true, 0, [], inner;
    var j := 0;
    ghost var k: nat := 0;
    while j < |crossing|
      invariant j == 2 * k <= |crossing|
      invariant InnerValid(r) && (Apart(inner, vLines) ==> Apart(r, vLines))
      invariant added == PairedAreas(fromX, toX, crossing, k) && sub == AreaSum(added)
      invariant forall p :: Covers(r, p) <==>
        Covers(inner, p) || (Covers(PairedInner(fromX, toX, crossing, k), p) && !Covers(vLines, p))
    {
      if j + 1 >= |crossing| {
        ok := false;
        assert k == |crossing| / 2;
        return;
      }
      PairedAreasStep(fromX, toX, crossing, k);
      PairedInnerStep(fromX, toX, crossing, k);
      var hLine1 := crossing[j];
      var hLine2 := crossing[j + 1];
      var area := Area(fromX + 1, toX - 1, hLine1.y + 1, hLine2.y - 1);
      assert area == PairArea(fromX, toX, crossing, k);
      if area.fromX <= area.toX && area.fromY <= area.toY {
        sub := sub + area.CalcSize();
        added := added + [area];
      }
      if area.fromY <= area.toY {
        ghost var r0 := r;
        r := AddInner(r, vLines, fromX, area.fromY, area.toY);
        r := AddInner(r, vLines, toX, area.fromY, area.toY);
        CoversPair(VLine(fromX, area.fromY, area.toY), VLine(toX, area.fromY, area.toY));
        CoversGrow(inner, r0, r, vLines, PairedInner(fromX, toX, crossing, k),
          [VLine(fromX, area.fromY, area.toY), VLine(toX, area.fromY, area.toY)]);
      }
      j := j + 2;
      k := k + 1;
    }
    assert k == |crossing| / 2;
  }

  /**
   * The state after filling the first `n` columns: the areas added are
   * those of the columns, summed in `sub`, and the inner borders `r` are
   * the old ones plus the uncovered cells of the columns' pair rows.
   */
  ghost predicate Filled(vLines: seq<VLine>, hLines: seq<HLine>, inner: seq<VLine>, n: nat, sub: int, added: seq<Area>, r: seq<VLine>) {
    n <= NumColumns(vLines) &&
    InnerValid(r) && (Apart(inner, vLines) ==> Apart(r, vLines)) &&
    sub == AreaSum(added) && added == AllColumnAreas(vLines, hLines, n) &&
    (forall p :: Covers(r, p) <==> Covers(inner, p) || (Covers(AllColumnInner(vLines, hLines, n), p) && !Covers(vLines, p)))
  }

  /** The cover relation of `Filled`, restated on cell sets. */
  lemma FilledCells(vLines: seq<VLine>, hLines: seq<HLine>, inner: seq<VLine>, n: nat, sub: int, added: seq<Area>, r: seq<VLine>)
    requires Filled(vLines, hLines, inner, n, sub, added, r)
    ensures forall p :: p in CellSet(r) <==> (p in CellSet(inner) ||
      (p in CellSet(AllColumnInner(vLines, hLines, n)) && p !in CellSet(vLines)))
  {
  }

  /** Column `i` is odd exactly when its sorted crossing list has odd length. */
  lemma OddColumnLength(vLines: seq<VLine>, hLines: seq<HLine>, i: nat)
    requires i < NumColumns(vLines)
    ensures OddColumn(vLines, hLines, i) <==> |ColumnCrossing(vLines, hLines, i)| % 2 == 1
  {
  }

  /** Adding the areas and inner borders of column `i` extends the filled state by that column. */
  lemma FilledStep(vLines: seq<VLine>, hLines: seq<HLine>, inner: seq<VLine>, i: nat, sub: int, added: seq<Area>, r: seq<VLine>,
                   columnSub: int, columnAreas: seq<Area>, r': seq<VLine>)
    requires i < NumColumns(vLines)
    requires Filled(vLines, hLines, inner, i, sub, added, r)
    requires columnAreas == ColumnAreas(Segments(vLines)[i], Segments(vLines)[i + 1], ColumnCrossing(vLines, hLines, i))
    requires columnSub == AreaSum(columnAreas)
    requires InnerValid(r') && (Apart(r, vLines) ==> Apart(r', vLines))
    requires forall p :: Covers(r', p) <==> (Covers(r, p) ||
      (Covers(ColumnInner(Segments(vLines)[i], Segments(vLines)[i + 1], ColumnCrossing(vLines, hLines, i)), p) && !Covers(vLines, p)))
    ensures Filled(vLines, hLines, inner, i + 1, sub + columnSub, added + columnAreas, r')
  {
    var segments := Segments(vLines);
    AreaSumAppend(added, columnAreas);
    AllColumnsStep(vLines, hLines, i);
    CoversGrow(inner, r, r', vLines, AllColumnInner(vLines, hLines, i), ColumnInner(segments[i], segments[i + 1], ColumnCrossing(vLines, hLines, i)));
  }

  /** No column before `n - 1` is odd, and column `n - 1` is not either: no column before `n` is. */
  lemma NoOddColumnBefore(vLines: seq<VLine>, hLines: seq<HLine>, n: nat)
    requires forall m :: 0 <= m < n - 1 ==> !OddColumn(vLines, hLines, m)
    requires 0 < n ==> !OddColumn(vLines, hLines, n - 1)
    ensures forall m :: 0 <= m < n ==> !OddColumn(vLines, hLines, m)
  {
  }

  /** When none of the columns is odd, no index at all names an odd column. */
  lemma NoOddColumn(vLines: seq<VLine>, hLines: seq<HLine>)
    requires forall m :: 0 <= m < NumColumns(vLines) ==> !OddColumn(vLines, hLines, m)
    ensures forall i :: !OddColumn(vLines, hLines, i)
  {
  }

  /** One iteration of the outer loop of `countCubicmeters`: fills column `i`. */
  method FillNextColumn(vLines: seq<VLine>, hLines: seq<HLine>, inner: seq<VLine>, i: nat, fromX: int, toX: int,
                        sub: int, added: seq<Area>, r: seq<VLine>)
    returns (ok: bool, sub': int, added': seq<Area>, r': seq<VLine>)
    requires AllOrdered(vLines) && i < NumColumns(vLines)
    requires fromX == Segments(vLines)[i] && toX == Segments(vLines)[i + 1]
    requires Filled(vLines, hLines, inner, i, sub, added, r)
    ensures Filled(vLines, hLines, inner, i + 1, sub', added', r')
    ensures ok <==> !OddColumn(vLines, hLines, i)
  {
    var crossingHLines := CrossingByY(hLines, fromX, toX);
    OddColumnLength(vLines, hLines, i);
    NeighboursAreConsecutive(Segments(vLines), Xs(vLines), i);
    var columnSub, columnAreas;
    ok, columnSub, columnAreas, r' := FillColumn(vLines, hLines, r, fromX, toX, crossingHLines);
    FilledStep(vLines, hLines, inner, i, sub, added, r, columnSub, columnAreas, r');
    added' := added + columnAreas;
    sub' := sub + columnSub;
  }

  /**
   * The outer loop of `countCubicmeters`: fills the columns between
   * neighbouring vertical x positions from left to right, stopping at the
   * first column with an odd number of crossing borders.
   */
  method FillColumns(vLines: seq<VLine>, hLines: seq<HLine>, inner: seq<VLine>)
    returns (ok: bool, sub: int, added: seq<Area>, r: seq<VLine>, ghost n: nat)
    requires InnerValid(inner) && AllOrdered(vLines)
    ensures Filled(vLines, hLines, inner, n, sub, added, r)
    ensures forall a :: a in added ==> a.NonEmpty() && Encloses(a, vLines, hLines)
    ensures !ok <==> exists i :: OddColumn(vLines, hLines, i)
    ensures ok ==> n == NumColumns(vLines)
    ensures !ok ==> (0 < n && OddColumn(vLines, hLines, n - 1) &&
      forall m :: 0 <= m < n - 1 ==> !OddColumn(vLines, hLines, m))
  {
    var segments := Segments(vLines);
    ok, sub, added, r := true, 0, [], inner;
    var i := 0;
    while ok && i < |segments| - 1
      invariant i <= NumColumns(vLines)
      invariant Filled(vLines, hLines, inner, i, sub, added, r)
      invariant forall m :: 0 <= m < i - 1 ==> !OddColumn(vLines, hLines, m)
      invariant 0 < i ==> (ok <==> !OddColumn(vLines, hLines, i - 1))
      invariant i == 0 ==> ok
    {
      ok, sub, added, r := FillNextColumn(vLines, hLines, inner, i, segments[i], segments[i + 1], sub, added, r);
      NoOddColumnBefore(vLines, hLines, i);
      i := i + 1;
    }
    n := i;
    if ok {
      NoOddColumnBefore(vLines, hLines, n);
      NoOddColumn(vLines, hLines);
    } else {
      assert OddColumn(vLines, hLines, n - 1);
    }
    AllColumnAreasEnclosed(vLines, hLines, n);
  }
}
