/**
 * Digging a trench from a dig plan (part one, cell by cell) and the
 * primitives shared with the segment-based count of part two: compass
 * directions, integer positions, and the colour code read from hex digits.
 */
module Y23Day18 {
  import opened Wrappers
  import opened JavaInt

  const DIR_LETTERS: string := "RDLU"
  const DIR_EAST := 0
  const DIR_SOUTH := 1
  const DIR_WEST := 2
  const DIR_NORTH := 3
  const DIR_ROT_LEFT := 3
  const DIR_ROT_RIGHT := 1

  function DirAddX(dir: int): int
    requires 0 <= dir < 4
  {
    [1, 0, -1, 0][dir]
  }

  function DirAddY(dir: int): int
    requires 0 <= dir < 4
  {
    [0, 1, 0, -1][dir]
  }

  /** `rot`: Java's `(dir + rot + 4) % 4`. */
  function Rot(dir: int, rot: int): (r: int)
    ensures dir + rot + 4 >= 0 ==> 0 <= r < 4
    ensures 0 <= dir < 4 && 0 <= rot < 4 ==> r == if dir + rot < 4 then dir + rot else dir + rot - 4
  {
    Rem(dir + rot + 4, 4)
  }

  /** Turning left and then right, or right and then left, restores the direction. */
  lemma RotLeftRightCancel(dir: int)
    requires 0 <= dir < 4
    ensures Rot(Rot(dir, DIR_ROT_LEFT), DIR_ROT_RIGHT) == dir
    ensures Rot(Rot(dir, DIR_ROT_RIGHT), DIR_ROT_LEFT) == dir
  {
  }

  function IntMin(a: int, b: int): int {
    if a <= b then a else b
  }

  function IntMax(a: int, b: int): int {
    if a >= b then a else b
  }

  datatype Pos = Pos(x: int, y: int) {

    function Move(dir: int): Pos
      requires 0 <= dir < 4
    {
      Pos(x + DirAddX(dir), y + DirAddY(dir))
    }

    function MoveBy(dir: int, steps: int): Pos
      requires 0 <= dir < 4
    {
      Pos(x + steps * DirAddX(dir), y + steps * DirAddY(dir))
    }

    /** The componentwise minimum, whichever shortcut the source takes. */
    function Min(other: Pos): (r: Pos)
      ensures r == Pos(IntMin(x, other.x), IntMin(y, other.y))
    {
      if x <= other.x && y <= other.y then this
      else if other.x <= x && other.y <= y then other
      else Pos(IntMin(x, other.x), IntMin(y, other.y))
    }

    /** The componentwise maximum, whichever shortcut the source takes. */
    function Max(other: Pos): (r: Pos)
      ensures r == Pos(IntMax(x, other.x), IntMax(y, other.y))
    {
      if x >= other.x && y >= other.y then this
      else if other.x >= x && other.y >= y then other
      else Pos(IntMax(x, other.x), IntMax(y, other.y))
    }

    function Neighbours(): seq<Pos> {
      [Move(DIR_EAST), Move(DIR_SOUTH), Move(DIR_WEST), Move(DIR_NORTH)]
    }
  }

  /** `move(dir)` is `move(dir, 1)`. */
  lemma MoveIsOneStep(p: Pos, dir: int)
    requires 0 <= dir < 4
    ensures p.Move(dir) == p.MoveBy(dir, 1)
  {
  }

  /** Moving `a` steps and then `b` steps is moving `a + b` steps. */
  lemma MoveByAdds(p: Pos, dir: int, a: int, b: int)
    requires 0 <= dir < 4
    ensures p.MoveBy(dir, a).MoveBy(dir, b) == p.MoveBy(dir, a + b)
  {
    assert (a + b) * DirAddX(dir) == a * DirAddX(dir) + b * DirAddX(dir);
    assert (a + b) * DirAddY(dir) == a * DirAddY(dir) + b * DirAddY(dir);
  }

  /** The neighbours are exactly the four cells at Manhattan distance one. */
  lemma NeighboursAreAdjacent(p: Pos, n: Pos)
    ensures n in p.Neighbours() <==> Abs(n.x - p.x) + Abs(n.y - p.y) == 1
  {
    if Abs(n.x - p.x) + Abs(n.y - p.y) == 1 {
      if n.x == p.x + 1 {
        assert n == p.Neighbours()[0];
      } else if n.y == p.y + 1 {
        assert n == p.Neighbours()[1];
      } else if n.x == p.x - 1 {
        assert n == p.Neighbours()[2];
      } else {
        assert n == p.Neighbours()[3];
      }
    }
  }

  // ---------------------------------------------------------------------------
  // The colour code: five hex digits of distance and one direction digit
  // ---------------------------------------------------------------------------

  /** A lower-case hex digit's value, or -1 for any other character. */
  function HexDigit(c: char): int {
    if '0' <= c <= '9' then c as int - '0' as int
    else if 'a' <= c <= 'f' then c as int - 'a' as int + 10
    else -1
  }

  function HexChar(d: int): char
    requires 0 <= d < 16
  {
    if d < 10 then ('0' as int + d) as char else ('a' as int + d - 10) as char
  }

  predicate IsHex(s: string) {
    forall i :: 0 <= i < |s| ==> HexDigit(s[i]) >= 0
  }

  /** `Integer.parseInt(s, 16)` on lower-case hex digits. */
  function HexValue(s: string): (v: nat)
    requires IsHex(s)
  {
    if s == [] then 0 else HexValue(s[..|s| - 1]) * 16 + HexDigit(s[|s| - 1])
  }

  function Pow16(n: nat): (r: nat)
    ensures r >= 1
  {
    if n == 0 then 1 else 16 * Pow16(n - 1)
  }

  /** `len` lower-case hex digits of `n`, most significant first. */
  function ToHex(n: nat, len: nat): (s: string)
    ensures |s| == len && IsHex(s)
  {
    if len == 0 then [] else ToHex(n / 16, len - 1) + [HexChar(n % 16)]
  }

  lemma {:induction false} HexValueBound(s: string)
    requires IsHex(s)
    ensures HexValue(s) < Pow16(|s|)
  {
    if s != [] {
      HexValueBound(s[..|s| - 1]);
    }
  }

  lemma {:induction false} HexValueOfToHex(n: nat, len: nat)
    requires n < Pow16(len)
    ensures HexValue(ToHex(n, len)) == n
  {
    if len > 0 {
      HexValueOfToHex(n / 16, len - 1);
      var s := ToHex(n, len);
      assert s[..len - 1] == ToHex(n / 16, len - 1);
    }
  }

  lemma {:induction false} ToHexOfHexValue(s: string)
    requires IsHex(s)
    ensures ToHex(HexValue(s), |s|) == s
  {
    if s != [] {
      var init := s[..|s| - 1];
      ToHexOfHexValue(init);
      assert s == init + [s[|s| - 1]];
    }
  }

  /** The part-two instruction hidden in the colour: a direction and a distance. */
  datatype ColorCode = ColorCode(cDir: char, cSteps: int, color: int)

  /**
   * The colour fields of a plan line: `hex5` is the regex's five hex digits
   * and `digit` its final direction digit; `None` where the line would not
   * match and the reader throws.
   */
  function DecodeColor(hex5: string, digit: char): (r: Option<ColorCode>)
    ensures r.Some? <==> |hex5| == 5 && IsHex(hex5) && '0' <= digit <= '3'
    ensures r.Some? ==> 0 <= r.value.cSteps < Pow16(5) && r.value.cDir in DIR_LETTERS
  {
    if |hex5| == 5 && IsHex(hex5) && '0' <= digit <= '3' then
      var dirNum := digit as int - '0' as int;
      HexValueBound(hex5);
      assert IsHex(hex5 + [digit]);
      Some(ColorCode(DIR_LETTERS[dirNum], HexValue(hex5), HexValue(hex5 + [digit])))
    else None
  }

  /** Every distance below 16^5 and every direction has a colour code, and it decodes back. */
  lemma DecodeEncodedColor(steps: nat, dirNum: nat)
    requires steps < Pow16(5) && dirNum < 4
    ensures DecodeColor(ToHex(steps, 5), HexChar(dirNum)) ==
      Some(ColorCode(DIR_LETTERS[dirNum], steps, steps * 16 + dirNum))
  {
    HexValueOfToHex(steps, 5);
    var h := ToHex(steps, 5);
    assert (h + [HexChar(dirNum)])[..5] == h;
  }

  /** A decoded code determines its digits: the distance prints back to the same five digits. */
  lemma DecodedColorDeterminesDigits(hex5: string, digit: char)
    requires DecodeColor(hex5, digit).Some?
    ensures ToHex(DecodeColor(hex5, digit).value.cSteps, 5) == hex5
    ensures DecodeColor(hex5, digit).value.color == DecodeColor(hex5, digit).value.cSteps * 16 + HexDigit(digit)
  {
    ToHexOfHexValue(hex5);
    assert (hex5 + [digit])[..5] == hex5;
  }

  // ---------------------------------------------------------------------------
  // Part one: the trench dug cell by cell
  // ---------------------------------------------------------------------------

  /** `DIR_LETTERS.indexOf(c)`. */
  function DirIndex(c: char): (r: int)
    ensures -1 <= r < 4
    ensures r >= 0 ==> DIR_LETTERS[r] == c
    ensures r == -1 <==> c !in DIR_LETTERS
  {
    if c == 'R' then 0 else if c == 'D' then 1 else if c == 'L' then 2 else if c == 'U' then 3 else -1
  }

  predicate Between(p: Pos, lo: Pos, hi: Pos) {
    lo.x <= p.x <= hi.x && lo.y <= p.y <= hi.y
  }

  /** The `steps` cells after `start` along `dir`. */
  ghost function Segment(start: Pos, dir: int, steps: int): set<Pos>
    requires 0 <= dir < 4
  {
    set k | 1 <= k <= steps :: start.MoveBy(dir, k)
  }

  lemma MoveStep(p: Pos, dir: int, i: int)
    requires 0 <= dir < 4
    ensures p.MoveBy(dir, i).Move(dir) == p.MoveBy(dir, i + 1)
  {
    MoveByAdds(p, dir, i, 1);
  }

  lemma SegmentStep(start: Pos, dir: int, i: nat)
    requires 0 <= dir < 4
    ensures Segment(start, dir, i + 1) == Segment(start, dir, i) + {start.MoveBy(dir, i + 1)}
  {
  }

  /** `MoveBy` written out per direction. */
  lemma MoveByCoords(p: Pos, dir: int, k: int)
    requires 0 <= dir < 4
    ensures p.MoveBy(dir, k) ==
      if dir == 0 then Pos(p.x + k, p.y)
      else if dir == 1 then Pos(p.x, p.y + k)
      else if dir == 2 then Pos(p.x - k, p.y)
      else Pos(p.x, p.y - k)
  {
  }

  /** The cells between two corners of a box along one direction stay in the box. */
  lemma SegmentInBox(start: Pos, dir: int, steps: int, lo: Pos, hi: Pos)
    requires 0 <= dir < 4
    requires Between(start, lo, hi) && Between(start.MoveBy(dir, steps), lo, hi)
    ensures forall q :: q in Segment(start, dir, steps) ==> Between(q, lo, hi)
  {
    MoveByCoords(start, dir, steps);
    forall q | q in Segment(start, dir, steps)
      ensures Between(q, lo, hi)
    {
      var k :| 1 <= k <= steps && q == start.MoveBy(dir, k);
      MoveByCoords(start, dir, k);
    }
  }

  /** The loop of `World.move`: digs `steps` cells along `dir`, colouring each. */
  method Dig(field0: map<Pos, int>, start: Pos, dir: int, steps: int, color: int)
    returns (field: map<Pos, int>, end: Pos)
    requires 0 <= dir < 4
    ensures end == start.MoveBy(dir, IntMax(steps, 0))
    ensures field.Keys == field0.Keys + Segment(start, dir, steps)
    ensures forall q :: q in Segment(start, dir, steps) ==> field[q] == color
    ensures forall q :: q in field0 && q !in Segment(start, dir, steps) ==> field[q] == field0[q]
  {
    field := field0;
    end := start;
    var i := 0;
    while i < steps
      invariant 0 <= i <= IntMax(steps, 0)
      invariant end == start.MoveBy(dir, i)
      invariant field.Keys == field0.Keys + Segment(start, dir, i)
      invariant forall q :: q in Segment(start, dir, i) ==> field[q] == color
      invariant forall q :: q in field0 && q !in Segment(start, dir, i) ==> field[q] == field0[q]
    {
      MoveStep(start, dir, i);
      SegmentStep(start, dir, i);
      end := end.Move(dir);
      field := field[end := color];
      i := i + 1;
    }
    assert Segment(start, dir, steps) == Segment(start, dir, i) by {
      if steps < 0 {
        assert Segment(start, dir, steps) == {};
      }
    }
  }

  /** The cells within one ring around the box: the only ones `fillOutside` may reach. */
  ghost function RingCells(lo: Pos, hi: Pos): set<Pos> {
    set x, y | lo.x - 1 <= x <= hi.x + 1 && lo.y - 1 <= y <= hi.y + 1 :: Pos(x, y)
  }

  ghost predicate InRing(p: Pos, lo: Pos, hi: Pos) {
    Between(p, Pos(lo.x - 1, lo.y - 1), Pos(hi.x + 1, hi.y + 1))
  }

  /** A cell the flood fill may enter: in the ring, and not a trench cell inside the box. */
  ghost predicate Free(field: map<Pos, int>, lo: Pos, hi: Pos, p: Pos) {
    InRing(p, lo, hi) && (!Between(p, lo, hi) || p !in field)
  }

  /** `getChar(x, y, border)` on explicit state. */
  function CellChar(field: map<Pos, int>, outside: set<Pos>, lo: Pos, hi: Pos, p: Pos, border: int): char {
    if p in outside then 'o'
    else if p.x < lo.x - border || p.x > hi.x + border || p.y < lo.y - border || p.y > hi.y + border then '~'
    else if p.x < lo.x || p.x > hi.x || p.y < lo.y || p.y > hi.y then '.'
    else if p in field then '#'
    else '.'
  }

  /** With a one-cell border, `getChar` shows '.' exactly on free cells not yet filled. */
  lemma CellCharWithBorder(field: map<Pos, int>, outside: set<Pos>, lo: Pos, hi: Pos, p: Pos)
    ensures CellChar(field, outside, lo, hi, p, 1) == '.' <==> p !in outside && Free(field, lo, hi, p)
  {
  }

  /** The corner the fill starts from is always free. */
  lemma CornerIsFree(field: map<Pos, int>, lo: Pos, hi: Pos)
    requires Between(lo, lo, hi)
    ensures Free(field, lo, hi, Pos(lo.x - 1, lo.y - 1))
  {
  }

  /** Filled cells are free, and no free neighbour of a filled cell is left unfilled or unvisited. */
  ghost predicate FillInvariant(field: map<Pos, int>, lo: Pos, hi: Pos, outside: set<Pos>, work: set<Pos>) {
    (forall p :: p in outside ==> Free(field, lo, hi, p)) &&
    (forall p, n :: p in outside && n in p.Neighbours() ==> n in outside || n in work || !Free(field, lo, hi, n))
  }

  /**
   * The worklist loop of `fillOutside`: a flood fill from the cell diagonally
   * before the box's corner through free cells. The result holds free cells
   * only, contains the corner, and is closed under moving to free neighbours.
   */
  method FloodFill(field: map<Pos, int>, lo: Pos, hi: Pos) returns (outside: set<Pos>)
    requires Between(lo, lo, hi)
    ensures forall p :: p in outside ==> Free(field, lo, hi, p)
    ensures Pos(lo.x - 1, lo.y - 1) in outside
    ensures forall p, n :: p in outside && n in p.Neighbours() && Free(field, lo, hi, n) ==> n in outside
  {
    var start := Pos(lo.x - 1, lo.y - 1);
    CornerIsFree(field, lo, hi);
    outside := {};
    var work := {start};
    ghost var ring := RingCells(lo, hi);
    while work != {}
      invariant outside <= ring
      invariant FillInvariant(field, lo, hi, outside, work)
      invariant start in outside || start in work
      decreases |ring - outside|, |work|
    {
      var pos :| pos in work;
      work := work - {pos};
      CellCharWithBorder(field, outside, lo, hi, pos);
      if CellChar(field, outside, lo, hi, pos, 1) != '.' {
        continue;
      }
      if pos in outside {
        continue;
      }
      assert pos in ring;
      assert ring - (outside + {pos}) == (ring - outside) - {pos};
      outside := outside + {pos};
      work := work + set n | n in pos.Neighbours();
    }
  }

  /** Cells of the box on row `y` from `x0` to `x1` that are not outside. */
  ghost function RowInside(outside: set<Pos>, y: int, x0: int, x1: int): nat
    decreases x1 - x0
  {
    if x1 < x0 then 0 else RowInside(outside, y, x0, x1 - 1) + (if Pos(x1, y) in outside then 0 else 1)
  }

  /** Cells of the box from row `lo.y` to row `y1` that are not outside. */
  ghost function BoxInside(outside: set<Pos>, lo: Pos, hi: Pos, y1: int): nat
    decreases y1 - lo.y
  {
    if y1 < lo.y then 0 else BoxInside(outside, lo, hi, y1 - 1) + RowInside(outside, y1, lo.x, hi.x)
  }

  /** The nested loops of `countCubicmeters`: the box's cells that `getChar` shows as '.' or '#'. */
  method CountInside(field: map<Pos, int>, outside: set<Pos>, lo: Pos, hi: Pos) returns (result: int)
    ensures result == BoxInside(outside, lo, hi, hi.y)
  {
    result := 0;
    var y := lo.y;
    while y <= hi.y
      invariant lo.y <= y <= IntMax(hi.y + 1, lo.y)
      invariant result == BoxInside(outside, lo, hi, y - 1)
      decreases hi.y - y
    {
      var x := lo.x;
      var row := 0;
      while x <= hi.x
        invariant lo.x <= x <= IntMax(hi.x + 1, lo.x)
        invariant row == RowInside(outside, y, lo.x, x - 1)
        decreases hi.x - x
      {
        var c := CellChar(field, outside, lo, hi, Pos(x, y), 0);
        if c == '.' || c == '#' {
          row := row + 1;
        }
        x := x + 1;
      }
      assert row == RowInside(outside, y, lo.x, hi.x) by {
        if hi.x >= lo.x {
          assert x == hi.x + 1;
        }
      }
      result := result + row;
      y := y + 1;
    }
    if hi.y >= lo.y {
      assert y == hi.y + 1;
    }
  }

  lemma {:induction false} RowInsideBound(outside: set<Pos>, y: int, x0: int, x1: int)
    ensures RowInside(outside, y, x0, x1) <= IntMax(x1 - x0 + 1, 0)
    ensures (forall x :: x0 <= x <= x1 ==> Pos(x, y) !in outside) ==> RowInside(outside, y, x0, x1) == IntMax(x1 - x0 + 1, 0)
    decreases x1 - x0
  {
    if x1 >= x0 {
      RowInsideBound(outside, y, x0, x1 - 1);
    }
  }

  /**
   * The count never exceeds the box's area, and equals it when no cell of
   * the box was filled from outside.
   */
  lemma {:induction false} BoxInsideBound(outside: set<Pos>, lo: Pos, hi: Pos, y1: int)
    requires lo.x <= hi.x
    ensures BoxInside(outside, lo, hi, y1) <= (hi.x - lo.x + 1) * IntMax(y1 - lo.y + 1, 0)
    ensures (forall p :: p in outside ==> !Between(p, lo, Pos(hi.x, y1))) ==>
      BoxInside(outside, lo, hi, y1) == (hi.x - lo.x + 1) * IntMax(y1 - lo.y + 1, 0)
    decreases y1 - lo.y
  {
    if y1 >= lo.y {
      BoxInsideBound(outside, lo, hi, y1 - 1);
      RowInsideBound(outside, y1, lo.x, hi.x);
      var w := hi.x - lo.x + 1;
      assert w * (y1 - lo.y + 1) == w * IntMax(y1 - 1 - lo.y + 1, 0) + w;
      if forall p :: p in outside ==> !Between(p, lo, Pos(hi.x, y1)) {
        forall x | lo.x <= x <= hi.x
          ensures Pos(x, y1) !in outside
        {
          if Pos(x, y1) in outside {
            assert Between(Pos(x, y1), lo, Pos(hi.x, y1));
          }
        }
      }
    }
  }

  /** The part-one world: the dug cells with their colours, the filled outside, and the bounding box. */
  class World {
    var field: map<Pos, int>
    var outside: set<Pos>
    var currentPos: Pos
    var minPos: Pos
    var maxPos: Pos

    /** The position lies in the bounding box, and so do all dug cells. */
    ghost predicate Valid()
      reads this
    {
      Between(currentPos, minPos, maxPos) && forall q :: q in field ==> Between(q, minPos, maxPos)
    }

    constructor ()
      ensures Valid()
      ensures field == map[] && outside == {}
      ensures currentPos == Pos(0, 0) && minPos == Pos(0, 0) && maxPos == Pos(0, 0)
    {
      field := map[];
      outside := {};
      currentPos := Pos(0, 0);
      minPos := Pos(0, 0);
      maxPos := Pos(0, 0);
    }

    /**
     * `move`: digs and colours the `steps` cells after the current position
     * along the direction, ends on the last of them, and widens the
     * bounding box to the new position.
     */
    method Move(dirChar: char, steps: int, color: int)
      requires dirChar in DIR_LETTERS
      requires Valid()
      modifies this`field, this`currentPos, this`minPos, this`maxPos
      ensures Valid()
      ensures field.Keys == old(field).Keys + Segment(old(currentPos), DirIndex(dirChar), steps)
      ensures forall q :: q in Segment(old(currentPos), DirIndex(dirChar), steps) ==> field[q] == color
      ensures forall q :: q in old(field) && q !in Segment(old(currentPos), DirIndex(dirChar), steps) ==>
        field[q] == old(field)[q]
      ensures currentPos == old(currentPos).MoveBy(DirIndex(dirChar), IntMax(steps, 0))
      ensures minPos == old(minPos).Min(currentPos) && maxPos == old(maxPos).Max(currentPos)
    {
      var dir := DirIndex(dirChar);
      ghost var start := currentPos;
      ghost var field0 := field;
      field, currentPos := Dig(field, currentPos, dir, steps, color);
      minPos := minPos.Min(currentPos);
      maxPos := maxPos.Max(currentPos);
      if steps > 0 {
        SegmentInBox(start, dir, steps, minPos, maxPos);
      } else {
        assert Segment(start, dir, steps) == {};
      }
      assert forall q :: q in field0 ==> Between(q, old(minPos), old(maxPos));
    }

    /** `fillOutside`: floods the ring around the trench from the corner before the box. */
    method FillOutside()
      requires Valid()
      modifies this`outside
      ensures forall p :: p in outside ==> Free(field, minPos, maxPos, p)
      ensures Pos(minPos.x - 1, minPos.y - 1) in outside
      ensures forall p, n :: p in outside && n in p.Neighbours() && Free(field, minPos, maxPos, n) ==> n in outside
    {
      outside := FloodFill(field, minPos, maxPos);
    }

    /** `getChar(x, y, border)`. */
    function GetChar(x: int, y: int, border: int): char
      reads this
    {
      CellChar(field, outside, minPos, maxPos, Pos(x, y), border)
    }

    /** `countCubicmeters`: the cells of the box that were not filled from outside. */
    method CountCubicmeters() returns (result: int)
      ensures result == BoxInside(outside, minPos, maxPos, maxPos.y)
    {
      result := CountInside(field, outside, minPos, maxPos);
    }
  }

  /** After the fill, no dug cell counts as outside: every trench cell is counted. */
  lemma TrenchNeverOutside(field: map<Pos, int>, outside: set<Pos>, lo: Pos, hi: Pos, q: Pos)
    requires forall p :: p in outside ==> Free(field, lo, hi, p)
    requires q in field && Between(q, lo, hi)
    ensures q !in outside
  {
  }
}
