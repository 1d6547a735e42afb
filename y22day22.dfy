/**
 * The walker on the cube of `Y22Day22Animation.java`: the map is cut into
 * square faces of `cubeSize` cells, faces are numbered row by row
 * (`maxHSurface` per row), and the walker keeps a face number, a position on
 * that face and a direction. Leaving a face looks up the face across the
 * edge and the quarter-turn to apply in the orientation table.
 */
module Y22Day22 {
  import opened Wrappers
  import opened JavaInt

  const DIR_RIGHT := 0
  const DIR_DOWN := 1
  const DIR_LEFT := 2
  const DIR_UP := 3

  const DIR_CHARS: seq<char> := ['>', 'v', '<', '^']
  const DIR_MOVEX: seq<int> := [1, 0, -1, 0]
  const DIR_MOVEY: seq<int> := [0, 1, 0, -1]

  const ROT_0 := 0
  const ROT_LEFT := 1
  const ROT_180 := 2
  const ROT_RIGHT := 3

  /** A 2x2 integer matrix, row by row. */
  datatype Matrix = Matrix(m00: int, m01: int, m10: int, m11: int)

  /** The rotation matrices `ROT[rot]`. */
  const ROT: seq<Matrix> := [Matrix(1, 0, 0, 1), Matrix(0, -1, 1, 0), Matrix(-1, 0, 0, -1), Matrix(0, 1, -1, 0)]

  datatype Position = Position(x: int, y: int)

  datatype SurfacePosition = SurfacePosition(surface: int, x: int, y: int, dir: int)

  // ---------------------------------------------------------------------------
  // Directions and quarter-turns
  // ---------------------------------------------------------------------------

  /** `turn`: 'R' turns clockwise, any other character but '\0' counter-clockwise, '\0' not at all. */
  function TurnDir(dir: int, turnDir: char): (r: int)
    requires 0 <= dir < 4
    ensures 0 <= r < 4
    ensures turnDir == '\0' ==> r == dir
    ensures turnDir == 'R' ==> r == if dir == 3 then 0 else dir + 1
    ensures turnDir != '\0' && turnDir != 'R' ==> r == if dir == 0 then 3 else dir - 1
  {
    if turnDir == '\0' then dir else (dir + (if turnDir == 'R' then 1 else 3)) % 4
  }

  /** A left turn undoes a right turn and the other way round. */
  lemma TurnsCancel(dir: int)
    requires 0 <= dir < 4
    ensures TurnDir(TurnDir(dir, 'R'), 'L') == dir
    ensures TurnDir(TurnDir(dir, 'L'), 'R') == dir
  {
  }

  /** The matrix applied to a vector. */
  function Apply(m: Matrix, x: int, y: int): Position {
    Position(m.m00 * x + m.m01 * y, m.m10 * x + m.m11 * y)
  }

  /**
   * The cell a quarter-turn of the face maps local cell (x, y) to. The source
   * computes it in floating point about the face centre and truncates; on a
   * face of size n the exact result is one of these four integer maps.
   */
  function Rotate(rot: int, n: int, x: int, y: int): (r: Position)
    requires 0 <= rot < 4
    ensures 0 <= x < n && 0 <= y < n ==> 0 <= r.x < n && 0 <= r.y < n
  {
    if rot == ROT_0 then Position(x, y)
    else if rot == ROT_LEFT then Position(n - 1 - y, x)
    else if rot == ROT_180 then Position(n - 1 - x, n - 1 - y)
    else Position(y, n - 1 - x)
  }

  /**
   * The integer map is the matrix `ROT[rot]` applied about the face centre
   * (n-1)/2, written in doubled coordinates so that the centre is an integer.
   */
  lemma RotateIsMatrixAboutCentre(rot: int, n: int, x: int, y: int)
    requires 0 <= rot < 4
    ensures var r := Rotate(rot, n, x, y);
      Position(2 * r.x - (n - 1), 2 * r.y - (n - 1)) == Apply(ROT[rot], 2 * x - (n - 1), 2 * y - (n - 1))
  {
  }

  /** Turning by `rot` and then by the remaining quarter-turns gives back the cell. */
  lemma RotateInverse(rot: int, n: int, x: int, y: int)
    requires 0 <= rot < 4
    ensures var r := Rotate(rot, n, x, y); Rotate((4 - rot) % 4, n, r.x, r.y) == Position(x, y)
  {
  }

  /** A local cell of a face of size n, facing one of the four directions. */
  predicate OnFace(n: int, sp: SurfacePosition) {
    0 <= sp.x < n && 0 <= sp.y < n && 0 <= sp.dir < 4
  }

  // ---------------------------------------------------------------------------
  // Faces
  // ---------------------------------------------------------------------------

  /** The face a map cell lies on: `maxHSurface * (y / n) + x / n`. */
  function FaceOf(n: int, maxH: int, x: int, y: int): int
    requires n > 0 && x >= 0 && y >= 0
  {
    maxH * (y / n) + x / n
  }

  /** The local cell of a map cell on its face. */
  function LocalOf(n: int, x: int, y: int): (r: Position)
    requires n > 0
    ensures 0 <= r.x < n && 0 <= r.y < n
  {
    Position(x % n, y % n)
  }

  /** The map cell of a local cell on a face, as `rememberPosition` and `get(sf, x, y)` compute it. */
  function GlobalPosition(n: int, maxH: int, sf: int, x: int, y: int): Position
    requires maxH != 0
  {
    Position(x + n * Rem(sf, maxH), y + n * Div(sf, maxH))
  }

  lemma MulStep(m: int, d: int)
    requires m > 0
    ensures d >= 1 ==> m * d >= m
    ensures d <= -1 ==> m * d <= -m
  {
  }

  /** The longest row length, 0 without rows. */
  function MaxLen(rs: seq<seq<char>>): (r: nat)
    ensures forall i :: 0 <= i < |rs| ==> |rs[i]| <= r
    ensures rs == [] ==> r == 0
    ensures rs != [] ==> exists i :: 0 <= i < |rs| && |rs[i]| == r
  {
    if rs == [] then 0
    else
      var m := MaxLen(rs[..|rs| - 1]);
      if |rs[|rs| - 1]| > m then |rs[|rs| - 1]| else m
  }

  /** The loop of `init` that finds the longest row. */
  method MaxRowLength(rs: seq<seq<char>>) returns (width: nat)
    ensures width == MaxLen(rs)
  {
    width := 0;
    var i := 0;
    while i < |rs|
      invariant 0 <= i <= |rs|
      invariant width == MaxLen(rs[..i])
    {
      assert rs[..i + 1][..i] == rs[..i];
      width := if |rs[i]| > width then |rs[i]| else width;
      i := i + 1;
    }
    assert rs[..|rs|] == rs;
  }

  lemma QuotientNonNegative(a: nat, n: int)
    requires n > 0
    ensures a / n >= 0
  {
  }

  /** Division with remainder has one answer. */
  lemma DivModUnique(a: int, m: int, q: int, r: int)
    requires m > 0 && 0 <= r < m && a == m * q + r
    ensures a / m == q && a % m == r
  {
    var q' := a / m;
    var r' := a % m;
    assert m * (q - q') == r' - r;
    MulStep(m, q - q');
  }

  lemma MulMonotone(n: int, a: int, b: int)
    requires n > 0 && a >= b
    ensures n * a >= n * b
  {
    assert n * a - n * b == n * (a - b);
  }

  /** A cell left of column m * n lies on a face column below m. */
  lemma QuotientBound(x: int, n: int, m: int)
    requires n > 0 && 0 <= x < m * n
    ensures x / n < m
  {
    if x / n >= m {
      MulMonotone(n, x / n, m);
    }
  }

  /** Splitting a map cell into face and local cell and mapping back gives the cell again. */
  lemma FaceRoundTrip(n: int, maxH: int, x: int, y: int)
    requires n > 0 && maxH > 0 && 0 <= x < maxH * n && y >= 0
    ensures var local := LocalOf(n, x, y); GlobalPosition(n, maxH, FaceOf(n, maxH, x, y), local.x, local.y) == Position(x, y)
  {
    var h := x / n;
    var v := y / n;
    QuotientBound(x, n, maxH);
    MulMonotone(maxH, v, 0);
    var sf := maxH * v + h;
    assert FaceOf(n, maxH, x, y) == sf;
    DivModUnique(sf, maxH, v, h);
    assert Rem(sf, maxH) == h && Div(sf, maxH) == v;
  }

  /** A local cell of a face, mapped to the map and split again, gives the same face and cell. */
  lemma GlobalRoundTrip(n: int, maxH: int, sf: int, x: int, y: int)
    requires n > 0 && maxH > 0 && sf >= 0 && 0 <= x < n && 0 <= y < n
    ensures var p := GlobalPosition(n, maxH, sf, x, y);
      p.x >= 0 && p.y >= 0 && FaceOf(n, maxH, p.x, p.y) == sf && LocalOf(n, p.x, p.y) == Position(x, y)
  {
    var h := sf % maxH;
    var v := sf / maxH;
    var p := GlobalPosition(n, maxH, sf, x, y);
    assert p.x == n * h + x && p.y == n * v + y;
    DivModUnique(p.x, n, h, x);
    DivModUnique(p.y, n, v, y);
  }

  // ---------------------------------------------------------------------------
  // The movement string
  // ---------------------------------------------------------------------------

  predicate IsDigit(c: char) {
    '0' <= c <= '9'
  }

  /** The run of digits starting at index `i` (empty at the end of the string). */
  function DigitsAt(s: string, i: nat): string
    decreases |s| - i
  {
    if i >= |s| || !IsDigit(s[i]) then [] else [s[i]] + DigitsAt(s, i + 1)
  }

  /** The decimal value of a run of digits. */
  function DecimalValue(ds: string): int {
    if ds == [] then 0 else DecimalValue(ds[..|ds| - 1]) * 10 + (ds[|ds| - 1] as int - '0' as int)
  }

  /** The decimal digits of a number, without leading zeros. */
  function ToDecimal(n: nat): (r: string)
    ensures |r| >= 1 && forall k :: 0 <= k < |r| ==> IsDigit(r[k])
  {
    var digit := ['0' + (n % 10) as char];
    if n < 10 then digit else ToDecimal(n / 10) + digit
  }

  /** Reading back the decimal digits of a number gives the number. */
  lemma {:induction false} DecimalRoundTrip(n: nat)
    ensures DecimalValue(ToDecimal(n)) == n
  {
    if n >= 10 {
      DecimalRoundTrip(n / 10);
      assert ToDecimal(n)[..|ToDecimal(n)| - 1] == ToDecimal(n / 10);
    }
  }

  /** The digit run at the start of digits followed by a non-digit is exactly those digits. */
  lemma {:induction false} DigitsAtPrefix(ds: string, rest: string, i: nat)
    requires forall k :: 0 <= k < |ds| ==> IsDigit(ds[k])
    requires rest == [] || !IsDigit(rest[0])
    requires i <= |ds|
    ensures DigitsAt(ds + rest, i) == ds[i..]
    decreases |ds| - i
  {
    var s := ds + rest;
    if i < |ds| {
      assert s[i] == ds[i];
      DigitsAtPrefix(ds, rest, i + 1);
      assert ds[i..] == [ds[i]] + ds[i + 1..];
    } else {
      assert i < |s| ==> s[i] == rest[0];
    }
  }

  /**
   * A move written as the decimal digits of `steps` followed by a turn
   * letter is read back as `steps`.
   */
  lemma ParsesMove(steps: nat, turn: char, rest: string)
    requires !IsDigit(turn)
    ensures DigitsAt(ToDecimal(steps) + [turn] + rest, 0) == ToDecimal(steps)
    ensures DecimalValue(DigitsAt(ToDecimal(steps) + [turn] + rest, 0)) == steps
  {
    assert ToDecimal(steps) + [turn] + rest == ToDecimal(steps) + ([turn] + rest);
    DigitsAtPrefix(ToDecimal(steps), [turn] + rest, 0);
    DecimalRoundTrip(steps);
  }

  /** `peekMovementChar`: the character at the position, '\0' at the end. */
  function CharAt(s: string, i: nat): char {
    if i >= |s| then '\0' else s[i]
  }

  /** An orientation entry packs face and quarter-turns as `10 * to + rot`; it unpacks again. */
  lemma OrientationDecodes(to: int, rot: int)
    requires to >= 0 && 0 <= rot < 10
    ensures Div(10 * to + rot, 10) == to && Rem(10 * to + rot, 10) == rot
  {
    DivModUnique(10 * to + rot, 10, to, rot);
  }

  /** Distinct (face, direction) pairs have distinct orientation keys `10 * from + dir`. */
  lemma OrientationKeyInjective(from1: int, dir1: int, from2: int, dir2: int)
    requires 0 <= dir1 < 4 && 0 <= dir2 < 4
    requires 10 * from1 + dir1 == 10 * from2 + dir2
    ensures from1 == from2 && dir1 == dir2
  {
  }

  /** Adds `k` steps already taken to the outcome of a walk. */
  function Shift(r: Result<(SurfacePosition, nat), string>, k: nat): Result<(SurfacePosition, nat), string> {
    match r
    case Failure(e) => Failure(e)
    case Success((q, taken)) => Success((q, taken + k))
  }

  lemma ShiftShift(r: Result<(SurfacePosition, nat), string>, j: nat, k: nat)
    ensures Shift(Shift(r, j), k) == Shift(r, j + k)
  {
  }

  lemma ShiftZero(r: Result<(SurfacePosition, nat), string>)
    ensures Shift(r, 0) == r
  {
  }

  lemma DigitsAtUnfold(s: string, i: nat)
    requires i < |s| && IsDigit(s[i])
    ensures DigitsAt(s, i) == [s[i]] + DigitsAt(s, i + 1)
  {
  }

  /**
   * The loop of `nextMovementInt`: reads the digits from `start` on and
   * returns their decimal value and the index of the first non-digit.
   */
  method ReadNumber(s: string, start: nat) returns (value: int, end: nat)
    ensures var ds := DigitsAt(s, start); value == DecimalValue(ds) && end == start + |ds|
    ensures !IsDigit(CharAt(s, end))
  {
    ghost var ds := DigitsAt(s, start);
    var i := start;
    value := 0;
    var c := CharAt(s, i);
    while '0' <= c <= '9'
      invariant start <= i <= start + |ds|
      invariant DigitsAt(s, i) == ds[i - start..]
      invariant value == DecimalValue(ds[..i - start])
      invariant c == CharAt(s, i)
      decreases start + |ds| - i
    {
      DigitsAtUnfold(s, i);
      ghost var k := i - start;
      assert ds[k..] == [c] + DigitsAt(s, i + 1);
      assert ds[k] == c && ds[k + 1..] == ds[k..][1..];
      assert ds[..k + 1][..k] == ds[..k];
      value := value * 10 + (c as int - '0' as int);
      i := i + 1;
      c := CharAt(s, i);
    }
    assert ds[..|ds|] == ds;
    end := i;
  }

  predicate IsTurn(c: char) {
    c == 'L' || c == 'R' || c == '\0'
  }

  // ---------------------------------------------------------------------------
  // The map and the orientation table
  // ---------------------------------------------------------------------------

  /**
   * The part of the world a walk reads and never changes: the map, its
   * size, the face size, the faces per face row and the orientation table.
   */
  datatype Cube = Cube(field: seq<seq<char>>, rows: int, cols: int, cubeSize: int, maxHSurface: int,
                       orientationDefs: map<int, int>)
  {
    predicate Wellformed() {
      rows == |field| && cubeSize > 0 && maxHSurface != 0
    }

    /** `get(x, y)`: the map character, ' ' outside the map or beyond the end of a short row. */
    function Get(x: int, y: int): (r: char)
      requires rows == |field|
      ensures (x < 0 || x >= cols || y < 0 || y >= rows || x >= |field[y]|) ==> r == ' '
      ensures 0 <= x < cols && 0 <= y < rows && x < |field[y]| ==> r == field[y][x]
    {
      if x < 0 || x >= cols || y < 0 || y >= rows || x >= |field[y]| then ' ' else field[y][x]
    }

    /** `get(sf, x, y)`: the character of a local cell of a face. */
    function GetOnFace(sf: int, x: int, y: int): char
      requires rows == |field| && maxHSurface != 0
    {
      var p := GlobalPosition(cubeSize, maxHSurface, sf, x, y);
      Get(p.x, p.y)
    }

    /** `getOrientationTo`: the face across the edge, `None` where the table has no entry. */
    function GetOrientationTo(from: int, dir: int): Option<int> {
      var key := from * 10 + dir;
      if key in orientationDefs then Some(Div(orientationDefs[key], 10)) else None
    }

    /** `getOrientationRot`: the quarter-turns across the edge; `None` where the source unboxes `null`. */
    function GetOrientationRot(from: int, dir: int): Option<int> {
      var key := from * 10 + dir;
      if key in orientationDefs then Some(Rem(orientationDefs[key], 10)) else None
    }

    /** `p` is a free cell ('.') and no free cell comes before it, row by row. */
    ghost predicate IsFirstFree(p: Position)
      requires rows == |field|
    {
      0 <= p.y < rows && 0 <= p.x < cols && Get(p.x, p.y) == '.'
      && forall y, x :: 0 <= y < rows && 0 <= x < cols && (y < p.y || (y == p.y && x < p.x)) ==> Get(x, y) != '.'
    }

    ghost predicate NoFree()
      requires rows == |field|
    {
      forall y, x :: 0 <= y < rows && 0 <= x < cols ==> Get(x, y) != '.'
    }

    /**
     * `singleStep`: one step forward. On the face it moves by the direction's
     * step vector; across an edge it continues on the face the table names,
     * with the cell and the direction turned by the table's quarter-turns.
     * A wall in the target cell gives `None` (`null` in the source). A
     * missing table entry or a rotation outside 0..3 is a failure.
     */
    function SingleStep(sp: SurfacePosition): (r: Result<Option<SurfacePosition>, string>)
      requires Wellformed() && OnFace(cubeSize, sp)
      ensures r.Success? && r.value.Some? ==> OnFace(cubeSize, r.value.value)
    {
      var nextX := sp.x + DIR_MOVEX[sp.dir];
      var nextY := sp.y + DIR_MOVEY[sp.dir];
      if 0 <= nextX < cubeSize && 0 <= nextY < cubeSize then
        if GetOnFace(sp.surface, nextX, nextY) == '#' then Success(None)
        else Success(Some(SurfacePosition(sp.surface, nextX, nextY, sp.dir)))
      else
        var to := GetOrientationTo(sp.surface, sp.dir);
        var rot := GetOrientationRot(sp.surface, sp.dir);
        if to.None? || rot.None? then Failure("no orientation")
        else if !(0 <= rot.value < 4) then Failure("rotation out of range")
        else
          var nextDir := (sp.dir + rot.value) % 4;
          var p := Rotate(rot.value, cubeSize, (nextX + cubeSize) % cubeSize, (nextY + cubeSize) % cubeSize);
          if GetOnFace(to.value, p.x, p.y) == '#' then Success(None)
          else Success(Some(SurfacePosition(to.value, p.x, p.y, nextDir)))
    }

    /**
     * A step never ends on a wall; a step that stays on the face moves by the
     * direction's step vector; a step fails only where the edge it crosses
     * has no table entry or its rotation is outside 0..3.
     */
    lemma SingleStepMoves(sp: SurfacePosition)
      requires Wellformed() && OnFace(cubeSize, sp)
      ensures var r := SingleStep(sp);
        r.Success? && r.value.Some? ==> GetOnFace(r.value.value.surface, r.value.value.x, r.value.value.y) != '#'
      ensures var next := SurfacePosition(sp.surface, sp.x + DIR_MOVEX[sp.dir], sp.y + DIR_MOVEY[sp.dir], sp.dir);
        0 <= next.x < cubeSize && 0 <= next.y < cubeSize ==>
          SingleStep(sp) == if GetOnFace(sp.surface, next.x, next.y) == '#' then Success(None) else Success(Some(next))
      ensures SingleStep(sp).Failure? ==>
        GetOrientationTo(sp.surface, sp.dir).None? || !(0 <= GetOrientationRot(sp.surface, sp.dir).value < 4)
    {
    }

    /**
     * Where `walk(steps)` leaves a walker that starts at `sp`, and how many
     * steps it takes; it stops early in front of a wall and fails where a
     * step fails.
     */
    function WalkFrom(sp: SurfacePosition, steps: int): (r: Result<(SurfacePosition, nat), string>)
      requires Wellformed() && OnFace(cubeSize, sp)
      ensures r.Success? ==> OnFace(cubeSize, r.value.0)
      decreases steps
    {
      if steps <= 0 then Success((sp, 0))
      else
        match SingleStep(sp)
        case Failure(e) => Failure(e)
        case Success(None) => Success((sp, 0))
        case Success(Some(next)) => Shift(WalkFrom(next, steps - 1), 1)
    }

    /** A walk takes at most `steps` steps, and one that takes fewer ends in front of a wall. */
    lemma {:induction false} WalkStopsAtWall(sp: SurfacePosition, steps: int)
      requires Wellformed() && OnFace(cubeSize, sp)
      ensures var r := WalkFrom(sp, steps);
        r.Success? ==> r.value.1 <= (if steps < 0 then 0 else steps) && (r.value.1 < steps ==> SingleStep(r.value.0) == Success(None))
      decreases steps
    {
      if steps > 0 {
        match SingleStep(sp)
        case Failure(_) =>
        case Success(None) =>
        case Success(Some(next)) =>
          WalkStopsAtWall(next, steps - 1);
      }
    }

    /**
     * Walking `a + b` steps is walking `a` steps and then, unless a wall
     * stopped the walker early, `b` more.
     */
    lemma {:induction false} WalkConcatenates(sp: SurfacePosition, a: nat, b: nat)
      requires Wellformed() && OnFace(cubeSize, sp)
      ensures var first := WalkFrom(sp, a);
        WalkFrom(sp, a + b) ==
          match first
          case Failure(e) => Failure(e)
          case Success((q, k)) => if k < a then first else Shift(WalkFrom(q, b), k)
      decreases a
    {
      if a == 0 {
        ShiftZero(WalkFrom(sp, b));
      } else {
        match SingleStep(sp)
        case Failure(_) =>
        case Success(None) =>
        case Success(Some(next)) =>
          WalkConcatenates(next, a - 1, b);
          assert WalkFrom(sp, a + b) == Shift(WalkFrom(next, (a - 1) + b), 1);
          var rest := WalkFrom(next, a - 1);
          if rest.Success? {
            ShiftShift(WalkFrom(rest.value.0, b), rest.value.1, 1);
          }
      }
    }
  }

  /** `rememberPosition`: the path with the walker's map cell marked by its direction character. */
  function Mark(path: map<Position, char>, cube: Cube, sp: SurfacePosition): (r: map<Position, char>)
    requires cube.maxHSurface != 0 && 0 <= sp.dir < 4
    ensures r.Keys == path.Keys + {GlobalPosition(cube.cubeSize, cube.maxHSurface, sp.surface, sp.x, sp.y)}
  {
    path[GlobalPosition(cube.cubeSize, cube.maxHSurface, sp.surface, sp.x, sp.y) := DIR_CHARS[sp.dir]]
  }

  /** The walker's map cell carries its direction character. */
  predicate Marked(path: map<Position, char>, cube: Cube, sp: SurfacePosition)
    requires cube.maxHSurface != 0
  {
    var cell := GlobalPosition(cube.cubeSize, cube.maxHSurface, sp.surface, sp.x, sp.y);
    cell in path && 0 <= sp.dir < 4 && path[cell] == DIR_CHARS[sp.dir]
  }

  /**
   * The loop of `walk`: marks the start cell, then takes up to `steps`
   * single steps, marking each cell reached, and stops in front of a wall.
   * False where a step fails; `sp` is then the last cell reached.
   */
  method WalkSteps(cube: Cube, start: SurfacePosition, steps: int, path0: map<Position, char>)
    returns (ok: bool, sp: SurfacePosition, path: map<Position, char>)
    requires cube.Wellformed() && OnFace(cube.cubeSize, start)
    ensures OnFace(cube.cubeSize, sp)
    ensures ok <==> cube.WalkFrom(start, steps).Success?
    ensures ok ==> sp == cube.WalkFrom(start, steps).value.0
    ensures Marked(path, cube, sp) && path0.Keys <= path.Keys
  {
    path := Mark(path0, cube, start);
    sp := start;
    ghost var total := cube.WalkFrom(start, steps);
    var i := 0;
    while i < steps
      invariant 0 <= i && (steps >= 0 ==> i <= steps)
      invariant OnFace(cube.cubeSize, sp)
      invariant Shift(cube.WalkFrom(sp, steps - i), i) == total
      invariant Marked(path, cube, sp) && path0.Keys <= path.Keys
    {
      var next := cube.SingleStep(sp);
      if next.Failure? {
        return false, sp, path;
      }
      if next.value.None? {
        break;
      }
      ghost var rest := cube.WalkFrom(next.value.value, steps - i - 1);
      assert cube.WalkFrom(sp, steps - i) == Shift(rest, 1);
      ShiftShift(rest, 1, i);
      sp := next.value.value;
      path := Mark(path, cube, sp);
      i := i + 1;
    }
    return true, sp, path;
  }

  /** `findStartPos`: the first free cell row by row; `None` (`null`) where there is none. */
  method FindStartPos(cube: Cube) returns (r: Option<Position>)
    requires cube.rows == |cube.field|
    ensures r.Some? ==> cube.IsFirstFree(r.value)
    ensures r.None? <==> cube.NoFree()
  {
    var y := 0;
    while y < cube.rows
      invariant 0 <= y <= cube.rows || (cube.rows < 0 && y == 0)
      invariant forall y', x :: 0 <= y' < y && 0 <= x < cube.cols ==> cube.Get(x, y') != '.'
    {
      var x := 0;
      while x < cube.cols
        invariant 0 <= x <= cube.cols || (cube.cols < 0 && x == 0)
        invariant forall x' :: 0 <= x' < x ==> cube.Get(x', y) != '.'
      {
        if cube.Get(x, y) == '.' {
          return Some(Position(x, y));
        }
        x := x + 1;
      }
      y := y + 1;
    }
    return None;
  }

  // ---------------------------------------------------------------------------
  // The world
  // ---------------------------------------------------------------------------

  class World {
    var cubeSize: int
    var maxHSurface: int
    var rowList: seq<seq<char>>
    var field: seq<seq<char>>
    var rows: int
    var cols: int
    var movements: string
    var movementsPosition: int
    var lastSteps: int
    var lastTurn: char
    var surface: int
    var pos: Position
    var dir: int
    var orientationDefs: map<int, int>
    var path: map<Position, char>

    /** Shape facts that hold from construction on. */
    ghost predicate Valid()
      reads this
    {
      cubeSize > 0 && rows == |field| && movementsPosition >= 0 && 0 <= dir < 4
    }

    /** After `init`: faces are numbered and the walker stands on a face cell. */
    ghost predicate Ready()
      reads this
    {
      Valid() && maxHSurface > 0 && 0 <= pos.x < cubeSize && 0 <= pos.y < cubeSize
    }

    /** The fields a walk reads and never changes. */
    function CubeView(): Cube
      reads this`field, this`rows, this`cols, this`cubeSize, this`maxHSurface, this`orientationDefs
    {
      Cube(field, rows, cols, cubeSize, maxHSurface, orientationDefs)
    }

    /** The walker's face, cell and direction. */
    function Walker(): SurfacePosition
      reads this
    {
      SurfacePosition(surface, pos.x, pos.y, dir)
    }

    /** A world without rows; the movement string, `null` in the source, is empty. */
    constructor (cubeSize: int)
      requires cubeSize > 0
      ensures Valid()
      ensures this.cubeSize == cubeSize && rowList == [] && field == [] && path == map[]
      ensures movements == "" && movementsPosition == 0 && orientationDefs == map[]
    {
      this.cubeSize := cubeSize;
      rowList := [];
      path := map[];
      field := [];
      rows := 0;
      cols := 0;
      movements := "";
      movementsPosition := 0;
      orientationDefs := map[];
      dir := 0;
      maxHSurface := 0;
      surface := 0;
      pos := Position(0, 0);
      lastSteps := 0;
      lastTurn := '\0';
    }

    method AddRow(row: string)
      modifies this`rowList
      ensures rowList == old(rowList) + [row]
    {
      rowList := rowList + [row];
    }

    method SetMovements(movements: string)
      requires Valid()
      modifies this`movements, this`movementsPosition
      ensures Valid() && this.movements == movements && movementsPosition == 0
    {
      this.movements := movements;
      movementsPosition := 0;
    }

    /**
     * `orientation(from, dir, to, rot)`: records that leaving face `from` in
     * direction `dir` enters face `to` turned by `rot`. True for a new entry,
     * false for the same entry again; a different entry is a failure, after
     * the new value has already replaced the old one. A direction outside
     * 0..3 fails before anything changes.
     */
    method Orientation(from: int, dir: int, to: int, rot: int) returns (r: Result<bool, string>)
      modifies this`orientationDefs
      ensures !(0 <= dir < 4) ==> r.Failure? && orientationDefs == old(orientationDefs)
      ensures 0 <= dir < 4 ==> orientationDefs == old(orientationDefs)[10 * from + dir := 10 * to + rot]
      ensures 0 <= dir < 4 ==>
        r == if 10 * from + dir !in old(orientationDefs) then Success(true)
             else if old(orientationDefs)[10 * from + dir] == 10 * to + rot then Success(false)
             else Failure("mismatch")
      ensures 0 <= dir < 4 && to >= 0 && 0 <= rot < 10 ==>
        CubeView().GetOrientationTo(from, dir) == Some(to) && CubeView().GetOrientationRot(from, dir) == Some(rot)
    {
      if !(0 <= dir < 4) {
        return Failure("direction out of range");
      }
      var fromdir := 10 * from + dir;
      var torot := 10 * to + rot;
      var oldValue := if fromdir in orientationDefs then Some(orientationDefs[fromdir]) else None;
      orientationDefs := orientationDefs[fromdir := torot];
      if to >= 0 && 0 <= rot < 10 {
        OrientationDecodes(to, rot);
      }
      if oldValue.None? {
        return Success(true);
      }
      if oldValue.value != torot {
        return Failure("mismatch");
      }
      return Success(false);
    }

    /** `peekMovementChar`. */
    function PeekMovementChar(): char
      reads this
      requires movementsPosition >= 0
    {
      CharAt(movements, movementsPosition)
    }

    /** `hasMoves`: there is another character to read. */
    function HasMoves(): (r: bool)
      reads this
      requires movementsPosition >= 0
      ensures r ==> movementsPosition < |movements|
    {
      PeekMovementChar() != '\0'
    }

    method NextMovementChar() returns (c: char)
      requires movementsPosition >= 0
      modifies this`movementsPosition
      ensures c == old(PeekMovementChar()) && movementsPosition == old(movementsPosition) + 1
    {
      c := PeekMovementChar();
      movementsPosition := movementsPosition + 1;
    }

    /** Reads one character, which must be 'L', 'R' or the end of the string. */
    method NextMovementTurn() returns (r: Result<char, string>)
      requires movementsPosition >= 0
      modifies this`movementsPosition
      ensures movementsPosition == old(movementsPosition) + 1
      ensures r.Success? <==> IsTurn(old(PeekMovementChar()))
      ensures r.Success? ==> r.value == old(PeekMovementChar())
    {
      var c := NextMovementChar();
      if c != 'L' && c != 'R' && c != '\0' {
        return Failure("invalid turn");
      }
      return Success(c);
    }

    /** Reads the longest run of digits and returns its decimal value (0 for no digits). */
    method NextMovementInt() returns (r: int)
      requires movementsPosition >= 0
      modifies this`movementsPosition
      ensures var ds := DigitsAt(movements, old(movementsPosition));
        r == DecimalValue(ds) && movementsPosition == old(movementsPosition) + |ds|
      ensures !IsDigit(PeekMovementChar())
    {
      var value, next := ReadNumber(movements, movementsPosition);
      movementsPosition := next;
      r := value;
    }

    /** `rememberPosition`: marks the walker's map cell with its direction character. */
    method RememberPosition()
      requires Ready()
      modifies this`path
      ensures path == Mark(old(path), CubeView(), Walker())
    {
      path := Mark(path, CubeView(), Walker());
    }

    /** Turns the walker; '\0' leaves it as it is and marks nothing. */
    method Turn(turnDir: char)
      requires Ready()
      modifies this`dir, this`path
      ensures Ready()
      ensures dir == TurnDir(old(dir), turnDir)
      ensures turnDir == '\0' ==> path == old(path)
      ensures turnDir != '\0' ==> path == Mark(old(path), CubeView(), Walker())
    {
      if turnDir == '\0' {
        return;
      }
      var offs := if turnDir == 'R' then 1 else 3;
      dir := (dir + offs) % 4;
      RememberPosition();
    }

    /**
     * `walk`: marks the start cell, then takes up to `steps` single steps,
     * marking each cell reached, and stops in front of a wall. False where a
     * step fails; the walker then stays on the last cell it reached.
     */
    method Walk(steps: int) returns (ok: bool)
      requires Ready()
      modifies this`pos, this`dir, this`surface, this`path
      ensures Ready()
      ensures CubeView() == old(CubeView())
      ensures ok <==> CubeView().WalkFrom(old(Walker()), steps).Success?
      ensures ok ==> Walker() == CubeView().WalkFrom(old(Walker()), steps).value.0
      ensures Marked(path, CubeView(), Walker()) && old(path).Keys <= path.Keys
    {
      var walked, sp, marked := WalkSteps(CubeView(), Walker(), steps, path);
      pos := Position(sp.x, sp.y);
      dir := sp.dir;
      surface := sp.surface;
      path := marked;
      ok := walked;
    }

    /** The first half of `init`: takes the rows as the map and counts the faces per face row. */
    method LoadField()
      requires Valid()
      modifies this`rows, this`cols, this`field, this`maxHSurface
      ensures Valid()
      ensures field == rowList && rows == |rowList| && cols == MaxLen(rowList) && maxHSurface == cols / cubeSize
      ensures maxHSurface >= 0
    {
      rows := |rowList|;
      var width := MaxRowLength(rowList);
      field := rowList;
      cols := width;
      QuotientNonNegative(width, cubeSize);
      maxHSurface := cols / cubeSize;
    }

    /**
     * The second half of `init`: puts the walker, facing right, on the first
     * free cell. False where there is no free cell or the map is narrower
     * than one face.
     */
    method PlaceWalker() returns (ok: bool, ghost start: Option<Position>)
      requires Valid() && maxHSurface >= 0
      modifies this`dir, this`pos, this`surface, this`path, this`lastSteps, this`lastTurn
      ensures Valid()
      ensures start.Some? ==> CubeView().IsFirstFree(start.value)
      ensures start.None? <==> CubeView().NoFree()
      ensures ok <==> start.Some? && maxHSurface > 0
      ensures ok ==> Ready() && dir == DIR_RIGHT && lastSteps == 0 && lastTurn == '?'
      ensures ok ==> surface == FaceOf(cubeSize, maxHSurface, start.value.x, start.value.y)
      ensures ok ==> pos == LocalOf(cubeSize, start.value.x, start.value.y)
      ensures ok ==> path == Mark(old(path), CubeView(), Walker())
    {
      dir := DIR_RIGHT;
      var cube := CubeView();
      var found := FindStartPos(cube);
      start := found;
      if found.None? || maxHSurface == 0 {
        return false, start;
      }
      var p := found.value;
      surface := FaceOf(cubeSize, maxHSurface, p.x, p.y);
      pos := LocalOf(cubeSize, p.x, p.y);
      path := Mark(path, cube, Walker());
      lastSteps := 0;
      lastTurn := '?';
      return true, start;
    }

    /**
     * `init` without the automatic orientation table and the corner
     * bookkeeping: loads the map and places the walker.
     */
    method Init() returns (ok: bool, ghost start: Option<Position>)
      requires Valid()
      modifies this`rows, this`cols, this`field, this`maxHSurface, this`dir, this`pos, this`surface
      modifies this`path, this`lastSteps, this`lastTurn
      ensures Valid()
      ensures field == rowList && rows == |rowList| && cols == MaxLen(rowList) && maxHSurface == cols / cubeSize
      ensures start.Some? ==> CubeView().IsFirstFree(start.value)
      ensures start.None? <==> CubeView().NoFree()
      ensures ok <==> start.Some? && maxHSurface > 0
      ensures ok ==> Ready() && dir == DIR_RIGHT && lastSteps == 0 && lastTurn == '?'
      ensures ok ==> surface == FaceOf(cubeSize, maxHSurface, start.value.x, start.value.y)
      ensures ok ==> pos == LocalOf(cubeSize, start.value.x, start.value.y)
      ensures ok ==> path == Mark(old(path), CubeView(), Walker())
    {
      LoadField();
      ok, start := PlaceWalker();
    }

    /**
     * `nextMove`: reads a number of steps and a turn, walks and turns. False
     * where the turn character is not 'L', 'R' or the end, or the walk fails.
     */
    method NextMove() returns (ok: bool)
      requires Ready()
      modifies this`movementsPosition, this`lastSteps, this`lastTurn, this`pos, this`dir, this`surface, this`path
      ensures Ready()
      ensures var ds := DigitsAt(movements, old(movementsPosition));
        movementsPosition == old(movementsPosition) + |ds| + 1
      ensures var ds := DigitsAt(movements, old(movementsPosition));
        var turn := CharAt(movements, old(movementsPosition) + |ds|);
        var walked := old(CubeView()).WalkFrom(old(Walker()), DecimalValue(ds));
        (ok <==> IsTurn(turn) && walked.Success?)
        && (ok ==> lastSteps == DecimalValue(ds) && lastTurn == turn
                   && Walker() == walked.value.0.(dir := TurnDir(walked.value.0.dir, turn)))
    {
      ghost var cube := CubeView();
      ghost var walker := Walker();
      var steps := NextMovementInt();
      var turnDir := NextMovementTurn();
      if turnDir.Failure? {
        return false;
      }
      assert CubeView() == cube && Walker() == walker;
      lastSteps := steps;
      lastTurn := turnDir.value;
      ok := Walk(steps);
      if !ok {
        return;
      }
      Turn(turnDir.value);
    }
  }
}
