/** World-space arithmetic of the grid: cell counts, the four corners and the cell centres. */
module Geometry {
  import opened Rounding

  /** `Vector2`, with exact reals for the engine's floats. */
  datatype Vec2 = Vec2(x: real, y: real)

  /** `Vector3`, with exact reals for the engine's floats. */
  datatype Vec3 = Vec3(x: real, y: real, z: real) {
    function Plus(o: Vec3): Vec3 {
      Vec3(x + o.x, y + o.y, z + o.z)
    }
    function Minus(o: Vec3): Vec3 {
      Vec3(x - o.x, y - o.y, z - o.z)
    }
    function Times(k: real): Vec3 {
      Vec3(x * k, y * k, z * k)
    }
    function Over(k: real): Vec3
      requires k != 0.0
    {
      Vec3(x / k, y / k, z / k)
    }
  }

  const Right := Vec3(1.0, 0.0, 0.0)
  const Left := Vec3(-1.0, 0.0, 0.0)
  const Forward := Vec3(0.0, 0.0, 1.0)

  /** The clamp on both the cell counts and the extent of the grid. */
  const MaxGridSize: int := 999

  datatype GridCellStart = WorldBottomLeft | WorldBottomRight | WorldTopLeft | WorldTopRight

  datatype Bounds = Bounds(bottomLeft: Vec3, bottomRight: Vec3, topLeft: Vec3, topRight: Vec3)

  function Min(a: real, b: real): real {
    if a <= b then a else b
  }

  /** Number of cells along an axis of extent `size`: the rounded ratio, clamped at the maximum. */
  function CellCount(size: real, cellSize: real): (n: int)
    requires cellSize > 0.0
    ensures n <= MaxGridSize
    ensures n as real <= size / cellSize + 0.5
    ensures n < MaxGridSize ==> size / cellSize - 0.5 <= n as real
    ensures n < MaxGridSize && (n as real - size / cellSize == 0.5 || size / cellSize - n as real == 0.5) ==> n % 2 == 0
    ensures n == MaxGridSize ==> size / cellSize > MaxGridSize as real - 0.5
  {
    var r := RoundHalfEven(size / cellSize);
    if r <= MaxGridSize then r else MaxGridSize
  }

  /** The clauses above single out the count: a ratio of exactly 998.5 rounds to the even 998. */
  lemma CellCountUnique(size: real, cellSize: real, m: int)
    requires cellSize > 0.0 && m <= MaxGridSize
    requires m as real <= size / cellSize + 0.5
    requires m < MaxGridSize ==> size / cellSize - 0.5 <= m as real
    requires m < MaxGridSize && (m as real - size / cellSize == 0.5 || size / cellSize - m as real == 0.5) ==> m % 2 == 0
    requires m == MaxGridSize ==> size / cellSize > MaxGridSize as real - 0.5
    ensures m == CellCount(size, cellSize)
  {
    if m < MaxGridSize {
      RoundHalfEvenUnique(size / cellSize, m);
    }
  }

  /** When the cell size tiles the extent exactly, the count is the number of tiles. */
  lemma CellCountExact(size: real, cellSize: real, k: int)
    requires cellSize > 0.0 && k <= MaxGridSize
    requires size == k as real * cellSize
    ensures CellCount(size, cellSize) == k
  {
    assert size / cellSize == k as real;
    RoundOfInteger(k);
  }

  /** The extents actually used for the corners. */
  function Width(gridSize: Vec2): (w: real)
    ensures w <= MaxGridSize as real && w <= gridSize.x
    ensures w == gridSize.x || w == MaxGridSize as real
  {
    Min(gridSize.x, MaxGridSize as real)
  }
  function Depth(gridSize: Vec2): (d: real)
    ensures d <= MaxGridSize as real && d <= gridSize.y
    ensures d == gridSize.y || d == MaxGridSize as real
  {
    Min(gridSize.y, MaxGridSize as real)
  }

  /** The four corners around `anchor`; `- Left` is `+ Right`, so the Right corners lie at `+w/2`. */
  function ComputeBounds(anchor: Vec3, gridSize: Vec2): (b: Bounds)
    ensures var w, d := Width(gridSize), Depth(gridSize);
      b.bottomLeft == Vec3(anchor.x - w / 2.0, anchor.y, anchor.z - d / 2.0) &&
      b.bottomRight == Vec3(anchor.x + w / 2.0, anchor.y, anchor.z - d / 2.0) &&
      b.topLeft == Vec3(anchor.x - w / 2.0, anchor.y, anchor.z + d / 2.0) &&
      b.topRight == Vec3(anchor.x + w / 2.0, anchor.y, anchor.z + d / 2.0)
  {
    var w, d := Width(gridSize), Depth(gridSize);
    Bounds(
      anchor.Minus(Right.Times(w).Over(2.0)).Minus(Forward.Times(d).Over(2.0)),
      anchor.Minus(Left.Times(w).Over(2.0)).Minus(Forward.Times(d).Over(2.0)),
      anchor.Minus(Right.Times(w).Over(2.0)).Plus(Forward.Times(d).Over(2.0)),
      anchor.Minus(Left.Times(w).Over(2.0)).Plus(Forward.Times(d).Over(2.0)))
  }

  /** The corners span an axis-aligned `w` by `d` rectangle centred on the anchor. */
  lemma BoundsRectangle(anchor: Vec3, gridSize: Vec2)
    ensures var b, w, d := ComputeBounds(anchor, gridSize), Width(gridSize), Depth(gridSize);
      b.bottomRight.x - b.bottomLeft.x == w && b.topRight.x - b.topLeft.x == w &&
      b.topLeft.z - b.bottomLeft.z == d && b.topRight.z - b.bottomRight.z == d &&
      b.bottomLeft.Plus(b.topRight).Over(2.0) == anchor &&
      b.bottomRight.Plus(b.topLeft).Over(2.0) == anchor
    ensures var b := ComputeBounds(anchor, gridSize);
      gridSize.x > 0.0 && gridSize.y > 0.0 ==>
        b.bottomLeft != b.bottomRight && b.bottomLeft != b.topLeft && b.bottomLeft != b.topRight &&
        b.bottomRight != b.topLeft && b.bottomRight != b.topRight && b.topLeft != b.topRight
  {
    var b, w, d := ComputeBounds(anchor, gridSize), Width(gridSize), Depth(gridSize);
    assert b.bottomLeft == Vec3(anchor.x - w / 2.0, anchor.y, anchor.z - d / 2.0);
    assert b.topRight == Vec3(anchor.x + w / 2.0, anchor.y, anchor.z + d / 2.0);
    assert b.bottomLeft.Plus(b.topRight) == Vec3(2.0 * anchor.x, 2.0 * anchor.y, 2.0 * anchor.z);
    assert b.bottomRight.Plus(b.topLeft) == Vec3(2.0 * anchor.x, 2.0 * anchor.y, 2.0 * anchor.z);
    if gridSize.x > 0.0 && gridSize.y > 0.0 {
      assert w > 0.0 && d > 0.0;
    }
  }

  /** The position of cell (x, z) for a given origin corner: its centre, counted inwards from that corner. */
  function CellCenter(start: GridCellStart, b: Bounds, cellSize: real, x: int, z: int): Vec3 {
    var offX := x as real * cellSize + cellSize / 2.0;
    var offZ := z as real * cellSize + cellSize / 2.0;
    match start
    case WorldBottomLeft => b.bottomLeft.Plus(Right.Times(offX)).Plus(Forward.Times(offZ))
    case WorldBottomRight => b.bottomRight.Minus(Right.Times(offX)).Plus(Forward.Times(offZ))
    case WorldTopLeft => b.topLeft.Plus(Right.Times(offX)).Minus(Forward.Times(offZ))
    case WorldTopRight => b.topRight.Minus(Right.Times(offX)).Minus(Forward.Times(offZ))
  }

  /** +1 when cells are counted towards +X (or +Z) from the origin corner, -1 otherwise. */
  function XSign(start: GridCellStart): real {
    if start.WorldBottomLeft? || start.WorldTopLeft? then 1.0 else -1.0
  }
  function ZSign(start: GridCellStart): real {
    if start.WorldBottomLeft? || start.WorldBottomRight? then 1.0 else -1.0
  }

  /** The origin corner of each numbering. */
  function Origin(start: GridCellStart, b: Bounds): Vec3 {
    match start
    case WorldBottomLeft => b.bottomLeft
    case WorldBottomRight => b.bottomRight
    case WorldTopLeft => b.topLeft
    case WorldTopRight => b.topRight
  }

  /** Cell (x, z) sits at its origin corner, moved inwards by (x + 1/2) cells along X and (z + 1/2) along Z. */
  lemma CellCenterOffsets(start: GridCellStart, b: Bounds, c: real, x: int, z: int)
    ensures var p, o := CellCenter(start, b, c, x, z), Origin(start, b);
      p.y == o.y &&
      p.x == (if XSign(start) > 0.0 then o.x + (x as real + 0.5) * c else o.x - (x as real + 0.5) * c) &&
      p.z == (if ZSign(start) > 0.0 then o.z + (z as real + 0.5) * c else o.z - (z as real + 0.5) * c)
  {
    var offX := x as real * c + c / 2.0;
    var offZ := z as real * c + c / 2.0;
    assert offX == (x as real + 0.5) * c;
    assert offZ == (z as real + 0.5) * c;
    assert Right.Times(offX) == Vec3(offX, 0.0, 0.0);
    assert Forward.Times(offZ) == Vec3(0.0, 0.0, offZ);
  }

  /**
   * `p` is the centre of cell (x, z) for the corners the grid computes: (x + 1/2) cells in from the
   * origin corner's side along X, (z + 1/2) cells in along Z, at the anchor's height.
   */
  predicate CentredAt(p: Vec3, anchor: Vec3, gridSize: Vec2, start: GridCellStart, c: real, x: int, z: int) {
    var w, d := Width(gridSize), Depth(gridSize);
    var offX, offZ := (x as real + 0.5) * c, (z as real + 0.5) * c;
    && p.x == (if XSign(start) > 0.0 then anchor.x - w / 2.0 + offX else anchor.x + w / 2.0 - offX)
    && p.y == anchor.y
    && p.z == (if ZSign(start) > 0.0 then anchor.z - d / 2.0 + offZ else anchor.z + d / 2.0 - offZ)
  }

  /** The cell centres in world coordinates, for the corners the grid actually computes. */
  lemma GridCellCentre(anchor: Vec3, gridSize: Vec2, start: GridCellStart, c: real, x: int, z: int)
    ensures CentredAt(CellCenter(start, ComputeBounds(anchor, gridSize), c, x, z), anchor, gridSize, start, c, x, z)
  {
    CellCenterOffsets(start, ComputeBounds(anchor, gridSize), c, x, z);
  }

  lemma NextMultiple(i: int, c: real)
    ensures (i + 1) as real * c == i as real * c + c
  {
  }

  /** Neighbouring columns are exactly one cell size apart, inward along X, and level with each other. */
  lemma CellCenterStepX(start: GridCellStart, b: Bounds, c: real, x: int, z: int)
    ensures var p, q := CellCenter(start, b, c, x, z), CellCenter(start, b, c, x + 1, z);
      q.x == (if XSign(start) > 0.0 then p.x + c else p.x - c) && q.y == p.y && q.z == p.z
  {
    NextMultiple(x, c);
  }

  /** Neighbouring rows are exactly one cell size apart, inward along Z, and level with each other. */
  lemma CellCenterStepZ(start: GridCellStart, b: Bounds, c: real, x: int, z: int)
    ensures var p, q := CellCenter(start, b, c, x, z), CellCenter(start, b, c, x, z + 1);
      q.z == (if ZSign(start) > 0.0 then p.z + c else p.z - c) && q.y == p.y && q.x == p.x
  {
    NextMultiple(z, c);
  }

  predicate InRect(p: Vec3, b: Bounds) {
    b.bottomLeft.x <= p.x <= b.bottomRight.x && b.bottomLeft.z <= p.z <= b.topLeft.z
  }

  predicate StrictlyInRect(p: Vec3, b: Bounds) {
    b.bottomLeft.x < p.x < b.bottomRight.x && b.bottomLeft.z < p.z < b.topLeft.z
  }

  lemma MulStrict(a: real, a': real, c: real)
    requires a < a' && c > 0.0
    ensures a * c < a' * c
  {
    assert a' * c - a * c == (a' - a) * c;
  }

  /** A positive multiple `t` of the cell size, at most `size / c` cells, fits within `size`. */
  lemma ScaledWithin(size: real, c: real, t: real)
    requires c > 0.0 && 0.0 < t <= size / c
    ensures 0.0 < t * c <= size
  {
    if t < size / c {
      MulStrict(t, size / c, c);
    }
    assert (size / c) * c == size;
  }

  /** On one axis: the centre offset of every counted cell stays within the extent. */
  lemma OffsetWithin(size: real, c: real, i: int)
    requires c > 0.0
    requires 0 <= i < CellCount(size, c)
    ensures 0.0 < (i as real + 0.5) * c <= size
  {
    assert i as real + 0.5 <= size / c;
    ScaledWithin(size, c, i as real + 0.5);
  }

  /** Of `n` cells of size `c` spanning `size`, every centre offset lies strictly between 0 and `size`. */
  lemma TiledOffset(n: int, c: real, i: int, size: real)
    requires c > 0.0 && 0 <= i < n && n as real * c == size
    ensures 0.0 < (i as real + 0.5) * c < size
  {
    MulStrict(i as real + 0.5, n as real, c);
    MulStrict(0.0, i as real + 0.5, c);
  }

  /** On one axis of extent `size` centred on `a`: a point `off` in from either end, `0 < off <= size`, lies between the ends. */
  lemma AxisWithin(a: real, size: real, off: real, forward: bool, p: real)
    requires 0.0 < off <= size
    requires p == (if forward then a - size / 2.0 + off else a + size / 2.0 - off)
    ensures a - size / 2.0 <= p <= a + size / 2.0
    ensures off < size ==> a - size / 2.0 < p < a + size / 2.0
  {
  }

  /** A point centred on a cell whose offsets lie within the extents is within the corner rectangle. */
  lemma CentreInRect(p: Vec3, anchor: Vec3, gridSize: Vec2, start: GridCellStart, c: real, x: int, z: int)
    requires 0.0 <= gridSize.x <= MaxGridSize as real && 0.0 <= gridSize.y <= MaxGridSize as real
    requires 0.0 < (x as real + 0.5) * c <= gridSize.x && 0.0 < (z as real + 0.5) * c <= gridSize.y
    requires CentredAt(p, anchor, gridSize, start, c, x, z)
    ensures InRect(p, ComputeBounds(anchor, gridSize))
    ensures (x as real + 0.5) * c < gridSize.x && (z as real + 0.5) * c < gridSize.y ==>
      StrictlyInRect(p, ComputeBounds(anchor, gridSize))
  {
    var w, d := Width(gridSize), Depth(gridSize);
    var offX, offZ := (x as real + 0.5) * c, (z as real + 0.5) * c;
    assert w == gridSize.x && d == gridSize.y;
    assert p.x == (if XSign(start) > 0.0 then anchor.x - w / 2.0 + offX else anchor.x + w / 2.0 - offX);
    assert p.z == (if ZSign(start) > 0.0 then anchor.z - d / 2.0 + offZ else anchor.z + d / 2.0 - offZ);
    AxisWithin(anchor.x, w, offX, XSign(start) > 0.0, p.x);
    AxisWithin(anchor.z, d, offZ, ZSign(start) > 0.0, p.z);
  }

  /** A cell whose centre offsets lie within the extents has its centre within the corner rectangle. */
  lemma CellCenterWithin(anchor: Vec3, gridSize: Vec2, c: real, start: GridCellStart, x: int, z: int)
    requires 0.0 <= gridSize.x <= MaxGridSize as real && 0.0 <= gridSize.y <= MaxGridSize as real
    requires 0.0 < (x as real + 0.5) * c <= gridSize.x && 0.0 < (z as real + 0.5) * c <= gridSize.y
    ensures var b := ComputeBounds(anchor, gridSize); var p := CellCenter(start, b, c, x, z);
      InRect(p, b) && p.y == anchor.y &&
      ((x as real + 0.5) * c < gridSize.x && (z as real + 0.5) * c < gridSize.y ==> StrictlyInRect(p, b))
  {
    var p := CellCenter(start, ComputeBounds(anchor, gridSize), c, x, z);
    GridCellCentre(anchor, gridSize, start, c, x, z);
    CentreInRect(p, anchor, gridSize, start, c, x, z);
  }

  /**
   * While the grid is not clamped, every counted cell centre lies within the corner rectangle,
   * at the anchor's height.
   */
  lemma CellCenterInBounds(anchor: Vec3, gridSize: Vec2, c: real, start: GridCellStart, x: int, z: int)
    requires c > 0.0
    requires 0.0 <= gridSize.x <= MaxGridSize as real && 0.0 <= gridSize.y <= MaxGridSize as real
    requires 0 <= x < CellCount(gridSize.x, c) && 0 <= z < CellCount(gridSize.y, c)
    ensures var b := ComputeBounds(anchor, gridSize); var p := CellCenter(start, b, c, x, z);
      InRect(p, b) && p.y == anchor.y
  {
    OffsetWithin(gridSize.x, c, x);
    OffsetWithin(gridSize.y, c, z);
    CellCenterWithin(anchor, gridSize, c, start, x, z);
  }

  /**
   * For extents up to 999, when `nx` by `nz` cells tile the extents exactly (with at most 999
   * cells per side these are the grid's counts, by `TilingCounts`), every cell centre lies
   * strictly inside the corner rectangle.
   */
  lemma CellCenterStrictlyInBounds(anchor: Vec3, gridSize: Vec2, c: real, start: GridCellStart,
                                   nx: int, nz: int, x: int, z: int)
    requires c > 0.0
    requires 0.0 <= gridSize.x <= MaxGridSize as real && 0.0 <= gridSize.y <= MaxGridSize as real
    requires nx as real * c == gridSize.x && nz as real * c == gridSize.y
    requires 0 <= x < nx && 0 <= z < nz
    ensures var b := ComputeBounds(anchor, gridSize); StrictlyInRect(CellCenter(start, b, c, x, z), b)
  {
    TiledOffset(nx, c, x, gridSize.x);
    TiledOffset(nz, c, z, gridSize.y);
    CellCenterWithin(anchor, gridSize, c, start, x, z);
  }

  /** On one axis tiled by `n` cells of size `c`: cell `i` counted from the far end is cell `n - 1 - i` from the near end. */
  lemma AxisMirror(a: real, size: real, n: int, c: real, i: int, forward: bool, p: real, q: real)
    requires n as real * c == size
    requires p == (if forward then a - size / 2.0 + (i as real + 0.5) * c else a + size / 2.0 - (i as real + 0.5) * c)
    requires q == a - size / 2.0 + ((if forward then i else n - 1 - i) as real + 0.5) * c
    ensures p == q
  {
    if !forward {
      assert ((n - 1 - i) as real + 0.5) * c == n as real * c - (i as real + 0.5) * c;
    }
  }

  /** Two centres, of the mirrored cell numbers in two numberings, are the same point. */
  lemma CentreMirror(p: Vec3, q: Vec3, anchor: Vec3, gridSize: Vec2, c: real, start: GridCellStart,
                     nx: int, nz: int, x: int, z: int, mx: int, mz: int)
    requires 0.0 <= gridSize.x <= MaxGridSize as real && 0.0 <= gridSize.y <= MaxGridSize as real
    requires nx as real * c == gridSize.x && nz as real * c == gridSize.y
    requires mx == (if XSign(start) > 0.0 then x else nx - 1 - x)
    requires mz == (if ZSign(start) > 0.0 then z else nz - 1 - z)
    requires CentredAt(p, anchor, gridSize, start, c, x, z)
    requires CentredAt(q, anchor, gridSize, WorldBottomLeft, c, mx, mz)
    ensures p == q
  {
    assert Width(gridSize) == gridSize.x && Depth(gridSize) == gridSize.y;
    AxisMirror(anchor.x, gridSize.x, nx, c, x, XSign(start) > 0.0, p.x, q.x);
    AxisMirror(anchor.z, gridSize.y, nz, c, z, ZSign(start) > 0.0, p.z, q.z);
  }

  /**
   * For extents up to 999, when `nx` by `nz` cells tile the extents exactly, the origin corner
   * only renumbers the cells:
   * each corner's numbering is the bottom-left one mirrored along the axes it counts backwards on.
   */
  lemma CellCenterMirror(anchor: Vec3, gridSize: Vec2, c: real, start: GridCellStart, nx: int, nz: int, x: int, z: int)
    requires 0.0 <= gridSize.x <= MaxGridSize as real && 0.0 <= gridSize.y <= MaxGridSize as real
    requires nx as real * c == gridSize.x && nz as real * c == gridSize.y
    ensures var b := ComputeBounds(anchor, gridSize);
      var mx := if XSign(start) > 0.0 then x else nx - 1 - x;
      var mz := if ZSign(start) > 0.0 then z else nz - 1 - z;
      CellCenter(start, b, c, x, z) == CellCenter(WorldBottomLeft, b, c, mx, mz)
  {
    var mx := if XSign(start) > 0.0 then x else nx - 1 - x;
    var mz := if ZSign(start) > 0.0 then z else nz - 1 - z;
    var b := ComputeBounds(anchor, gridSize);
    GridCellCentre(anchor, gridSize, start, c, x, z);
    GridCellCentre(anchor, gridSize, WorldBottomLeft, c, mx, mz);
    CentreMirror(CellCenter(start, b, c, x, z), CellCenter(WorldBottomLeft, b, c, mx, mz),
      anchor, gridSize, c, start, nx, nz, x, z, mx, mz);
  }

  /** With an exact tiling of at most 999 cells per side, the mirror's cell numbers are the grid's own counts. */
  lemma TilingCounts(gridSize: Vec2, c: real, nx: int, nz: int)
    requires c > 0.0 && nx <= MaxGridSize && nz <= MaxGridSize
    requires nx as real * c == gridSize.x && nz as real * c == gridSize.y
    ensures CellCount(gridSize.x, c) == nx && CellCount(gridSize.y, c) == nz
  {
    CellCountExact(gridSize.x, c, nx);
    CellCountExact(gridSize.y, c, nz);
  }

  /**
   * The count clamp is in cells and the extent clamp in world units, so past 999 units the cells
   * can run beyond the corners, whenever count * cell size exceeds 999: a 1500-wide grid of 2-unit
   * cells gets 750 columns but corners only 999 apart.
   */
  lemma ClampedCellsOutsideBounds()
    ensures var gs := Vec2(1500.0, 10.0); var b := ComputeBounds(Vec3(0.0, 0.0, 0.0), gs);
      CellCount(gs.x, 2.0) == 750 && CellCount(gs.y, 2.0) == 5 &&
      !InRect(CellCenter(WorldBottomLeft, b, 2.0, 749, 0), b)
  {
    CellCountExact(1500.0, 2.0, 750);
    CellCountExact(10.0, 2.0, 5);
  }
}
